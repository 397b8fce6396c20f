/** The 32-bit string hash inside `GetUID`: the polynomial hash with base 31
    over the UTF-16 code units of a string, kept as a signed 32-bit integer
    after every step. */
module Uid {

  /** A UTF-16 code unit, as `charCodeAt` returns it. */
  newtype CodeUnit = x: int | 0 <= x < 0x1_0000

  const Modulus: int := 0x1_0000_0000

  /** JavaScript's ToInt32 (what `x | 0` computes for an integral `x`): the
      value in [-2^31, 2^31) congruent to `x` modulo 2^32. */
  function ToInt32(x: int): (r: int)
    ensures -0x8000_0000 <= r < 0x8000_0000
    ensures x - r == Modulus * Wraps(x)
  {
    x - Modulus * Wraps(x)
  }

  /** How many times 2^32 ToInt32 takes away from `x`. */
  function Wraps(x: int): int
  {
    (x + 0x8000_0000) / Modulus
  }

  /** The unbounded polynomial hash: `s[0]*31^(n-1) + ... + s[n-1]`. */
  function Polynomial(s: seq<CodeUnit>): int
  {
    if |s| == 0 then 0 else Polynomial(s[..|s| - 1]) * 31 + s[|s| - 1] as int
  }

  /** Two integers that differ by a multiple of 2^32 have the same ToInt32. */
  lemma Int32Congruent(x: int, y: int, k: int)
    requires x - y == Modulus * k
    ensures ToInt32(x) == ToInt32(y)
  {
    var d := ToInt32(x) - ToInt32(y);
    assert d == Modulus * (k - Wraps(x) + Wraps(y));
  }

  /** One step of the loop, `((h << 5) - h) + c` followed by `| 0`, on an
      accumulator that is the ToInt32 of `b`, gives the ToInt32 of
      `b * 31 + c`. */
  lemma StepAgrees(h: int, b: int, c: int)
    requires h == ToInt32(b)
    ensures ToInt32(ToInt32(h * 32) - h + c) == ToInt32(b * 31 + c)
  {
    var s := ToInt32(h * 32);
    assert b - h == Modulus * Wraps(b);
    assert h * 32 - s == Modulus * Wraps(h * 32);
    assert (s - h + c) - (b * 31 + c) == Modulus * (-Wraps(h * 32) - 31 * Wraps(b));
    Int32Congruent(s - h + c, b * 31 + c, -Wraps(h * 32) - 31 * Wraps(b));
  }

  /** The `hash` helper of `GetUID`: 0 for the empty string, otherwise the
      loop over the code units, which yields the 32-bit signed reduction of
      the polynomial hash. */
  method Hash(s: seq<CodeUnit>) returns (h: int)
    ensures h == ToInt32(Polynomial(s))
    ensures -0x8000_0000 <= h < 0x8000_0000
  {
    h := 0;
    if |s| == 0 {
      return h;
    }
    var i := 0;
    while i < |s|
      invariant 0 <= i <= |s|
      invariant h == ToInt32(Polynomial(s[..i]))
    {
      var chr := s[i] as int;
      StepAgrees(h, Polynomial(s[..i]), chr);
      assert s[..i + 1][..i] == s[..i];
      h := ToInt32(ToInt32(h * 32) - h + chr);
      i := i + 1;
    }
    assert s[..i] == s;
  }

  /** The hash of a string extended by one code unit depends only on the
      hash of the string: `Hash(s + [c])` is the ToInt32 of
      `Hash(s) * 31 + c`. */
  lemma HashExtends(s: seq<CodeUnit>, c: CodeUnit)
    ensures ToInt32(Polynomial(s + [c])) == ToInt32(ToInt32(Polynomial(s)) * 31 + c as int)
  {
    var p := Polynomial(s);
    assert (s + [c])[..|s|] == s;
    assert Polynomial(s + [c]) == p * 31 + c as int;
    MulCongruent(p, ToInt32(p), c as int);
  }

  /** Multiplying congruent integers by 31 and adding `c` keeps them
      congruent modulo 2^32. */
  lemma MulCongruent(p: int, r: int, c: int)
    requires r == ToInt32(p)
    ensures ToInt32(p * 31 + c) == ToInt32(r * 31 + c)
  {
    assert (p * 31 + c) - (r * 31 + c) == Modulus * (31 * Wraps(p));
    Int32Congruent(p * 31 + c, r * 31 + c, 31 * Wraps(p));
  }

  /** A single code unit hashes to itself. */
  lemma HashOfOneUnit(c: CodeUnit)
    ensures ToInt32(Polynomial([c])) == c as int
  {
    assert [c][..0] == [];
  }
}
