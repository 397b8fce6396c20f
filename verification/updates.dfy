/** How each mutation of the listener dictionary reshapes the chains and why
    it keeps the registry well-formed. The methods of `Engine.Queuely`
    perform these mutations; the lemmas here are their proof obligations. */
module Updates {
  import opened Registry

  /** The dictionary after `on` stores `node` under fresh id `f` and points
      the stop node `s` at it. */
  ghost function Appended(m: Listeners, s: Id, f: Id, node: Node): Listeners
    requires s in m
  {
    m[f := node][s := m[s].(next := Some(f))]
  }

  /** The dictionary after `after` splices `node`, stored under fresh id `f`,
      directly behind anchor `a`. */
  ghost function Spliced(m: Listeners, a: Id, f: Id, node: Node): Listeners
    requires a in m
  {
    m[f := node][a := m[a].(next := Some(f))]
  }

  /** The dictionary after `remove` relinks predecessor `p` past `x` and
      deletes `x`. */
  ghost function Unlinked(m: Listeners, p: Id, x: Id): Listeners
    requires p in m && x in m
  {
    m[p := m[p].(next := m[x].next)] - {x}
  }

  /** A path whose nodes stay present with the same successor in another map
      is a path there. */
  lemma PathCarries(m: Listeners, m': Listeners, c: seq<Id>, y: Id)
    requires IsPath(m, c, y)
    requires forall i :: 0 <= i < |c| ==> c[i] in m' && Succ(m', c[i]) == Succ(m, c[i])
    ensures IsPath(m', c, y)
  {
  }

  /** No node on a path has a successor that lies off the path. */
  lemma PathAvoids(m: Listeners, c: seq<Id>, y: Id, x: Id)
    requires IsPath(m, c, y) && x !in c
    ensures forall i :: 0 <= i < |c| ==> Succ(m, c[i]) != Some(x)
  {
    forall i | 0 <= i < |c| ensures Succ(m, c[i]) != Some(x) {
      if i < |c| - 1 {
        assert Succ(m, c[i]) == Some(c[i + 1]);
      }
    }
  }

  /** Adding a node without successor under a fresh key keeps the invariant
      and every existing chain. */
  lemma AddTail(m: Listeners, x: Id, node: Node)
    requires WellFormed(m) && x !in m && node.next == None
    ensures WellFormed(m[x := node])
    ensures Chain(m[x := node], x) == [x]
    ensures forall y {:trigger Chain(m, y)} :: y in m ==> Chain(m[x := node], y) == Chain(m, y)
  {
    var m' := m[x := node];
    forall y {:trigger Chain(m, y)} | y in m
      ensures IsPath(m', Chain(m, y), y) && Chain(m', y) == Chain(m, y)
    {
      var c := Chain(m, y);
      ChainIsPath(m, y);
      PathCarries(m, m', c, y);
      PathIsChain(m', c, y);
    }
    assert Succ(m', x) == None;
    assert IsPath(m', [x], x);
    PathIsChain(m', [x], x);
    forall y {:trigger Chain(m', y)} | y in m' ensures IsPath(m', Chain(m', y), y) {
      if y != x {
        assert Chain(m', y) == Chain(m, y);
      }
    }
    assert TargetsAreSlaves(m') by {
      forall a | Succ(m', a).Some?
        ensures var n := Succ(m', a).value; n != "" && n in m' && m'[n].master.Some?
      {
        assert Succ(m', a) == Succ(m, a);
      }
    }
    assert NextInjective(m') by {
      forall a, b | Succ(m', a).Some? && Succ(m', a) == Succ(m', b)
        ensures a == b
      {
        assert Succ(m', a) == Succ(m, a) && Succ(m', b) == Succ(m, b);
      }
    }
  }

  /** The successor of every key after appending. */
  lemma AppendedSucc(m: Listeners, s: Id, f: Id, node: Node, a: Id)
    requires s in m && f !in m && node.next == None
    ensures Succ(Appended(m, s, f, node), a) == if a == s then Some(f) else Succ(m, a)
  {
  }

  /** On a path through the stop node, appending cuts the path after the
      stop node and ends it with the new node. */
  lemma AppendedPathAt(m: Listeners, s: Id, f: Id, node: Node, c: seq<Id>, y: Id, i: nat)
    requires IsPath(m, c, y) && s in m && f !in m && node.next == None
    requires i < |c| && c[i] == s
    ensures IsPath(Appended(m, s, f, node), c[..i + 1] + [f], y)
  {
    var m' := Appended(m, s, f, node);
    var c' := c[..i + 1] + [f];
    forall j | 0 <= j < |c'| ensures c'[j] in m' {
    }
    forall j | 0 <= j < |c'| - 1
      ensures Succ(m', c'[j]) == Some(c'[j + 1])
    {
      AppendedSucc(m, s, f, node, c'[j]);
      if j < i {
        assert c'[j] == c[j] && c[j] != c[i] && c'[j + 1] == c[j + 1];
        assert Succ(m, c[j]) == Some(c[j + 1]);
      }
    }
    AppendedSucc(m, s, f, node, f);
    forall j, k | 0 <= j < k < |c'| ensures c'[j] != c'[k] {
      if k < |c'| - 1 {
        assert c'[j] == c[j] && c'[k] == c[k];
      } else {
        assert c'[j] == c[j] && c[j] in m;
      }
    }
  }

  /** A path that avoids the stop node is untouched by appending. */
  lemma AppendedPathOff(m: Listeners, s: Id, f: Id, node: Node, c: seq<Id>, y: Id)
    requires IsPath(m, c, y) && s in m && f !in m && node.next == None
    requires s !in c
    ensures IsPath(Appended(m, s, f, node), c, y)
  {
    var m' := Appended(m, s, f, node);
    forall i | 0 <= i < |c| ensures c[i] in m' && Succ(m', c[i]) == Succ(m, c[i]) {
      AppendedSucc(m, s, f, node, c[i]);
    }
    PathCarries(m, m', c, y);
  }

  /** The registry mutation of `on` for a known name keeps the invariant, and
      every chain through the stop node now ends at the new node. */
  lemma AppendKeepsWellFormed(m: Listeners, s: Id, f: Id, node: Node)
    requires WellFormed(m) && s in m && f !in m && f != ""
    requires node.next == None && node.master.Some?
    ensures WellFormed(Appended(m, s, f, node))
    ensures Chain(Appended(m, s, f, node), f) == [f]
    ensures forall y, i :: y in m && 0 <= i < |Chain(m, y)| && Chain(m, y)[i] == s ==>
      Chain(Appended(m, s, f, node), y) == Chain(m, y)[..i + 1] + [f]
    ensures forall y {:trigger Chain(m, y)} :: y in m && s !in Chain(m, y) ==> Chain(Appended(m, s, f, node), y) == Chain(m, y)
  {
    var m' := Appended(m, s, f, node);
    AppendedSucc(m, s, f, node, f);
    assert IsPath(m', [f], f);
    PathIsChain(m', [f], f);
    forall y, i | y in m && 0 <= i < |Chain(m, y)| && Chain(m, y)[i] == s
      ensures Chain(m', y) == Chain(m, y)[..i + 1] + [f]
    {
      ChainIsPath(m, y);
      AppendedPathAt(m, s, f, node, Chain(m, y), y, i);
      PathIsChain(m', Chain(m, y)[..i + 1] + [f], y);
    }
    forall y {:trigger Chain(m, y)} | y in m && s !in Chain(m, y)
      ensures Chain(m', y) == Chain(m, y)
    {
      ChainIsPath(m, y);
      AppendedPathOff(m, s, f, node, Chain(m, y), y);
      PathIsChain(m', Chain(m, y), y);
    }
    forall y {:trigger Chain(m', y)} | y in m' ensures IsPath(m', Chain(m', y), y) {
      if y != f {
        var c := Chain(m, y);
        ChainIsPath(m, y);
        if s in c {
          var i :| 0 <= i < |c| && c[i] == s;
          AppendedPathAt(m, s, f, node, c, y, i);
          PathIsChain(m', c[..i + 1] + [f], y);
        } else {
          AppendedPathOff(m, s, f, node, c, y);
          PathIsChain(m', c, y);
        }
      }
    }
    assert TargetsAreSlaves(m') by {
      forall a | Succ(m', a).Some?
        ensures var n := Succ(m', a).value; n != "" && n in m' && m'[n].master.Some?
      {
        AppendedSucc(m, s, f, node, a);
        if a != s {
          assert Succ(m, a).value != f;
        }
      }
    }
    assert NextInjective(m') by {
      forall a, b | Succ(m', a).Some? && Succ(m', a) == Succ(m', b)
        ensures a == b
      {
        AppendedSucc(m, s, f, node, a);
        AppendedSucc(m, s, f, node, b);
      }
    }
  }


  /** Appending behind the node where the walk of `on` with precedence `p`
      stops: the invariant holds, the chain from `name` is cut behind the
      stop node and ends at the new node, and when no precedence on the
      chain exceeds `p` the whole chain is kept and the new node is last. */
  lemma AppendAtStop(m: Listeners, name: Id, p: int, f: Id, node: Node)
    requires WellFormed(m) && name in m && f !in m && f != ""
    requires node.next == None && node.master.Some?
    ensures var c := Chain(m, name); var k := StopIndex(m, c, p);
      && WellFormed(Appended(m, c[k], f, node))
      && Chain(Appended(m, c[k], f, node), name) == c[..k + 1] + [f]
      && ((forall i :: 0 <= i < |c| ==> AtMost(m[c[i]].precedence, p)) ==>
            Chain(Appended(m, c[k], f, node), name) == c + [f])
  {
    var c := Chain(m, name);
    ChainIsPath(m, name);
    var k := StopIndex(m, c, p);
    AppendCut(m, c[k], f, node, name, k);
    WholeWhenBounded(m, name, p);
  }

  /** The insertion `on` evidently intends: the new node, with precedence
      `p`, goes behind the node at `InsertIndex` and takes over that node's
      `next`. The invariant holds and no node leaves the chain. Every slave
      in front of the new node has a precedence of at most `p`, so ties keep
      their registration order. On an ascending chain every slave behind it
      has a larger precedence, and the chain stays ascending. */
  lemma InsertInOrder(m: Listeners, name: Id, p: int, f: Id, cb: Listener)
    requires WellFormed(m) && name in m && f !in m && f != ""
    ensures var c := Chain(m, name); var k := InsertIndex(m, c, p);
      var m' := Spliced(m, c[k], f, Node(cb, Some(name), m[c[k]].next, Some(p)));
      && WellFormed(m')
      && Chain(m', name) == c[..k + 1] + [f] + c[k + 1..]
      && (forall j :: 0 < j <= k ==> AtMost(m'[c[j]].precedence, p))
      && (Ascending(m, c) ==> forall j :: k < j < |c| ==> m'[c[j]].precedence.Some? && m'[c[j]].precedence.value > p)
      && (Ascending(m, c) ==> Ascending(m', Chain(m', name)))
  {
    var c := Chain(m, name);
    ChainIsPath(m, name);
    var k := InsertIndex(m, c, p);
    var node := Node(cb, Some(name), m[c[k]].next, Some(p));
    var m' := Spliced(m, c[k], f, node);
    SpliceAt(m, c[k], f, node, name, k);
    SplicedKeepsPrecedence(m, c[k], f, node);
    if Ascending(m, c) {
      InsertKeepsAscending(m, m', c, k, p, f);
    }
  }

  /** Splicing behind the `i`-th node of the chain from `y` keeps the
      invariant and inserts the new id right there. */
  lemma SpliceAt(m: Listeners, a: Id, f: Id, node: Node, y: Id, i: nat)
    requires WellFormed(m) && a in m && f !in m && f != ""
    requires node.next == m[a].next && node.master.Some?
    requires y in m && i < |Chain(m, y)| && Chain(m, y)[i] == a
    ensures WellFormed(Spliced(m, a, f, node))
    ensures Chain(Spliced(m, a, f, node), y) == Chain(m, y)[..i + 1] + [f] + Chain(m, y)[i + 1..]
  {
    SpliceKeepsWellFormed(m, a, f, node);
  }

  /** Splicing changes no precedence and gives the new id its own. */
  lemma SplicedKeepsPrecedence(m: Listeners, a: Id, f: Id, node: Node)
    requires a in m && f !in m
    ensures forall x :: x in m ==> x in Spliced(m, a, f, node) && Spliced(m, a, f, node)[x].precedence == m[x].precedence
    ensures f in Spliced(m, a, f, node) && Spliced(m, a, f, node)[f].precedence == node.precedence
  {
  }

  /** Putting `f`, of precedence `p`, behind position `k` of an ascending
      chain whose slaves up to `k` have precedence at most `p` and whose
      next slave has a larger one keeps the chain ascending. */
  lemma InsertKeepsAscending(m: Listeners, m': Listeners, c: seq<Id>, k: nat, p: int, f: Id)
    requires Ascending(m, c) && k < |c| && f !in m
    requires forall j :: 0 < j <= k ==> AtMost(m[c[j]].precedence, p)
    requires k + 1 < |c| ==> !AtMost(m[c[k + 1]].precedence, p)
    requires forall x :: x in m ==> x in m' && m'[x].precedence == m[x].precedence
    requires f in m' && m'[f].precedence == Some(p)
    ensures forall j :: k < j < |c| ==> m'[c[j]].precedence.Some? && m'[c[j]].precedence.value > p
    ensures Ascending(m', c[..k + 1] + [f] + c[k + 1..])
  {
    var c' := c[..k + 1] + [f] + c[k + 1..];
    Inserted(c, k, f);
    forall j | k < j < |c| ensures m[c[j]].precedence.value > p {
      if j > k + 1 {
        assert m[c[k + 1]].precedence.value <= m[c[j]].precedence.value;
      }
    }
    forall i, j | 1 <= i < j < |c'|
      ensures m'[c'[i]].precedence.value <= m'[c'[j]].precedence.value
    {
      if j <= k {
        assert m[c[i]].precedence.value <= m[c[j]].precedence.value;
      } else if i > k + 1 {
        assert m[c[i - 1]].precedence.value <= m[c[j - 1]].precedence.value;
      } else if i <= k && j > k + 1 {
        assert m[c[i]].precedence.value <= m[c[j - 1]].precedence.value;
      }
    }
  }

  /** As written, `on` cuts the chain: with slaves A and B of precedence
      100, a registration with precedence 50 stops its walk at A, links the
      new node behind A with a null `next`, and B drops out of the chain
      while it stays in the dictionary. The intended insertion puts the new
      node in front of A and keeps B. */
  lemma OnCutsChain()
    ensures var m := map[
        "master" := Node(Listener(0), None, Some("A"), Some(-1)),
        "A" := Node(Listener(1), Some("master"), Some("B"), Some(100)),
        "B" := Node(Listener(2), Some("master"), None, Some(100))];
      var c := ["master", "A", "B"];
      var node := Node(Listener(3), Some("master"), None, Some(50));
      && Chain(m, "master") == c
      && StopIndex(m, c, 50) == 1
      && Chain(Appended(m, "A", "n", node), "master") == ["master", "A", "n"]
      && "B" in Appended(m, "A", "n", node)
      && InsertIndex(m, c, 50) == 0
      && Chain(Spliced(m, "master", "n", node.(next := Some("A"))), "master") == ["master", "n", "A", "B"]
  {
    var m := map[
      "master" := Node(Listener(0), None, Some("A"), Some(-1)),
      "A" := Node(Listener(1), Some("master"), Some("B"), Some(100)),
      "B" := Node(Listener(2), Some("master"), None, Some(100))];
    var node := Node(Listener(3), Some("master"), None, Some(50));
    var a := Appended(m, "A", "n", node);
    var a1 := a - {"master"};
    var a2 := a1 - {"A"};
    assert Chain(a2, "n") == ["n"];
    assert Chain(a1, "A") == ["A"] + Chain(a2, "n");
    assert Chain(a, "master") == ["master", "A", "n"];
    var sp := Spliced(m, "master", "n", node.(next := Some("A")));
    var s1 := sp - {"master"};
    var s2 := s1 - {"n"};
    var s3 := s2 - {"A"};
    assert Chain(s3, "B") == ["B"];
    assert Chain(s2, "A") == ["A"] + Chain(s3, "B");
    assert Chain(s1, "n") == ["n"] + Chain(s2, "A");
    assert Chain(sp, "master") == ["master", "n", "A", "B"];
  }

  /** Appending behind the `i`-th node of the chain from `y` keeps the
      invariant and cuts that chain behind it. */
  lemma AppendCut(m: Listeners, s: Id, f: Id, node: Node, y: Id, i: nat)
    requires WellFormed(m) && s in m && f !in m && f != ""
    requires node.next == None && node.master.Some?
    requires y in m && i < |Chain(m, y)| && Chain(m, y)[i] == s
    ensures WellFormed(Appended(m, s, f, node))
    ensures Chain(Appended(m, s, f, node), y) == Chain(m, y)[..i + 1] + [f]
  {
    AppendKeepsWellFormed(m, s, f, node);
  }

  /** When no precedence on the chain from `name` exceeds `p`, the walk of
      `on` keeps the whole chain before its stop node. */
  lemma WholeWhenBounded(m: Listeners, name: Id, p: int)
    requires WellFormed(m) && name in m
    ensures var c := Chain(m, name);
      (forall i :: 0 <= i < |c| ==> AtMost(m[c[i]].precedence, p)) ==>
        c[..StopIndex(m, c, p) + 1] == c
  {
    var c := Chain(m, name);
    if forall i :: 0 <= i < |c| ==> AtMost(m[c[i]].precedence, p) {
      StopAtEnd(m, name, p);
      assert c[..|c|] == c;
    }
  }

  /** Appending at the tail of the chain from `y`, as `on` does when its walk
      reaches the tail: the chain gains `f` at its end. */
  lemma AppendAtTail(m: Listeners, y: Id, f: Id, node: Node)
    requires WellFormed(m) && y in m && f !in m && f != ""
    requires node.next == None && node.master.Some?
    ensures |Chain(m, y)| > 0 && Chain(m, y)[|Chain(m, y)| - 1] in m
    ensures forall i :: 0 <= i < |Chain(m, y)| ==> Chain(m, y)[i] in m
    ensures var s := Chain(m, y)[|Chain(m, y)| - 1];
      && WellFormed(Appended(m, s, f, node))
      && Chain(Appended(m, s, f, node), y) == Chain(m, y) + [f]
  {
    var c := Chain(m, y);
    ChainIsPath(m, y);
    var s := c[|c| - 1];
    AppendKeepsWellFormed(m, s, f, node);
    assert c[..|c|] == c;
  }
  /** The successor of every key after splicing. */
  lemma SplicedSucc(m: Listeners, a: Id, f: Id, node: Node, z: Id)
    requires a in m && f !in m && node.next == m[a].next
    ensures Succ(Spliced(m, a, f, node), z) ==
      if z == a then Some(f) else if z == f then Succ(m, a) else Succ(m, z)
  {
  }

  /** The positions of `c` with `f` inserted after position `i`. */
  lemma Inserted(c: seq<Id>, i: nat, f: Id)
    requires i < |c|
    ensures var c' := c[..i + 1] + [f] + c[i + 1..];
      && |c'| == |c| + 1
      && (forall j :: 0 <= j <= i ==> c'[j] == c[j])
      && c'[i + 1] == f
      && (forall j :: i + 1 < j < |c'| ==> c'[j] == c[j - 1])
  {
  }

  /** On a path through the anchor, splicing inserts the new node right
      after the anchor and keeps the rest of the path behind it. */
  lemma SplicedPathAt(m: Listeners, a: Id, f: Id, node: Node, c: seq<Id>, y: Id, i: nat)
    requires IsPath(m, c, y) && a in m && f !in m && node.next == m[a].next
    requires i < |c| && c[i] == a
    ensures IsPath(Spliced(m, a, f, node), c[..i + 1] + [f] + c[i + 1..], y)
  {
    SplicedLinksAt(m, a, f, node, c, y, i);
    InsertedDistinct(m, c, y, i, f);
  }

  /** Along a path through the anchor with the new node inserted, each
      node's successor after splicing is the next one, up to a tail. */
  lemma SplicedLinksAt(m: Listeners, a: Id, f: Id, node: Node, c: seq<Id>, y: Id, i: nat)
    requires IsPath(m, c, y) && a in m && f !in m && node.next == m[a].next
    requires i < |c| && c[i] == a
    ensures var m' := Spliced(m, a, f, node); var c' := c[..i + 1] + [f] + c[i + 1..];
      && (forall j :: 0 <= j < |c'| ==> c'[j] in m')
      && (forall j {:trigger Succ(m', c'[j])} :: 0 <= j < |c'| - 1 ==> Succ(m', c'[j]) == Some(c'[j + 1]))
      && Succ(m', c'[|c'| - 1]) == None
  {
    var m' := Spliced(m, a, f, node);
    var c' := c[..i + 1] + [f] + c[i + 1..];
    Inserted(c, i, f);
    forall j | 0 <= j < |c'| - 1
      ensures Succ(m', c'[j]) == Some(c'[j + 1])
    {
      SplicedSucc(m, a, f, node, c'[j]);
      if j < i {
        assert c[j] != a && c[j] != f;
        assert Succ(m, c[j]) == Some(c[j + 1]);
      } else if j == i + 1 {
        assert Succ(m, c[i]) == Some(c[i + 1]);
      } else if j > i + 1 {
        assert c[j - 1] != a && c[j - 1] != f;
        assert Succ(m, c[j - 1]) == Some(c[j]);
      }
    }
    assert Succ(m', c'[|c'| - 1]) == None by {
      SplicedSucc(m, a, f, node, c'[|c'| - 1]);
      if |c'| - 1 == i + 1 {
        assert Succ(m, c[i]) == None;
      } else {
        assert c'[|c'| - 1] == c[|c| - 1] && c[|c| - 1] != a && c[|c| - 1] != f;
      }
    }
  }

  /** Inserting a fresh id into a duplicate-free path keeps it free of
      duplicates. */
  lemma InsertedDistinct(m: Listeners, c: seq<Id>, y: Id, i: nat, f: Id)
    requires IsPath(m, c, y) && f !in m && i < |c|
    ensures var c' := c[..i + 1] + [f] + c[i + 1..];
      forall j, k :: 0 <= j < k < |c'| ==> c'[j] != c'[k]
  {
    var c' := c[..i + 1] + [f] + c[i + 1..];
    Inserted(c, i, f);
    forall j, k | 0 <= j < k < |c'| ensures c'[j] != c'[k] {
      if j != i + 1 && k != i + 1 {
        var j0 := if j < i + 1 then j else j - 1;
        var k0 := if k < i + 1 then k else k - 1;
        assert c'[j] == c[j0] && c'[k] == c[k0] && j0 < k0;
      } else if j == i + 1 {
        assert c'[k] == c[k - 1] && c[k - 1] in m;
      } else {
        assert c'[j] == c[j] && c[j] in m;
      }
    }
  }

  /** A path that avoids the anchor is untouched by splicing. */
  lemma SplicedPathOff(m: Listeners, a: Id, f: Id, node: Node, c: seq<Id>, y: Id)
    requires IsPath(m, c, y) && a in m && f !in m && node.next == m[a].next
    requires a !in c
    ensures IsPath(Spliced(m, a, f, node), c, y)
  {
    var m' := Spliced(m, a, f, node);
    forall i | 0 <= i < |c| ensures c[i] in m' && Succ(m', c[i]) == Succ(m, c[i]) {
      SplicedSucc(m, a, f, node, c[i]);
    }
    PathCarries(m, m', c, y);
  }

  /** The registry mutation of `after` keeps the invariant, and every chain
      through the anchor now holds the new node directly after the anchor. */
  lemma SpliceKeepsWellFormed(m: Listeners, a: Id, f: Id, node: Node)
    requires WellFormed(m) && a in m && f !in m && f != ""
    requires node.next == m[a].next && node.master.Some?
    ensures WellFormed(Spliced(m, a, f, node))
    ensures forall y, i :: y in m && 0 <= i < |Chain(m, y)| && Chain(m, y)[i] == a ==>
      Chain(Spliced(m, a, f, node), y) == Chain(m, y)[..i + 1] + [f] + Chain(m, y)[i + 1..]
    ensures forall y {:trigger Chain(m, y)} :: y in m && a !in Chain(m, y) ==> Chain(Spliced(m, a, f, node), y) == Chain(m, y)
  {
    SplicedChainsThrough(m, a, f, node);
    SplicedChainsOff(m, a, f, node);
    SplicedPaths(m, a, f, node);
    SplicedLinks(m, a, f, node);
  }

  /** Splicing behind anchor `a`, as `after` does: the chain from `a` is
      `a`, the new node, then the old successors of `a`. */
  lemma SpliceAtAnchor(m: Listeners, a: Id, f: Id, node: Node)
    requires WellFormed(m) && a in m && f !in m && f != ""
    requires node.next == m[a].next && node.master.Some?
    ensures WellFormed(Spliced(m, a, f, node))
    ensures Chain(Spliced(m, a, f, node), a) == [a, f] + Chain(m, a)[1..]
  {
    var c := Chain(m, a);
    ChainIsPath(m, a);
    SpliceKeepsWellFormed(m, a, f, node);
    assert c[0] == a && c[..1] == [a];
    assert c[..0 + 1] + [f] + c[0 + 1..] == [a, f] + c[1..];
  }

  /** Under `after`, every chain through the anchor gains the new node
      directly behind the anchor. */
  lemma SplicedChainsThrough(m: Listeners, a: Id, f: Id, node: Node)
    requires WellFormed(m) && a in m && f !in m && f != ""
    requires node.next == m[a].next && node.master.Some?
    ensures forall y, i :: y in m && 0 <= i < |Chain(m, y)| && Chain(m, y)[i] == a ==>
      Chain(Spliced(m, a, f, node), y) == Chain(m, y)[..i + 1] + [f] + Chain(m, y)[i + 1..]
  {
    var m' := Spliced(m, a, f, node);
    forall y, i | y in m && 0 <= i < |Chain(m, y)| && Chain(m, y)[i] == a
      ensures Chain(m', y) == Chain(m, y)[..i + 1] + [f] + Chain(m, y)[i + 1..]
    {
      ChainIsPath(m, y);
      SplicedPathAt(m, a, f, node, Chain(m, y), y, i);
      PathIsChain(m', Chain(m, y)[..i + 1] + [f] + Chain(m, y)[i + 1..], y);
    }
  }

  /** Under `after`, chains that avoid the anchor are unchanged. */
  lemma SplicedChainsOff(m: Listeners, a: Id, f: Id, node: Node)
    requires WellFormed(m) && a in m && f !in m && f != ""
    requires node.next == m[a].next && node.master.Some?
    ensures forall y {:trigger Chain(m, y)} :: y in m && a !in Chain(m, y) ==> Chain(Spliced(m, a, f, node), y) == Chain(m, y)
  {
    var m' := Spliced(m, a, f, node);
    forall y {:trigger Chain(m, y)} | y in m && a !in Chain(m, y)
      ensures Chain(m', y) == Chain(m, y)
    {
      ChainIsPath(m, y);
      SplicedPathOff(m, a, f, node, Chain(m, y), y);
      PathIsChain(m', Chain(m, y), y);
    }
  }

  /** Under `after`, the walk from every key is still a path. */
  lemma SplicedPaths(m: Listeners, a: Id, f: Id, node: Node)
    requires WellFormed(m) && a in m && f !in m && f != ""
    requires node.next == m[a].next && node.master.Some?
    ensures forall y {:trigger Chain(Spliced(m, a, f, node), y)} :: y in Spliced(m, a, f, node) ==>
      IsPath(Spliced(m, a, f, node), Chain(Spliced(m, a, f, node), y), y)
  {
    var m' := Spliced(m, a, f, node);
    forall y {:trigger Chain(m', y)} | y in m' ensures IsPath(m', Chain(m', y), y) {
      if y == f {
        SplicedPathFromNew(m, a, f, node);
      } else {
        SplicedPathFromOld(m, a, f, node, y);
      }
    }
  }

  /** Under `after`, the walk from the new node is a path. */
  lemma SplicedPathFromNew(m: Listeners, a: Id, f: Id, node: Node)
    requires WellFormed(m) && a in m && f !in m
    requires node.next == m[a].next
    ensures IsPath(Spliced(m, a, f, node), Chain(Spliced(m, a, f, node), f), f)
  {
    var m' := Spliced(m, a, f, node);
    var ca := Chain(m, a);
    ChainIsPath(m, a);
    SplicedPathAt(m, a, f, node, ca, a, 0);
    var ca' := ca[..1] + [f] + ca[1..];
    PathTail(m', ca', a);
    assert ca'[1..] == [f] + ca[1..];
    PathIsChain(m', ca'[1..], f);
  }

  /** Under `after`, the walk from an old key is a path. */
  lemma SplicedPathFromOld(m: Listeners, a: Id, f: Id, node: Node, y: Id)
    requires WellFormed(m) && a in m && f !in m && y in m
    requires node.next == m[a].next
    ensures IsPath(Spliced(m, a, f, node), Chain(Spliced(m, a, f, node), y), y)
  {
    var m' := Spliced(m, a, f, node);
    var c := Chain(m, y);
    ChainIsPath(m, y);
    if a in c {
      var i :| 0 <= i < |c| && c[i] == a;
      SplicedPathAt(m, a, f, node, c, y, i);
      PathIsChain(m', c[..i + 1] + [f] + c[i + 1..], y);
    } else {
      SplicedPathOff(m, a, f, node, c, y);
      PathIsChain(m', c, y);
    }
  }

  /** Under `after`, every `next` still names a slave and no node gains a
      second predecessor. */
  lemma SplicedLinks(m: Listeners, a: Id, f: Id, node: Node)
    requires WellFormed(m) && a in m && f !in m && f != ""
    requires node.next == m[a].next && node.master.Some?
    ensures TargetsAreSlaves(Spliced(m, a, f, node)) && NextInjective(Spliced(m, a, f, node))
  {
    var m' := Spliced(m, a, f, node);
    forall z | Succ(m', z).Some?
      ensures var n := Succ(m', z).value; n != "" && n in m' && m'[n].master.Some?
    {
      SplicedSucc(m, a, f, node, z);
      if z != a {
        assert Succ(m, a).Some? ==> Succ(m, a).value != f;
        assert Succ(m, z).Some? ==> Succ(m, z).value != f;
      }
    }
    forall x, z | Succ(m', x).Some? && Succ(m', x) == Succ(m', z)
      ensures x == z
    {
      SplicedSucc(m, a, f, node, x);
      SplicedSucc(m, a, f, node, z);
    }
  }


  /** The successor of every key after unlinking. */
  lemma UnlinkedSucc(m: Listeners, p: Id, x: Id, z: Id)
    requires p in m && x in m && p != x
    ensures Succ(Unlinked(m, p, x), z) ==
      if z == x then None else if z == p then Succ(m, x) else Succ(m, z)
  {
  }

  /** On a well-formed map a node is never its own successor. */
  lemma NoSelfLoop(m: Listeners, p: Id)
    requires WellFormed(m) && p in m && m[p].next.Some?
    ensures m[p].next.value != p
  {
    var c := Chain(m, p);
    ChainIsPath(m, p);
    assert Succ(m, c[0]) == m[p].next;
    assert c[0] != c[1];
  }

  /** On a path through the removed slave, unlinking drops exactly it. */
  lemma UnlinkedPathAt(m: Listeners, p: Id, x: Id, c: seq<Id>, y: Id, j: nat)
    requires NextInjective(m) && p in m && x in m && p != x && Succ(m, p) == Some(x)
    requires IsPath(m, c, y) && y != x && j < |c| && c[j] == x
    ensures 0 < j && c[j - 1] == p
    ensures IsPath(Unlinked(m, p, x), c[..j] + c[j + 1..], y)
  {
    var m' := Unlinked(m, p, x);
    assert Succ(m, c[j - 1]) == Some(x);
    var c' := c[..j] + c[j + 1..];
    assert |c'| == |c| - 1;
    assert forall k :: 0 <= k < j ==> c'[k] == c[k];
    assert forall k :: j <= k < |c'| ==> c'[k] == c[k + 1];
    forall k | 0 <= k < |c'| ensures c'[k] in m' {
      if k < j {
        assert c[k] != x;
      } else {
        assert c[k + 1] != x;
      }
    }
    forall k | 0 <= k < |c'| - 1
      ensures Succ(m', c'[k]) == Some(c'[k + 1])
    {
      UnlinkedSucc(m, p, x, c'[k]);
      if k < j - 1 {
        assert Succ(m, c[k]) == Some(c[k + 1]) && c[k] != p && c[k] != x;
      } else if k == j - 1 {
        assert Succ(m, c[j]) == Some(c[j + 1]);
      } else {
        assert Succ(m, c[k + 1]) == Some(c[k + 2]) && c[k + 1] != p && c[k + 1] != x;
      }
    }
    assert Succ(m', c'[|c'| - 1]) == None by {
      UnlinkedSucc(m, p, x, c'[|c'| - 1]);
      if j == |c| - 1 {
        assert c'[|c'| - 1] == p && Succ(m, x) == None;
      } else {
        assert c'[|c'| - 1] == c[|c| - 1];
        assert Succ(m, c[|c| - 1]) == None;
      }
    }
    forall k, l | 0 <= k < l < |c'| ensures c'[k] != c'[l] {
      var k0 := if k < j then k else k + 1;
      var l0 := if l < j then l else l + 1;
      assert c'[k] == c[k0] && c'[l] == c[l0] && k0 < l0;
    }
  }

  /** A path that avoids the removed slave is untouched by unlinking. */
  lemma UnlinkedPathOff(m: Listeners, p: Id, x: Id, c: seq<Id>, y: Id)
    requires p in m && x in m && p != x && Succ(m, p) == Some(x)
    requires IsPath(m, c, y) && x !in c
    ensures IsPath(Unlinked(m, p, x), c, y)
  {
    var m' := Unlinked(m, p, x);
    PathAvoids(m, c, y, x);
    forall i | 0 <= i < |c| ensures c[i] in m' && Succ(m', c[i]) == Succ(m, c[i]) {
      UnlinkedSucc(m, p, x, c[i]);
    }
    PathCarries(m, m', c, y);
  }

  /** The registry mutation of `remove` on a slave keeps the invariant, and
      every chain through the slave loses exactly that slave. */
  lemma UnlinkKeepsWellFormed(m: Listeners, p: Id, x: Id)
    requires WellFormed(m) && p in m && x in m && m[p].next == Some(x)
    ensures WellFormed(Unlinked(m, p, x))
    ensures forall y, j :: y in m && y != x && 0 <= j < |Chain(m, y)| && Chain(m, y)[j] == x ==>
      Chain(Unlinked(m, p, x), y) == Chain(m, y)[..j] + Chain(m, y)[j + 1..]
    ensures forall y {:trigger Chain(m, y)} :: y in m && x !in Chain(m, y) ==> Chain(Unlinked(m, p, x), y) == Chain(m, y)
  {
    var m' := Unlinked(m, p, x);
    NoSelfLoop(m, p);
    assert Succ(m, p) == Some(x);
    forall y, j | y in m && y != x && 0 <= j < |Chain(m, y)| && Chain(m, y)[j] == x
      ensures Chain(m', y) == Chain(m, y)[..j] + Chain(m, y)[j + 1..]
    {
      ChainIsPath(m, y);
      UnlinkedPathAt(m, p, x, Chain(m, y), y, j);
      PathIsChain(m', Chain(m, y)[..j] + Chain(m, y)[j + 1..], y);
    }
    forall y {:trigger Chain(m, y)} | y in m && x !in Chain(m, y)
      ensures Chain(m', y) == Chain(m, y)
    {
      ChainIsPath(m, y);
      UnlinkedPathOff(m, p, x, Chain(m, y), y);
      PathIsChain(m', Chain(m, y), y);
    }
    forall y {:trigger Chain(m', y)} | y in m' ensures IsPath(m', Chain(m', y), y) {
      var c := Chain(m, y);
      ChainIsPath(m, y);
      if x in c {
        var j :| 0 <= j < |c| && c[j] == x;
        UnlinkedPathAt(m, p, x, c, y, j);
        PathIsChain(m', c[..j] + c[j + 1..], y);
      } else {
        UnlinkedPathOff(m, p, x, c, y);
        PathIsChain(m', c, y);
      }
    }
    assert TargetsAreSlaves(m') by {
      forall a | Succ(m', a).Some?
        ensures var n := Succ(m', a).value; n != "" && n in m' && m'[n].master.Some?
      {
        UnlinkedSucc(m, p, x, a);
        if a == p {
          assert Succ(m, x) != Succ(m, p);
        } else {
          assert Succ(m, a) != Succ(m, p);
        }
      }
    }
    assert NextInjective(m') by {
      forall a, b | Succ(m', a).Some? && Succ(m', a) == Succ(m', b)
        ensures a == b
      {
        UnlinkedSucc(m, p, x, a);
        UnlinkedSucc(m, p, x, b);
      }
    }
  }

  /** A chain that starts outside the chain of an unpointed node never
      enters it. */
  lemma {:induction false} ChainsDisjoint(m: Listeners, x: Id, y: Id)
    requires WellFormed(m) && x in m && Unpointed(m, x)
    requires y in m && y !in Chain(m, x)
    ensures forall z :: z in Chain(m, y) ==> z !in Chain(m, x)
    decreases |Chain(m, y)|
  {
    var cx := Chain(m, x);
    ChainIsPath(m, x);
    if m[y].next.Some? {
      var n := m[y].next.value;
      ChainStep(m, y);
      assert n !in cx by {
        forall j | 0 <= j < |cx| ensures cx[j] != n {
          if j == 0 {
            assert Succ(m, y) != Some(x);
          } else {
            assert Succ(m, cx[j - 1]) == Some(cx[j]);
            assert Succ(m, y) == Some(n);
          }
        }
      }
      ChainsDisjoint(m, x, n);
    } else {
      assert Chain(m, y) == [y];
    }
  }

  /** The registry mutation of `removeMaster` on an unpointed node keeps the
      invariant and every chain that survives. */
  lemma RemoveChainKeepsWellFormed(m: Listeners, x: Id)
    requires WellFormed(m) && x in m && Unpointed(m, x)
    ensures WellFormed(m - Elems(Chain(m, x)))
    ensures forall y {:trigger Chain(m, y)} :: y in m - Elems(Chain(m, x)) ==> Chain(m - Elems(Chain(m, x)), y) == Chain(m, y)
  {
    var gone := Elems(Chain(m, x));
    var m' := m - gone;
    forall y {:trigger Chain(m, y)} | y in m'
      ensures IsPath(m', Chain(m, y), y) && Chain(m', y) == Chain(m, y)
    {
      ChainsDisjoint(m, x, y);
      var c := Chain(m, y);
      ChainIsPath(m, y);
      forall i | 0 <= i < |c| ensures c[i] in m' && Succ(m', c[i]) == Succ(m, c[i]) {
        assert c[i] in Chain(m, y);
      }
      PathCarries(m, m', c, y);
      PathIsChain(m', c, y);
    }
    forall y {:trigger Chain(m', y)} | y in m' ensures IsPath(m', Chain(m', y), y) {
      assert Chain(m', y) == Chain(m, y);
    }
    assert TargetsAreSlaves(m') by {
      forall a | Succ(m', a).Some?
        ensures var n := Succ(m', a).value; n != "" && n in m' && m'[n].master.Some?
      {
        assert a in m' && Succ(m', a) == Succ(m, a);
        ChainsDisjoint(m, x, a);
        ChainStep(m, a);
        assert Succ(m, a).value == Chain(m, a)[1];
      }
    }
    assert NextInjective(m') by {
      forall a, b | Succ(m', a).Some? && Succ(m', a) == Succ(m', b)
        ensures a == b
      {
        assert a in m' && b in m';
        assert Succ(m, a) == Succ(m, b);
      }
    }
  }
}
