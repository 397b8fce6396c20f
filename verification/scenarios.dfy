/** The usage scenarios of the test suite, built with the `Queuely` methods
    and replayed with the run lemmas of `Dispatch`. The callbacks of each
    scenario are listener tokens; what each token's body does to the
    scenario's counter is spelled out by a small function. */
module Scenarios {
  import opened Registry
  import opened Updates
  import opened Dispatch
  import opened Engine

  /** The chain of master `h` holds exactly the slaves `ids`, registered in
      that order with the callbacks `cbs` and each naming `h` as master,
      the last of them has no successor, every precedence on it is at most the default 100, and the dictionary
      holds nothing else. */
  ghost predicate Registered(m: Listeners, h: Id, ids: seq<Id>, cbs: seq<Listener>)
  {
    && Chain(m, h) == [h] + ids
    && m.Keys == Elems([h] + ids)
    && h in m && m[h].master.None?
    && (forall i :: 0 <= i < |ids| ==> ids[i] in m && m[ids[i]].master == Some(h))
    && m[([h] + ids)[|ids|]].next == None
    && ListenersOf(m, ids) == cbs
    && (forall i :: 0 <= i < |ids| + 1 ==> AtMost(m[([h] + ids)[i]].precedence, 100))
  }

  /** Every slave on a registered chain names its master. */
  lemma RegisteredSlaves(m: Listeners, h: Id, ids: seq<Id>, cbs: seq<Listener>)
    requires Registered(m, h, ids, cbs)
    ensures forall i :: 1 <= i < |Chain(m, h)| ==> m[Chain(m, h)[i]].master == Some(h)
  {
    var c := [h] + ids;
    forall i | 1 <= i < |c| ensures m[c[i]].master == Some(h) {
      assert c[i] == ids[i - 1];
    }
  }

  /** A registered chain of a well-formed dictionary serves its master. */
  lemma RegisteredServes(m: Listeners, h: Id, ids: seq<Id>, cbs: seq<Listener>)
    requires WellFormed(m) && Registered(m, h, ids, cbs)
    ensures Serves(m, h)
  {
    RegisteredSlaves(m, h, ids, cbs);
  }

  /** Appending `uid` behind any node so that the chain of `h` becomes
      `h`, `ids`, `uid` keeps the chain registered. */
  lemma RegisteredGrows(m: Listeners, h: Id, ids: seq<Id>, cbs: seq<Listener>, s: Id, uid: Id, cb: Listener)
    requires Registered(m, h, ids, cbs) && s in m && uid !in m
    requires Chain(Appended(m, s, uid, Node(cb, Some(h), None, Some(100))), h) == [h] + (ids + [uid])
    ensures Registered(Appended(m, s, uid, Node(cb, Some(h), None, Some(100))), h, ids + [uid], cbs + [cb])
  {
    var node := Node(cb, Some(h), None, Some(100));
    AppendedKeeps(m, s, uid, node, ids);
    GrownKeys(m, s, uid, node, [h] + ids);
    GrownSlaves(m, h, ids, s, uid, node);
    GrownBound(m, [h] + ids, s, uid, node, 100);
    assert [h] + (ids + [uid]) == ([h] + ids) + [uid];
  }

  /** Appending adds exactly the new id to the keys. */
  lemma GrownKeys(m: Listeners, s: Id, uid: Id, node: Node, c: seq<Id>)
    requires s in m && m.Keys == Elems(c)
    ensures Appended(m, s, uid, node).Keys == Elems(c + [uid])
  {
    assert Elems(c + [uid]) == Elems(c) + {uid};
  }

  /** Appending a slave of `h` keeps every slave of `h` a slave of `h`. */
  lemma GrownSlaves(m: Listeners, h: Id, ids: seq<Id>, s: Id, uid: Id, node: Node)
    requires s in m && uid !in m && h in m && node.master == Some(h)
    requires forall i :: 0 <= i < |ids| ==> ids[i] in m && m[ids[i]].master == Some(h)
    ensures var m' := Appended(m, s, uid, node);
      forall i :: 0 <= i < |ids| + 1 ==> (ids + [uid])[i] in m' && m'[(ids + [uid])[i]].master == Some(h)
  {
    var m' := Appended(m, s, uid, node);
    forall i | 0 <= i < |ids| + 1 ensures (ids + [uid])[i] in m' && m'[(ids + [uid])[i]].master == Some(h) {
      if i < |ids| {
        assert (ids + [uid])[i] == ids[i];
      }
    }
  }

  /** Appending a node of precedence at most `p` keeps every precedence
      along the grown chain at most `p`. */
  lemma GrownBound(m: Listeners, c: seq<Id>, s: Id, uid: Id, node: Node, p: int)
    requires s in m && uid !in m && AtMost(node.precedence, p)
    requires forall i :: 0 <= i < |c| ==> c[i] in m && AtMost(m[c[i]].precedence, p)
    ensures var m' := Appended(m, s, uid, node);
      forall i :: 0 <= i < |c| + 1 ==> (c + [uid])[i] in m' && AtMost(m'[(c + [uid])[i]].precedence, p)
  {
    var m' := Appended(m, s, uid, node);
    forall i | 0 <= i < |c| + 1 ensures (c + [uid])[i] in m' && AtMost(m'[(c + [uid])[i]].precedence, p) {
      if i < |c| {
        assert (c + [uid])[i] == c[i];
      }
    }
  }

  /** What `on(h, cb)` with the default precedence does to a registered
      chain: it appends `uid` at the end, and the chain stays registered. */
  lemma RegisterOutcome(m: Listeners, m': Listeners, h: Id, ids: seq<Id>, cbs: seq<Listener>, uid: Id, cb: Listener)
    requires Registered(m, h, ids, cbs) && uid !in m
    requires var c := Chain(m, h); var k := StopIndex(m, c, 100);
      m' == Appended(m, c[k], uid, Node(cb, Some(h), None, Some(100)))
    requires var c := Chain(m, h);
      (forall i :: 0 <= i < |c| ==> AtMost(m[c[i]].precedence, 100)) ==> Chain(m', h) == c + [uid]
    ensures Registered(m', h, ids + [uid], cbs + [cb])
  {
    var c := [h] + ids;
    var k := StopIndex(m, c, 100);
    assert [h] + (ids + [uid]) == c + [uid];
    RegisteredGrows(m, h, ids, cbs, c[k], uid, cb);
  }

  /** `on(h, cb)` with the default precedence on a registered chain appends
      `uid` at its end. */
  method RegisterDefault(q: Queuely, h: Id, cb: Listener, uid: Id, ghost ids: seq<Id>, ghost cbs: seq<Listener>)
    returns (id: Id)
    requires q.Valid() && Registered(q.listeners, h, ids, cbs)
    requires uid !in q.listeners && uid != ""
    modifies q
    ensures id == uid && q.Valid() && Registered(q.listeners, h, ids + [uid], cbs + [cb])
  {
    ghost var m := q.listeners;
    id := q.On(h, cb, None, uid);
    RegisterOutcome(m, q.listeners, h, ids, cbs, uid, cb);
  }

  /** A new registry with the master `h` alone. */
  method NewMaster(h: Id, cb: Listener) returns (q: Queuely)
    ensures fresh(q) && q.Valid() && Registered(q.listeners, h, [], [])
  {
    q := new Queuely();
    var _ := q.On(h, cb, None, "");
    assert Chain(q.listeners, h) == [h];
    assert Elems([h]) == {h};
  }

  /** The callback tokens `1, ..., n`. */
  function Tokens(n: nat): (t: seq<Listener>)
    ensures |t| == n && forall i :: 0 <= i < n ==> t[i] == Listener(i + 1)
  {
    seq(n, i requires 0 <= i < n => Listener(i + 1))
  }

  /** `on(h, cb0)` followed by `on(h, cb_k)` for `k = 1..|ids|` with the
      default precedence and the distinct fresh ids `ids`: the chain of `h`
      is `h` followed by `ids`, in registration order. */
  method Build(h: Id, ids: seq<Id>) returns (q: Queuely)
    requires h !in ids && forall i :: 0 <= i < |ids| ==> ids[i] != ""
    requires forall i, j :: 0 <= i < j < |ids| ==> ids[i] != ids[j]
    ensures fresh(q) && q.Valid() && Registered(q.listeners, h, ids, Tokens(|ids|))
  {
    q := NewMaster(h, Listener(0));
    ghost var done: seq<Id> := [];
    ghost var cbs: seq<Listener> := [];
    var i := 0;
    while i < |ids|
      invariant 0 <= i <= |ids| && fresh(q) && q.Valid()
      invariant done == ids[..i] && cbs == Tokens(i)
      invariant Registered(q.listeners, h, done, cbs)
    {
      FreshNext(h, ids, i);
      RegisteredFresh(q.listeners, h, done, cbs, ids[i]);
      var id := RegisterDefault(q, h, Listener(i + 1), ids[i], done, cbs);
      PrefixSnoc(ids, i);
      TokensSnoc(i);
      done := done + [ids[i]];
      cbs := cbs + [Listener(i + 1)];
      i := i + 1;
    }
    PrefixSnoc(ids, i);
  }

  /** Growing a prefix of `ids` by one element. */
  lemma PrefixSnoc(ids: seq<Id>, i: nat)
    requires i <= |ids|
    ensures i < |ids| ==> ids[..i] + [ids[i]] == ids[..i + 1]
    ensures i == |ids| ==> ids[..i] == ids
  {
  }

  /** Growing the callback tokens by one. */
  lemma TokensSnoc(i: nat)
    ensures Tokens(i) + [Listener(i + 1)] == Tokens(i + 1)
  {
  }

  /** A registry holds no key beyond its registered chain. */
  lemma RegisteredFresh(m: Listeners, h: Id, ids: seq<Id>, cbs: seq<Listener>, x: Id)
    requires Registered(m, h, ids, cbs) && x !in Elems([h] + ids)
    ensures x !in m
  {
  }

  /** The next id to register is not among the registered ones. */
  lemma FreshNext(h: Id, ids: seq<Id>, i: nat)
    requires i < |ids| && h !in ids
    requires forall i, j :: 0 <= i < j < |ids| ==> ids[i] != ids[j]
    ensures ids[i] !in Elems([h] + ids[..i])
  {
    forall k | 0 <= k < i + 1 ensures ([h] + ids[..i])[k] != ids[i] {
      if k > 0 {
        assert ([h] + ids[..i])[k] == ids[k - 1];
      }
    }
  }

  /** `emit(h, rest...)` on a registered chain whose slaves all call
      `Finish`: each slave runs once, in registration order, with the data
      `rest`, and then the master runs once with `COMPLETE_TERMINATION` and
      the last slave as its actual node. */
  lemma EmitAllFinish(m: Listeners, h: Id, ids: seq<Id>, cbs: seq<Listener>, rest: seq<Value>)
    requires WellFormed(m) && Registered(m, h, ids, cbs) && |ids| > 0
    ensures var t := RunEmit(m, [Str(h)] + rest, Finishes(|ids|));
      && |t| == |ids| + 1
      && (forall i :: 0 <= i < |ids| ==> t[i] == SlaveCall(ids[i], List(rest)))
      && t[|ids|] == Call(h, Context(ids[|ids| - 1], List(rest), {CompleteTermination}))
  {
    RegisteredServes(m, h, ids, cbs);
    RunToCompletion(m, h, rest);
    assert ([h] + ids)[1..] == ids;
    assert ([h] + ids)[|ids|] == ids[|ids| - 1];
  }

  /** What the callbacks of the data scenario do to `out`: the master
      (token 0) only looks at it; slave `k` (token `k + 1`) adds the first
      data item plus `k`. */
  function DataBody(cb: Listener, b: Context, out: int): int
  {
    if cb.token == 0 then out
    else match b.data
      case List(items) =>
        if |items| > 0 && items[0].Num? then out + items[0].n + (cb.token - 1) else out
      case _ => out
  }

  /** The sum `1 + 2 + ... + i`. */
  function Tally(i: nat): int
  {
    if i == 0 then 0 else Tally(i - 1) + i
  }

  /** The five slave callbacks of the data scenario run in trace order, each
      with data `[1]`: the counter goes from 0 to 15. */
  method RunDataCallbacks(m: Listeners, trace: seq<Call<Context>>) returns (out: int)
    requires |trace| >= 5
    requires forall i :: 0 <= i < 5 ==> trace[i].node in m && m[trace[i].node].listener == Listener(i + 1)
    requires forall i :: 0 <= i < 5 ==> trace[i].bundle.data == List([Num(1)])
    ensures out == 15
  {
    out := 0;
    var i := 0;
    while i < 5
      invariant 0 <= i <= 5 && out == Tally(i)
    {
      out := DataBody(m[trace[i].node].listener, trace[i].bundle, out);
      i := i + 1;
    }
  }

  /** Emit with a master and five slaves that each call `Finish`, with data
      1: the slaves run in registration order, then the master once with
      `COMPLETE_TERMINATION`, and the counter reaches 15 by then. */
  method EmitWithData() returns (out: int, trace: seq<Call<Context>>)
    ensures |trace| == 6
    ensures forall i :: 0 <= i < 5 ==> trace[i].node != "master"
    ensures trace[5] == Call("master", Context("s4", List([Num(1)]), {CompleteTermination}))
    ensures out == 15
  {
    var q := Build("master", ["s0", "s1", "s2", "s3", "s4"]);
    trace := RunEmit(q.listeners, [Str("master"), Num(1)], Finishes(5));
    DataTrace(q.listeners, ["s0", "s1", "s2", "s3", "s4"], trace);
    out := RunDataCallbacks(q.listeners, trace);
  }

  /** The trace of the data scenario: the five slaves, each a key holding
      the token of its position and invoked with data `[1]`, then the
      master. */
  lemma DataTrace(m: Listeners, ids: seq<Id>, trace: seq<Call<Context>>)
    requires ids == ["s0", "s1", "s2", "s3", "s4"]
    requires WellFormed(m) && Registered(m, "master", ids, Tokens(5))
    requires trace == RunEmit(m, [Str("master"), Num(1)], Finishes(5))
    ensures |trace| == 6
    ensures forall i :: 0 <= i < 5 ==> trace[i].node != "master"
    ensures trace[5] == Call("master", Context("s4", List([Num(1)]), {CompleteTermination}))
    ensures forall i :: 0 <= i < 5 ==> trace[i].node in m && m[trace[i].node].listener == Listener(i + 1)
    ensures forall i :: 0 <= i < 5 ==> trace[i].bundle.data == List([Num(1)])
  {
    EmitAllFinish(m, "master", ids, Tokens(5), [Num(1)]);
    assert [Str("master")] + [Num(1)] == [Str("master"), Num(1)];
    forall i | 0 <= i < 5 ensures trace[i].node == ids[i] && m[ids[i]].listener == Listener(i + 1) {
      assert ListenersOf(m, ids)[i] == Tokens(5)[i];
    }
  }

  /** What the callbacks of the `after` scenario do to `out`: the slave
      registered by `on` (token 1) adds the first data item, the one
      inserted by `after` (token 2) multiplies by the first data item plus
      4. */
  function AfterBody(cb: Listener, b: Context, out: int): int
  {
    match b.data
    case List(items) =>
      if |items| > 0 && items[0].Num? then
        if cb.token == 1 then out + items[0].n
        else if cb.token == 2 then out * (items[0].n + 4)
        else out
      else out
    case _ => out
  }

  /** A slave inserted with `after` on the master runs first, before the
      slave registered earlier with `on`, whatever the precedence: starting
      from 1, the counter is 1 * 5 + 1 = 6 when the master runs. */
  method InsertAfter() returns (out: int, trace: seq<Call<Context>>)
    ensures trace == [SlaveCall("s1", List([Num(1)])), SlaveCall("s0", List([Num(1)])),
                      Call("master", Context("s0", List([Num(1)]), {CompleteTermination}))]
    ensures out == 6
  {
    var q := Build("master", ["s0"]);
    ghost var m := q.listeners;
    var s1 := q.After("master", Listener(2), "s1");
    AfterChain(m, q.listeners);
    trace := RunEmit(q.listeners, [Str("master"), Num(1)], Finishes(2));
    AfterTrace(q.listeners);
    out := 1;
    out := AfterBody(q.listeners[trace[0].node].listener, trace[0].bundle, out);
    out := AfterBody(q.listeners[trace[1].node].listener, trace[1].bundle, out);
  }

  /** `after("master", cb2)` with id `s1` on the chain `master, s0` gives
      the chain `master, s1, s0`, still serving the master. */
  lemma AfterChain(m: Listeners, m': Listeners)
    requires Registered(m, "master", ["s0"], Tokens(1)) && WellFormed(m')
    requires m' == Spliced(m, "master", "s1", Node(Listener(2), Some("master"), m["master"].next, None))
    requires Chain(m', "master") == ["master", "s1"] + Chain(m, "master")[1..]
    ensures Serves(m', "master") && Chain(m', "master") == ["master", "s1", "s0"]
    ensures m'["s1"].listener == Listener(2) && m'["s0"].listener == Listener(1)
  {
    assert ["master"] + ["s0"] == ["master", "s0"];
    assert ListenersOf(m, ["s0"])[0] == Tokens(1)[0];
    assert m["s0"].master == Some("master");
    ServesAgain(m', "master", ["master", "s1", "s0"]);
  }

  /** On the chain `master, s1, s0` with both slaves calling `Finish`, emit
      with data 1 runs `s1`, `s0`, then the master. */
  lemma AfterTrace(m: Listeners)
    requires Serves(m, "master") && Chain(m, "master") == ["master", "s1", "s0"]
    ensures RunEmit(m, [Str("master"), Num(1)], Finishes(2)) ==
      [SlaveCall("s1", List([Num(1)])), SlaveCall("s0", List([Num(1)])),
       Call("master", Context("s0", List([Num(1)]), {CompleteTermination}))]
  {
    RunToCompletion(m, "master", [Num(1)]);
    assert [Str("master")] + [Num(1)] == [Str("master"), Num(1)];
    assert ["master", "s1", "s0"][1..] == ["s1", "s0"];
  }

  /** `followerCount` and `followers` on a master with two slaves, and
      `followers` on the last slave. */
  method CountFollowers() returns (n: nat, f: Option<seq<Listener>>, g: Option<seq<Listener>>)
    ensures n == 2
    ensures f == Some([Listener(1), Listener(2)])
    ensures g == Some([])
  {
    var q := Build("master0", ["s0", "s1"]);
    BuiltFollowers(q.listeners);
    n := q.FollowerCount("master0");
    f := q.Followers("master0");
    g := q.Followers("s1");
  }

  /** The chain `master0, s0, s1` registered with tokens 1 and 2: two
      followers with those tokens, and none after the last slave. */
  lemma BuiltFollowers(m: Listeners)
    requires WellFormed(m) && Registered(m, "master0", ["s0", "s1"], Tokens(2))
    ensures "master0" in m && |Chain(m, "master0")| - 1 == 2
    ensures ListenersOf(m, Chain(m, "master0")[1..]) == [Listener(1), Listener(2)]
    ensures "s1" in m && ListenersOf(m, Chain(m, "s1")[1..]) == []
  {
    assert Chain(m, "master0")[1..] == ["s0", "s1"];
    assert Tokens(2) == [Listener(1), Listener(2)];
    TailAlone(m, "master0", ["master0", "s0", "s1"]);
  }

  /** On a well-formed dictionary the walk from the last node of a chain is
      that node alone. */
  lemma TailAlone(m: Listeners, h: Id, c: seq<Id>)
    requires WellFormed(m) && h in m && Chain(m, h) == c
    ensures c[|c| - 1] in m && Chain(m, c[|c| - 1]) == [c[|c| - 1]]
  {
    ChainIsPath(m, h);
    PathLinks(m, c, h, |c| - 1);
  }

  /** Removing the last slave deletes only its key and shortens the chain;
      removing the master then deletes every remaining key. */
  method RemoveSlaveThenMaster() returns (r1: Outcome<bool>, r2: Outcome<bool>, keys: set<Id>)
    ensures r1 == Returned(true) && r2 == Returned(true) && keys == {}
  {
    var q := Build("master", ["s0", "s1"]);
    ghost var m := q.listeners;
    RemovableSlave(m);
    r1 := q.Remove("s1");
    ghost var m1 := q.listeners;
    RemovableMaster(m, m1);
    r2 := q.Remove("master");
    keys := q.listeners.Keys;
  }

  /** In the chain `master, s0, s1`, `s1` is a slave of the master found at
      position 2, and dropping it leaves `master, s0`. */
  lemma RemovableSlave(m: Listeners)
    requires Registered(m, "master", ["s0", "s1"], Tokens(2))
    ensures "s1" in m && m["s1"].master == Some("master") && "master" in m
    ensures var c := Chain(m, "master");
      && "s1" in c[1..] && IndexOf(c, "s1") == 2 && c[1] == "s0"
      && c[..2] + c[3..] == ["master", "s0"]
  {
    ListedAt(Chain(m, "master"));
    assert ["s0", "s1"][1] == "s1";
  }

  /** Positions in the chain `master, s0, s1`. */
  lemma ListedAt(c: seq<Id>)
    requires c == ["master"] + ["s0", "s1"]
    ensures "s1" in c[1..] && IndexOf(c, "s1") == 2 && c[1] == "s0"
    ensures c[..2] + c[3..] == ["master", "s0"]
  {
    assert c[1..] == ["s0", "s1"] && c[1..][1..] == ["s1"];
    assert IndexOf(c[1..][1..], "s1") == 0;
  }

  /** After `s1` is unlinked, the master is a master and its chain holds
      every remaining key. */
  lemma RemovableMaster(m: Listeners, m1: Listeners)
    requires Registered(m, "master", ["s0", "s1"], Tokens(2))
    requires "s0" in m && "s1" in m && m1 == Unlinked(m, "s0", "s1")
    requires Chain(m1, "master") == ["master", "s0"]
    ensures "master" in m1 && m1["master"].master.None?
    ensures m1 - Elems(Chain(m1, "master")) == map[]
  {
    assert Elems(["master", "s0", "s1"]) == {"master", "s0", "s1"};
    assert Elems(["master", "s0"]) == {"master", "s0"};
  }
}
