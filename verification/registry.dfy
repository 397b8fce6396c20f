/** The chain registry of Queuely: the dictionary from ids to chain nodes, the
    chain of ids reachable from an id by following `next`, and the
    well-formedness invariant that every registry operation keeps. */
module Registry {

  /** Node ids. A master node's id is the user's event name; a slave's id is a
      generated token. Both kinds share one namespace. */
  type Id = string

  datatype Option<+T> = None | Some(value: T)

  /** The result of an operation that can raise a JavaScript TypeError by
      dereferencing a node that is not in the dictionary. */
  datatype Outcome<+T> = Returned(value: T) | Threw

  /** A user callback, held as an opaque token. */
  datatype Listener = Listener(token: nat)

  /** The record `{listener, master, next, precedence}` stored under each id.
      A master node has no `master`; a node created by `after` has no
      `precedence` field at all. */
  datatype Node = Node(listener: Listener, master: Option<Id>, next: Option<Id>, precedence: Option<int>)

  type Listeners = map<Id, Node>

  /** JavaScript truthiness of an id-valued field: `null` and `""` are false. */
  predicate Truthy(o: Option<Id>)
  {
    o.Some? && o.value != ""
  }

  /** The ids visited by following `next` from `x`, starting with `x`. Each
      visited key is dropped from the map before the walk goes on, so the walk
      is total; on a well-formed map it is exactly the chain. */
  ghost function Chain(m: Listeners, x: Id): seq<Id>
    decreases m.Keys
  {
    if x !in m then []
    else match m[x].next
      case None => [x]
      case Some(n) =>
        assert (m - {x}).Keys < m.Keys by { assert x !in (m - {x}).Keys; }
        [x] + Chain(m - {x}, n)
  }

  /** The successor recorded under `a`, or null when `a` is not a key. */
  ghost function Succ(m: Listeners, a: Id): Option<Id>
  {
    if a in m then m[a].next else None
  }

  /** `c` is a duplicate-free walk from `y` along `next` pointers that ends at
      a node whose `next` is null. */
  ghost predicate IsPath(m: Listeners, c: seq<Id>, y: Id)
  {
    && |c| > 0
    && c[0] == y
    && (forall i :: 0 <= i < |c| ==> c[i] in m)
    && (forall i {:trigger Succ(m, c[i])} :: 0 <= i < |c| - 1 ==> Succ(m, c[i]) == Some(c[i + 1]))
    && Succ(m, c[|c| - 1]) == None
    && (forall i, j :: 0 <= i < j < |c| ==> c[i] != c[j])
  }

  /** Every `next` names a present, non-empty slave id. */
  ghost predicate TargetsAreSlaves(m: Listeners)
  {
    forall a :: Succ(m, a).Some? ==>
      var n := Succ(m, a).value; n != "" && n in m && m[n].master.Some?
  }

  /** No two nodes share a successor. */
  ghost predicate NextInjective(m: Listeners)
  {
    forall a, b :: Succ(m, a).Some? && Succ(m, a) == Succ(m, b) ==> a == b
  }

  /** The registry invariant: from every id the `next` pointers run without a
      cycle to a tail, every `next` key is present and names a slave, and no
      node has two predecessors. */
  ghost predicate WellFormed(m: Listeners)
  {
    && (forall y {:trigger Chain(m, y)} :: y in m ==> IsPath(m, Chain(m, y), y))
    && TargetsAreSlaves(m)
    && NextInjective(m)
  }

  /** No node's `next` names `x`. */
  ghost predicate Unpointed(m: Listeners, x: Id)
  {
    forall a :: Succ(m, a) != Some(x)
  }

  /** The set of ids in a sequence of ids. */
  ghost function Elems(c: seq<Id>): set<Id>
  {
    set z | z in c
  }

  /** The callbacks stored under `ids`, in order. */
  ghost function ListenersOf(m: Listeners, ids: seq<Id>): (r: seq<Listener>)
    requires forall i :: 0 <= i < |ids| ==> ids[i] in m
    ensures |r| == |ids| && forall i :: 0 <= i < |ids| ==> r[i] == m[ids[i]].listener
  {
    seq(|ids|, i requires 0 <= i < |ids| => m[ids[i]].listener)
  }

  /** The position of `x` in a sequence that holds it. */
  ghost function IndexOf(c: seq<Id>, x: Id): (i: nat)
    requires x in c
    ensures i < |c| && c[i] == x && x !in c[..i]
  {
    if c[0] == x then 0 else 1 + IndexOf(c[1..], x)
  }

  /** A walk that follows `next` to a tail without repeating is the chain. */
  lemma {:induction false} PathIsChain(m: Listeners, c: seq<Id>, y: Id)
    requires IsPath(m, c, y)
    ensures Chain(m, y) == c
    decreases |c|
  {
    assert Succ(m, c[0]) == m[y].next;
    if |c| > 1 {
      var m' := m - {y};
      var c' := c[1..];
      forall i | 0 <= i < |c'|
        ensures c'[i] in m' && Succ(m', c'[i]) == Succ(m, c[i + 1])
      {
        assert c'[i] == c[i + 1] && c[i + 1] != c[0];
      }
      forall i | 0 <= i < |c'| - 1
        ensures Succ(m', c'[i]) == Some(c'[i + 1])
      {
        assert Succ(m, c[i + 1]) == Some(c[i + 2]);
      }
      forall i, j | 0 <= i < j < |c'| ensures c'[i] != c'[j] {
        assert c'[i] == c[i + 1] && c'[j] == c[j + 1];
      }
      assert Succ(m, c[|c| - 1]) == None;
      assert IsPath(m', c', c[1]);
      PathIsChain(m', c', c[1]);
    }
  }

  /** The tail of a path is a path from the second node. */
  lemma PathTail(m: Listeners, c: seq<Id>, y: Id)
    requires IsPath(m, c, y) && |c| > 1
    ensures IsPath(m, c[1..], c[1])
  {
    var c' := c[1..];
    forall i | 0 <= i < |c'| - 1
      ensures Succ(m, c'[i]) == Some(c'[i + 1])
    {
      assert c'[i] == c[i + 1] && Succ(m, c[i + 1]) == Some(c[i + 2]);
    }
    forall i, j | 0 <= i < j < |c'| ensures c'[i] != c'[j] {
      assert c'[i] == c[i + 1] && c'[j] == c[j + 1];
    }
    assert Succ(m, c[|c| - 1]) == None;
  }

  /** On a well-formed map the walk from a key is a path. */
  lemma ChainIsPath(m: Listeners, y: Id)
    requires WellFormed(m) && y in m
    ensures IsPath(m, Chain(m, y), y)
  {
    assert IsPath(m, Chain(m, y), y);
  }

  /** One step of a chain walk on a well-formed map: the successor is a
      present, non-empty slave id and its chain is the rest of the walk. */
  lemma ChainStep(m: Listeners, y: Id)
    requires WellFormed(m) && y in m && m[y].next.Some?
    ensures var n := m[y].next.value; n in m && n != "" && m[n].master.Some?
    ensures Chain(m, y) == [y] + Chain(m, m[y].next.value)
  {
    var c := Chain(m, y);
    ChainIsPath(m, y);
    assert Succ(m, y) == m[y].next;
    assert Succ(m, c[0]) == Some(c[1]);
    PathTail(m, c, y);
    PathIsChain(m, c[1..], c[1]);
  }

  /** A path ends at the key whose `next` is null; all nodes before it have
      a truthy `next`, on a well-formed map. */
  lemma PathLinks(m: Listeners, c: seq<Id>, y: Id, i: nat)
    requires WellFormed(m) && IsPath(m, c, y) && i < |c|
    ensures c[i] in m
    ensures i < |c| - 1 ==> m[c[i]].next == Some(c[i + 1]) && Truthy(m[c[i]].next)
    ensures i == |c| - 1 ==> m[c[i]].next == None
  {
    assert Succ(m, c[i]) == m[c[i]].next;
  }

  /** On a well-formed map a master node has no predecessor. */
  lemma MasterIsUnpointed(m: Listeners, x: Id)
    requires WellFormed(m) && x in m && m[x].master.None?
    ensures Unpointed(m, x)
  {
  }

  /** `AtMost(q, p)` is the source's `q <= p`, where a missing precedence
      (`undefined <= p`) compares false. */
  predicate AtMost(q: Option<int>, p: int)
  {
    q.Some? && q.value <= p
  }

  /** The condition under which `on`'s walk moves past a node. */
  predicate Passes(node: Node, p: int)
  {
    Truthy(node.next) && AtMost(node.precedence, p)
  }

  /** The precedence `on` uses: a missing or zero argument becomes 100. */
  function EffectivePrecedence(precedence: Option<int>): (p: int)
    ensures p != 0
    ensures precedence.None? || precedence.value == 0 ==> p == 100
    ensures precedence.Some? && precedence.value != 0 ==> p == precedence.value
  {
    if precedence.None? || precedence.value == 0 then 100 else precedence.value
  }

  /** The index in chain `c` at which `on`'s walk stops: the first node the
      walk does not pass. */
  ghost function StopIndex(m: Listeners, c: seq<Id>, p: int): (k: nat)
    requires |c| > 0 && (forall i :: 0 <= i < |c| ==> c[i] in m)
    requires m[c[|c| - 1]].next == None
    ensures k < |c|
    ensures forall j :: 0 <= j < k ==> Passes(m[c[j]], p)
    ensures !Passes(m[c[k]], p)
    decreases |c|
  {
    if !Passes(m[c[0]], p) then 0
    else
      assert |c| > 1;
      1 + StopIndex(m, c[1..], p)
  }

  /** The insertion point the documented ordering calls for: the walk moves
      on while the NEXT node has a precedence at most `p`, so the new node
      goes behind every slave of precedence at most `p` and in front of the
      first one with a larger (or missing) precedence. */
  ghost function InsertIndex(m: Listeners, c: seq<Id>, p: int): (k: nat)
    requires |c| > 0 && (forall i :: 0 <= i < |c| ==> c[i] in m)
    ensures k < |c|
    ensures forall j :: 0 < j <= k ==> AtMost(m[c[j]].precedence, p)
    ensures k + 1 < |c| ==> !AtMost(m[c[k + 1]].precedence, p)
    decreases |c|
  {
    if |c| == 1 || !AtMost(m[c[1]].precedence, p) then 0
    else 1 + InsertIndex(m, c[1..], p)
  }

  /** The slaves of chain `c` (all but its head) carry precedences in
      non-decreasing order. */
  ghost predicate Ascending(m: Listeners, c: seq<Id>)
  {
    && (forall i :: 0 <= i < |c| ==> c[i] in m)
    && (forall i :: 1 <= i < |c| ==> m[c[i]].precedence.Some?)
    && (forall i, j :: 1 <= i < j < |c| ==> m[c[i]].precedence.value <= m[c[j]].precedence.value)
  }

  /** If the walk passes every node but the tail, it stops at the tail. */
  lemma StopAtTail(m: Listeners, c: seq<Id>, p: int)
    requires |c| > 0 && (forall i :: 0 <= i < |c| ==> c[i] in m)
    requires m[c[|c| - 1]].next == None
    requires forall i :: 0 <= i < |c| - 1 ==> m[c[i]].next.Some? && m[c[i]].next.value != ""
    requires forall i :: 0 <= i < |c| ==> AtMost(m[c[i]].precedence, p)
    ensures StopIndex(m, c, p) == |c| - 1
  {
  }

  /** On a well-formed map, when every node of the chain from `name` has a
      precedence at most `p`, the walk of `on` stops at the tail. */
  lemma StopAtEnd(m: Listeners, name: Id, p: int)
    requires WellFormed(m) && name in m
    requires forall i :: 0 <= i < |Chain(m, name)| ==> AtMost(m[Chain(m, name)[i]].precedence, p)
    ensures StopIndex(m, Chain(m, name), p) == |Chain(m, name)| - 1
  {
    var c := Chain(m, name);
    ChainIsPath(m, name);
    forall i | 0 <= i < |c| - 1 ensures m[c[i]].next.Some? && m[c[i]].next.value != "" {
      PathLinks(m, c, name, i);
    }
    PathLinks(m, c, name, |c| - 1);
    StopAtTail(m, c, p);
  }
}
