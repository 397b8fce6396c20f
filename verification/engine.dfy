/** The `Queuely` object and its `QueuelyBundle`s: the listener dictionary
    that `on`, `after`, `remove` and `removeMaster` change in place, the
    read-only walks over it, and the dispatcher methods, each proved against
    the registry invariant and the step functions of `Dispatch`. */
module Engine {
  import opened Registry
  import opened Updates
  import opened Dispatch

  /** A `QueuelyBundle`: the `this` of an invoked listener. Only its flags
      change after construction. */
  class Bundle {
    const watcher: Queuely
    const actual: Id
    const data: Value
    var flags: set<Flag>

    /** The flags argument is optional; a missing one becomes empty. */
    constructor (watcher: Queuely, actual: Id, data: Value, flags: Option<set<Flag>>)
      ensures this.watcher == watcher && this.actual == actual && this.data == data
      ensures this.flags == if flags.Some? then flags.value else {}
    {
      this.watcher := watcher;
      this.actual := actual;
      this.data := data;
      this.flags := if flags.Some? then flags.value else {};
    }

    /** What the listener sees of this bundle right now. */
    function Snapshot(): Context
      reads this
    {
      Context(actual, data, flags)
    }

    /** `bundle.Finish()`: hand this bundle to its watcher's `Finish`. */
    method Finish() returns (e: Effect<Bundle>)
      modifies this
      ensures Shows(e, FinishStep(watcher.listeners, old(Snapshot())).effect)
      ensures Snapshot() == FinishStep(watcher.listeners, old(Snapshot())).bundle
      ensures e.Invoked? ==> e.call.bundle == this || fresh(e.call.bundle)
    {
      e := watcher.Finish(this);
    }
  }

  /** The effect `e` of a method shows the effect `s` of the step function:
      the same node, and a bundle whose snapshot is the step's bundle. */
  ghost predicate Shows(e: Effect<Bundle>, s: Effect<Context>)
    reads if e.Invoked? then {e.call.bundle} else {}
  {
    match e
    case Invoked(c) => s.Invoked? && s.call.node == c.node && s.call.bundle == c.bundle.Snapshot()
    case NoCall => s.NoCall?
    case Raised => s.Raised?
  }

  /** `Finish` on a bundle for `actual` emits the next node. */
  ghost predicate HandsOn(m: Listeners, actual: Id)
  {
    actual in m && Truthy(m[actual].next) && m[actual].next.value in m
  }

  /** The chain registry. */
  class Queuely {
    var listeners: Listeners

    /** The registry invariant of `Registry.WellFormed`. */
    ghost predicate Valid()
      reads this
    {
      WellFormed(listeners)
    }

    constructor ()
      ensures listeners == map[] && Valid()
    {
      listeners := map[];
    }

    /** `on(name, listener, precedence)` with `uid` standing for the id
        `GetUID` generates. An unknown name gets a master node; otherwise the
        walk from `name` passes every node whose `next` is set and whose
        precedence is at most the new one, and the new slave becomes the
        `next` of the node where the walk stops, cutting off that node's
        old successors. */
    method On(name: Id, listener: Listener, precedence: Option<int>, uid: Id) returns (id: Id)
      requires Valid()
      requires name in listeners ==> uid !in listeners && uid != ""
      modifies this
      ensures Valid()
      ensures old(name !in listeners) ==>
        id == name && listeners == old(listeners)[name := Node(listener, None, None, Some(-1))]
      ensures old(name in listeners) ==> (
        var m := old(listeners);
        var c := Chain(m, name);
        var p := EffectivePrecedence(precedence);
        var k := StopIndex(m, c, p);
        && id == uid
        && listeners == Appended(m, c[k], uid, Node(listener, Some(name), None, Some(p)))
        && Chain(listeners, name) == c[..k + 1] + [uid])
      ensures old(name in listeners) ==> (
        var m := old(listeners);
        var c := Chain(m, name);
        (forall i :: 0 <= i < |c| ==> AtMost(m[c[i]].precedence, EffectivePrecedence(precedence))) ==>
          Chain(listeners, name) == c + [uid])
    {
      var p := EffectivePrecedence(precedence);
      if name !in listeners {
        AddTail(listeners, name, Node(listener, None, None, Some(-1)));
        listeners := listeners[name := Node(listener, None, None, Some(-1))];
        return name;
      }
      ghost var m := listeners;
      ghost var c := Chain(m, name);
      var current := StopNode(name, p);
      ghost var k := StopIndex(m, c, p);
      var node := Node(listener, Some(name), None, Some(p));
      AppendAtStop(m, name, p, uid, node);
      listeners := listeners[uid := node][current := listeners[current].(next := Some(uid))];
      id := uid;
    }

    /** `on` as its documentation describes it: the walk moves on while the
        next node has a precedence at most the new one, and the new slave
        takes over the `next` of the node where the walk stops, so no node
        leaves the chain and an ascending chain stays ascending. */
    method OnInOrder(name: Id, listener: Listener, precedence: Option<int>, uid: Id) returns (id: Id)
      requires Valid()
      requires name in listeners ==> uid !in listeners && uid != ""
      modifies this
      ensures Valid()
      ensures old(name !in listeners) ==>
        id == name && listeners == old(listeners)[name := Node(listener, None, None, Some(-1))]
      ensures old(name in listeners) ==> (
        var m := old(listeners);
        var c := Chain(m, name);
        var p := EffectivePrecedence(precedence);
        var k := InsertIndex(m, c, p);
        && id == uid
        && listeners == Spliced(m, c[k], uid, Node(listener, Some(name), m[c[k]].next, Some(p)))
        && Chain(listeners, name) == c[..k + 1] + [uid] + c[k + 1..]
        && (Ascending(m, c) ==> Ascending(listeners, Chain(listeners, name))))
    {
      var p := EffectivePrecedence(precedence);
      if name !in listeners {
        AddTail(listeners, name, Node(listener, None, None, Some(-1)));
        listeners := listeners[name := Node(listener, None, None, Some(-1))];
        return name;
      }
      ghost var m := listeners;
      var current := InsertPoint(name, p);
      var node := Node(listener, Some(name), listeners[current].next, Some(p));
      InsertOutcome(m, name, p, uid, listener, current);
      listeners := listeners[uid := node][current := listeners[current].(next := Some(uid))];
      id := uid;
    }

    /** The walk of the documented `on`: from `name`, move along `next` while
        the next node has a precedence at most `p`; the node where it stops. */
    method InsertPoint(name: Id, p: int) returns (current: Id)
      requires Valid() && name in listeners
      ensures current == Chain(listeners, name)[InsertIndex(listeners, Chain(listeners, name), p)]
    {
      ghost var c := Chain(listeners, name);
      ChainIsPath(listeners, name);
      current := name;
      ghost var k := 0;
      PathLinks(listeners, c, name, 0);
      while Truthy(listeners[current].next) && AtMost(listeners[listeners[current].next.value].precedence, p)
        invariant 0 <= k < |c| && current == c[k]
        invariant forall j :: 0 < j <= k ==> AtMost(listeners[c[j]].precedence, p)
        invariant k + 1 < |c| ==> listeners[current].next == Some(c[k + 1]) && Truthy(listeners[current].next)
        invariant k + 1 == |c| ==> listeners[current].next == None
        decreases |c| - k
      {
        current := listeners[current].next.value;
        k := k + 1;
        PathLinks(listeners, c, name, k);
      }
      assert k == InsertIndex(listeners, c, p);
    }

    /** The walk of `on`: from `name`, move along `next` while the node has
        a `next` and a precedence at most `p`; the node where it stops. */
    method StopNode(name: Id, p: int) returns (current: Id)
      requires Valid() && name in listeners
      ensures current == Chain(listeners, name)[StopIndex(listeners, Chain(listeners, name), p)]
    {
      ghost var c := Chain(listeners, name);
      ChainIsPath(listeners, name);
      ghost var k := 0;
      current := name;
      while Passes(listeners[current], p)
        invariant 0 <= k < |c| && current == c[k]
        invariant forall j :: 0 <= j < k ==> Passes(listeners[c[j]], p)
        decreases |c| - k
      {
        PathLinks(listeners, c, name, k);
        current := listeners[current].next.value;
        k := k + 1;
      }
      assert k == StopIndex(listeners, c, p);
    }

    /** `after(anchor, listener)` with `uid` standing for the generated id.
        An unknown anchor yields null and no change. Otherwise the new node,
        without precedence, becomes the anchor's `next`, takes over the
        anchor's old `next`, and names the anchor's master, or the anchor
        itself when the anchor is a master. */
    method After(anchor: Id, listener: Listener, uid: Id) returns (id: Option<Id>)
      requires Valid()
      requires anchor in listeners ==> uid !in listeners && uid != ""
      modifies this
      ensures Valid()
      ensures old(anchor !in listeners) ==> id == None && listeners == old(listeners)
      ensures old(anchor in listeners) ==> (
        var m := old(listeners);
        var master := if Truthy(m[anchor].master) then m[anchor].master else Some(anchor);
        && id == Some(uid)
        && listeners == Spliced(m, anchor, uid, Node(listener, master, m[anchor].next, None))
        && Chain(listeners, anchor) == [anchor, uid] + Chain(m, anchor)[1..])
    {
      if anchor !in listeners {
        return None;
      }
      ghost var m := listeners;
      var infront := listeners[anchor];
      var node := Node(listener, if Truthy(infront.master) then infront.master else Some(anchor), None, None);
      listeners := listeners[uid := node];
      if KeyOf(infront.next) in listeners {
        node := node.(next := infront.next);
        listeners := listeners[uid := node];
      }
      assert node.next == infront.next by {
        if infront.next.Some? {
          ChainIsPath(m, anchor);
          PathLinks(m, Chain(m, anchor), anchor, 0);
          ChainStep(m, anchor);
        }
      }
      listeners := listeners[anchor := infront.(next := Some(uid))];
      assert listeners == Spliced(m, anchor, uid, node);
      SpliceAtAnchor(m, anchor, uid, node);
      id := Some(uid);
    }

    /** `removeMaster(name)`: collect `name` and every id reachable from it,
        then delete them all. The result says whether `name` was a key. The
        registry stays well-formed when no node pointed at `name`, which
        holds for every master. */
    method RemoveMaster(name: Id) returns (removed: bool)
      requires Valid()
      modifies this
      ensures removed == old(name in listeners)
      ensures listeners == old(listeners) - Elems(old(Chain(listeners, name)))
      ensures old(Unpointed(listeners, name)) ==> Valid()
    {
      if name !in listeners {
        assert Elems(Chain(listeners, name)) == {};
        return false;
      }
      ghost var m := listeners;
      ghost var c := Chain(m, name);
      var keylist := Reach(name);
      var i := 0;
      while i < |keylist|
        invariant 0 <= i <= |keylist|
        invariant listeners == m - Elems(keylist[..i])
      {
        assert Elems(keylist[..i + 1]) == Elems(keylist[..i]) + {keylist[i]} by {
          assert keylist[..i + 1] == keylist[..i] + [keylist[i]];
        }
        listeners := listeners - {keylist[i]};
        i := i + 1;
      }
      assert keylist[..i] == c;
      if Unpointed(m, name) {
        RemoveChainKeepsWellFormed(m, name);
      }
      return true;
    }

    /** The first loop of `removeMaster`: the ids reachable from `name`,
        starting with `name`, in chain order. */
    method Reach(name: Id) returns (keylist: seq<Id>)
      requires Valid() && name in listeners
      ensures keylist == Chain(listeners, name)
    {
      ghost var c := Chain(listeners, name);
      ChainIsPath(listeners, name);
      keylist := [name];
      var current := name;
      ghost var k := 0;
      while Truthy(listeners[current].next)
        invariant 0 <= k < |c| && current == c[k] && keylist == c[..k + 1]
        decreases |c| - k
      {
        PathLinks(listeners, c, name, k);
        keylist := keylist + [listeners[current].next.value];
        current := listeners[current].next.value;
        k := k + 1;
      }
      PathLinks(listeners, c, name, k);
      assert c[..k + 1] == c;
    }

    /** `remove(name)`: a master is removed with its whole chain, as by
        `removeMaster`. A slave is looked for along its master's chain; when
        found, its predecessor is relinked past it and it alone is deleted.
        A master id that is not a key makes the walk throw. */
    method Remove(name: Id) returns (r: Outcome<bool>)
      requires Valid()
      modifies this
      ensures Valid()
      ensures old(name !in listeners) ==> r == Returned(false) && listeners == old(listeners)
      ensures old(name in listeners && listeners[name].master.None?) ==>
        r == Returned(true) && listeners == old(listeners) - Elems(old(Chain(listeners, name)))
      ensures old(name in listeners && listeners[name].master.Some? && listeners[name].master.value !in listeners) ==>
        r == Threw && listeners == old(listeners)
      ensures old(name in listeners && listeners[name].master.Some? && listeners[name].master.value in listeners) ==>
        var m := old(listeners);
        var c := Chain(m, m[name].master.value);
        if name in c[1..] then
          var j := IndexOf(c, name);
          0 < j && r == Returned(true) && listeners == Unlinked(m, c[j - 1], name) &&
          Chain(listeners, c[0]) == c[..j] + c[j + 1..]
        else
          r == Returned(false) && listeners == m
    {
      if name in listeners && listeners[name].master.None? {
        MasterIsUnpointed(listeners, name);
        var removed := RemoveMaster(name);
        return Returned(removed);
      }
      if name !in listeners {
        return Returned(false);
      }
      var master := listeners[name].master.value;
      if master !in listeners {
        return Threw;
      }
      ghost var m := listeners;
      ghost var c := Chain(m, master);
      var found, before := FindBefore(master, name);
      if !found {
        return Returned(false);
      }
      ghost var j := IndexOf(c, name);
      ChainIsPath(m, master);
      PathLinks(m, c, master, j - 1);
      UnlinkKeepsWellFormed(m, before, name);
      listeners := listeners[before := listeners[before].(next := listeners[name].next)];
      listeners := listeners - {name};
      assert listeners == Unlinked(m, before, name);
      return Returned(true);
    }

    /** The walk of `remove` along the chain of `master`: it looks for the
        node whose `next` is `name` and reports that node. */
    method FindBefore(master: Id, name: Id) returns (found: bool, before: Id)
      requires Valid() && master in listeners
      ensures var c := Chain(listeners, master);
        && (found <==> name in c[1..])
        && (found ==> 0 < IndexOf(c, name) && before == c[IndexOf(c, name) - 1])
    {
      ghost var c := Chain(listeners, master);
      ChainIsPath(listeners, master);
      before := master;
      ghost var k := 0;
      while Truthy(listeners[before].next)
        invariant 0 <= k < |c| && before == c[k]
        invariant forall j :: 1 <= j <= k ==> c[j] != name
        decreases |c| - k
      {
        PathLinks(listeners, c, master, k);
        var next := listeners[before].next.value;
        if next == name {
          FoundAt(c, name, k);
          return true, before;
        }
        before := next;
        k := k + 1;
      }
      PathLinks(listeners, c, master, k);
      NotInTail(c, name);
      return false, before;
    }

    /** `eventNames()`: the keys whose node has no master. */
    method EventNames() returns (names: set<Id>)
      ensures names == set x | x in listeners && listeners[x].master.None?
    {
      names := {};
      var keys := listeners.Keys;
      while keys != {}
        invariant keys <= listeners.Keys
        invariant names == set x | x in listeners.Keys - keys && listeners[x].master.None?
        decreases keys
      {
        var key :| key in keys;
        if listeners[key].master.None? {
          names := names + {key};
        }
        keys := keys - {key};
      }
    }

    /** `followerCount(name)`: 0 for an unknown name, otherwise the number
        of nodes reachable from `name` after `name` itself. */
    method FollowerCount(name: Id) returns (count: nat)
      requires Valid()
      ensures name !in listeners ==> count == 0
      ensures name in listeners ==> count == |Chain(listeners, name)| - 1
    {
      if name !in listeners {
        return 0;
      }
      ghost var c := Chain(listeners, name);
      ChainIsPath(listeners, name);
      count := 0;
      var current := name;
      while Truthy(listeners[current].next)
        invariant count < |c| && current == c[count]
        decreases |c| - count
      {
        PathLinks(listeners, c, name, count);
        current := listeners[current].next.value;
        count := count + 1;
      }
      PathLinks(listeners, c, name, count);
    }

    /** `followers(name)`: `None` (the source's 0) for an unknown name,
        otherwise the callbacks of the nodes reachable from `name` after
        `name` itself, in chain order. */
    method Followers(name: Id) returns (r: Option<seq<Listener>>)
      requires Valid()
      ensures name !in listeners ==> r == None
      ensures name in listeners ==> r == Some(ListenersOf(listeners, Chain(listeners, name)[1..]))
    {
      if name !in listeners {
        return None;
      }
      ghost var c := Chain(listeners, name);
      ChainIsPath(listeners, name);
      var out: seq<Listener> := [];
      var current := name;
      ghost var k := 0;
      while Truthy(listeners[current].next)
        invariant k < |c| && current == c[k]
        invariant out == ListenersOf(listeners, c[1..k + 1])
        decreases |c| - k
      {
        PathLinks(listeners, c, name, k);
        current := listeners[current].next.value;
        out := out + [listeners[current].listener];
        k := k + 1;
      }
      PathLinks(listeners, c, name, k);
      assert c[1..k + 1] == c[1..];
      return Some(out);
    }

    /** `emit(args...)`: false and no invocation, or true and the single
        invocation `Dispatch.EmitStep` describes, with a new bundle. A master
        hands on its remaining arguments, collected one by one into a list. */
    method Emit(args: seq<Value>) returns (ok: bool, call: Option<Call<Bundle>>)
      ensures ok <==> EmitStep(listeners, args).Some?
      ensures call.Some? <==> ok
      ensures ok ==> (
        && call.value.node == EmitStep(listeners, args).value.node
        && call.value.bundle.Snapshot() == EmitStep(listeners, args).value.bundle
        && call.value.bundle.watcher == this
        && fresh(call.value.bundle))
    {
      if |args| < 1 {
        return false, None;
      }
      if !args[0].Str? || args[0].s !in listeners {
        return false, None;
      }
      var name := args[0].s;
      var listener := listeners[name];
      var b: Bundle;
      if listener.master.None? {
        var data: seq<Value> := [];
        var i := 1;
        while i < |args|
          invariant 1 <= i <= |args|
          invariant data == args[1..i]
        {
          data := data + [args[i]];
          i := i + 1;
        }
        if listener.next.Some? && listener.next.value in listeners {
          b := new Bundle(this, listener.next.value, List(data), None);
          call := Some(Call(listener.next.value, b));
        } else {
          b := new Bundle(this, name, List(data), None);
          call := Some(Call(name, b));
        }
      } else {
        b := new Bundle(this, name, if |args| > 1 then args[1] else Undefined, None);
        call := Some(Call(name, b));
      }
      ok := true;
    }

    /** Invoke the listener stored under the master field of `b`'s node
        with `b` itself; a null master is looked up as the key "null". */
    method CallMaster(b: Bundle) returns (e: Effect<Bundle>)
      requires b.actual in listeners
      ensures Shows(e, MasterEffect(listeners, b.Snapshot()))
      ensures e.Invoked? ==> e.call.bundle == b
    {
      var key := KeyOf(listeners[b.actual].master);
      if key !in listeners {
        return Raised;
      }
      return Invoked(Call(key, b));
    }

    /** `Finish(bundle)`: the step `Dispatch.FinishStep` describes. The next
        node gets a new bundle; the master gets this one, flagged. */
    method Finish(b: Bundle) returns (e: Effect<Bundle>)
      modifies b
      ensures Shows(e, FinishStep(listeners, old(b.Snapshot())).effect)
      ensures b.Snapshot() == FinishStep(listeners, old(b.Snapshot())).bundle
      ensures e.Invoked? && HandsOn(listeners, b.actual) ==> fresh(e.call.bundle)
      ensures e.Invoked? && !HandsOn(listeners, b.actual) ==> e.call.bundle == b
    {
      if b.actual !in listeners {
        return Raised;
      }
      var next := listeners[b.actual].next;
      if Truthy(next) {
        var ok, call := Emit([Str(next.value), b.data]);
        if ok {
          return Invoked(call.value);
        }
        b.flags := b.flags + {PrematureTermination};
        e := CallMaster(b);
      } else {
        b.flags := b.flags + {CompleteTermination};
        e := CallMaster(b);
      }
    }

    /** `Terminate(bundle, hard)`: the step `Dispatch.TerminateStep`
        describes. */
    method Terminate(b: Bundle, hard: bool) returns (e: Effect<Bundle>)
      modifies b
      ensures Shows(e, TerminateStep(listeners, old(b.Snapshot()), hard).effect)
      ensures b.Snapshot() == TerminateStep(listeners, old(b.Snapshot()), hard).bundle
      ensures e.Invoked? ==> e.call.bundle == b
    {
      if hard {
        return NoCall;
      }
      b.flags := b.flags + {PrematureTermination};
      if b.actual !in listeners {
        return Raised;
      }
      e := CallMaster(b);
    }
  }

  /** What `OnInOrder` needs of `Updates.InsertInOrder`, for the node its
      walk returns. */
  lemma InsertOutcome(m: Listeners, name: Id, p: int, uid: Id, listener: Listener, current: Id)
    requires WellFormed(m) && name in m && uid !in m && uid != ""
    requires current == Chain(m, name)[InsertIndex(m, Chain(m, name), p)]
    ensures current in m
    ensures var c := Chain(m, name); var k := InsertIndex(m, c, p);
      var m' := Spliced(m, current, uid, Node(listener, Some(name), m[current].next, Some(p)));
      && WellFormed(m')
      && Chain(m', name) == c[..k + 1] + [uid] + c[k + 1..]
      && (Ascending(m, c) ==> Ascending(m', Chain(m', name)))
  {
    InsertInOrder(m, name, p, uid, listener);
  }

  /** In a duplicate-free sequence, an element first met at `k + 1` past the
      head sits at index `k + 1`. */
  lemma FoundAt(c: seq<Id>, x: Id, k: nat)
    requires k + 1 < |c| && c[k + 1] == x && forall j :: 1 <= j <= k ==> c[j] != x
    requires forall i, j :: 0 <= i < j < |c| ==> c[i] != c[j]
    ensures x in c[1..] && IndexOf(c, x) == k + 1
  {
    assert c[1..][k] == x;
    var j := IndexOf(c, x);
    assert c[0] != c[k + 1];
    assert forall i :: 0 <= i < j ==> c[..j][i] == c[i];
  }

  /** An id that occurs at no position after the first is not in the tail. */
  lemma NotInTail(c: seq<Id>, x: Id)
    requires |c| > 0 && forall j :: 1 <= j < |c| ==> c[j] != x
    ensures x !in c[1..]
  {
    assert forall j :: 0 <= j < |c| - 1 ==> c[1..][j] == c[j + 1];
  }

  /** Registering at the tail of the chain of `name` (what `on` does when no
      node on the chain has a larger precedence): the registry stays
      well-formed and the chain gains the new id at its end, so
      `followerCount` grows by one and `followers` gains the new callback
      last. */
  lemma RegisterAtTail(m: Listeners, name: Id, uid: Id, node: Node)
    requires WellFormed(m) && name in m && uid !in m && uid != ""
    requires node.next == None && node.master == Some(name)
    ensures var c := Chain(m, name);
      var m' := Appended(m, c[|c| - 1], uid, node);
      && WellFormed(m')
      && Chain(m', name) == c + [uid]
      && ListenersOf(m', (c + [uid])[1..]) == ListenersOf(m, c[1..]) + [node.listener]
  {
    var c := Chain(m, name);
    AppendAtTail(m, name, uid, node);
    var s := c[|c| - 1];
    FollowersGrow(m, c, s, uid, node);
    var m' := Appended(m, s, uid, node);
    assert WellFormed(m');
    assert Chain(m', name) == c + [uid];
    assert ListenersOf(m', (c + [uid])[1..]) == ListenersOf(m, c[1..]) + [node.listener];
  }

  /** The callbacks after the head of `c + [uid]`, once `uid` is appended:
      those after the head of `c`, then the new one. */
  lemma FollowersGrow(m: Listeners, c: seq<Id>, s: Id, uid: Id, node: Node)
    requires s in m && uid !in m && |c| > 0
    requires forall i :: 0 <= i < |c| ==> c[i] in m
    ensures forall i :: 0 <= i < |c| ==> (c + [uid])[1..][i] in Appended(m, s, uid, node)
    ensures ListenersOf(Appended(m, s, uid, node), (c + [uid])[1..]) == ListenersOf(m, c[1..]) + [node.listener]
  {
    forall i | 0 <= i < |c| - 1 ensures c[1..][i] in m {
      assert c[1..][i] == c[i + 1];
    }
    AppendedKeeps(m, s, uid, node, c[1..]);
    assert (c + [uid])[1..] == c[1..] + [uid];
  }

  /** Registering at the tail keeps the chain serving its master. */
  lemma RegisterKeepsServes(m: Listeners, name: Id, uid: Id, node: Node)
    requires Serves(m, name) && uid !in m && uid != ""
    requires node.next == None && node.master == Some(name)
    ensures Serves(Appended(m, Chain(m, name)[|Chain(m, name)| - 1], uid, node), name)
  {
    var c := Chain(m, name);
    RegisterAtTail(m, name, uid, node);
    var m' := Appended(m, c[|c| - 1], uid, node);
    AppendedKeeps(m, c[|c| - 1], uid, node, c);
    forall i | 1 <= i < |c| + 1
      ensures (c + [uid])[i] in m' && m'[(c + [uid])[i]].master == Some(name)
    {
      if i < |c| {
        assert (c + [uid])[i] == c[i] && m[c[i]].master == Some(name);
      }
    }
    ServesAgain(m', name, c + [uid]);
  }

  /** `on(h, …)` at any stop node keeps the chain serving its master: the
      chain is cut behind the stop node, and every node left on it, the new
      one included, names `h` as its master. */
  lemma OnKeepsServes(m: Listeners, h: Id, p: int, uid: Id, cb: Listener)
    requires Serves(m, h) && uid !in m && uid != ""
    ensures var c := Chain(m, h); var k := StopIndex(m, c, p);
      Serves(Appended(m, c[k], uid, Node(cb, Some(h), None, Some(p))), h)
  {
    var c := Chain(m, h);
    var k := StopIndex(m, c, p);
    var node := Node(cb, Some(h), None, Some(p));
    var m' := Appended(m, c[k], uid, node);
    AppendAtStop(m, h, p, uid, node);
    var c' := c[..k + 1] + [uid];
    forall i | 1 <= i < |c'| ensures c'[i] in m' && m'[c'[i]].master == Some(h) {
      if i <= k {
        assert c'[i] == c[i] && c[i] in m;
      }
    }
    ServesAgain(m', h, c');
  }

  /** `after(a, …)` with `a` on the chain of a master `h` other than `""`
      keeps the chain serving `h`: the new node takes `h` as its master,
      whether `a` is `h` itself or one of its slaves. */
  lemma AfterKeepsServes(m: Listeners, h: Id, i: nat, uid: Id, cb: Listener)
    requires Serves(m, h) && uid !in m && uid != "" && h != "" && i < |Chain(m, h)|
    ensures var a := Chain(m, h)[i];
      var master := if Truthy(m[a].master) then m[a].master else Some(a);
      Serves(Spliced(m, a, uid, Node(cb, master, m[a].next, None)), h)
  {
    var c := Chain(m, h);
    ChainIsPath(m, h);
    var a := c[i];
    var master := if Truthy(m[a].master) then m[a].master else Some(a);
    assert master == Some(h) by {
      if i == 0 {
        assert a == h;
      }
    }
    var node := Node(cb, master, m[a].next, None);
    var m' := Spliced(m, a, uid, node);
    SpliceAt(m, a, uid, node, h, i);
    var c' := c[..i + 1] + [uid] + c[i + 1..];
    Inserted(c, i, uid);
    forall j | 1 <= j < |c'| ensures c'[j] in m' && m'[c'[j]].master == Some(h) {
      if j <= i {
        assert c'[j] == c[j];
      } else if i + 1 < j {
        assert c'[j] == c[j - 1];
      }
    }
    ServesAgain(m', h, c');
  }

  /** `remove` of a slave keeps every chain serving its master: the slave
      drops out, and the nodes left keep their masters. */
  lemma UnlinkKeepsServes(m: Listeners, h: Id, p: Id, x: Id)
    requires Serves(m, h) && p in m && x in m && m[p].next == Some(x)
    ensures Serves(Unlinked(m, p, x), h)
  {
    if j :| 0 <= j < |Chain(m, h)| && Chain(m, h)[j] == x {
      UnlinkServesThrough(m, h, p, x, j);
    } else {
      UnlinkServesOff(m, h, p, x);
    }
  }

  /** One chain through the removed slave, as `UnlinkKeepsWellFormed` gives it. */
  lemma UnlinkThrough(m: Listeners, p: Id, x: Id, y: Id, j: nat)
    requires WellFormed(m) && p in m && x in m && m[p].next == Some(x)
    requires y in m && y != x && j < |Chain(m, y)| && Chain(m, y)[j] == x
    ensures WellFormed(Unlinked(m, p, x))
    ensures Chain(Unlinked(m, p, x), y) == Chain(m, y)[..j] + Chain(m, y)[j + 1..]
  {
    UnlinkKeepsWellFormed(m, p, x);
  }

  /** One chain that avoids the removed slave, as `UnlinkKeepsWellFormed` gives it. */
  lemma UnlinkOff(m: Listeners, p: Id, x: Id, y: Id)
    requires WellFormed(m) && p in m && x in m && m[p].next == Some(x)
    requires y in m && x !in Chain(m, y)
    ensures WellFormed(Unlinked(m, p, x))
    ensures Chain(Unlinked(m, p, x), y) == Chain(m, y)
  {
    UnlinkKeepsWellFormed(m, p, x);
  }

  /** `Unlinked` keeps the master of every node other than the removed one. */
  lemma UnlinkedMasters(m: Listeners, p: Id, x: Id, z: Id)
    requires p in m && x in m && z in m && z != x
    ensures z in Unlinked(m, p, x) && Unlinked(m, p, x)[z].master == m[z].master
  {
  }

  /** The removed slave was on the chain of `h`, at position `j`. */
  lemma UnlinkServesThrough(m: Listeners, h: Id, p: Id, x: Id, j: nat)
    requires Serves(m, h) && p in m && x in m && m[p].next == Some(x)
    requires j < |Chain(m, h)| && Chain(m, h)[j] == x
    ensures Serves(Unlinked(m, p, x), h)
  {
    var c := Chain(m, h);
    ChainIsPath(m, h);
    var m' := Unlinked(m, p, x);
    assert Succ(m, p) == Some(x);
    assert x != h;
    UnlinkThrough(m, p, x, h, j);
    var c' := c[..j] + c[j + 1..];
    forall t | 1 <= t < |c'| ensures c'[t] in m' && m'[c'[t]].master == Some(h) {
      var u := if t < j then t else t + 1;
      assert c'[t] == c[u] && c[u] != x;
      UnlinkedMasters(m, p, x, c[u]);
    }
    UnlinkedMasters(m, p, x, h);
    ServesAgain(m', h, c');
  }

  /** The removed slave was not on the chain of `h`. */
  lemma UnlinkServesOff(m: Listeners, h: Id, p: Id, x: Id)
    requires Serves(m, h) && p in m && x in m && m[p].next == Some(x)
    requires x !in Chain(m, h)
    ensures Serves(Unlinked(m, p, x), h)
  {
    var c := Chain(m, h);
    ChainIsPath(m, h);
    var m' := Unlinked(m, p, x);
    UnlinkOff(m, p, x, h);
    forall t | 1 <= t < |c| ensures c[t] in m' && m'[c[t]].master == Some(h) {
      assert c[t] != x;
      UnlinkedMasters(m, p, x, c[t]);
    }
    UnlinkedMasters(m, p, x, h);
    ServesAgain(m', h, c);
  }

  /** `removeMaster` of an unpointed key whose chain avoids `h` keeps the
      chain of `h` serving it. */
  lemma RemoveChainKeepsServes(m: Listeners, h: Id, x: Id)
    requires Serves(m, h) && x in m && Unpointed(m, x) && h !in Chain(m, x)
    ensures Serves(m - Elems(Chain(m, x)), h)
  {
    var c := Chain(m, h);
    ChainIsPath(m, h);
    var m' := m - Elems(Chain(m, x));
    RemoveChainKeepsWellFormed(m, x);
    ChainsDisjoint(m, x, h);
    forall t | 1 <= t < |c| ensures c[t] in m' && m'[c[t]].master == Some(h) {
      assert c[t] in Chain(m, h);
    }
    ServesAgain(m', h, c);
  }

  /** Registering at the tail with a precedence of at most `p` keeps every
      precedence along the chain at most `p`, so the next registration with
      precedence `p` lands at the tail again. */
  lemma RegisterKeepsBound(m: Listeners, name: Id, uid: Id, node: Node, p: int)
    requires WellFormed(m) && name in m && uid !in m && uid != ""
    requires node.next == None && node.master == Some(name) && AtMost(node.precedence, p)
    requires forall i :: 0 <= i < |Chain(m, name)| ==> AtMost(m[Chain(m, name)[i]].precedence, p)
    ensures var c := Chain(m, name);
      var m' := Appended(m, c[|c| - 1], uid, node);
      forall i :: 0 <= i < |c| + 1 ==> (c + [uid])[i] in m' && AtMost(m'[(c + [uid])[i]].precedence, p)
  {
    var c := Chain(m, name);
    RegisterAtTail(m, name, uid, node);
    var m' := Appended(m, c[|c| - 1], uid, node);
    AppendedKeeps(m, c[|c| - 1], uid, node, c);
    forall i | 0 <= i < |c| + 1 ensures (c + [uid])[i] in m' && AtMost(m'[(c + [uid])[i]].precedence, p) {
      if i < |c| {
        assert (c + [uid])[i] == c[i];
      }
    }
  }

  /** A well-formed map whose chain from master `h` names `h` as the master
      of every later node serves `h`. */
  lemma ServesAgain(m: Listeners, h: Id, c: seq<Id>)
    requires WellFormed(m) && h in m && m[h].master.None? && Chain(m, h) == c
    requires forall i :: 1 <= i < |c| ==> c[i] in m && m[c[i]].master == Some(h)
    ensures Serves(m, h)
  {
  }

  /** `Appended` changes only the `next` of the stop node and adds the new
      node: the callbacks, masters and precedences along ids that avoid the
      new id are as before, and the new id contributes its own. */
  lemma AppendedKeeps(m: Listeners, s: Id, uid: Id, node: Node, d: seq<Id>)
    requires s in m && uid !in m
    requires forall i :: 0 <= i < |d| ==> d[i] in m
    ensures var m' := Appended(m, s, uid, node);
      && (forall i :: 0 <= i < |d| + 1 ==> (d + [uid])[i] in m')
      && ListenersOf(m', d + [uid]) == ListenersOf(m, d) + [node.listener]
      && (forall i :: 0 <= i < |d| ==>
          m'[d[i]].master == m[d[i]].master && m'[d[i]].precedence == m[d[i]].precedence)
      && m'[uid] == node
  {
    var m' := Appended(m, s, uid, node);
    assert forall i :: 0 <= i < |d| ==> (d + [uid])[i] == d[i] && d[i] != uid;
  }
}
