/** The dispatcher of Queuely as pure step functions: which single node
    `emit`, `Finish` and `Terminate` invoke and with what bundle, and a run
    of a whole chain in which every invoked listener answers with a choice
    (finish, terminate softly or hard, or do nothing). */
module Dispatch {
  import opened Registry

  /** The JavaScript values handed to `emit` and carried as bundle data. */
  datatype Value = Undefined | Num(n: int) | Str(s: string) | List(items: seq<Value>)

  /** The flags a bundle can carry. */
  datatype Flag = PrematureTermination | CompleteTermination

  /** What a listener sees of its `QueuelyBundle`: the node it was invoked
      for, the data, and the termination flags. */
  datatype Context = Context(actual: Id, data: Value, flags: set<Flag>)

  /** The invocation of the listener stored under `node` with `bundle` as
      its `this`. */
  datatype Call<B> = Call(node: Id, bundle: B)

  /** What a dispatcher step does: invoke one listener, invoke nothing, or
      raise a TypeError by dereferencing a missing node. */
  datatype Effect<B> = Invoked(call: Call<B>) | NoCall | Raised

  /** The bundle after a step (its flags may have changed) and the effect. */
  datatype Step = Step(bundle: Context, effect: Effect<Context>)

  /** How an invoked listener answers. */
  datatype Choice = CallFinish | SoftTerminate | HardTerminate | Suspend

  /** A fresh bundle as `emit` builds it: no flags. */
  function NewBundle(actual: Id, data: Value): Context
  {
    Context(actual, data, {})
  }

  /** `emit(args...)`: `None` when it returns false; otherwise the single
      invocation it makes before returning true. A master whose `next` node
      exists hands its first slave the remaining arguments as a list; any
      other master is invoked itself; a slave gets the second argument. */
  function EmitStep(m: Listeners, args: seq<Value>): (r: Option<Call<Context>>)
    ensures r.None? <==> |args| == 0 || !args[0].Str? || args[0].s !in m
    ensures r.Some? ==> r.value.node in m && r.value.bundle == NewBundle(r.value.node, r.value.bundle.data)
    ensures r.Some? && m[args[0].s].master.Some? ==>
      r.value.node == args[0].s && r.value.bundle.data == (if |args| > 1 then args[1] else Undefined)
    ensures r.Some? && m[args[0].s].master.None? ==>
      r.value.bundle.data == List(args[1..]) &&
      r.value.node == (if Succ(m, args[0].s).Some? && Succ(m, args[0].s).value in m then Succ(m, args[0].s).value else args[0].s)
  {
    if |args| < 1 then None
    else match args[0]
      case Str(name) =>
        if name !in m then None
        else if m[name].master.None? then
          var data := List(args[1..]);
          var next := m[name].next;
          if next.Some? && next.value in m then Some(Call(next.value, NewBundle(next.value, data)))
          else Some(Call(name, NewBundle(name, data)))
        else Some(Call(name, NewBundle(name, if |args| > 1 then args[1] else Undefined)))
      case _ => None
  }

  /** The key a JavaScript property lookup uses for an id-valued field:
      `null` is converted to the string "null". */
  function KeyOf(o: Option<Id>): (k: Id)
    ensures o.Some? ==> k == o.value
    ensures o.None? ==> k == "null"
  {
    match o
    case Some(x) => x
    case None => "null"
  }

  /** `emit` exactly as written: the lookup of a master's `next` also runs
      when `next` is null, and then finds whatever node is stored under the
      key "null". The invoked bundle's `actual` is null there; it is shown
      as "null", the key every later lookup of it uses. */
  function EmitStepAsWritten(m: Listeners, args: seq<Value>): (r: Option<Call<Context>>)
    ensures r.None? <==> |args| == 0 || !args[0].Str? || args[0].s !in m
    ensures r.Some? ==> r.value.node in m
    ensures r.Some? && m[args[0].s].master.None? ==>
      r.value.node == (if KeyOf(m[args[0].s].next) in m then KeyOf(m[args[0].s].next) else args[0].s)
  {
    if |args| < 1 then None
    else match args[0]
      case Str(name) =>
        if name !in m then None
        else if m[name].master.None? then
          var data := List(args[1..]);
          var key := KeyOf(m[name].next);
          if key in m then Some(Call(key, NewBundle(key, data)))
          else Some(Call(name, NewBundle(name, data)))
        else Some(Call(name, NewBundle(name, if |args| > 1 then args[1] else Undefined)))
      case _ => None
  }

  /** Invoking the master of the bundle's node with that same bundle. The
      lookup uses the master field as a key, so a node without a master (a
      master node itself) finds whatever is stored under "null"; a key that
      is not present makes the lookup throw. */
  function MasterEffect(m: Listeners, b: Context): (e: Effect<Context>)
    requires b.actual in m
    ensures m[b.actual].master.Some? ==>
      (e.Invoked? <==> m[b.actual].master.value in m) &&
      (e.Invoked? ==> e.call == Call(m[b.actual].master.value, b))
    ensures m[b.actual].master.None? ==>
      (e.Invoked? <==> "null" in m) && (e.Invoked? ==> e.call == Call("null", b))
    ensures !e.NoCall?
  {
    var k := KeyOf(m[b.actual].master);
    if k in m then Invoked(Call(k, b)) else Raised
  }

  /** `Finish(bundle)`: emit the next node with the same data; if that emit
      fails, flag premature termination and invoke the master; at the tail,
      flag complete termination and invoke the master. */
  function FinishStep(m: Listeners, b: Context): (s: Step)
    ensures b.actual !in m ==> s == Step(b, Raised)
    ensures b.actual in m && Truthy(m[b.actual].next) && m[b.actual].next.value in m ==>
      s.bundle == b && s.effect == Invoked(EmitStep(m, [Str(m[b.actual].next.value), b.data]).value)
    ensures b.actual in m && Truthy(m[b.actual].next) && m[b.actual].next.value !in m ==>
      s.bundle == b.(flags := b.flags + {PrematureTermination}) && s.effect == MasterEffect(m, s.bundle)
    ensures b.actual in m && !Truthy(m[b.actual].next) ==>
      s.bundle == b.(flags := b.flags + {CompleteTermination}) && s.effect == MasterEffect(m, s.bundle)
  {
    if b.actual !in m then Step(b, Raised)
    else
      var next := m[b.actual].next;
      if Truthy(next) then
        match EmitStep(m, [Str(next.value), b.data])
        case Some(c) => Step(b, Invoked(c))
        case None =>
          var b' := b.(flags := b.flags + {PrematureTermination});
          Step(b', MasterEffect(m, b'))
      else
        var b' := b.(flags := b.flags + {CompleteTermination});
        Step(b', MasterEffect(m, b'))
  }

  /** `Terminate(bundle, hard)`: a soft termination flags premature
      termination and invokes the master; a hard one does nothing. */
  function TerminateStep(m: Listeners, b: Context, hard: bool): (s: Step)
    ensures hard ==> s == Step(b, NoCall)
    ensures !hard ==> s.bundle == b.(flags := b.flags + {PrematureTermination})
    ensures !hard && b.actual !in m ==> s.effect == Raised
    ensures !hard && b.actual in m ==> s.effect == MasterEffect(m, s.bundle)
  {
    if hard then Step(b, NoCall)
    else
      var b' := b.(flags := b.flags + {PrematureTermination});
      if b.actual !in m then Step(b', Raised) else Step(b', MasterEffect(m, b'))
  }

  /** What happens when the listener invoked by `c` answers with `ch`. */
  function Respond(m: Listeners, c: Call<Context>, ch: Choice): Effect<Context>
  {
    match ch
    case CallFinish => FinishStep(m, c.bundle).effect
    case SoftTerminate => TerminateStep(m, c.bundle, false).effect
    case HardTerminate => TerminateStep(m, c.bundle, true).effect
    case Suspend => NoCall
  }

  /** The invocations of a run that starts with `c`, where the i-th invoked
      listener answers with `choices[i]`; the run stops when the choices
      run out or a step invokes nothing. */
  function Run(m: Listeners, c: Call<Context>, choices: seq<Choice>): (t: seq<Call<Context>>)
    ensures |t| >= 1 && t[0] == c
    ensures |t| <= |choices| + 1
    decreases |choices|
  {
    [c] + if |choices| == 0 then [] else
      match Respond(m, c, choices[0])
      case Invoked(c') => Run(m, c', choices[1..])
      case _ => []
  }

  /** The run that an `emit(args...)` starts. */
  function RunEmit(m: Listeners, args: seq<Value>, choices: seq<Choice>): (t: seq<Call<Context>>)
    ensures |t| <= |choices| + 1
    ensures t == [] <==> EmitStep(m, args).None?
  {
    match EmitStep(m, args)
    case None => []
    case Some(c) => Run(m, c, choices)
  }

  /** `k` listeners in a row that all call `Finish`. */
  function Finishes(k: nat): (s: seq<Choice>)
    ensures |s| == k && forall i :: 0 <= i < k ==> s[i] == CallFinish
  {
    if k == 0 then [] else [CallFinish] + Finishes(k - 1)
  }

  /** The invocation of slave `x` that `emit` or `Finish` makes. */
  function SlaveCall(x: Id, data: Value): Call<Context>
  {
    Call(x, NewBundle(x, data))
  }

  /** The invocations of the slaves `ids`, in order, all with `data`. */
  function SlaveCalls(ids: seq<Id>, data: Value): (t: seq<Call<Context>>)
    ensures |t| == |ids| && forall i :: 0 <= i < |ids| ==> t[i] == SlaveCall(ids[i], data)
  {
    seq(|ids|, i requires 0 <= i < |ids| => SlaveCall(ids[i], data))
  }

  /** `h` is a master whose chain is well-formed and whose slaves all name
      `h` as their master. */
  ghost predicate Serves(m: Listeners, h: Id)
  {
    && WellFormed(m)
    && h in m
    && m[h].master.None?
    && forall i :: 1 <= i < |Chain(m, h)| ==> m[Chain(m, h)[i]].master == Some(h)
  }

  /** A slave in the middle of a served chain that calls `Finish` invokes the
      next slave with the same data. */
  lemma FinishMovesOn(m: Listeners, h: Id, j: nat, data: Value)
    requires Serves(m, h) && 1 <= j < |Chain(m, h)| - 1
    ensures FinishStep(m, NewBundle(Chain(m, h)[j], data)).effect == Invoked(SlaveCall(Chain(m, h)[j + 1], data))
  {
    var c := Chain(m, h);
    ChainIsPath(m, h);
    PathLinks(m, c, h, j);
    PathLinks(m, c, h, j + 1);
  }

  /** The tail slave of a served chain that calls `Finish` invokes the
      master with complete termination flagged. */
  lemma FinishAtTail(m: Listeners, h: Id, data: Value)
    requires Serves(m, h) && |Chain(m, h)| > 1
    ensures var c := Chain(m, h); var x := c[|c| - 1];
      FinishStep(m, NewBundle(x, data)).effect ==
        Invoked(Call(h, Context(x, data, {CompleteTermination})))
  {
    var c := Chain(m, h);
    var x := c[|c| - 1];
    ChainIsPath(m, h);
    PathLinks(m, c, h, |c| - 1);
    assert m[x].master == Some(h) && m[x].next == None;
    var b := NewBundle(x, data);
    assert b.(flags := b.flags + {CompleteTermination}) == Context(x, data, {CompleteTermination});
  }

  /** A listener that calls `Finish` hands the run on to the invocation the
      step makes. */
  lemma RunFinishOne(m: Listeners, c: Call<Context>, c': Call<Context>, rest: seq<Choice>)
    requires FinishStep(m, c.bundle).effect == Invoked(c')
    ensures Run(m, c, [CallFinish] + rest) == [c] + Run(m, c', rest)
  {
    assert ([CallFinish] + rest)[1..] == rest;
  }

  /** Along `c`, a node that calls `Finish` invokes the next node of `c`
      with the same data. */
  ghost predicate FinishLinks(m: Listeners, c: seq<Id>, data: Value)
  {
    forall i {:trigger FinishStep(m, NewBundle(c[i], data))} :: 0 <= i < |c| - 1 ==>
      FinishStep(m, NewBundle(c[i], data)).effect == Invoked(SlaveCall(c[i + 1], data))
  }

  /** The slaves of a served chain are linked by `Finish`. */
  lemma ServedLinks(m: Listeners, h: Id, data: Value)
    requires Serves(m, h) && |Chain(m, h)| > 1
    ensures FinishLinks(m, Chain(m, h)[1..], data)
  {
    var c := Chain(m, h)[1..];
    forall i | 0 <= i < |c| - 1
      ensures FinishStep(m, NewBundle(c[i], data)).effect == Invoked(SlaveCall(c[i + 1], data))
    {
      FinishMovesOnTail(m, h, i, data);
    }
  }

  /** `FinishMovesOn`, indexed along the slaves of the chain. */
  lemma FinishMovesOnTail(m: Listeners, h: Id, i: nat, data: Value)
    requires Serves(m, h) && i + 2 < |Chain(m, h)|
    ensures var c := Chain(m, h)[1..];
      FinishStep(m, NewBundle(c[i], data)).effect == Invoked(SlaveCall(c[i + 1], data))
  {
    var c := Chain(m, h);
    assert c[1..][i] == c[i + 1] && c[1..][i + 1] == c[i + 2];
    FinishMovesOn(m, h, i + 1, data);
  }

  /** The links along `c` hold along its tail. */
  lemma FinishLinksTail(m: Listeners, c: seq<Id>, data: Value)
    requires FinishLinks(m, c, data) && |c| > 0
    ensures FinishLinks(m, c[1..], data)
  {
    forall i | 0 <= i < |c[1..]| - 1
      ensures FinishStep(m, NewBundle(c[1..][i], data)).effect == Invoked(SlaveCall(c[1..][i + 1], data))
    {
      assert c[1..][i] == c[i + 1] && c[1..][i + 1] == c[i + 2];
    }
  }

  /** Regrouping a trace that starts with one call. */
  lemma Regroup(x: Call<Context>, done: seq<Call<Context>>, tail: seq<Call<Context>>, pre: seq<Call<Context>>, whole: seq<Call<Context>>)
    requires pre == [x] + done && whole == [x] + (done + tail)
    ensures whole == pre + tail
  {
  }

  /** A run along linked nodes in which `k` listeners call `Finish` invokes
      those nodes in order and then goes on from the next one. */
  lemma {:induction false} RunAlong(m: Listeners, c: seq<Id>, data: Value, k: nat, rest: seq<Choice>)
    requires FinishLinks(m, c, data) && k < |c|
    ensures Run(m, SlaveCall(c[0], data), Finishes(k) + rest) ==
      SlaveCalls(c[..k], data) + Run(m, SlaveCall(c[k], data), rest)
    decreases k
  {
    if k > 0 {
      var more := Finishes(k - 1) + rest;
      assert Finishes(k) + rest == [CallFinish] + more;
      RunFinishOne(m, SlaveCall(c[0], data), SlaveCall(c[1], data), more);
      FinishLinksTail(m, c, data);
      RunAlong(m, c[1..], data, k - 1, rest);
      assert c[1..][k - 1] == c[k] && c[1..][0] == c[1];
      var done := SlaveCalls(c[1..][..k - 1], data);
      SlaveCallsCons(c, k, data);
      Regroup(SlaveCall(c[0], data), done, Run(m, SlaveCall(c[k], data), rest), SlaveCalls(c[..k], data),
        Run(m, SlaveCall(c[0], data), Finishes(k) + rest));
    } else {
      assert Finishes(k) + rest == rest;
      assert SlaveCalls(c[..k], data) == [];
    }
  }

  /** The calls of a nonempty prefix start with the call of its head. */
  lemma SlaveCallsCons(c: seq<Id>, k: nat, data: Value)
    requires 0 < k <= |c|
    ensures SlaveCalls(c[..k], data) == [SlaveCall(c[0], data)] + SlaveCalls(c[1..][..k - 1], data)
  {
    var tail := SlaveCalls(c[1..][..k - 1], data);
    forall i | 0 <= i < k - 1 ensures tail[i] == SlaveCall(c[i + 1], data) {
      assert c[1..][..k - 1][i] == c[i + 1];
    }
  }

  /** `emit` on a master with at least one slave invokes its first slave
      with the remaining arguments as the data. */
  lemma EmitServed(m: Listeners, h: Id, rest: seq<Value>)
    requires Serves(m, h) && |Chain(m, h)| > 1
    ensures EmitStep(m, [Str(h)] + rest) == Some(SlaveCall(Chain(m, h)[1], List(rest)))
  {
    var c := Chain(m, h);
    ChainIsPath(m, h);
    PathLinks(m, c, h, 0);
    assert ([Str(h)] + rest)[1..] == rest;
  }

  /** The last answer of a run decides whether one more listener is
      invoked. */
  lemma RunLast(m: Listeners, c: Call<Context>, ch: Choice)
    ensures Run(m, c, [ch]) == [c] + match Respond(m, c, ch) { case Invoked(c') => [c'] case _ => [] }
  {
    assert [ch][1..] == [];
  }

  /** The master of a served chain is none of its slaves. */
  lemma MasterNotSlave(m: Listeners, h: Id)
    requires Serves(m, h)
    ensures forall i :: 1 <= i < |Chain(m, h)| ==> Chain(m, h)[i] != h
  {
    ChainIsPath(m, h);
  }

  /** An `emit` of a served master whose first `k` slaves call `Finish`
      invokes those slaves and then hands the run to slave `k + 1`. */
  lemma RunServed(m: Listeners, h: Id, rest: seq<Value>, k: nat, last: Choice)
    requires Serves(m, h) && k + 1 < |Chain(m, h)|
    ensures var c := Chain(m, h);
      RunEmit(m, [Str(h)] + rest, Finishes(k) + [last]) ==
        SlaveCalls(c[1..k + 1], List(rest)) + Run(m, SlaveCall(c[k + 1], List(rest)), [last])
  {
    var c := Chain(m, h);
    var data := List(rest);
    EmitServed(m, h, rest);
    ServedLinks(m, h, data);
    RunAlong(m, c[1..], data, k, [last]);
    TailSlices(c, k);
  }

  /** Positions in the tail of a sequence. */
  lemma TailSlices(c: seq<Id>, k: nat)
    requires k + 1 < |c|
    ensures c[1..][..k] == c[1..k + 1] && c[1..][k] == c[k + 1] && c[1..][0] == c[1]
  {
  }

  /** A chain of slaves that all call `Finish` runs them in chain order,
      each with the emitted data, and then invokes the master, with
      complete termination flagged and the last slave as `actual`. */
  lemma RunToCompletion(m: Listeners, h: Id, rest: seq<Value>)
    requires Serves(m, h) && |Chain(m, h)| > 1
    ensures var c := Chain(m, h);
      RunEmit(m, [Str(h)] + rest, Finishes(|c| - 1)) ==
        SlaveCalls(c[1..], List(rest)) + [Call(h, Context(c[|c| - 1], List(rest), {CompleteTermination}))]
  {
    var c := Chain(m, h);
    var n := |c| - 1;
    var data := List(rest);
    var last := Call(h, Context(c[n], data, {CompleteTermination}));
    var before := SlaveCalls(c[1..n], data);
    FinishesSnoc(n);
    RunServed(m, h, rest, n - 1, CallFinish);
    assert RunEmit(m, [Str(h)] + rest, Finishes(n)) == before + Run(m, SlaveCall(c[n], data), [CallFinish]);
    FinishAtTail(m, h, data);
    LastStep(m, before, SlaveCall(c[n], data), CallFinish, last);
    SlaveCallsSnoc(c, 1, n, data);
    assert c[1..n + 1] == c[1..];
    assert RunEmit(m, [Str(h)] + rest, Finishes(n)) == SlaveCalls(c[1..], data) + [last];
  }


  /** `k` answers `Finish` are `k - 1` of them and one more. */
  lemma FinishesSnoc(k: nat)
    requires k > 0
    ensures Finishes(k) == Finishes(k - 1) + [CallFinish]
  {
  }

  /** A trace that ends by answering `x` with a choice that invokes
      `last`. */
  lemma LastStep(m: Listeners, before: seq<Call<Context>>, x: Call<Context>, ch: Choice, last: Call<Context>)
    requires Respond(m, x, ch) == Invoked(last)
    ensures before + Run(m, x, [ch]) == (before + [x]) + [last]
  {
    RunLast(m, x, ch);
  }

  /** The slave calls of a slice grown by one id. */
  lemma SlaveCallsSnoc(ids: seq<Id>, lo: nat, hi: nat, data: Value)
    requires lo <= hi < |ids|
    ensures SlaveCalls(ids[lo..hi + 1], data) == SlaveCalls(ids[lo..hi], data) + [SlaveCall(ids[hi], data)]
  {
    assert ids[lo..hi + 1] == ids[lo..hi] + [ids[hi]];
  }

  /** The nodes after the head of a served chain are slaves of its master. */
  lemma SlaveOfServed(m: Listeners, h: Id, i: nat)
    requires Serves(m, h) && 1 <= i < |Chain(m, h)|
    ensures h in m && Chain(m, h)[i] in m && m[Chain(m, h)[i]].master == Some(h)
  {
    ChainIsPath(m, h);
  }

  /** The slave invocations of a trace never invoke a master that is not
      one of the slaves. */
  lemma CallsAvoid(ids: seq<Id>, data: Value, h: Id, tail: seq<Call<Context>>)
    requires forall i :: 0 <= i < |ids| ==> ids[i] != h
    ensures forall i :: 0 <= i < |ids| ==> (SlaveCalls(ids, data) + tail)[i].node != h
  {
  }

  /** In a run to completion the master is invoked exactly once, last. */
  lemma MasterRunsOnce(m: Listeners, h: Id, rest: seq<Value>)
    requires Serves(m, h) && |Chain(m, h)| > 1
    ensures var t := RunEmit(m, [Str(h)] + rest, Finishes(|Chain(m, h)| - 1));
      |t| == |Chain(m, h)| && forall i :: 0 <= i < |t| ==> (t[i].node == h <==> i == |t| - 1)
  {
    var c := Chain(m, h);
    RunToCompletion(m, h, rest);
    MasterNotSlave(m, h);
    assert forall i :: 0 <= i < |c[1..]| ==> c[1..][i] != h by {
      forall i | 0 <= i < |c[1..]| ensures c[1..][i] != h {
        assert c[1..][i] == c[i + 1];
      }
    }
    CallsAvoid(c[1..], List(rest), h, [Call(h, Context(c[|c| - 1], List(rest), {CompleteTermination}))]);
  }

  /** If the first `k` slaves call `Finish` and the next one terminates
      softly, the master is invoked once, with premature termination flagged
      and the terminating slave as `actual`. */
  lemma RunSoftTerminate(m: Listeners, h: Id, rest: seq<Value>, k: nat)
    requires Serves(m, h) && k + 1 < |Chain(m, h)|
    ensures var c := Chain(m, h);
      RunEmit(m, [Str(h)] + rest, Finishes(k) + [SoftTerminate]) ==
        SlaveCalls(c[1..k + 2], List(rest)) + [Call(h, Context(c[k + 1], List(rest), {PrematureTermination}))]
  {
    var c := Chain(m, h);
    var data := List(rest);
    RunServed(m, h, rest, k, SoftTerminate);
    SlaveOfServed(m, h, k + 1);
    var x := c[k + 1];
    var b := NewBundle(x, data);
    var last := Call(h, Context(x, data, {PrematureTermination}));
    assert b.(flags := b.flags + {PrematureTermination}) == last.bundle;
    LastStep(m, SlaveCalls(c[1..k + 1], data), SlaveCall(x, data), SoftTerminate, last);
    SlaveCallsSnoc(c, 1, k + 1, data);
  }


  /** If the first `k` slaves call `Finish` and the next one terminates
      hard, no further listener, and so never the master, is invoked. */
  lemma RunHardTerminate(m: Listeners, h: Id, rest: seq<Value>, k: nat)
    requires Serves(m, h) && k + 1 < |Chain(m, h)|
    ensures var c := Chain(m, h);
      RunEmit(m, [Str(h)] + rest, Finishes(k) + [HardTerminate]) == SlaveCalls(c[1..k + 2], List(rest))
  {
    var c := Chain(m, h);
    var data := List(rest);
    RunServed(m, h, rest, k, HardTerminate);
    RunLast(m, SlaveCall(c[k + 1], data), HardTerminate);
    SlaveCallsSnoc(c, 1, k + 1, data);
  }


  /** A hard termination keeps the master from being invoked at all. */
  lemma HardTerminateSkipsMaster(m: Listeners, h: Id, rest: seq<Value>, k: nat)
    requires Serves(m, h) && k + 1 < |Chain(m, h)|
    ensures var t := RunEmit(m, [Str(h)] + rest, Finishes(k) + [HardTerminate]);
      forall i :: 0 <= i < |t| ==> t[i].node != h
  {
    var c := Chain(m, h);
    var ids := c[1..k + 2];
    RunHardTerminate(m, h, rest, k);
    MasterNotSlave(m, h);
    assert forall i :: 0 <= i < |ids| ==> ids[i] != h by {
      forall i | 0 <= i < |ids| ensures ids[i] != h {
        assert ids[i] == c[i + 1];
      }
    }
    CallsAvoid(ids, List(rest), h, []);
    assert SlaveCalls(ids, List(rest)) + [] == SlaveCalls(ids, List(rest));
  }

  /** `emit` on a master without slaves invokes that master itself. */
  lemma EmitLoneMaster(m: Listeners, h: Id, rest: seq<Value>)
    requires h in m && m[h].master.None? && m[h].next == None
    ensures EmitStep(m, [Str(h)] + rest) == Some(Call(h, NewBundle(h, List(rest))))
  {
    assert ([Str(h)] + rest)[1..] == rest;
  }

  /** As written, `emit` on a master without slaves invokes the listener
      registered under the event name "null" when there is one. */
  lemma EmitAsWrittenCallsNull()
    ensures var n := Node(Listener(0), None, None, Some(-1));
      var m := map["null" := n, "a" := n.(listener := Listener(1))];
      EmitStepAsWritten(m, [Str("a")]) == Some(Call("null", NewBundle("null", List([])))) &&
      EmitStep(m, [Str("a")]) == Some(Call("a", NewBundle("a", List([]))))
  {
    var n := Node(Listener(0), None, None, Some(-1));
    var m := map["null" := n, "a" := n.(listener := Listener(1))];
    assert [Str("a")][1..] == [];
    assert "a" != "null";
  }

  /** A master without slaves that calls `Finish` or terminates softly on
      its own bundle invokes the listener stored under "null", with the
      master's bundle: the master lookup reads the key "null". */
  lemma MasterFinishCallsNull()
    ensures var n := Node(Listener(0), None, None, Some(-1));
      var m := map["null" := n, "a" := n.(listener := Listener(1))];
      var b := NewBundle("a", List([]));
      && FinishStep(m, b).effect == Invoked(Call("null", b.(flags := {CompleteTermination})))
      && TerminateStep(m, b, false).effect == Invoked(Call("null", b.(flags := {PrematureTermination})))
      && FinishStep(m - {"null"}, b).effect == Raised
  {
    var n := Node(Listener(0), None, None, Some(-1));
    var m := map["null" := n, "a" := n.(listener := Listener(1))];
    var b := NewBundle("a", List([]));
    assert "a" != "null" && !Truthy(m["a"].next);
    assert b.(flags := b.flags + {CompleteTermination}) == b.(flags := {CompleteTermination});
    assert b.(flags := b.flags + {PrematureTermination}) == b.(flags := {PrematureTermination});
    assert "a" in m - {"null"} && "null" !in m - {"null"};
  }
}
