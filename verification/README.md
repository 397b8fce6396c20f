# Queuely in Dafny

A model of `queuely.js`, an event emitter that runs listeners as a queue. Each
event name (the *master*) owns a singly linked chain of *slave* nodes. The
chain is stored in one dictionary `_listeners`, from ids to records
`{listener, master, next, precedence}`.

- `on` appends a slave, walking the chain by precedence; `after` splices one
  in behind a given node.
- `remove` and `removeMaster` delete nodes.
- `emit` invokes the first slave. Each slave hands on with `bundle.Finish()` or
  stops the chain with `Terminate`. The master runs last, flagged
  `COMPLETE_TERMINATION` or `PREMATURE_TERMINATION`.

The project has six modules, one per file:

- `Registry` (`registry.dfy`): the node record and the chain from an id.
  `Chain` is the walk along `next`. `WellFormed` is the invariant every
  registry operation keeps: every walk is acyclic and ends at a null `next`,
  every `next` names an existing slave, and no node has two predecessors. The
  module also defines the stopping point of `on`'s precedence walk.
- `Updates` (`updates.dfy`): the dictionary after each mutation (`Appended`
  for `on`, `Spliced` for `after`, `Unlinked` for `remove`, key removal for
  `removeMaster`). Lemmas say how each mutation changes every chain and that
  it keeps `WellFormed`.
- `Dispatch` (`dispatch.dfy`): one step of `emit`, `Finish` and `Terminate`
  as functions on the dictionary and a bundle value. `Run` chains those steps
  when every invoked listener answers with a given choice. Lemmas describe
  whole runs over a chain.
- `Engine` (`engine.dfy`): the `Queuely` class, whose `listeners` map field
  the methods update in place, and the `Bundle` class (`QueuelyBundle`).
  Every walk in the source is a `while` loop with its invariants. Each method
  is proved against `Registry`/`Updates` (for the registry) or `Dispatch`
  (for dispatch).
- `Uid` (`uid.dfy`): the 32-bit string hash inside `GetUID`, as a loop proved
  equal to the signed 32-bit reduction of the polynomial hash.
- `Scenarios` (`scenarios.dfy`): usage scenarios built with the `Queuely`
  methods and replayed with the run lemmas of `Dispatch`. Listener bodies are
  small functions of a token.

The documented behaviour and the code differ in places. The model follows the
code:

- `on` makes the new node's `next` null. It does not take over the stop
  node's old `next`. When the precedence walk stops before the tail, the stop
  node's old successors drop out of the chain but stay in the dictionary.
  `Updates.AppendAtStop` states this cut. The walk also compares the current
  node's precedence rather than the next one's, so the chain is not kept in
  precedence order. `Engine.Queuely.On` follows the code. The documented
  insertion is modelled beside it as `Engine.Queuely.OnInOrder` (see
  "## Findings").
- `Finish` and `Terminate` look up the master field of the bundle's node as a
  key. For a bundle of a master node that field is null, and the lookup reads
  the key "null": the listener of an event named "null" runs if there is
  one, and otherwise the lookup throws. `Dispatch.MasterEffect` models this
  lookup as written (`Dispatch.MasterFinishCallsNull`).
- A node inserted with `after("master", …)` runs before the slaves appended
  earlier. In the `after` scenario the counter is therefore 6, as test.js expects
  (`Scenarios.InsertAfter`).
- `removeMaster` called on a slave that has a predecessor leaves that
  predecessor's `next` dangling. The invariant is only promised when the
  removed key has no predecessor, which always holds for a master.

## Model

| member | source | states |
|---|---|---|
| Engine.Queuely.constructor | queuely.js:20-24 | a new registry has no listeners and satisfies the invariant |
| Engine.Queuely.On | queuely.js:210-228 | unknown name: the name becomes a master with precedence -1 and is returned; known name: the new slave (master = name, next = null, precedence = the argument, or 100 when it is missing or 0) is linked behind the node where the precedence walk stops, the chain becomes the part up to that node plus the new id, the invariant holds, and when no precedence on the chain exceeds the new one the new id is appended to the whole chain |
| Engine.Queuely.OnInOrder | queuely.js:210-228 | the documented `on`: unknown name as in `On`; otherwise the new slave (precedence as in `On`) takes over the `next` of the node where the corrected walk stops, the chain becomes the old chain with the new id inserted right there, the invariant holds, and an ascending chain stays ascending |
| Engine.Queuely.InsertPoint | queuely.js:217-221 | the corrected walk moves on while the next node has a precedence at most the new one, and returns the chain node at `InsertIndex` |
| Engine.Queuely.StopNode | queuely.js:217-221 | the walk moves on while the node has a truthy `next` and a precedence at most the new one, and returns the chain node at `StopIndex` |
| Engine.Queuely.After | queuely.js:239-253 | unknown anchor: null and no change; otherwise the new node (no precedence, master = the anchor's master or the anchor itself) becomes the anchor's `next` and takes over the old `next`, the chain from the anchor is anchor, new id, old rest, and the invariant holds |
| Engine.Queuely.RemoveMaster | queuely.js:255-270 | returns whether the key exists, and deletes exactly the ids on the chain from it |
| Engine.Queuely.Reach | queuely.js:256-262 | the key list gathered by the walk is the chain from the name |
| Engine.Queuely.Remove | queuely.js:272-289 | master: removes its whole chain and returns true; missing key: false; slave whose master is missing: TypeError; slave on its master's chain: unlinks it (the predecessor's `next` becomes its `next`), the chain loses exactly that node, returns true; slave not on the chain: false and no change; the invariant holds throughout |
| Engine.Queuely.FindBefore | queuely.js:276-287 | the walk of `remove` finds the name after the head of the master's chain exactly when it is there, and then returns its predecessor on the chain |
| Engine.Queuely.EventNames | queuely.js:150-157 | the names returned are exactly the keys whose node has no master |
| Engine.Queuely.FollowerCount | queuely.js:167-178 | 0 for an unknown name, otherwise the number of nodes on its chain after it |
| Engine.Queuely.Followers | queuely.js:188-199 | none for an unknown name, otherwise the callbacks of the nodes after it on its chain, in chain order |
| Engine.Queuely.Emit | queuely.js:93-116 | true exactly when the first argument names a key; the one invocation made, with a fresh bundle, is the one `Dispatch.EmitStep` gives |
| Engine.Queuely.CallMaster | queuely.js:78-79 | the effect is `Dispatch.MasterEffect`'s: the listener stored under the node's master field, or under "null" when that field is null, is invoked with the same bundle; a key that is not present raises |
| Engine.Queuely.Finish | queuely.js:68-81 | the effect and the bundle's new flags are those of `Dispatch.FinishStep`; a hand-on gets a fresh bundle and the master gets the same bundle |
| Engine.Queuely.Terminate | queuely.js:51-57 | the effect and the bundle's new flags are those of `Dispatch.TerminateStep` |
| Engine.Bundle.constructor | queuely.js:34-38 | `actual`, `watcher` and `data` are the arguments; a missing flags argument becomes empty |
| Engine.Bundle.Finish | queuely.js:39-41 | `bundle.Finish()` does what the watcher's `Finish` does to this bundle |
| Engine.RegisterAtTail | queuely.js:223-226 | linking a new slave behind the tail keeps the invariant, appends the id to the chain, and adds its callback last to the followers |
| Engine.RegisterKeepsServes | queuely.js:223-226 | appending a slave of the master at the tail keeps every chain node a slave of that master |
| Engine.OnKeepsServes | queuely.js:213-226 | `on(h, …)` at whatever node the precedence walk stops keeps every node left on the chain of master `h`, the new one included, a slave of `h` |
| Engine.AfterKeepsServes | queuely.js:239-253 | `after` with an anchor on the chain of a master `h` other than `""` gives the new node `h` as its master (the anchor's master, or the anchor when it is `h`), so the chain still serves `h` |
| Engine.UnlinkKeepsServes | queuely.js:272-289 | `remove` of a slave keeps every chain serving its master: the removed slave drops out and the remaining nodes keep their masters |
| Engine.RemoveChainKeepsServes | queuely.js:255-270 | `removeMaster` of an unpointed key whose chain avoids `h` keeps the chain of `h` serving it |
| Engine.RegisterKeepsBound | queuely.js:217-226 | after an append at the tail with precedence at most p, every precedence on the chain is at most p, so the next append with p lands at the tail again |
| Registry.EffectivePrecedence | queuely.js:211 | a missing or zero precedence becomes 100, any other value is kept |
| Registry.StopIndex | queuely.js:213-221 | the walk passes every node before the index and stops at the first node without a truthy `next` or whose precedence is missing or larger than the new one |
| Registry.InsertIndex | queuely.js:217-221 | the corrected walk: every slave up to the index has a precedence at most p, and the next one, if any, a missing or larger precedence |
| Registry.StopAtEnd | queuely.js:217-221 | when no precedence on the chain exceeds p, the walk stops at the tail |
| Registry.PathIsChain | queuely.js:172-175 | a duplicate-free walk along `next` to a null `next` is the chain |
| Registry.ChainStep | queuely.js:172-175 | one step of a walk: the `next` is an existing non-empty slave id and its chain is the rest of the walk |
| Registry.MasterIsUnpointed | queuely.js:273 | on a well-formed registry no `next` names a master |
| Updates.AddTail | queuely.js:213-215 | a new master with null `next` keeps the invariant, its chain is itself, and every other chain is unchanged |
| Updates.AppendKeepsWellFormed | queuely.js:223-226 | linking a new node with null `next` behind any node keeps the invariant, cuts every chain through that node behind it and adds the new id, and leaves the other chains alone |
| Updates.AppendAtStop | queuely.js:213-226 | appending behind the stop node keeps the invariant; the chain becomes its part up to the stop node plus the new id, and is the whole old chain plus the new id when no precedence exceeds p |
| Updates.InsertInOrder | queuely.js:210-228 | the documented insertion keeps the invariant and every node of the chain, puts the new id behind every slave of precedence at most p (ties keep registration order), in front of every larger one on an ascending chain, and keeps an ascending chain ascending |
| Updates.InsertKeepsAscending | queuely.js:7-9 | inserting a node of precedence p between the slaves at most p and those above p keeps the chain's precedences non-decreasing |
| Updates.OnCutsChain | queuely.js:217-226 | as written, on master, A(100), B(100) a registration with precedence 50 yields the chain master, A, new id, with B left in the dictionary but off the chain; the documented insertion yields master, new id, A, B |
| Updates.AppendAtTail | queuely.js:223-226 | appending behind the last node keeps the invariant and extends the chain by the new id |
| Updates.SpliceKeepsWellFormed | queuely.js:243-252 | splicing a node behind the anchor keeps the invariant, inserts the new id right after the anchor in every chain through it, and leaves the other chains alone |
| Updates.SpliceAtAnchor | queuely.js:243-252 | after splicing, the chain from the anchor is anchor, new id, then the old rest |
| Updates.UnlinkKeepsWellFormed | queuely.js:279-283 | relinking the predecessor past a node and deleting the node keeps the invariant and removes exactly that node from every chain through it |
| Updates.ChainsDisjoint | queuely.js:264-266 | a chain from a key outside the chain of an unpointed node shares no node with it |
| Updates.RemoveChainKeepsWellFormed | queuely.js:264-266 | deleting the chain of an unpointed node keeps the invariant and every remaining chain |
| Dispatch.EmitStep | queuely.js:93-116 | no invocation when the arguments are empty or the name is not a key; a master hands its first slave the remaining arguments as a list, or invokes itself when its `next` is not a key; a slave is invoked with the second argument |
| Dispatch.EmitStepAsWritten | queuely.js:107-109 | as `EmitStep` for a missing or non-string name and for a slave; a master invokes the node stored under `KeyOf(next)` (the key "null" when `next` is null) when that key is present, and itself otherwise |
| Dispatch.MasterEffect | queuely.js:78-79 | the listener stored under the node's master is invoked with the same bundle exactly when that master is a key; for a node without a master the key "null" is looked up instead; otherwise the lookup throws |
| Dispatch.FinishStep | queuely.js:68-81 | unknown `actual`: throws; truthy `next` that is a key: the next node is emitted with the same data; truthy `next` that is not a key: premature termination is flagged and the master invoked; no `next`: complete termination is flagged and the master invoked |
| Dispatch.TerminateStep | queuely.js:51-57 | hard: nothing happens; soft: premature termination is flagged and the master invoked, or the lookup throws |
| Dispatch.Run | queuely.js:39-81 | a run starts with its first invocation and makes at most one more invocation per answer |
| Dispatch.RunEmit | queuely.js:93-116 | a run is empty exactly when `emit` returns false |
| Dispatch.FinishMovesOn | queuely.js:69-71 | on a served chain, a slave before the last that calls `Finish` invokes the next slave with the same data |
| Dispatch.FinishAtTail | queuely.js:77-79 | the last slave of a served chain that calls `Finish` invokes the master, flagged complete, with that slave as `actual` |
| Dispatch.RunToCompletion | queuely.js:68-81 | when every slave calls `Finish`, `emit` on the master runs all slaves in chain order with the emitted data, then the master flagged complete |
| Dispatch.MasterRunsOnce | queuely.js:76-80 | in that run the master is invoked exactly once, and last |
| Dispatch.RunSoftTerminate | queuely.js:51-56 | when slave k+1 terminates softly, the run is the first k+1 slaves, then the master flagged premature with that slave as `actual` |
| Dispatch.RunHardTerminate | queuely.js:51-53 | when slave k+1 terminates hard, the run is the first k+1 slaves and nothing else |
| Dispatch.HardTerminateSkipsMaster | queuely.js:51-53 | a hard termination means the master is never invoked |
| Dispatch.EmitLoneMaster | queuely.js:107-109 | `emit` on a master without slaves invokes the master itself with the arguments as data |
| Dispatch.MasterFinishCallsNull | queuely.js:51-57 | a master without slaves that calls `Finish` or terminates softly on its own bundle invokes the "null" listener, flagged complete or premature, and raises when there is no such listener |
| Dispatch.EmitAsWrittenCallsNull | queuely.js:107-109 | as written, `emit` on a lone master invokes the node stored under "null" when there is one, where the corrected step invokes the master |
| Uid.ToInt32 | queuely.js:135 | `hash \|= 0` gives the value in [-2^31, 2^31) congruent to the input modulo 2^32 |
| Uid.StepAgrees | queuely.js:134-135 | one loop step on the reduced hash equals the reduction of the unbounded step |
| Uid.Hash | queuely.js:128-138 | the hash is 0 for the empty string and otherwise the signed 32-bit reduction of the base-31 polynomial of the code units |
| Uid.HashExtends | queuely.js:132-136 | the hash of a string extended by one code unit depends only on the hash of the string |
| Uid.HashOfOneUnit | queuely.js:128-138 | a single code unit hashes to itself |
| Scenarios.NewMaster | queuely.js:213-215 | a first `on` creates a registered master without slaves |
| Scenarios.RegisterDefault | queuely.js:210-228 | `on` with the default precedence on a registered chain appends the new id and its callback at the end |
| Scenarios.RegisteredGrows | queuely.js:223-226 | an append that extends the chain keeps it registered with the new id and callback last |
| Scenarios.RegisteredServes | queuely.js:223-226 | a registered chain of a well-formed registry serves its master |
| Scenarios.Build | test.js:150-158 | a master followed by default-precedence `on` calls gives a chain holding the slaves in registration order with their callbacks |
| Scenarios.EmitAllFinish | test.js:128-135 | `emit` on such a chain whose slaves all call `Finish` runs each slave once in registration order, then the master flagged complete |
| Scenarios.RunDataCallbacks | test.js:153-158 | the five data callbacks bring the counter from 0 to 15 |
| Scenarios.DataTrace | test.js:150-160 | the trace of the data scenario is the five slaves in order, each invoked with data [1], then the master flagged complete |
| Scenarios.EmitWithData | test.js:150-160 | the master runs once, sixth and flagged complete, and the counter is 15 by then |
| Scenarios.AfterChain | test.js:189-194 | after `after("master", …)` the chain is master, inserted slave, earlier slave |
| Scenarios.AfterTrace | test.js:189-195 | `emit` runs the inserted slave first, then the earlier slave, then the master |
| Scenarios.InsertAfter | test.js:189-196 | the counter is 1 * 5 + 1 = 6 when the master runs |
| Scenarios.BuiltFollowers | test.js:104-117 | two slaves give two followers with their callbacks in order, and none after the last slave |
| Scenarios.CountFollowers | test.js:94-117 | `followerCount` is 2, `followers` gives both callbacks in order, and `followers` of the last slave is empty |
| Scenarios.RemovableSlave | test.js:75-82 | the last slave is found at position 2 of its master's chain, and unlinking it leaves master, first slave |
| Scenarios.RemovableMaster | test.js:65-74 | after that, the master's chain covers every remaining key |
| Scenarios.RemoveSlaveThenMaster | test.js:65-82 | removing the last slave returns true, and removing the master then returns true and leaves no keys |

## Left out

- `GetUID`'s random, clock-dependent salt is left out; the generated id is a parameter of `on` and `after` instead. The callers supply it fresh and non-empty. `Uid.Hash` models the hash itself. The model does not capture that the returned id is a number, that a hash can be 0 (a falsy id), or that hashes can collide.
- Callback bodies, their `this` binding, exceptions thrown by callbacks, and asynchronous calls to `Finish` are left out. `Finish` hands the same `data` array on to the next bundle (queuely.js:70), so every slave and the master share one mutable object; the model's `data` is an immutable `Value`, so that sharing and any mutation of `data` by a callback are not modelled. An invoked listener is a `Call` value, and a run fixes each listener's answer in advance.
- The model does not check that `Finish` is called twice on one bundle. It is a usage error the source does not check either.
- JavaScript coerces non-string event names to strings. `emit` with a non-string first argument is modelled as an unknown name.
- Registry.EffectivePrecedence: precedences are modelled as integers. Fractional values, NaN, Infinity and non-numeric values, which JavaScript's `<=` at queuely.js:218 coerces or compares as false, are not represented (NaN is falsy, so the source would treat it like a missing precedence and use 100).
- Engine.Queuely.EventNames: returns the set of master names rather than an object mapping each name to 0.
- `followers` returns the number 0 for an unknown name. It is modelled as `None`.
- `Finish` and `Terminate` throw a TypeError when the bundle's node is missing, or when the key looked up for its master is absent. This is modelled as the `Raised` effect.
- `Dispatch.Serves` (every slave on a master's chain names that master) is proved to survive `on`, `after`, `remove` and `removeMaster` only under the conditions of `Engine.OnKeepsServes`, `Engine.AfterKeepsServes`, `Engine.UnlinkKeepsServes` and `Engine.RemoveChainKeepsServes`. The source itself breaks it in two ways: `on(slaveId, cb)` takes the known-name branch and gives the new node `master: slaveId` (queuely.js:213-224), and `after` on a slave of the event `""` takes the anchor itself as master because `""` is falsy (queuely.js:244). In both cases the tail's `Finish` then invokes that slave as the chain's master (queuely.js:79), and the run lemmas of `Dispatch`, which require `Serves`, do not apply.
- Engine.Queuely.RemoveMaster: the invariant is only ensured when no node points at the removed key. Called on a slave with a predecessor, the source leaves a dangling `next`.
- Engine.Queuely.Emit: follows the corrected lookup of `Dispatch.EmitStep` (a master whose `next` is null invokes itself), not the lookup of the key "null" at queuely.js:108. `Dispatch.EmitStepAsWritten` states the code as written.
- `_listeners` is a plain JavaScript object, so it inherits keys such as "constructor", "toString" and "__proto__". For those names the source takes the known-name branch of `on` and `emit` on a built-in value. The model's dictionary starts empty, so it treats them as unknown names.
- `keylist` in `removeMaster` (queuely.js:257) and `key` in `eventNames` (queuely.js:152) are assigned without a declaration, so they become global variables. The model keeps them local, because nothing reads them after the call.
- `module.exports` and the test harness are not part of this model. The two termination tests in test.js nest `it` inside `it` and never run their bodies. The corresponding properties are stated directly by `Dispatch.RunSoftTerminate` and `Dispatch.RunHardTerminate`.

## Findings

| source | as written | input that shows it | evidently intended | confidence | as-written member | corrected member |
|---|---|---|---|---|---|---|
| queuely.js:217-226 | the walk of `on` compares the current node's precedence, and the new node gets `next: null`, so the stop node's successors drop out of the chain | master, A(100), B(100), then `on("master", cb, 50)`: the chain becomes master, A, new id; B stays in the dictionary but never runs | the documented ordering: a listener of lower precedence runs earlier, ties run in registration order, and no listener is lost | not executed | Updates.OnCutsChain | Updates.InsertInOrder |
| queuely.js:107-109 | `emit` on a master looks up `this._listeners[listener.next]` even when `next` is null, and JavaScript turns the null key into the string "null"; `Finish` and `Terminate` look up a null master the same way at queuely.js:55, 74 and 79 (`Dispatch.MasterFinishCallsNull`) | a master "a" without slaves, in a registry that also holds an event named "null": `emit("a")` invokes the "null" listener, with `actual` null | a master without slaves invokes itself | not executed | Dispatch.EmitAsWrittenCallsNull | Dispatch.EmitLoneMaster |
