# A Dafny model of the `Events` emitter

`events.js` defines `Events`, a synchronous publish/subscribe emitter. It keeps
`this.callbacks`, a table from event name to a *bucket*: an array of listener
slots in registration order. Removal by reference never shortens a bucket; it
overwrites matching slots with `null` (a *tombstone*). Removal by name alone
replaces the bucket with an empty one. `trigger` walks the bucket
by index. It splices tombstones out at the cursor, stepping the index back, and
calls every other slot with the data. `once` registers a fresh wrapper closure.
The wrapper calls the callback and then removes itself with `removeListener`.

The model is written in four files:

- `options.dfy`: `Option`. It stands for `null`/`undefined` in a slot and for an
  omitted argument.
- `buckets.dfy` (module `Buckets`): listeners, slots and buckets. It holds the
  in-place tombstoning loop of `removeListener`, the self-removal of a once
  wrapper, and `Run`. `Run` is a recursive reference definition of one trigger
  over a bucket. The module proves `Run` equal to a filter specification.
- `events.dfy` (module `Events`): the emitter state and its operations
  `New`, `AddListener`, `RemoveListener`, `RemoveAllListeners`, `Once` and
  `Trigger`. `Dispatch` is the source's index-and-splice loop, written with the
  same `i--`, and proved equal to `Run`.
- `properties.dfy` (module `EmitterProperties`): the operations as a client call
  sequence (`Op`, `Step`, `Replay`). It proves that the invariant `Valid` holds in
  every reachable state, that a `once` callback registered under a non-empty
  event name runs at most once whatever calls follow, and what a trigger invokes after each kind of registration or removal.

Modelling choices:

- A callback is an opaque identity (`Id`), because JavaScript compares functions
  by reference. A slot holds `Plain(id)` for `addListener`, or
  `OnceWrapper(serial, callback)` for the closure that `once` creates.
- The emitter carries `minted`, the number of wrappers created so far. It gives
  every new closure a distinct identity. The source has no such field; it gets
  freshness from allocating a new closure.
- Listener calls are not run. A trigger returns them as a trace of
  `Call(listener, data)`. Invoking a `OnceWrapper` runs its wrapped
  `callback`.
- A plain callback is assumed not to touch the emitter. The only change a
  listener makes during a trigger is the once wrapper's `removeListener(eventName,
  wrapper)` on the array being walked. `Events.SelfRemoveIsRemoveListener` shows
  that this step is exactly `RemoveListener` on the emitter.
- An event name is a `string`. Passing no name is `None`. JavaScript's
  `!eventName` is `Buckets.Falsy`: the name is missing or is `""`.
- The wrapper's self-removal uses the name the wrapper captured in `once`
  (events.js:99). The model uses the name of the bucket being triggered instead.
  The two are the same, because `once(e, ...)` puts the wrapper into bucket `e`
  only, and no operation moves it to another bucket or adds it to one
  (`EmitterProperties.StepKeepsAbsent`).

## Code versus comments

The model follows the code where it disagrees with its comments:

- `removeListener()` with a falsy name is a no-op. The comment at events.js:28
  says it deletes every listener. But `callbacks = {}` at events.js:39 only
  reassigns the local variable, so `this.callbacks` is unchanged.
  `Events.RemoveListener` states the no-op, and
  `EmitterProperties.NoNameRemovalKeepsListeners` shows a listener still being
  called after `removeListener()`. The documented behaviour is
  `Events.RemoveListenerAsDocumented`, which empties the whole table.
  `EmitterProperties.DocumentedResetSilencesTrigger` shows that a trigger after
  it calls nothing. The rest of the model uses the code's behaviour.
- `once("", callback)` runs the callback on every trigger of `""`, not once. The
  wrapper calls `removeListener("", wrapper)`, which takes the same falsy-name
  branch and does nothing. `EmitterProperties.OnceOnEmptyNameRunsAgain` shows two
  triggers that both run it. At most once is the intended property.
  `EmitterProperties.OnceRunsAtMostOnce` proves it only for non-empty names,
  where the code agrees with the comment. No corrected wrapper, one whose
  self-removal ignores the name, is modelled.

## Model

| member | source | states |
|---|---|---|
| Events.New | events.js:4-9 | a new emitter has no buckets and satisfies the emitter invariant |
| Events.Append | events.js:17-18 | bucket `e` becomes its old slots (none if absent) with the listener pushed; the names are the old ones plus `e`, and every other bucket is unchanged |
| Events.AddListener | events.js:16-19 | bucket `e` becomes its old slots (none if absent) followed by the callback; every other bucket and the wrapper count are unchanged |
| Events.RemoveListener | events.js:36-56 | a falsy name leaves the whole emitter unchanged; a name alone sets that bucket to empty, creating it if absent; name and callback keep the bucket's length, turn exactly the slots holding the callback into `null` and leave a missing bucket missing; other buckets never change |
| Buckets.Tombstone | events.js:46-51 | the loop keeps the bucket's length, leaves no slot holding the listener, and keeps every other listener's number of slots |
| Buckets.TombstoneAt | events.js:46-51 | slot by slot: a slot holding the listener becomes `null`, every other slot keeps its content |
| Buckets.LiveTombstone | events.js:43-52 | after removal by reference, the live listeners are the old ones without that listener, in the same order |
| Events.RemoveListenerAsDocumented | events.js:25-30 | the behaviour the comment documents: a falsy name empties the whole table; otherwise the same as `removeListener` |
| Events.RemoveAllListeners | events.js:83-85 | behaves exactly like `removeListener(eventName)` without a callback: a no-op for a falsy name, otherwise the bucket becomes empty |
| Events.Once | events.js:95-102 | appends one new wrapper slot to bucket `e`, leaves other buckets alone, and the wrapper is in no bucket of a valid emitter before |
| Buckets.SelfRemove | events.js:97-100 | a once wrapper's self-removal keeps the bucket's length, leaves the wrapper in no slot for a truthy name, and never adds a slot for any listener |
| Events.SelfRemoveIsRemoveListener | events.js:97-100 | the wrapper's tombstoning of the walked bucket equals `removeListener(eventName, wrapper)` on the emitter |
| Buckets.Run | events.js:64-76 | one trigger leaves as many slots as it makes calls, never more slots than before, and passes `d` to every call |
| Events.Fire | events.js:64-76 | a missing bucket means no change and no calls; a trigger changes only its own bucket and keeps the set of names |
| Events.Dispatch | events.js:67-74 | the index loop with splice and `i--` stays in bounds, terminates, and produces exactly the bucket and calls of the reference `Run` |
| Events.Splice | events.js:69 | `splice(i, 1)` shortens the array by one, keeps the slots before `i` and shifts each later slot down by one |
| Events.SpliceStep | events.js:68-70 | splicing the tombstone at `i` and stepping back loses and repeats nothing: the slot shifted into `i` is examined next |
| Events.InvokeStep | events.js:71-73 | invoking the slot at `i` (and a wrapper's self-tombstoning) keeps the earlier slots and moves the cursor past it without skipping later slots |
| Events.Trigger | events.js:64-76 | a missing bucket is a no-op with no calls; on a valid emitter, the calls are exactly the non-null slots in order, each once with `d`, and the bucket becomes the old one with the nulls filtered out and each self-removed wrapper left as `null` in its place |
| Buckets.RunMatchesFilter | events.js:66-74 | when no wrapper occupies two slots, one trigger equals the filter specification: calls are the live listeners in order, the bucket is the live listeners with fired wrappers tombstoned |
| Buckets.SelfRemoveAt | events.js:71-73 | invoking the listener at `i` leaves the settled slots before `i` alone and applies its self-removal only from `i` on |
| Buckets.RunNeverRevives | events.js:67-73 | a trigger never gives any listener more slots than it had |
| Buckets.RunInvocationsBounded | events.js:67-73 | a trigger calls each listener at most as often as it has slots |
| Buckets.RunRetiresWrappers | events.js:95-101 | after a trigger of a truthy name, no slot holds any once wrapper |
| Buckets.RunInvokesWrapperAtMostOnce | events.js:95-101 | a trigger of a truthy name calls a once wrapper at most once, even when it occupies several slots |
| Buckets.LiveCounts | events.js:68-69 | filtering out nulls drops exactly the tombstones and keeps every listener's multiplicity |
| EmitterProperties.ValidAddListener | events.js:16-19 | `addListener` keeps the emitter invariant |
| EmitterProperties.ValidRemoveListener | events.js:36-56 | `removeListener` keeps the emitter invariant |
| EmitterProperties.ValidOnce | events.js:95-102 | `once` keeps the emitter invariant: the fresh wrapper takes one slot |
| EmitterProperties.ValidFire | events.js:64-76 | `trigger` keeps the emitter invariant |
| EmitterProperties.ValidStep | events.js:16-102 | every public operation keeps the emitter invariant |
| EmitterProperties.ReachableIsValid | events.js:4-9 | every emitter reached from the constructor by any call sequence satisfies the invariant |
| EmitterProperties.StepKeepsAbsent | events.js:16-102 | no operation puts an already created once wrapper back into a bucket that lacks it |
| EmitterProperties.StepInvocations | events.js:64-76 | an operation calls a wrapper only by triggering a bucket holding it, and a truthy-named trigger calls it at most once and removes it |
| EmitterProperties.RetiredReplay | events.js:97-100 | a wrapper that is in no bucket is never called again by any call sequence |
| EmitterProperties.ConfinedReplay | events.js:95-101 | a wrapper held only by its truthy-named bucket is called at most once by any call sequence |
| EmitterProperties.OnceRunsAtMostOnce | events.js:95-102 | after `once(e, callback)` with a non-empty `e`, any later call sequence runs the callback through that wrapper at most once |
| EmitterProperties.OnceFirstTrigger | events.js:95-101 | for a non-empty name, the next trigger makes the earlier listeners' calls and then the wrapper's call; the wrapper's own slot is kept as a `null`, while older tombstones are spliced out |
| EmitterProperties.OnceOnEmptyNameRunsAgain | events.js:37-39 | with the event name `""`, two triggers both call the once wrapper, because its self-removal takes the falsy-name branch |
| EmitterProperties.TriggerAfterAdd | events.js:16-19 | triggering after `addListener(e, callback)` makes the earlier calls and then one call of `callback`: registration order |
| EmitterProperties.TriggerAfterRemove | events.js:43-52 | for a non-empty name `e`, triggering after `removeListener(e, l)` calls the earlier listeners except `l`, in their order, and never calls `l` |
| EmitterProperties.TriggerAfterClear | events.js:41-42 | triggering after `removeListener(e)` or `removeAllListeners(e)` with a non-empty `e` calls nothing |
| EmitterProperties.DocumentedResetSilencesTrigger | events.js:28 | under the documented behaviour, a trigger of any event after a removal with no name calls nothing and changes nothing |
| EmitterProperties.StepKeepsMinted | events.js:95-102 | no operation lowers the count of wrappers created, so wrapper identities are never reused |
| EmitterProperties.NoNameRemovalKeepsListeners | events.js:37-39 | `removeListener()` without a name does not delete listeners: a trigger still calls them |

## Left out

- The `instanceof` guard that lets `Events()` be called without `new` (events.js:5-7). `New` is a plain constructor.
- The aliases `on`, `off`, `emit` and `offAll`. They are the same functions as those modelled. The `return this` chaining is left out too, because the model returns the new state.
- Running listeners. `this` binding and exceptions thrown by a listener are left out; a call is recorded in the trace instead.
- Reentrancy. A plain listener that adds, removes or triggers during a trigger is not modelled, and the source promises nothing for it. Only the once wrapper's self-removal is modelled inside the loop.
- JavaScript property-key coercion. Names are strings, and keys inherited from `Object.prototype` (such as `"toString"`) are not modelled. A missing name is `None`.
- A falsy or non-function value passed as a callback to `addListener`. Callbacks are always identities, so they are always truthy.
- `once` forwards `arguments`. The model passes the single data value that `trigger` supplies.
- Events.Trigger: the filter form of its result is stated for emitters satisfying `Valid`. `EmitterProperties.ReachableIsValid` shows that this covers every reachable emitter. For any other bucket the result is only stated through `Run`.
- A corrected `once` wrapper whose self-removal ignores the event name. At most once is proved for non-empty names only, where the code keeps that promise.
