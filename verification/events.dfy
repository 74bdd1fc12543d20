/**
 The `Events` emitter of events.js: a table from event name to bucket, and the
 operations `addListener`, `removeListener`, `removeAllListeners`, `once` and
 `trigger` over it. Listener invocations are not run; `trigger` returns them as a
 trace of `Call`s instead.
 */
module Events {
  import opened Options
  import opened Buckets

  /** `this.callbacks`: event name to bucket. */
  type Table = map<string, Bucket>

  /** The emitter state. `minted` counts the `once` wrappers created so far; it stands
      for the freshness of each new wrapper closure and is not stored by the source. */
  datatype Emitter = Emitter(callbacks: Table, minted: nat)

  /** The state every emitter reachable through the public operations is in: each
      once wrapper was minted already and occupies at most one slot of its bucket. */
  ghost predicate Valid(em: Emitter) {
    forall e :: e in em.callbacks ==>
      WrappersBelow(em.callbacks[e], em.minted) && UniqueWrappers(em.callbacks[e])
  }

  /** `this.callbacks[eventName] || []`. */
  function Lookup(t: Table, e: string): Bucket {
    if e in t then t[e] else []
  }

  /** The constructor: an empty table. */
  function New(): (em: Emitter)
    ensures Valid(em)
    ensures em.callbacks.Keys == {}
  {
    Emitter(map[], 0)
  }

  /** Appends a slot holding `l` to bucket `e`, creating the bucket if absent. */
  function Append(t: Table, e: string, l: Listener): (r: Table)
    ensures r.Keys == t.Keys + {e}
    ensures r[e] == Lookup(t, e) + [Some(l)]
    ensures forall k :: k in t && k != e ==> r[k] == t[k]
  {
    t[e := Lookup(t, e) + [Some(l)]]
  }

  /** `addListener(eventName, callback)`. */
  function AddListener(em: Emitter, e: string, callback: Id): (r: Emitter)
    ensures r.minted == em.minted
    ensures r.callbacks.Keys == em.callbacks.Keys + {e}
    ensures r.callbacks[e] == Lookup(em.callbacks, e) + [Some(Plain(callback))]
    ensures forall k :: k in em.callbacks && k != e ==> r.callbacks[k] == em.callbacks[k]
  {
    em.(callbacks := Append(em.callbacks, e, Plain(callback)))
  }

  /** `removeListener(eventName, callback)`, either argument possibly omitted. With a
      falsy name the source assigns `{}` to a local variable only, so nothing changes. */
  function RemoveListener(em: Emitter, name: Option<string>, callback: Option<Listener>): (r: Emitter)
    ensures r.minted == em.minted
    ensures Falsy(name) ==> r == em
    ensures !Falsy(name) && callback.None? ==>
      r.callbacks.Keys == em.callbacks.Keys + {name.value} && r.callbacks[name.value] == []
    ensures !Falsy(name) && callback.Some? ==> r.callbacks.Keys == em.callbacks.Keys
    ensures !Falsy(name) && callback.Some? && name.value in em.callbacks ==>
      |r.callbacks[name.value]| == |em.callbacks[name.value]| &&
      (forall i :: 0 <= i < |em.callbacks[name.value]| ==>
        r.callbacks[name.value][i] ==
          if em.callbacks[name.value][i] == callback then None else em.callbacks[name.value][i])
    ensures forall k :: k in em.callbacks && (Falsy(name) || k != name.value) ==>
      k in r.callbacks && r.callbacks[k] == em.callbacks[k]
  {
    if Falsy(name) then
      em
    else if callback.None? then
      em.(callbacks := em.callbacks[name.value := []])
    else if name.value in em.callbacks then
      var b := em.callbacks[name.value];
      TombstoneAt(b, callback.value);
      em.(callbacks := em.callbacks[name.value := Tombstone(b, callback.value)])
    else
      em
  }

  /** `removeListener` as its comment describes it: with a falsy name every listener
      of every event is deleted. The source does not do this (see `RemoveListener`);
      this is the documented behaviour, kept beside the code's for comparison. */
  function RemoveListenerAsDocumented(em: Emitter, name: Option<string>, callback: Option<Listener>): (r: Emitter)
    ensures r.minted == em.minted
    ensures Falsy(name) ==> r.callbacks == map[]
    ensures !Falsy(name) ==> r == RemoveListener(em, name, callback)
  {
    if Falsy(name) then em.(callbacks := map[]) else RemoveListener(em, name, callback)
  }

  /** `removeAllListeners(eventName)`: `removeListener` without a callback. */
  function RemoveAllListeners(em: Emitter, name: Option<string>): (r: Emitter)
    ensures r == RemoveListener(em, name, None)
    ensures Falsy(name) ==> r == em
    ensures !Falsy(name) ==> r.callbacks == em.callbacks[name.value := []] && r.minted == em.minted
  {
    RemoveListener(em, name, None)
  }

  /** `once(eventName, callback)`: registers a new wrapper around `callback`. */
  function Once(em: Emitter, e: string, callback: Id): (r: Emitter)
    ensures r.minted == em.minted + 1
    ensures r.callbacks.Keys == em.callbacks.Keys + {e}
    ensures r.callbacks[e] == Lookup(em.callbacks, e) + [Some(OnceWrapper(em.minted, callback))]
    ensures forall k :: k in em.callbacks && k != e ==> r.callbacks[k] == em.callbacks[k]
    ensures Valid(em) ==> forall k :: k in em.callbacks ==> Some(OnceWrapper(em.minted, callback)) !in em.callbacks[k]
  {
    Emitter(Append(em.callbacks, e, OnceWrapper(em.minted, callback)), em.minted + 1)
  }

  /** `trigger(eventName, data)` as a function: the emitter afterwards and the calls made. */
  function Fire<D>(em: Emitter, e: string, d: D): (res: (Emitter, seq<Call<D>>))
    ensures e !in em.callbacks ==> res == (em, [])
    ensures res.0.minted == em.minted
    ensures res.0.callbacks.Keys == em.callbacks.Keys
    ensures forall k :: k in em.callbacks && k != e ==> res.0.callbacks[k] == em.callbacks[k]
  {
    if e !in em.callbacks then (em, [])
    else
      var r := Run(em.callbacks[e], e, d);
      (em.(callbacks := em.callbacks[e := r.0]), r.1)
  }

  /** What a trigger loop standing at index `i` of `callbacks`, having made the calls
      `trace`, will have produced once it finishes. */
  ghost function Outcome<D>(callbacks: Bucket, i: nat, e: string, d: D, trace: seq<Call<D>>): (Bucket, seq<Call<D>>)
    requires i <= |callbacks|
  {
    var rest := Run(callbacks[i..], e, d);
    (callbacks[..i] + rest.0, trace + rest.1)
  }

  /** Every slot before the cursor is one the loop has finished with. */
  ghost predicate SettledBefore(callbacks: Bucket, i: nat, e: string)
    requires i <= |callbacks|
  {
    forall j :: 0 <= j < i ==> Settled(callbacks[j], e)
  }

  /** `callbacks.splice(i, 1)`: the array without the slot at `i`. */
  function Splice(callbacks: Bucket, i: nat): (r: Bucket)
    requires i < |callbacks|
    ensures |r| == |callbacks| - 1
    ensures forall j :: 0 <= j < i ==> r[j] == callbacks[j]
    ensures forall j :: i <= j < |r| ==> r[j] == callbacks[j + 1]
  {
    callbacks[..i] + callbacks[i + 1..]
  }

  /** Splicing out the tombstone at the cursor and stepping back leaves the outcome
      unchanged: the slot shifted into position `i` is the next one examined. */
  lemma SpliceStep<D>(callbacks: Bucket, i: nat, e: string, d: D, trace: seq<Call<D>>)
    requires i < |callbacks| && callbacks[i].None?
    requires SettledBefore(callbacks, i, e)
    ensures Outcome(Splice(callbacks, i), i, e, d, trace) == Outcome(callbacks, i, e, d, trace)
    ensures SettledBefore(Splice(callbacks, i), i, e)
  {
  }

  /** Invoking the listener at the cursor and moving on leaves the outcome unchanged. */
  lemma InvokeStep<D>(callbacks: Bucket, i: nat, e: string, d: D, trace: seq<Call<D>>, l: Listener)
    requires i < |callbacks| && callbacks[i] == Some(l)
    requires SettledBefore(callbacks, i, e)
    ensures Outcome(SelfRemove(callbacks, e, l), i + 1, e, d, trace + [Call(l, d)]) == Outcome(callbacks, i, e, d, trace)
    ensures SettledBefore(SelfRemove(callbacks, e, l), i + 1, e)
  {
    var c' := SelfRemove(callbacks, e, l);
    SelfRemoveAt(callbacks, i, e, l);
    RunAt(callbacks, i, e, d, l);
    var rest := Run(c'[i + 1..], e, d);
    OutcomeAfterInvoke(callbacks[..i], c'[..i + 1], AfterFire(l, e), rest.0, trace, Call(l, d), rest.1);
    InvokeSettles(callbacks, i, e, l);
  }

  /** The regrouping behind `InvokeStep`: moving the invoked slot and its call from the
      remaining outcome into the part already done. */
  lemma OutcomeAfterInvoke<D>(done: Bucket, done': Bucket, s: Slot, rest: Bucket, trace: seq<Call<D>>, c: Call<D>, calls: seq<Call<D>>)
    requires done' == done + [s]
    ensures done' + rest == done + ([s] + rest)
    ensures trace + [c] + calls == trace + ([c] + calls)
  {
  }

  /** After the invocation at `i`, the prefix up to and including `i` is settled. */
  lemma InvokeSettles(callbacks: Bucket, i: nat, e: string, l: Listener)
    requires i < |callbacks| && callbacks[i] == Some(l)
    requires SettledBefore(callbacks, i, e)
    ensures SettledBefore(SelfRemove(callbacks, e, l), i + 1, e)
  {
    var c' := SelfRemove(callbacks, e, l);
    SelfRemoveAt(callbacks, i, e, l);
    forall j | 0 <= j < i + 1
      ensures Settled(c'[j], e)
    {
      if j < i {
        assert c'[j] == c'[..i][j] == callbacks[j];
      }
    }
  }

  /** At the start of the bucket, the outcome is the whole of `Run`. */
  lemma StartStep<D>(bucket: Bucket, e: string, d: D)
    ensures Outcome(bucket, 0, e, d, []) == Run(bucket, e, d)
  {
    assert bucket[..0] == [] && bucket[0..] == bucket;
    assert [] + Run(bucket, e, d).0 == Run(bucket, e, d).0 && [] + Run(bucket, e, d).1 == Run(bucket, e, d).1;
  }

  /** At the end of the bucket, the outcome is what the loop holds. */
  lemma FinishStep<D>(callbacks: Bucket, i: nat, e: string, d: D, trace: seq<Call<D>>)
    requires i == |callbacks|
    ensures Outcome(callbacks, i, e, d, trace) == (callbacks, trace)
  {
    assert callbacks[..i] == callbacks && callbacks[i..] == [];
    assert callbacks + [] == callbacks && trace + [] == trace;
  }

  /** The loop of `trigger` over one bucket, index by index: a tombstone at the cursor
      is spliced out and the cursor stepped back, so the slot shifted into its place
      is examined next; any other slot is invoked, and a once wrapper then tombstones
      itself in the same array. */
  method Dispatch<D>(bucket: Bucket, e: string, d: D) returns (after: Bucket, trace: seq<Call<D>>)
    ensures (after, trace) == Run(bucket, e, d)
  {
    var callbacks := bucket;
    trace := [];
    var i: int := 0;
    StartStep(bucket, e, d);
    while i < |callbacks|
      invariant 0 <= i <= |callbacks|
      invariant SettledBefore(callbacks, i, e)
      invariant Outcome(callbacks, i, e, d, trace) == Run(bucket, e, d)
      decreases |callbacks| - i
    {
      if callbacks[i].None? {
        SpliceStep(callbacks, i, e, d, trace);
        callbacks := Splice(callbacks, i);
        i := i - 1;
      } else {
        var l := callbacks[i].value;
        InvokeStep(callbacks, i, e, d, trace, l);
        trace := trace + [Call(l, d)];
        callbacks := SelfRemove(callbacks, e, l);
      }
      i := i + 1;
    }
    FinishStep(callbacks, i, e, d, trace);
    after := callbacks;
  }

  /** `trigger(eventName, data)`. */
  method Trigger<D>(em: Emitter, e: string, d: D) returns (em': Emitter, trace: seq<Call<D>>)
    ensures (em', trace) == Fire(em, e, d)
    ensures e !in em.callbacks ==> em' == em && trace == []
    ensures Valid(em) && e in em.callbacks ==>
      trace == Calls(Live(em.callbacks[e]), d) &&
      em'.callbacks == em.callbacks[e := Fired(Live(em.callbacks[e]), e)]
  {
    if e !in em.callbacks {
      return em, [];
    }
    var after;
    after, trace := Dispatch(em.callbacks[e], e, d);
    em' := em.(callbacks := em.callbacks[e := after]);
    if Valid(em) {
      RunMatchesFilter(em.callbacks[e], e, d);
    }
  }

  /** The tombstoning a once wrapper applies to the bucket being walked is exactly its
      call `removeListener(eventName, wrapper)` on the emitter. */
  lemma SelfRemoveIsRemoveListener(em: Emitter, e: string, w: Listener)
    requires e in em.callbacks && w.OnceWrapper?
    ensures RemoveListener(em, Some(e), Some(w)).callbacks ==
      em.callbacks[e := SelfRemove(em.callbacks[e], e, w)]
  {
  }
}
