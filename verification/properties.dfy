/**
 Properties of the emitter over sequences of calls: the invariant `Valid` holds in
 every reachable state, a `once` registration runs its callback at most once, and
 `trigger` after `addListener`, `removeListener` and `removeAllListeners` invokes
 what those operations promise.
 */
module EmitterProperties {
  import opened Options
  import opened Buckets
  import opened Events

  /** One call a client makes on the emitter. */
  datatype Op<D> =
    | On(event: string, callback: Id)
    | Off(name: Option<string>, target: Option<Id>)
    | OffAll(name: Option<string>)
    | OnceOp(event: string, callback: Id)
    | Emit(event: string, data: D)

  /** The emitter after `op` and the listener calls `op` made. */
  function Step<D>(em: Emitter, op: Op<D>): (Emitter, seq<Call<D>>) {
    match op
    case On(e, callback) => (AddListener(em, e, callback), [])
    case Off(name, target) =>
      (RemoveListener(em, name, if target.Some? then Some(Plain(target.value)) else None), [])
    case OffAll(name) => (RemoveAllListeners(em, name), [])
    case OnceOp(e, callback) => (Once(em, e, callback), [])
    case Emit(e, d) => Fire(em, e, d)
  }

  /** The emitter after a sequence of calls and all listener calls they made, in order. */
  function Replay<D>(em: Emitter, ops: seq<Op<D>>): (Emitter, seq<Call<D>>)
    decreases |ops|
  {
    if ops == [] then (em, [])
    else
      var first := Step(em, ops[0]);
      var rest := Replay(first.0, ops[1..]);
      (rest.0, first.1 + rest.1)
  }

  /** Bucket `b'` holds no once wrapper more often than bucket `b`. */
  ghost predicate NoMoreWrappers(b': Bucket, b: Bucket) {
    forall w: Listener :: w.OnceWrapper? ==> multiset(b')[Some(w)] <= multiset(b)[Some(w)]
  }

  /** Replacing one bucket by one with no extra wrapper slots, and not lowering the
      wrapper count, keeps the invariant. */
  lemma ValidUpdate(em: Emitter, e: string, b': Bucket, n: nat)
    requires Valid(em) && em.minted <= n
    requires NoMoreWrappers(b', Lookup(em.callbacks, e))
    ensures Valid(Emitter(em.callbacks[e := b'], n))
  {
  }

  /** `addListener` keeps the emitter invariant. */
  lemma ValidAddListener(em: Emitter, e: string, callback: Id)
    requires Valid(em)
    ensures Valid(AddListener(em, e, callback))
  {
  }

  /** `removeListener` keeps the emitter invariant. */
  lemma ValidRemoveListener(em: Emitter, name: Option<string>, callback: Option<Listener>)
    requires Valid(em)
    ensures Valid(RemoveListener(em, name, callback))
  {
  }

  /** `once` keeps the emitter invariant: the new wrapper is fresh and takes one slot. */
  lemma ValidOnce(em: Emitter, e: string, callback: Id)
    requires Valid(em)
    ensures Valid(Once(em, e, callback))
  {
  }

  /** `trigger` keeps the emitter invariant. */
  lemma ValidFire<D>(em: Emitter, e: string, d: D)
    requires Valid(em)
    ensures Valid(Fire(em, e, d).0)
  {
    if e in em.callbacks {
      RunNeverRevives(em.callbacks[e], e, d);
      ValidUpdate(em, e, Run(em.callbacks[e], e, d).0, em.minted);
    }
  }

  /** Every operation keeps the emitter invariant. */
  lemma ValidStep<D>(em: Emitter, op: Op<D>)
    requires Valid(em)
    ensures Valid(Step(em, op).0)
  {
    match op
    case On(e, callback) => ValidAddListener(em, e, callback);
    case Off(name, target) =>
      ValidRemoveListener(em, name, if target.Some? then Some(Plain(target.value)) else None);
    case OffAll(name) => ValidRemoveListener(em, name, None);
    case OnceOp(e, callback) => ValidOnce(em, e, callback);
    case Emit(e, d) => ValidFire(em, e, d);
  }

  lemma {:induction false} ValidReplay<D>(em: Emitter, ops: seq<Op<D>>)
    requires Valid(em)
    ensures Valid(Replay(em, ops).0)
    decreases |ops|
  {
    if ops != [] {
      ValidStep(em, ops[0]);
      ValidReplay(Step(em, ops[0]).0, ops[1..]);
    }
  }

  /** Every emitter reachable from the constructor satisfies the invariant. */
  lemma ReachableIsValid<D>(ops: seq<Op<D>>)
    ensures Valid(Replay(New(), ops).0)
  {
    ValidReplay(New(), ops);
  }

  /** Bucket `k` does not hold the listener `w`. */
  predicate Absent(em: Emitter, w: Listener, k: string) {
    k !in em.callbacks || Some(w) !in em.callbacks[k]
  }

  /** No operation lowers the count of wrappers created. */
  lemma StepKeepsMinted<D>(em: Emitter, op: Op<D>)
    ensures Step(em, op).0.minted >= em.minted
  {
  }

  /** No operation puts an already minted once wrapper back into a bucket it is absent from. */
  lemma StepKeepsAbsent<D>(em: Emitter, op: Op<D>, w: Listener, k: string)
    requires w.OnceWrapper? && w.serial < em.minted && Absent(em, w, k)
    ensures Absent(Step(em, op).0, w, k)
  {
    match op
    case On(e, callback) =>
      if k == e {
        assert AddListener(em, e, callback).callbacks[k] == Lookup(em.callbacks, e) + [Some(Plain(callback))];
      }
    case Off(name, target) =>
    case OffAll(name) =>
    case OnceOp(e, callback) =>
      if k == e {
        assert Once(em, e, callback).callbacks[k] == Lookup(em.callbacks, e) + [Some(OnceWrapper(em.minted, callback))];
      }
    case Emit(e, d) =>
      if k == e && e in em.callbacks {
        RunNeverRevives(em.callbacks[e], e, d);
        assert multiset(em.callbacks[e])[Some(w)] == 0;
      }
  }

  /** What an operation invokes of the wrapper `w`: nothing unless it triggers a bucket
      holding `w`, and at most once when it triggers `w`'s own truthy-named bucket,
      which then no longer holds `w`. */
  lemma StepInvocations<D>(em: Emitter, op: Op<D>, w: Listener)
    ensures !op.Emit? || Absent(em, w, op.event) ==> Invocations(Step(em, op).1, w) == 0
    ensures op.Emit? && SelfRemoving(w, op.event) ==>
      Invocations(Step(em, op).1, w) <= 1 && Absent(Step(em, op).0, w, op.event)
  {
    if op.Emit? && op.event in em.callbacks {
      var b := em.callbacks[op.event];
      RunInvocationsBounded(b, op.event, op.data, w);
      if SelfRemoving(w, op.event) {
        RunInvokesWrapperAtMostOnce(b, op.event, op.data, w);
        RunRetiresWrappers(b, op.event, op.data, w);
      }
    }
  }

  /** A minted wrapper absent from every bucket is never invoked again. */
  lemma {:induction false} RetiredReplay<D>(em: Emitter, w: Listener, ops: seq<Op<D>>)
    requires w.OnceWrapper? && w.serial < em.minted
    requires forall k :: Absent(em, w, k)
    ensures Invocations(Replay(em, ops).1, w) == 0
    decreases |ops|
  {
    if ops != [] {
      var first := Step(em, ops[0]);
      forall k
        ensures Absent(first.0, w, k)
      {
        StepKeepsAbsent(em, ops[0], w, k);
      }
      StepKeepsMinted(em, ops[0]);
      StepInvocations(em, ops[0], w);
      RetiredReplay(first.0, w, ops[1..]);
      InvocationsConcat(first.1, Replay(first.0, ops[1..]).1, w);
    }
  }

  /** A minted wrapper that only bucket `e` may hold, `e` a truthy name, is invoked at
      most once by any sequence of operations. */
  lemma {:induction false} ConfinedReplay<D>(em: Emitter, w: Listener, e: string, ops: seq<Op<D>>)
    requires SelfRemoving(w, e) && w.serial < em.minted
    requires forall k :: k != e ==> Absent(em, w, k)
    ensures Invocations(Replay(em, ops).1, w) <= 1
    decreases |ops|
  {
    if ops != [] {
      var op := ops[0];
      var first := Step(em, op);
      forall k | k != e
        ensures Absent(first.0, w, k)
      {
        StepKeepsAbsent(em, op, w, k);
      }
      StepKeepsMinted(em, op);
      StepInvocations(em, op, w);
      InvocationsConcat(first.1, Replay(first.0, ops[1..]).1, w);
      if op.Emit? && op.event == e {
        assert forall k :: Absent(first.0, w, k);
        RetiredReplay(first.0, w, ops[1..]);
      } else {
        ConfinedReplay(first.0, w, e, ops[1..]);
      }
    }
  }

  /** `once(e, callback)` with a truthy `e` runs `callback` through its wrapper at most
      once, whatever calls follow it. */
  lemma OnceRunsAtMostOnce<D>(em: Emitter, e: string, callback: Id, ops: seq<Op<D>>)
    requires Valid(em) && e != ""
    ensures Invocations(Replay(Once(em, e, callback), ops).1, OnceWrapper(em.minted, callback)) <= 1
  {
    var w := OnceWrapper(em.minted, callback);
    var em1 := Once(em, e, callback);
    assert forall k :: k != e ==> Absent(em1, w, k);
    ConfinedReplay(em1, w, e, ops);
  }

  /** The first trigger of a truthy-named `e` after `once(e, callback)` makes the calls
      the bucket made before, then runs the wrapper; the wrapper's slot stays in place
      as a tombstone. */
  lemma OnceFirstTrigger<D>(em: Emitter, e: string, callback: Id, d: D)
    requires Valid(em) && e != ""
    ensures var w := OnceWrapper(em.minted, callback);
      var b := Lookup(em.callbacks, e);
      var r := Fire(Once(em, e, callback), e, d);
      r.1 == Calls(Live(b) + [w], d) && r.0.callbacks[e] == Fired(Live(b), e) + [None]
  {
    var w := OnceWrapper(em.minted, callback);
    var b := Lookup(em.callbacks, e);
    var em1 := Once(em, e, callback);
    ValidOnce(em, e, callback);
    assert em1.callbacks[e] == b + [Some(w)];
    RunMatchesFilter(b + [Some(w)], e, d);
    LiveSnoc(b, w);
    FiredCallsSnoc(Live(b), w, e, d);
  }

  /** Follows the code, against the comment on `once`: with the empty event name the
      wrapper's `removeListener("", wrapper)` takes the falsy-name branch and does
      nothing, so the callback runs on every trigger. */
  lemma OnceOnEmptyNameRunsAgain<D>(em: Emitter, callback: Id, d1: D, d2: D)
    requires Valid(em)
    ensures var w := OnceWrapper(em.minted, callback);
      var first := Fire(Once(em, "", callback), "", d1);
      var second := Fire(first.0, "", d2);
      Call(w, d1) in first.1 && Call(w, d2) in second.1
  {
    var w := OnceWrapper(em.minted, callback);
    var em1 := Once(em, "", callback);
    var b := Lookup(em.callbacks, "");
    ValidOnce(em, "", callback);
    var b1 := b + [Some(w)];
    assert em1.callbacks[""] == b1;
    RunMatchesFilter(b1, "", d1);
    LiveSnoc(b, w);
    FiredCallsSnoc(Live(b), w, "", d1);
    var first := Fire(em1, "", d1);
    assert first.1 == Calls(Live(b), d1) + [Call(w, d1)];
    var b2 := first.0.callbacks[""];
    assert b2 == Fired(Live(b), "") + [Some(w)];
    ValidFire(em1, "", d1);
    LiveSnoc(Fired(Live(b), ""), w);
    RunMatchesFilter(b2, "", d2);
    FiredCallsSnoc(Live(Fired(Live(b), "")), w, "", d2);
  }

  /** Registration order: triggering after `addListener(e, callback)` makes the calls
      made before, then calls `callback`. */
  lemma TriggerAfterAdd<D>(em: Emitter, e: string, callback: Id, d: D)
    requires Valid(em)
    ensures Fire(AddListener(em, e, callback), e, d).1 == Fire(em, e, d).1 + [Call(Plain(callback), d)]
  {
    var b := Lookup(em.callbacks, e);
    var b1 := b + [Some(Plain(callback))];
    ValidAddListener(em, e, callback);
    RunMatchesFilter(b1, e, d);
    LiveSnoc(b, Plain(callback));
    FiredCallsSnoc(Live(b), Plain(callback), e, d);
    if e in em.callbacks {
      RunMatchesFilter(b, e, d);
    } else {
      assert Calls(Live(b), d) == [];
    }
  }

  /** Removal by reference: triggering after `removeListener(e, l)` calls the listeners
      it called before except `l`, in the same order. */
  lemma TriggerAfterRemove<D>(em: Emitter, e: string, l: Listener, d: D)
    requires Valid(em) && e != ""
    ensures Fire(RemoveListener(em, Some(e), Some(l)), e, d).1 == Calls(Erase(Live(Lookup(em.callbacks, e)), l), d)
    ensures Invocations(Fire(RemoveListener(em, Some(e), Some(l)), e, d).1, l) == 0
  {
    var em1 := RemoveListener(em, Some(e), Some(l));
    if e in em.callbacks {
      var b := em.callbacks[e];
      ValidUpdate(em, e, Tombstone(b, l), em.minted);
      assert em1 == Emitter(em.callbacks[e := Tombstone(b, l)], em.minted);
      RunMatchesFilter(Tombstone(b, l), e, d);
      LiveTombstone(b, l);
    } else {
      assert Calls(Erase(Live([]), l), d) == [];
    }
    CallsNotInvoking(Erase(Live(Lookup(em.callbacks, e)), l), l, d);
  }

  lemma {:induction false} CallsNotInvoking<D>(ls: seq<Listener>, l: Listener, d: D)
    requires l !in ls
    ensures Invocations(Calls(ls, d), l) == 0
    decreases |ls|
  {
    if ls != [] {
      assert Calls(ls, d)[1..] == Calls(ls[1..], d);
      CallsNotInvoking(ls[1..], l, d);
    }
  }

  /** Bucket clear: after `removeListener(e)` with no callback, a trigger of a truthy
      `e` calls nothing. */
  lemma TriggerAfterClear<D>(em: Emitter, e: string, d: D)
    requires e != ""
    ensures Fire(RemoveAllListeners(em, Some(e)), e, d).1 == []
    ensures Fire(RemoveListener(em, Some(e), None), e, d).1 == []
  {
  }

  /** The behaviour the comment on `removeListener` documents: after a removal with no
      event name, a trigger of any event calls nothing and changes nothing. The code
      differs; see `NoNameRemovalKeepsListeners`. */
  lemma DocumentedResetSilencesTrigger<D>(em: Emitter, name: Option<string>, callback: Option<Listener>, e: string, d: D)
    requires Falsy(name)
    ensures var reset := RemoveListenerAsDocumented(em, name, callback);
      Fire(reset, e, d) == (reset, [])
  {
  }

  /** Follows the code, against its comment: `removeListener()` with no event name
      leaves every listener in place, so a trigger still calls them. */
  lemma NoNameRemovalKeepsListeners<D>(em: Emitter, e: string, callback: Id, d: D)
    requires Valid(em)
    ensures Call(Plain(callback), d) in Fire(RemoveListener(AddListener(em, e, callback), None, None), e, d).1
  {
    TriggerAfterAdd(em, e, callback, d);
  }
}
