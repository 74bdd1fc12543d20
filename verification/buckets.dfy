/**
 Listener slots and buckets of the `Events` emitter (events.js).

 A bucket is the ordered array of slots kept for one event name. A slot holds a
 listener or the tombstone `null` that `removeListener` leaves behind. This module
 defines the slot-level operations and `Run`, a recursive reference definition of
 what one `trigger` does to a bucket; the index-and-splice loop of the source is
 the method `Events.Dispatch`, proved equal to `Run`.
 */
module Buckets {
  import opened Options

  /** A callback as the caller sees it. JavaScript compares functions by reference,
      so a callback is nothing but an identity. */
  type Id = nat

  /** What a slot can hold: a callback registered with `addListener`, or the
      wrapper closure that `once` registers around a callback. Every call of
      `once` creates a new closure, hence the `serial`. */
  datatype Listener =
    | Plain(id: Id)
    | OnceWrapper(serial: nat, callback: Id)
  {
  }

  type Slot = Option<Listener>
  type Bucket = seq<Slot>

  /** One invocation made by `trigger`: the listener in the slot and the data passed to it.
      Invoking a `OnceWrapper` runs its wrapped `callback` with the same data. */
  datatype Call<D> = Call(listener: Listener, data: D)

  /** JavaScript's `!name` for an event-name argument: missing, or the empty string. */
  predicate Falsy(name: Option<string>) {
    name.None? || name.value == ""
  }

  /** Whether invoking `l` while triggering `e` tombstones `l` in that bucket: a once
      wrapper calls `removeListener(e, itself)`, which does nothing when `e` is falsy. */
  predicate SelfRemoving(l: Listener, e: string) {
    l.OnceWrapper? && !Falsy(Some(e))
  }

  /** The slot a listener leaves behind once `trigger(e)` has invoked it. */
  function AfterFire(l: Listener, e: string): Slot {
    if SelfRemoving(l, e) then None else Some(l)
  }

  /** A slot the trigger loop may pass by without later tombstoning reaching it. */
  predicate Settled(s: Slot, e: string) {
    s.None? || !SelfRemoving(s.value, e)
  }

  /** At most one slot of the bucket holds any given once wrapper. */
  ghost predicate UniqueWrappers(b: Bucket) {
    forall l: Listener :: l.OnceWrapper? ==> multiset(b)[Some(l)] <= 1
  }

  /** Every once wrapper in the bucket was created before the `n`-th call of `once`. */
  ghost predicate WrappersBelow(b: Bucket, n: nat) {
    forall l: Listener :: l.OnceWrapper? && multiset(b)[Some(l)] > 0 ==> l.serial < n
  }

  /** The in-place loop of `removeListener(e, callback)`: every slot holding `l` becomes
      a tombstone, in place. */
  function Tombstone(b: Bucket, l: Listener): (r: Bucket)
    ensures |r| == |b|
    ensures forall x :: multiset(r)[Some(x)] == if x == l then 0 else multiset(b)[Some(x)]
  {
    if b == [] then []
    else
      assert b == [b[0]] + b[1..];
      (if b[0] == Some(l) then [None] else [b[0]]) + Tombstone(b[1..], l)
  }

  /** What invoking `l` during `trigger(e)` does to the bucket being walked: a once
      wrapper tombstones itself (the length does not change); a plain callback is
      assumed not to touch the emitter. */
  function SelfRemove(b: Bucket, e: string, l: Listener): (r: Bucket)
    ensures |r| == |b|
    ensures SelfRemoving(l, e) ==> Some(l) !in r
    ensures forall x :: multiset(r)[Some(x)] <= multiset(b)[Some(x)]
  {
    if SelfRemoving(l, e) then Tombstone(b, l) else b
  }

  /** The listeners of a bucket with the tombstones filtered out, in slot order. */
  function Live(b: Bucket): (r: seq<Listener>)
    ensures |r| <= |b|
  {
    if b == [] then []
    else (if b[0].Some? then [b[0].value] else []) + Live(b[1..])
  }

  /** The invocations of a list of listeners, in order, each with `d`. */
  function Calls<D>(ls: seq<Listener>, d: D): seq<Call<D>> {
    seq(|ls|, i requires 0 <= i < |ls| => Call(ls[i], d))
  }

  /** The slots that invoked listeners leave behind, in order. */
  function Fired(ls: seq<Listener>, e: string): Bucket {
    seq(|ls|, i requires 0 <= i < |ls| => AfterFire(ls[i], e))
  }

  /** `ls` without the listener `l`, the others kept in order. */
  function Erase(ls: seq<Listener>, l: Listener): (r: seq<Listener>)
    ensures l !in r
    ensures forall x :: x != l ==> multiset(r)[x] == multiset(ls)[x]
  {
    if ls == [] then []
    else
      assert ls == [ls[0]] + ls[1..];
      (if ls[0] == l then [] else [ls[0]]) + Erase(ls[1..], l)
  }

  /** The number of invocations of `l` in a trace. */
  function Invocations<D>(trace: seq<Call<D>>, l: Listener): nat {
    if trace == [] then 0
    else (if trace[0].listener == l then 1 else 0) + Invocations(trace[1..], l)
  }

  /** Reference definition of one `trigger(e, d)` over a bucket: the bucket left
      behind and the invocations made. A tombstone is dropped; a listener is invoked,
      its own tombstoning is applied to the slots still to come, and the slot it
      leaves behind is kept. */
  function Run<D>(b: Bucket, e: string, d: D): (res: (Bucket, seq<Call<D>>))
    ensures |res.0| == |res.1|
    ensures |res.0| <= |b|
    ensures forall c :: c in res.1 ==> c.data == d
    decreases |b|
  {
    if b == [] then ([], [])
    else if b[0].None? then Run(b[1..], e, d)
    else
      var l := b[0].value;
      var rest := Run(SelfRemove(b[1..], e, l), e, d);
      ([AfterFire(l, e)] + rest.0, [Call(l, d)] + rest.1)
  }

  lemma {:induction false} LiveConcat(a: Bucket, b: Bucket)
    ensures Live(a + b) == Live(a) + Live(b)
    decreases |a|
  {
    if a == [] {
      assert a + b == b;
    } else {
      assert (a + b)[0] == a[0];
      assert (a + b)[1..] == a[1..] + b;
      LiveConcat(a[1..], b);
    }
  }

  lemma {:induction false} InvocationsConcat<D>(s: seq<Call<D>>, t: seq<Call<D>>, l: Listener)
    ensures Invocations(s + t, l) == Invocations(s, l) + Invocations(t, l)
    decreases |s|
  {
    if s == [] {
      assert s + t == t;
    } else {
      assert (s + t)[0] == s[0];
      assert (s + t)[1..] == s[1..] + t;
      InvocationsConcat(s[1..], t, l);
    }
  }

  /** Tombstoning works slot by slot: a slot holding `l` becomes `null`, every other
      slot keeps what it held. */
  lemma {:induction false} TombstoneAt(b: Bucket, l: Listener)
    ensures forall i :: 0 <= i < |b| ==> Tombstone(b, l)[i] == if b[i] == Some(l) then None else b[i]
    decreases |b|
  {
    if b != [] {
      var h: Bucket := if b[0] == Some(l) then [None] else [b[0]];
      var t := Tombstone(b[1..], l);
      TombstoneAt(b[1..], l);
      assert Tombstone(b, l) == h + t;
      forall i | 0 <= i < |b|
        ensures Tombstone(b, l)[i] == if b[i] == Some(l) then None else b[i]
      {
        if i > 0 {
          assert (h + t)[i] == t[i - 1];
          assert b[i] == b[1..][i - 1];
        }
      }
    }
  }

  /** Tombstoning a listener that is absent changes nothing. */
  lemma TombstoneAbsent(b: Bucket, l: Listener)
    requires Some(l) !in b
    ensures Tombstone(b, l) == b
  {
  }

  lemma LiveCons(h: Slot, t: Bucket)
    ensures Live([h] + t) == (if h.Some? then [h.value] else []) + Live(t)
  {
  }

  lemma EraseCons(h: Listener, t: seq<Listener>, l: Listener)
    ensures Erase([h] + t, l) == (if h == l then [] else [h]) + Erase(t, l)
  {
  }

  /** Filtering keeps every listener as many times as it has slots, and drops exactly
      the tombstones. */
  lemma {:induction false} LiveCounts(b: Bucket)
    ensures |Live(b)| == |b| - multiset(b)[None]
    ensures forall l :: multiset(Live(b))[l] == multiset(b)[Some(l)]
    decreases |b|
  {
    if b != [] {
      assert b == [b[0]] + b[1..];
      LiveCounts(b[1..]);
    }
  }

  /** After tombstoning `l`, the live listeners are the old ones without `l`, in order. */
  lemma {:induction false} LiveTombstone(b: Bucket, l: Listener)
    ensures Live(Tombstone(b, l)) == Erase(Live(b), l)
    decreases |b|
  {
    if b != [] {
      var h := b[0];
      var rest := b[1..];
      var t := Tombstone(rest, l);
      assert b == [h] + rest;
      LiveTombstone(rest, l);
      LiveCons(h, rest);
      if h == Some(l) {
        assert Tombstone(b, l) == [None] + t;
        LiveCons(None, t);
        EraseCons(l, Live(rest), l);
      } else if h.None? {
        assert Tombstone(b, l) == [None] + t;
        LiveCons(None, t);
        assert Live(Tombstone(b, l)) == Live(t);
        assert Live(b) == Live(rest);
      } else {
        assert Tombstone(b, l) == [h] + t;
        LiveCons(h, t);
        if h.Some? {
          assert h.value != l;
          EraseCons(h.value, Live(rest), l);
        }
      }
    }
  }

  /** The step the trigger loop takes when it invokes the listener at index `i`:
      the settled slots before `i` are untouched, slot `i` becomes what the listener
      leaves behind, and the slots after `i` get the listener's own tombstoning. */
  lemma SelfRemoveAt(c: Bucket, i: nat, e: string, l: Listener)
    requires i < |c| && c[i] == Some(l)
    requires forall j :: 0 <= j < i ==> Settled(c[j], e)
    ensures SelfRemove(c, e, l)[..i] == c[..i]
    ensures SelfRemove(c, e, l)[i] == AfterFire(l, e)
    ensures SelfRemove(c, e, l)[i + 1..] == SelfRemove(c[i + 1..], e, l)
  {
    if SelfRemoving(l, e) {
      assert forall j :: 0 <= j < i ==> c[j] != Some(l) by {
        forall j | 0 <= j < i
          ensures c[j] != Some(l)
        {
          assert Settled(c[j], e);
        }
      }
      TombstonePrefix(c, i, l);
      TombstoneSuffix(c, i + 1, l);
      assert Tombstone(c, l)[i] == None by {
        TombstoneAt(c, l);
      }
    }
  }

  /** `Run` unfolded at a listener in the middle of an array: the slot is invoked and
      the listener's tombstoning applies to the slots after it. */
  lemma RunAt<D>(c: Bucket, i: nat, e: string, d: D, l: Listener)
    requires i < |c| && c[i] == Some(l)
    ensures var rest := Run(SelfRemove(c[i + 1..], e, l), e, d);
      Run(c[i..], e, d) == ([AfterFire(l, e)] + rest.0, [Call(l, d)] + rest.1)
  {
    assert c[i..][0] == c[i] && c[i..][1..] == c[i + 1..];
  }

  lemma TombstonePrefix(c: Bucket, i: nat, l: Listener)
    requires i <= |c|
    requires forall j :: 0 <= j < i ==> c[j] != Some(l)
    ensures Tombstone(c, l)[..i] == c[..i]
  {
    TombstoneAt(c, l);
    assert forall j :: 0 <= j < i ==> Tombstone(c, l)[j] == c[j];
  }

  lemma TombstoneSuffix(c: Bucket, i: nat, l: Listener)
    requires i <= |c|
    ensures Tombstone(c, l)[i..] == Tombstone(c[i..], l)
  {
    TombstoneAt(c, l);
    TombstoneAt(c[i..], l);
  }

  /** `trigger` never brings a listener back: every listener has at most as many
      slots afterwards as before. */
  lemma {:induction false} RunNeverRevives<D>(b: Bucket, e: string, d: D)
    ensures forall x :: multiset(Run(b, e, d).0)[Some(x)] <= multiset(b)[Some(x)]
    decreases |b|
  {
    if b != [] {
      assert b == [b[0]] + b[1..];
      if b[0].None? {
        RunNeverRevives(b[1..], e, d);
      } else {
        var l := b[0].value;
        var s := SelfRemove(b[1..], e, l);
        RunNeverRevives(s, e, d);
        assert Run(b, e, d).0 == [AfterFire(l, e)] + Run(s, e, d).0;
      }
    }
  }

  /** With a truthy event name, no once wrapper survives a trigger: the one that runs
      tombstones itself, and any later copy of it is tombstoned and then spliced out. */
  lemma {:induction false} RunRetiresWrappers<D>(b: Bucket, e: string, d: D, w: Listener)
    requires SelfRemoving(w, e)
    ensures Some(w) !in Run(b, e, d).0
    decreases |b|
  {
    if b != [] {
      if b[0].None? {
        RunRetiresWrappers(b[1..], e, d, w);
      } else {
        var l := b[0].value;
        var s := SelfRemove(b[1..], e, l);
        RunRetiresWrappers(s, e, d, w);
        assert Run(b, e, d).0 == [AfterFire(l, e)] + Run(s, e, d).0;
      }
    }
  }

  /** A trigger invokes each listener at most as often as it has slots. */
  lemma {:induction false} RunInvocationsBounded<D>(b: Bucket, e: string, d: D, x: Listener)
    ensures Invocations(Run(b, e, d).1, x) <= multiset(b)[Some(x)]
    decreases |b|
  {
    if b != [] {
      assert b == [b[0]] + b[1..];
      if b[0].None? {
        RunInvocationsBounded(b[1..], e, d, x);
      } else {
        var l := b[0].value;
        var s := SelfRemove(b[1..], e, l);
        RunInvocationsBounded(s, e, d, x);
        var t := Run(s, e, d).1;
        assert Run(b, e, d).1 == [Call(l, d)] + t;
        assert ([Call(l, d)] + t)[1..] == t;
      }
    }
  }

  /** With a truthy event name, a trigger invokes a once wrapper at most once, even if
      the bucket held it in several slots. */
  lemma {:induction false} RunInvokesWrapperAtMostOnce<D>(b: Bucket, e: string, d: D, w: Listener)
    requires SelfRemoving(w, e)
    ensures Invocations(Run(b, e, d).1, w) <= 1
    decreases |b|
  {
    if b != [] {
      if b[0].None? {
        RunInvokesWrapperAtMostOnce(b[1..], e, d, w);
      } else {
        var l := b[0].value;
        var s := SelfRemove(b[1..], e, l);
        var t := Run(s, e, d).1;
        assert Run(b, e, d).1 == [Call(l, d)] + t;
        assert ([Call(l, d)] + t)[1..] == t;
        if l == w {
          RunInvocationsBounded(s, e, d, w);
        } else {
          RunInvokesWrapperAtMostOnce(s, e, d, w);
        }
      }
    }
  }

  lemma UniqueTail(b: Bucket)
    requires b != [] && UniqueWrappers(b)
    ensures UniqueWrappers(b[1..])
    ensures b[0].Some? && b[0].value.OnceWrapper? ==> Some(b[0].value) !in b[1..]
  {
    assert b == [b[0]] + b[1..];
    forall l: Listener | l.OnceWrapper?
      ensures multiset(b[1..])[Some(l)] <= 1
    {
      assert multiset(b)[Some(l)] == multiset([b[0]])[Some(l)] + multiset(b[1..])[Some(l)];
    }
  }

  lemma FiredCallsCons<D>(l: Listener, ls: seq<Listener>, e: string, d: D)
    ensures Fired([l] + ls, e) == [AfterFire(l, e)] + Fired(ls, e)
    ensures Calls([l] + ls, d) == [Call(l, d)] + Calls(ls, d)
  {
  }

  lemma FiredCallsSnoc<D>(ls: seq<Listener>, l: Listener, e: string, d: D)
    ensures Fired(ls + [l], e) == Fired(ls, e) + [AfterFire(l, e)]
    ensures Calls(ls + [l], d) == Calls(ls, d) + [Call(l, d)]
  {
  }

  lemma LiveSnoc(b: Bucket, l: Listener)
    ensures Live(b + [Some(l)]) == Live(b) + [l]
  {
    LiveConcat(b, [Some(l)]);
    LiveCons(Some(l), []);
    assert [Some(l)] + [] == [Some(l)];
  }

  /** The filter specification of a trigger: when no once wrapper occupies two slots,
      it invokes exactly the non-null slots, in slot order, each once with `d`, and
      leaves the bucket with the tombstones filtered out and each self-removing
      wrapper that ran tombstoned in its place. */
  lemma {:induction false} RunMatchesFilter<D>(b: Bucket, e: string, d: D)
    requires UniqueWrappers(b)
    ensures Run(b, e, d) == (Fired(Live(b), e), Calls(Live(b), d))
    decreases |b|
  {
    if b == [] {
      assert Fired(Live(b), e) == [] && Calls(Live(b), d) == [];
    } else {
      var rest := b[1..];
      UniqueTail(b);
      LiveCons(b[0], rest);
      assert b == [b[0]] + rest;
      RunMatchesFilter(rest, e, d);
      if b[0].Some? {
        var l := b[0].value;
        if SelfRemoving(l, e) {
          TombstoneAbsent(rest, l);
        }
        FiredCallsCons(l, Live(rest), e, d);
      } else {
        assert Live(b) == Live(rest);
      }
    }
  }
}
