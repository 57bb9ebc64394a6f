/** `TemplateUpdater` (src/updaters.js:6-151): one updater per hole of a
    template, and per hole at most one pending handle on the asynchronous
    source (promise, observable, async iterator) whose values that hole is
    waiting for.

    The updaters themselves are those `template.evaluate` builds
    (src/actions.js is not part of this model): each is named by an id and
    its kind, and a call `updaters[i].update(v)` is recorded in the log as
    `Deliver(id, v)`.  The callbacks the await methods register become
    event methods (`PromiseFulfilled`, `ObservableNext`, `IteratorYielded`,
    `Closed`) that the environment may call at any later time; each is
    guarded by the handle's `cancelled` flag as in the source.  A handle's
    ghost `settled` flag records that its source has finished (a promise
    settles once; a completed observable or finished iterator calls
    nothing more).

    `Valid()` is the property the engine relies on: a handle that is
    neither cancelled nor settled is the pending handle of its hole.  Every
    method keeps it, so a superseded source never reaches its updater. */
module TemplateUpdaters {
  import opened Values

  datatype UpdaterKind = ChildKind | AttributeKind | AttributePartKind | AttributeMapKind | CommentKind

  datatype Updater = Updater(id: nat, kind: UpdaterKind)

  /** A template instance: its structural identity (`template.source`),
      the kinds of updater its holes get, and the hole values. */
  datatype Template = Template(source: nat, holes: seq<UpdaterKind>, values: seq<Value>)

  /** `values[i]`, `undefined` past the end. */
  function HoleValue(values: seq<Value>, i: nat): Value {
    if i < |values| then values[i] else Undefined
  }

  /** The calls the engine makes outside its own fields. */
  datatype Call =
    | Deliver(updater: nat, value: Value)   // updaters[i].update(value)
    | CancelChild(updater: nat)             // updaters[i].cancelUpdates() on a ChildUpdater
    | Unsubscribe(source: nat)              // subscription.unsubscribe()
    | ReturnIterator(source: nat)           // iter.return()
    | RequestNext(source: nat)              // iter.next()

  /** `template.evaluate(...)`: one updater per hole, of the hole's kind,
      under ids counted from `next`, so none is shared with an earlier
      updater or with another hole. */
  function Evaluated(holes: seq<UpdaterKind>, next: nat): (r: seq<Updater>)
    ensures |r| == |holes|
    ensures forall k :: 0 <= k < |r| ==> r[k].kind == holes[k] && next <= r[k].id < next + |holes|
    ensures forall j, k :: 0 <= j < k < |r| ==> r[j].id != r[k].id
  {
    seq(|holes|, k requires 0 <= k < |holes| => Updater(next + k, holes[k]))
  }

  class Handle {
    /** The promise, observable or async iterable this handle waits on. */
    const source: Value
    /** The hole whose updater the callbacks feed. */
    const hole: nat
    var cancelled: bool
    ghost var settled: bool

    constructor (source: Value, hole: nat)
      ensures this.source == source && this.hole == hole && !cancelled && !settled
    {
      this.source := source;
      this.hole := hole;
      cancelled := false;
      settled := false;
    }

    ghost predicate Live()
      reads this
    {
      !cancelled && !settled
    }

    /** `pending.cancel()`; for an observable, `unsubscribe()`, after which
        the observable calls nothing. */
    method Cancel()
      modifies this`cancelled
      ensures cancelled
    {
      cancelled := true;
    }
  }

  /** The calls `cancel()` makes on the handle's source. */
  function CancelCalls(h: Option<Handle>): (r: seq<Call>)
    ensures h.None? ==> r == []
    ensures h.Some? && h.value.source.Thenable? ==> r == []
    ensures h.Some? && h.value.source.Observable? ==> r == [Unsubscribe(h.value.source.ref)]
    ensures h.Some? && h.value.source.AsyncIterable? ==>
      r == if h.value.source.hasReturn then [ReturnIterator(h.value.source.ref)] else []
    ensures forall k :: 0 <= k < |r| ==> !r[k].Deliver?
  {
    if h.None? then []
    else match h.value.source
      case Observable(ref, _, _) => [Unsubscribe(ref)]
      case AsyncIterable(ref, hasReturn) => if hasReturn then [ReturnIterator(ref)] else []
      case _ => []
  }

  /** One `Deliver` per value, in order. */
  function Deliveries(id: nat, values: seq<Value>): (r: seq<Call>)
    ensures |r| == |values|
    ensures forall k :: 0 <= k < |r| ==> r[k] == Deliver(id, values[k])
    decreases |values|
  {
    if values == [] then [] else Deliveries(id, values[..|values| - 1]) + [Deliver(id, values[|values| - 1])]
  }

  /** The hole already waits on this very source (`pendingSource(i) === value`). */
  predicate Repeats(before: Option<Handle>, v: Value) {
    v.IsAsyncSource() && before.Some? && Same(before.value.source, v)
  }

  /** Whether, after `v` is given to a hole, the hole waits on `v`. */
  predicate Awaits(v: Value) {
    v.Thenable? || v.AsyncIterable? || (v.Observable? && !v.closesOnSubscribe)
  }

  /** The calls one pass of the loop of `update` makes for a hole whose
      pending handle was `before` and whose new value is `v`. */
  function HoleCalls(before: Option<Handle>, id: nat, v: Value): (r: seq<Call>)
    ensures Repeats(before, v) ==> r == []
    ensures !v.IsAsyncSource() ==> r == CancelCalls(before) + [Deliver(id, v)]
  {
    if Repeats(before, v) then []
    else match v
      case Thenable(_) => CancelCalls(before)
      case Observable(_, emits, _) => CancelCalls(before) + Deliveries(id, emits)
      case AsyncIterable(ref, _) => [RequestNext(ref)] + CancelCalls(before)
      case _ => CancelCalls(before) + [Deliver(id, v)]
  }

  /** Regrouping two appends to a log. */
  lemma Appended<T>(a: seq<T>, b: seq<T>, c: seq<T>, x: seq<T>, y: seq<T>)
    requires x == a + b && y == x + c
    ensures y == a + (b + c)
  {
  }

  /** The calls of the loop of `update` over the first `n` holes. */
  function HolesCalls(before: seq<Option<Handle>>, ups: seq<Updater>, values: seq<Value>, n: nat): (r: seq<Call>)
    requires n <= |before| && n <= |ups|
    decreases n
  {
    if n == 0 then []
    else HolesCalls(before, ups, values, n - 1) + HoleCalls(before[n - 1], ups[n - 1].id, HoleValue(values, n - 1))
  }

  /** The calls of `cancelUpdates` over the first `n` holes. */
  function Teardown(pending: seq<Option<Handle>>, ups: seq<Updater>, n: nat): (r: seq<Call>)
    requires n <= |pending| && n <= |ups|
    decreases n
  {
    if n == 0 then []
    else Teardown(pending, ups, n - 1)
         + (CancelCalls(pending[n - 1]) + if ups[n - 1].kind == ChildKind then [CancelChild(ups[n - 1].id)] else [])
  }

  /** What a hole holds after the loop of `update` gave it `v`: the same
      handle when `v` is its source already, a new handle on `v` when `v` is
      awaited, and nothing otherwise. */
  predicate Follows(before: Option<Handle>, v: Value, after: Option<Handle>) {
    if Repeats(before, v) then after == before
    else if Awaits(v) then after.Some? && after.value.source == v && after != before
    else after.None?
  }

  class TemplateUpdater {
    var updaters: Option<seq<Updater>>
    var pending: seq<Option<Handle>>
    var source: Option<nat>
    /** The id the next evaluated updater gets. */
    var nextUpdater: nat
    var log: seq<Call>
    /** Every handle this updater created. */
    ghost var handles: set<Handle>

    /** The arrays agree in length, and each pending handle is live and
        registered for its own hole. */
    ghost predicate Tracked()
      reads this, handles
    {
      && (updaters.None? ==> pending == [])
      && (updaters.Some? ==> |pending| == |updaters.value|)
      && forall k :: 0 <= k < |pending| && pending[k].Some? ==>
           pending[k].value in handles && pending[k].value.hole == k && pending[k].value.Live()
    }

    /** And no live handle is anywhere but in its hole. */
    ghost predicate Valid()
      reads this, handles
    {
      && Tracked()
      && forall h :: h in handles && h.Live() ==> h.hole < |pending| && pending[h.hole] == Some(h)
    }

    function PendingSet(i: nat): set<Handle>
      reads this
    {
      if i < |pending| && pending[i].Some? then {pending[i].value} else {}
    }

    constructor ()
      ensures Valid() && updaters.None? && pending == [] && source.None? && log == []
      ensures nextUpdater == 0 && handles == {}
    {
      updaters := None;
      pending := [];
      source := None;
      nextUpdater := 0;
      log := [];
      handles := {};
    }

    /** `pendingSource(i)` */
    function PendingSource(i: nat): (r: Option<Value>)
      reads this
      ensures r.Some? <==> i < |pending| && pending[i].Some?
      ensures r.Some? ==> r.value == pending[i].value.source
    {
      if i < |pending| && pending[i].Some? then Some(pending[i].value.source) else None
    }

    method CancelPending(i: nat)
      requires Tracked() && i < |pending|
      modifies this`pending, this`log, PendingSet(i)`cancelled
      ensures pending == old(pending)[i := None]
      ensures log == old(log) + CancelCalls(old(pending[i]))
      ensures old(pending[i]).Some? ==> old(pending[i]).value.cancelled
      ensures Tracked() && (old(Valid()) ==> Valid())
    {
      var p := pending[i];
      if p.Some? {
        pending := pending[i := None];
        p.value.Cancel();
        log := log + CancelCalls(p);
      }
    }

    method SetPending(h: Handle, i: nat)
      requires Tracked() && i < |pending| && h !in handles && h.hole == i && h.Live()
      modifies this`pending, this`log, this`handles, PendingSet(i)`cancelled
      ensures pending == old(pending)[i := Some(h)] && handles == old(handles) + {h}
      ensures log == old(log) + CancelCalls(old(pending[i]))
      ensures old(pending[i]).Some? ==> old(pending[i]).value.cancelled
      ensures Tracked() && (old(Valid()) ==> Valid())
    {
      CancelPending(i);
      handles := handles + {h};
      pending := pending[i := Some(h)];
    }

    method AwaitPromise(value: Value, i: nat)
      requires Valid() && i < |pending| && value.Thenable?
      modifies this`pending, this`log, this`handles, PendingSet(i)`cancelled
      ensures Valid() && old(handles) <= handles && fresh(handles - old(handles))
      ensures pending == old(pending)[i := pending[i]] && Follows(old(pending[i]), value, pending[i])
      ensures pending[i] != old(pending[i]) ==> fresh(pending[i].value)
      ensures log == old(log) + HoleCalls(old(pending[i]), updaters.value[i].id, value)
      ensures old(pending[i]).Some? && pending[i] != old(pending[i]) ==> old(pending[i]).value.cancelled
    {
      var current := PendingSource(i);
      if current.Some? && Same(current.value, value) {
        return;
      }
      var h := new Handle(value, i);
      SetPending(h, i);
    }

    /** `awaitObservable` with the previous handle cancelled before the
        new subscription is made; see `AwaitObservableAsWritten`. */
    method AwaitObservable(value: Value, i: nat)
      requires Valid() && i < |pending| && value.Observable?
      modifies this`pending, this`log, this`handles, PendingSet(i)`cancelled
      ensures Valid() && old(handles) <= handles && fresh(handles - old(handles))
      ensures pending == old(pending)[i := pending[i]] && Follows(old(pending[i]), value, pending[i])
      ensures log == old(log) + HoleCalls(old(pending[i]), updaters.value[i].id, value)
      ensures old(pending[i]).Some? && pending[i] != old(pending[i]) ==> old(pending[i]).value.cancelled
    {
      var current := PendingSource(i);
      if current.Some? && Same(current.value, value) {
        return;
      }
      ghost var before := pending[i];
      assert !Repeats(before, value);
      CancelPending(i);
      ghost var l0 := log;
      Subscribe(value, i);
      Appended(old(log), CancelCalls(before), Deliveries(updaters.value[i].id, value.emitsOnSubscribe), l0, log);
      if !value.closesOnSubscribe {
        var h := new Handle(value, i);
        SetPending(h, i);
      }
    }

    /** `subscribe(...)` runs the observer synchronously: once per value
        the observable emits while subscribing. */
    method Subscribe(value: Value, i: nat)
      requires value.Observable? && updaters.Some? && i < |updaters.value|
      modifies this`log
      ensures log == old(log) + Deliveries(updaters.value[i].id, value.emitsOnSubscribe)
    {
      var emits := value.emitsOnSubscribe;
      var id := updaters.value[i].id;
      var k := 0;
      while k < |emits|
        invariant 0 <= k <= |emits|
        invariant log == old(log) + Deliveries(id, emits[..k])
      {
        assert emits[..k + 1][..k] == emits[..k];
        log := log + [Deliver(id, emits[k])];
        k := k + 1;
      }
      assert emits[..k] == emits;
    }

    /** `awaitObservable` as written (src/updaters.js:70-87): when the
        observable completes while subscribing, the completion callback
        clears `pending[i]` and `setPending` is never reached, so the
        handle that was pending is dropped without being cancelled. */
    method AwaitObservableAsWritten(value: Value, i: nat)
      requires Tracked() && i < |pending| && value.Observable?
      modifies this`pending, this`log, this`handles, PendingSet(i)`cancelled
      ensures Tracked() && updaters == old(updaters) && old(handles) <= handles && fresh(handles - old(handles))
      ensures log == old(log) + (if Repeats(old(pending[i]), value) then [] else
        Deliveries(updaters.value[i].id, value.emitsOnSubscribe)
        + if value.closesOnSubscribe then [] else CancelCalls(old(pending[i])))
      ensures !Repeats(old(pending[i]), value) && value.closesOnSubscribe ==> pending == old(pending)[i := None]
      ensures !Repeats(old(pending[i]), value) && value.closesOnSubscribe && old(pending[i]).Some? ==>
        old(pending[i]).value.Live() && !Valid()
    {
      var current := PendingSource(i);
      if current.Some? && Same(current.value, value) {
        return;
      }
      Subscribe(value, i);
      if value.closesOnSubscribe {
        pending := pending[i := None];
      } else {
        var h := new Handle(value, i);
        SetPending(h, i);
      }
    }

    method AwaitAsyncIterator(value: Value, i: nat)
      requires Valid() && i < |pending| && value.AsyncIterable?
      modifies this`pending, this`log, this`handles, PendingSet(i)`cancelled
      ensures Valid() && old(handles) <= handles && fresh(handles - old(handles))
      ensures pending == old(pending)[i := pending[i]] && Follows(old(pending[i]), value, pending[i])
      ensures pending[i] != old(pending[i]) ==> fresh(pending[i].value)
      ensures log == old(log) + HoleCalls(old(pending[i]), updaters.value[i].id, value)
      ensures old(pending[i]).Some? && pending[i] != old(pending[i]) ==> old(pending[i]).value.cancelled
    {
      var current := PendingSource(i);
      if current.Some? && Same(current.value, value) {
        return;
      }
      log := log + [RequestNext(value.ref)];
      var h := new Handle(value, i);
      SetPending(h, i);
    }

    /** One pass of the loop of `update` (src/updaters.js:138-148). */
    method UpdateHole(value: Value, i: nat)
      requires Valid() && i < |pending|
      modifies this`pending, this`log, this`handles, PendingSet(i)`cancelled
      ensures Valid() && old(handles) <= handles && fresh(handles - old(handles))
      ensures pending == old(pending)[i := pending[i]] && Follows(old(pending[i]), value, pending[i])
      ensures log == old(log) + HoleCalls(old(pending[i]), updaters.value[i].id, value)
      ensures old(pending[i]).Some? && pending[i] != old(pending[i]) ==> old(pending[i]).value.cancelled
    {
      if value.Thenable? {
        AwaitPromise(value, i);
      } else if value.Observable? {
        AwaitObservable(value, i);
      } else if value.AsyncIterable? {
        AwaitAsyncIterator(value, i);
      } else {
        CancelPending(i);
        log := log + [Deliver(updaters.value[i].id, value)];
      }
    }

    /** What the loop of `update` keeps after its first `i` passes, which
        started from `start` with the log at `log0`. */
    ghost predicate Progress(values: seq<Value>, i: nat, start: seq<Option<Handle>>, log0: seq<Call>)
      reads this, handles
    {
      && Valid() && updaters.Some? && i <= |updaters.value| == |pending| == |start|
      && (forall k :: 0 <= k < i ==> Follows(start[k], HoleValue(values, k), pending[k]))
      && pending[i..] == start[i..]
      && log == log0 + HolesCalls(start, updaters.value, values, i)
    }

    /** One pass of the loop of `update`. */
    method UpdateNext(values: seq<Value>, i: nat, ghost start: seq<Option<Handle>>, ghost log0: seq<Call>)
      requires Progress(values, i, start, log0) && i < |pending|
      modifies this`pending, this`log, this`handles, handles`cancelled
      ensures Progress(values, i + 1, start, log0)
      ensures old(handles) <= handles && fresh(handles - old(handles))
    {
      ghost var before := log;
      assert pending[i] == start[i];
      UpdateHole(HoleValue(values, i), i);
      Appended(log0, HolesCalls(start, updaters.value, values, i),
               HoleCalls(start[i], updaters.value[i].id, HoleValue(values, i)), before, log);
    }

    /** The loop of `update` over every hole. */
    method UpdateHoles(values: seq<Value>)
      requires Valid() && updaters.Some?
      modifies this`pending, this`log, this`handles, handles`cancelled
      ensures Progress(values, |old(pending)|, old(pending), old(log))
      ensures old(handles) <= handles && fresh(handles - old(handles))
    {
      ghost var start := pending;
      var n := |updaters.value|;
      var i := 0;
      while i < n
        invariant i <= n && Progress(values, i, start, old(log))
        invariant old(handles) <= handles && fresh(handles - old(handles))
      {
        assert pending[i] == start[i];
        UpdateNext(values, i, start, old(log));
        i := i + 1;
      }
    }

    /** What the loop of `cancelUpdates` keeps after its first `i` passes,
        which started from `start` with the log at `log0`. */
    ghost predicate Cancelling(i: nat, start: seq<Option<Handle>>, log0: seq<Call>)
      reads this, handles
    {
      && Valid() && updaters.Some? && i <= |updaters.value| == |pending| == |start|
      && (forall k :: 0 <= k < i ==> pending[k].None?)
      && pending[i..] == start[i..]
      && log == log0 + Teardown(start, updaters.value, i)
    }

    /** One pass of the loop of `cancelUpdates` (src/updaters.js:17-23). */
    method CancelHole(i: nat, ghost start: seq<Option<Handle>>, ghost log0: seq<Call>)
      requires Cancelling(i, start, log0) && i < |pending|
      modifies this`pending, this`log, handles`cancelled
      ensures Cancelling(i + 1, start, log0)
    {
      ghost var before := log;
      assert pending[i] == start[i];
      CancelPending(i);
      var u := updaters.value[i];
      ghost var child := if u.kind == ChildKind then [CancelChild(u.id)] else [];
      if u.kind == ChildKind {
        log := log + [CancelChild(u.id)];
      }
      Appended(before, CancelCalls(start[i]), child, before + CancelCalls(start[i]), log);
      Appended(log0, Teardown(start, updaters.value, i), CancelCalls(start[i]) + child, before, log);
    }

    method CancelUpdates()
      requires Valid()
      modifies this`pending, this`log, handles`cancelled
      ensures |pending| == |old(pending)| && forall k :: 0 <= k < |pending| ==> pending[k].None?
      ensures forall k :: 0 <= k < |pending| && old(pending[k]).Some? ==> old(pending[k]).value.cancelled
      ensures log == old(log) + if updaters.None? then [] else Teardown(old(pending), updaters.value, |pending|)
      ensures Valid()
      ensures forall h :: h in handles && old(h.Live()) ==> h.cancelled
    {
      if updaters.None? {
        return;
      }
      ghost var start := pending;
      var i := 0;
      while i < |updaters.value|
        invariant i <= |updaters.value| && Cancelling(i, start, old(log))
      {
        CancelHole(i, start, old(log));
        i := i + 1;
      }
    }

    /** The rebuild branch of `update` (src/updaters.js:131-136): every
        pending handle and child updater is cancelled, and new updaters are
        evaluated with no handle pending. */
    method Rebuild(t: Template)
      requires Valid()
      modifies this`updaters, this`pending, this`log, this`source, this`nextUpdater, handles`cancelled
      ensures Valid() && source == Some(t.source)
      ensures updaters == Some(Evaluated(t.holes, old(nextUpdater))) && nextUpdater == old(nextUpdater) + |t.holes|
      ensures pending == seq(|t.holes|, _ => None)
      ensures log == old(log) + if old(updaters).None? then [] else Teardown(old(pending), old(updaters).value, |old(pending)|)
      ensures forall h :: h in handles && old(h.Live()) ==> h.cancelled
    {
      CancelUpdates();
      updaters := Some(Evaluated(t.holes, nextUpdater));
      nextUpdater := nextUpdater + |t.holes|;
      pending := seq(|t.holes|, _ => None);
      source := Some(t.source);
    }

    /** `update(template)`: the updaters are rebuilt only when there are
        none yet or the template's source differs; then every pending
        handle and every child updater is cancelled first, and each hole
        starts with no handle. */
    method Update(t: Template)
      requires Valid()
      modifies this, handles`cancelled
      ensures Valid() && source == Some(t.source)
      ensures old(handles) <= handles && fresh(handles - old(handles))
      ensures var rebuilt := old(updaters).None? || old(source) != Some(t.source);
        && (rebuilt ==> updaters == Some(Evaluated(t.holes, old(nextUpdater))))
        && (!rebuilt ==> updaters == old(updaters))
        && var start := if rebuilt then seq(|t.holes|, _ => None) else old(pending);
           && |pending| == |start|
           && (forall k :: 0 <= k < |pending| ==> Follows(start[k], HoleValue(t.values, k), pending[k]))
           && log == old(log) + (if rebuilt && old(updaters).Some? then Teardown(old(pending), old(updaters).value, |old(pending)|) else [])
                  + HolesCalls(start, updaters.value, t.values, |pending|)
    {
      var rebuilt := updaters.None? || source != Some(t.source);
      if rebuilt {
        Rebuild(t);
      }
      ghost var start, mid := pending, log;
      assert start == if rebuilt then seq(|t.holes|, _ => None) else old(pending);
      assert mid == old(log) + (if rebuilt && old(updaters).Some? then Teardown(old(pending), old(updaters).value, |old(pending)|) else []);
      UpdateHoles(t.values);
      assert log == mid + HolesCalls(start, updaters.value, t.values, |start|);
    }

    /** The fulfilment callback of `awaitPromise` (src/updaters.js:55-59). */
    method PromiseFulfilled(h: Handle, v: Value)
      requires Tracked() && h in handles && !h.settled && h.source.Thenable?
      requires !h.cancelled ==> h.hole < |pending|
      modifies this`pending, this`log, h`settled
      ensures h.settled && Tracked() && (old(Valid()) ==> Valid())
      ensures old(h.cancelled) ==> pending == old(pending) && log == old(log)
      ensures !old(h.cancelled) ==> pending == old(pending)[h.hole := None] && log == old(log) + [Deliver(updaters.value[h.hole].id, v)]
      ensures old(Valid()) && !old(h.cancelled) ==> old(pending[h.hole]) == Some(h)
    {
      h.settled := true;
      if !h.cancelled {
        pending := pending[h.hole := None];
        log := log + [Deliver(updaters.value[h.hole].id, v)];
      }
    }

    /** A value the observable emits after subscribing (src/updaters.js:76). */
    method ObservableNext(h: Handle, v: Value)
      requires Tracked() && h in handles && !h.settled && h.source.Observable?
      requires !h.cancelled ==> h.hole < |pending|
      modifies this`log
      ensures old(h.cancelled) ==> log == old(log)
      ensures !old(h.cancelled) ==> log == old(log) + [Deliver(updaters.value[h.hole].id, v)]
      ensures Valid() && !h.cancelled ==> pending[h.hole] == Some(h)
    {
      if !h.cancelled {
        log := log + [Deliver(updaters.value[h.hole].id, v)];
      }
    }

    /** A value the async iterator yields (src/updaters.js:97-104): it is
        delivered and the next one requested. */
    method IteratorYielded(h: Handle, v: Value)
      requires Tracked() && h in handles && !h.settled && h.source.AsyncIterable?
      requires !h.cancelled ==> h.hole < |pending|
      modifies this`log
      ensures old(h.cancelled) ==> log == old(log)
      ensures !old(h.cancelled) ==> log == old(log) + [Deliver(updaters.value[h.hole].id, v), RequestNext(h.source.ref)]
      ensures Valid() && !h.cancelled ==> pending[h.hole] == Some(h)
    {
      if !h.cancelled {
        log := log + [Deliver(updaters.value[h.hole].id, v), RequestNext(h.source.ref)];
      }
    }

    /** The end of a source: a rejected promise (src/updaters.js:60-65),
        an observable's error or completion (77-78), an iterator's last
        result or error (99-100, 106-110).  The hole stops waiting unless
        the handle was cancelled; the rethrown error is not modelled. */
    method Closed(h: Handle)
      requires Tracked() && h in handles && !h.settled && h.source.IsAsyncSource()
      requires !h.cancelled ==> h.hole < |pending|
      modifies this`pending, h`settled
      ensures h.settled && Tracked() && (old(Valid()) ==> Valid())
      ensures old(h.cancelled) ==> pending == old(pending)
      ensures !old(h.cancelled) ==> pending == old(pending)[h.hole := None]
      ensures old(Valid()) && !old(h.cancelled) ==> old(pending[h.hole]) == Some(h)
    {
      h.settled := true;
      if !h.cancelled {
        pending := pending[h.hole := None];
      }
    }
  }

  /** A hole waits on a promise; the template is given again with an
      observable that emits once and completes while subscribing; then the
      promise is fulfilled.  As written the promise's value reaches the
      updater after the observable's, although the hole no longer shows
      the promise. */
  method StaleDeliveryAsWritten() returns (log: seq<Call>)
    ensures log == [Deliver(0, Str("observed")), Deliver(0, Str("stale"))]
  {
    var u := new TemplateUpdater();
    u.Update(Template(1, [ChildKind], [Thenable(7)]));
    var p := u.pending[0].value;
    u.AwaitObservableAsWritten(Observable(8, [Str("observed")], true), 0);
    u.PromiseFulfilled(p, Str("stale"));
    log := u.log;
  }

  /** The same run with the handle cancelled before subscribing: the
      promise's value is dropped. */
  method NoStaleDelivery() returns (log: seq<Call>)
    ensures log == [Deliver(0, Str("observed"))]
  {
    var u := new TemplateUpdater();
    u.Update(Template(1, [ChildKind], [Thenable(7)]));
    var p := u.pending[0].value;
    u.Update(Template(1, [ChildKind], [Observable(8, [Str("observed")], true)]));
    u.PromiseFulfilled(p, Str("stale"));
    log := u.log;
  }
}
