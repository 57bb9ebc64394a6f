/** What every step of a child updater keeps: the DOM between its markers
    shows exactly the slots it holds, in order, each range once, and
    every id in it was handed out by `createSlot`.  Each lemma here proves
    that one step of module Reconcile preserves this; together they show
    that the `insertSiblings` and `removeSiblings` calls of the source
    (src/updaters.js:314-342) keep the document in step with the array. */
module ChildInvariant {
  import opened Values
  import opened Seqs
  import opened Slots
  import opened Reconcile

  /** The ranges the held slots should occupy, in order. */
  function Rendered(st: State): seq<nat> {
    if st.slots.Some? then Ids(st.slots.value)
    else if st.slot.Some? then [st.slot.value.id]
    else []
  }

  predicate Wf(st: State) {
    && !(st.slot.Some? && st.slots.Some?)
    && st.dom == Rendered(st)
    && Distinct(st.dom)
    && forall k :: 0 <= k < |st.dom| ==> st.dom[k] < st.nextId
  }

  /** A new child updater holds nothing and its markers enclose nothing. */
  lemma InitialWf()
    ensures Wf(State(None, None, [], 0, []))
  {
  }

  lemma ScalarKeepsWf(st: State, v: Value)
    requires Wf(st) && st.slots.None?
    ensures Wf(AfterScalar(st, v))
    ensures AfterScalar(st, v).dom == [AfterScalar(st, v).slot.value.id]
  {
    if st.slot.Some? && !Matches(st.slot.value, v) {
      var id := st.slot.value.id;
      assert st.dom == [id];
      assert IndexOf(st.dom, id) == 0;
      assert RemoveRanges(st.dom, id, id) == [];
    }
  }

  /** A range under an id above every id in the DOM can go anywhere
      without creating a repetition. */
  lemma SplicedFresh(dom: seq<nat>, at: nat, id: nat)
    requires Distinct(dom) && at <= |dom| && forall k :: 0 <= k < |dom| ==> dom[k] < id
    ensures var r := Spliced(dom, at, [id]);
      Distinct(r) && forall k :: 0 <= k < |r| ==> r[k] < id + 1
  {
    var r := Spliced(dom, at, [id]);
    assert id !in dom;
    assert [id][0] == id;
    DistinctSpliced(dom, at, [id]);
    forall k | 0 <= k < |r| ensures r[k] < id + 1 {
      if k != at {
        assert r[k] == dom[if k < at then k else k - 1];
      }
    }
  }

  /** `insertSlot` puts the new range where the new slot goes in the array,
      under an id not yet in the DOM. */
  lemma InsertKeepsWf(st: State, v: Value, pos: nat)
    requires Wf(st) && st.slots.Some?
    ensures st.nextId !in st.dom
    ensures Wf(AfterInsert(st, v, pos))
  {
    var slots := st.slots.value;
    var at := if pos < |slots| then pos else |slots|;
    var s := Fresh(st, v);
    InsertRangesSpliced(st.dom, at, [s.id]);
    IdsSpliced(slots, at, [s]);
    assert Ids([s]) == [s.id];
    SplicedFresh(st.dom, at, s.id);
  }

  /** `moveSlot` moves the range exactly as it moves the slot. */
  lemma MoveKeepsWf(st: State, from: nat, to: nat)
    requires Wf(st) && st.slots.Some? && to < from < |st.slots.value|
    ensures Wf(AfterMove(st, from, to))
  {
    var r := AfterMove(st, from, to);
    MoveRangeMoved(st.dom, from, to);
    IdsMoved(st.slots.value, from, to);
    DistinctMoved(st.dom, from, to);
    forall k | 0 <= k < |r.dom| ensures r.dom[k] < r.nextId {
      assert r.dom[k] == st.dom[if k < to || from < k then k else if k == to then from else k - 1];
    }
  }

  lemma RefreshKeepsWf(st: State, i: nat, v: Value)
    requires Wf(st) && st.slots.Some? && i < |st.slots.value|
    ensures Wf(AfterRefresh(st, i, v))
  {
    assert Ids(AfterRefresh(st, i, v).slots.value) == Ids(st.slots.value);
  }

  lemma ItemKeepsWf(st: State, v: Value, i: nat)
    requires Wf(st) && st.slots.Some? && i <= |st.slots.value|
    ensures Wf(AfterItem(st, v, i))
  {
    var pos := SearchFrom(st.slots.value, v, i);
    if pos == -1 {
      InsertKeepsWf(st, v, i);
    } else if pos != i {
      MoveKeepsWf(st, pos, i);
      RefreshKeepsWf(AfterMove(st, pos, i), i, v);
    } else {
      RefreshKeepsWf(st, i, v);
    }
  }

  lemma {:induction false} ItemsKeepWf(st: State, list: seq<Value>, n: nat)
    requires Wf(st) && st.slots.Some? && n <= |list|
    ensures Wf(AfterItems(st, list, n))
    decreases n
  {
    if n > 0 {
      var prev := AfterItems(st, list, n - 1);
      assert AfterItems(st, list, n) == AfterItem(prev, list[n - 1], n - 1);
      ItemsKeepWf(st, list, n - 1);
      ItemKeepsWf(prev, list[n - 1], n - 1);
    } else {
      assert AfterItems(st, list, n) == st;
    }
  }

  /** `removeSlots(from)` cuts the DOM back to the ranges of the slots it
      keeps: the ranges of the removed slots are gone. */
  lemma RemoveCutsTail(st: State, from: nat)
    requires Wf(st) && st.slots.Some? && from < |st.slots.value|
    ensures var r := AfterRemove(st, from);
      && r.slots.value == st.slots.value[..from] && r.dom == st.dom[..from]
      && r.log == st.log + Cancels(st.slots.value[from..])
                         + [RemoveSiblings(st.slots.value[from].id, st.slots.value[|st.slots.value| - 1].id)]
      && forall k :: from <= k < |st.slots.value| ==> st.slots.value[k].id !in r.dom
  {
    var slots, r := st.slots.value, AfterRemove(st, from);
    assert st.dom[from] == slots[from].id && st.dom[|st.dom| - 1] == slots[|slots| - 1].id;
    RemoveRangesTail(st.dom, from);
    assert r.dom == st.dom[..from];
    forall k | from <= k < |slots| ensures slots[k].id !in r.dom {
      DistinctApart(st.dom, k, 0, from);
      assert st.dom[0..from] == st.dom[..from];
      assert st.dom[k] == slots[k].id;
    }
  }

  lemma RemoveKeepsWf(st: State, from: nat)
    requires Wf(st) && st.slots.Some?
    ensures Wf(AfterRemove(st, from))
  {
    var slots, r := st.slots.value, AfterRemove(st, from);
    if from < |slots| {
      assert st.dom[from] == slots[from].id && st.dom[|st.dom| - 1] == slots[|slots| - 1].id;
      RemoveRangesTail(st.dom, from);
      IdsPrefix(slots, from);
      assert r.dom == Rendered(r);
      DistinctPrefix(st.dom, from);
      assert forall k :: 0 <= k < |r.dom| ==> r.dom[k] == st.dom[k];
    }
  }

  lemma PromotedKeepsWf(st: State)
    requires Wf(st)
    ensures Wf(Promoted(st))
  {
    if st.slots.None? && st.slot.Some? {
      assert Ids([st.slot.value]) == [st.slot.value.id];
    }
  }

  lemma VectorKeepsWf(st: State, list: seq<Value>)
    requires Wf(st)
    ensures Wf(AfterVector(st, list))
  {
    PromotedKeepsWf(st);
    ItemsKeepWf(Promoted(st), list, |list|);
    RemoveKeepsWf(AfterItems(Promoted(st), list, |list|), |list|);
  }

  /** `ChildUpdater.update` keeps the invariant; after a value that is not
      a sequence the DOM holds the one range of the one slot. */
  lemma UpdateKeepsWf(st: State, v: Value)
    requires Wf(st)
    ensures Wf(AfterUpdate(st, v))
    ensures !IsSequence(v) ==> AfterUpdate(st, v).dom == [AfterUpdate(st, v).slot.value.id]
  {
    if IsSequence(v) {
      VectorKeepsWf(st, v.items);
    } else if st.slots.Some? {
      var r := AfterVector(st, [v]);
      VectorKeepsWf(st, [v]);
      assert r.dom == Ids(r.slots.value) == [r.slots.value[0].id];
    } else {
      ScalarKeepsWf(st, v);
    }
  }

  /** The three slots of the reordering scenario are well formed. */
  lemma ThreeSlotsWf()
    ensures Wf(ThreeSlots())
  {
    assert Ids(ThreeSlots().slots.value) == [0, 1, 2];
  }
}
