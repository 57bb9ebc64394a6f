/** The child updater as a state machine over values.

    `State` holds everything a `ChildUpdater` (src/updaters.js:216-343)
    keeps or touches: its scalar `slot`, its vector `slots` (null in the
    source is `None` here), the ranges between its start and end markers
    (`dom`, by slot id), the next fresh slot id, and the log of calls it
    made on slots.  Each `After…` function is the state one step of the
    source leaves behind, and asks of that state only what the step itself
    relies on; the class in child_updater.dfy is proved to follow them.
    The lemmas here state what the steps achieve; module ChildInvariant
    proves that they keep the DOM in agreement with the slots. */
module Reconcile {
  import opened Values
  import opened Seqs
  import opened Slots

  /** The calls a child updater makes on slots (src/slots.js) and on the
      DOM adapter (src/dom.js), by slot id. */
  datatype Effect =
    | CreateSlot(id: nat, value: Value, next: Anchor)
    | UpdateSlot(id: nat, value: Value)
    | CancelSlot(id: nat)
    | InsertSiblings(id: nat, next: Anchor)
    | RemoveSiblings(first: nat, last: nat)

  datatype State = State(
    slot: Option<Slot>,
    slots: Option<seq<Slot>>,
    dom: seq<nat>,
    nextId: nat,
    log: seq<Effect>)

  /** One `CancelSlot` per slot, in order. */
  function Cancels(slots: seq<Slot>): (r: seq<Effect>)
    ensures |r| == |slots|
    ensures forall k {:trigger r[k]} :: 0 <= k < |r| ==> r[k] == CancelSlot(slots[k].id)
  {
    if slots == [] then [] else Cancels(slots[..|slots| - 1]) + [CancelSlot(slots[|slots| - 1].id)]
  }

  /** The slot `createSlot(v, …)` returns. */
  function Fresh(st: State, v: Value): Slot {
    Slot(st.nextId, KindOf(v), v)
  }

  /** `createSlot(v, next)`: a new range before `next`, under a fresh id. */
  function Created(st: State, v: Value, next: Anchor): State {
    st.(dom := InsertRanges(st.dom, [st.nextId], next),
        nextId := st.nextId + 1,
        log := st.log + [CreateSlot(st.nextId, v, next)])
  }

  /** `updateScalar(v)`: keep a matching slot and update it; otherwise
      cancel it, remove its range and create a new one before the end marker. */
  function AfterScalar(st: State, v: Value): (r: State)
    requires st.slots.None?
    ensures r.slots.None? && r.slot.Some?
  {
    if st.slot.None? then
      Created(st, v, AtEnd).(slot := Some(Fresh(st, v)))
    else if Matches(st.slot.value, v) then
      st.(slot := Some(st.slot.value.(content := v)),
          log := st.log + [UpdateSlot(st.slot.value.id, v)])
    else
      var id := st.slot.value.id;
      var gone := st.(log := st.log + [CancelSlot(id), RemoveSiblings(id, id)],
                      dom := RemoveRanges(st.dom, id, id));
      Created(gone, v, AtEnd).(slot := Some(Fresh(gone, v)))
  }

  /** After `updateScalar(v)` the one slot shows `v`.  A slot that matches
      is kept and updated in place; any other is cancelled and its range
      removed, and a fresh slot is created at the end. */
  lemma ScalarShowsValue(st: State, v: Value)
    requires st.slots.None?
    ensures var r := AfterScalar(st, v);
      && r.slot.value.content == v && Matches(r.slot.value, v)
      && (st.slot.Some? && Matches(st.slot.value, v) ==>
            r.slot.value.id == st.slot.value.id && r.nextId == st.nextId && r.dom == st.dom
            && r.log == st.log + [UpdateSlot(st.slot.value.id, v)])
      && (!(st.slot.Some? && Matches(st.slot.value, v)) ==>
            r.slot.value.id == st.nextId && r.nextId == st.nextId + 1
            && r.log == st.log + (if st.slot.Some? then [CancelSlot(st.slot.value.id),
                                                         RemoveSiblings(st.slot.value.id, st.slot.value.id)]
                                  else [])
                               + [CreateSlot(st.nextId, v, AtEnd)])
  {
    if st.slot.Some? && !Matches(st.slot.value, v) {
      var id := st.slot.value.id;
      assert st.log + [CancelSlot(id), RemoveSiblings(id, id)] + [CreateSlot(st.nextId, v, AtEnd)]
          == st.log + ([CancelSlot(id), RemoveSiblings(id, id)] + [CreateSlot(st.nextId, v, AtEnd)]);
    }
  }

  /** `search(v, i)`: the first slot at or after `i` that matches `v`, or -1. */
  function SearchFrom(slots: seq<Slot>, v: Value, i: nat): (r: int)
    ensures r == -1 || i <= r < |slots|
    ensures r != -1 ==> Matches(slots[r], v)
    decreases |slots| - i
  {
    if i >= |slots| then -1
    else if Matches(slots[i], v) then i
    else SearchFrom(slots, v, i + 1)
  }

  /** `search` finds the first match: no slot between `i` and the result
      (or the end, when there is none) matches. */
  lemma {:induction false} SearchFindsFirst(slots: seq<Slot>, v: Value, i: nat, k: nat)
    requires i <= k < |slots|
    requires var r := SearchFrom(slots, v, i); r == -1 || k < r
    ensures !Matches(slots[k], v)
    decreases k - i
  {
    if i < k {
      SearchFindsFirst(slots, v, i + 1, k);
    }
  }

  /** `getSlotNode(pos)`: the start of the slot at `pos`, or the end marker. */
  function SlotNode(slots: seq<Slot>, pos: nat): Anchor {
    if pos >= |slots| then AtEnd else Before(slots[pos].id)
  }

  /** `insertSlot(v, pos)`: a new slot spliced in at `pos` (at the end when
      `pos` is past it), its range created before the range now at `pos`. */
  function AfterInsert(st: State, v: Value, pos: nat): (r: State)
    requires st.slots.Some?
    ensures r.slot == st.slot && r.slots.Some? && |r.slots.value| == |st.slots.value| + 1
  {
    var slots := st.slots.value;
    var at := if pos < |slots| then pos else |slots|;
    Created(st, v, SlotNode(slots, pos)).(slots := Some(Spliced(slots, at, [Fresh(st, v)])))
  }

  /** `moveSlot(from, to)` with `from > to`: the slot at `from` taken out
      and put back at `to`, its range moved before the range that was at
      `to`. */
  function AfterMove(st: State, from: nat, to: nat): (r: State)
    requires st.slots.Some? && to < from < |st.slots.value|
    ensures r.slot == st.slot && r.slots.Some? && |r.slots.value| == |st.slots.value|
  {
    var slots := st.slots.value;
    var next := SlotNode(slots, to);
    st.(slots := Some(Moved(slots, from, to)),
        dom := MoveRange(st.dom, slots[from].id, next),
        log := st.log + [InsertSiblings(slots[from].id, next)])
  }

  /** `slots[i].update(v)`. */
  function AfterRefresh(st: State, i: nat, v: Value): (r: State)
    requires st.slots.Some? && i < |st.slots.value|
    ensures r.slot == st.slot && r.slots.Some? && |r.slots.value| == |st.slots.value|
  {
    var slots := st.slots.value;
    st.(slots := Some(slots[i := slots[i].(content := v)]),
        log := st.log + [UpdateSlot(slots[i].id, v)])
  }

  /** `updateVectorItem(v, i)`; `ItemPlaced` states what it leaves at `i`. */
  function AfterItem(st: State, v: Value, i: nat): (r: State)
    requires st.slots.Some? && i <= |st.slots.value|
    ensures r.slot == st.slot && r.slots.Some? && i < |r.slots.value| && |st.slots.value| <= |r.slots.value|
  {
    var pos := SearchFrom(st.slots.value, v, i);
    if pos == -1 then
      AfterInsert(st, v, i)
    else
      var moved := if pos != i then AfterMove(st, pos, i) else st;
      AfterRefresh(moved, i, v)
  }

  /** When the slot at `i` already matches, `updateVectorItem` only updates it. */
  lemma ItemRefreshes(st: State, v: Value, i: nat)
    requires st.slots.Some? && i < |st.slots.value| && Matches(st.slots.value[i], v)
    ensures AfterItem(st, v, i) == AfterRefresh(st, i, v)
  {
  }

  /** One more item whose slot already stands at its index and matches:
      the loop only updates that slot. */
  lemma ItemsStepRefreshes(st: State, list: seq<Value>, n: nat)
    requires st.slots.Some? && 0 < n <= |list|
    requires var prev := AfterItems(st, list, n - 1);
      n - 1 < |prev.slots.value| && Matches(prev.slots.value[n - 1], list[n - 1])
    ensures AfterItems(st, list, n) == AfterRefresh(AfterItems(st, list, n - 1), n - 1, list[n - 1])
  {
    ItemRefreshes(AfterItems(st, list, n - 1), list[n - 1], n - 1);
  }

  /** After `updateVectorItem(v, i)` a slot showing `v` stands at `i`: the
      first matching slot at or after `i`, moved down if it was further
      on, or a new slot when none matched.  The slots before `i` are
      untouched. */
  lemma ItemPlaced(st: State, v: Value, i: nat)
    requires st.slots.Some? && i <= |st.slots.value|
    ensures var r := AfterItem(st, v, i);
      && (forall k :: 0 <= k < i ==> r.slots.value[k] == st.slots.value[k])
      && r.slots.value[i].content == v && Matches(r.slots.value[i], v)
      && var pos := SearchFrom(st.slots.value, v, i);
         if pos == -1 then
           r.slots.value[i].id == st.nextId && r.nextId == st.nextId + 1
           && r.slots.value == Spliced(st.slots.value, i, [Fresh(st, v)])
         else
           var m := Moved(st.slots.value, pos, i);
           r.slots.value[i].id == st.slots.value[pos].id && r.nextId == st.nextId
           && r.slots.value == m[i := m[i].(content := v)]
  {
    var pos := SearchFrom(st.slots.value, v, i);
    if pos == i {
      assert Moved(st.slots.value, pos, i) == st.slots.value;
    }
  }

  /** The loop of `updateVector` after its first `n` items. */
  function AfterItems(st: State, list: seq<Value>, n: nat): (r: State)
    requires st.slots.Some? && n <= |list|
    ensures r.slot == st.slot && r.slots.Some? && n <= |r.slots.value| && |st.slots.value| <= |r.slots.value|
    decreases n
  {
    if n == 0 then st else AfterItem(AfterItems(st, list, n - 1), list[n - 1], n - 1)
  }

  /** One more item: the slots placed so far stay, and the next one shows the item. */
  lemma ItemsStep(st: State, list: seq<Value>, n: nat)
    requires st.slots.Some? && 0 < n <= |list|
    ensures var r, prev := AfterItems(st, list, n), AfterItems(st, list, n - 1);
      && (forall k :: 0 <= k < n - 1 ==> r.slots.value[k] == prev.slots.value[k])
      && r.slots.value[n - 1].content == list[n - 1] && Matches(r.slots.value[n - 1], list[n - 1])
  {
    var prev := AfterItems(st, list, n - 1);
    assert AfterItems(st, list, n) == AfterItem(prev, list[n - 1], n - 1);
    ItemPlaced(prev, list[n - 1], n - 1);
  }

  /** After the first `n` items the first `n` slots show them, in order. */
  lemma {:induction false} ItemsShowList(st: State, list: seq<Value>, n: nat)
    requires st.slots.Some? && n <= |list|
    ensures var r := AfterItems(st, list, n);
      forall k :: 0 <= k < n ==> r.slots.value[k].content == list[k] && Matches(r.slots.value[k], list[k])
    decreases n
  {
    if n > 0 {
      ItemsShowList(st, list, n - 1);
      ItemsStep(st, list, n);
      var r, prev := AfterItems(st, list, n), AfterItems(st, list, n - 1);
      forall k | 0 <= k < n ensures r.slots.value[k].content == list[k] && Matches(r.slots.value[k], list[k]) {
        if k < n - 1 {
          assert r.slots.value[k] == prev.slots.value[k];
        }
      }
    }
  }

  /** Later items never disturb the slots placed for earlier ones. */
  lemma {:induction false} ItemsKeepPrefix(st: State, list: seq<Value>, m: nat, n: nat)
    requires st.slots.Some? && m <= n <= |list|
    ensures forall k :: 0 <= k < m ==>
      AfterItems(st, list, n).slots.value[k] == AfterItems(st, list, m).slots.value[k]
    decreases n
  {
    if n > m {
      ItemsKeepPrefix(st, list, m, n - 1);
      ItemsStep(st, list, n);
    }
  }

  /** `removeSlots(from)`: every slot from `from` on is cancelled, their
      ranges removed and the array cut back to `from`; nothing happens
      when `from` is not below the length. */
  function AfterRemove(st: State, from: nat): (r: State)
    requires st.slots.Some?
    ensures r.slots.Some? && r.slot == st.slot && r.nextId == st.nextId
    ensures |r.slots.value| == if from < |st.slots.value| then from else |st.slots.value|
    ensures from >= |st.slots.value| ==> r == st
  {
    var slots := st.slots.value;
    if from >= |slots| then st
    else
      var first, last := slots[from].id, slots[|slots| - 1].id;
      st.(log := st.log + Cancels(slots[from..]) + [RemoveSiblings(first, last)],
          dom := RemoveRanges(st.dom, first, last),
          slots := Some(slots[..from]))
  }

  /** The conversion at the head of `updateVector`: a scalar slot becomes
      the one-element array, no slot becomes the empty array; an updater
      already in vector mode is left as it is. */
  function Promoted(st: State): (r: State)
    ensures r.slots.Some?
    ensures r.dom == st.dom && r.nextId == st.nextId && r.log == st.log
    ensures st.slots.Some? ==> r == st
    ensures st.slots.None? ==> r.slot.None? && r.slots.value == if st.slot.Some? then [st.slot.value] else []
  {
    if st.slots.Some? then st
    else if st.slot.Some? then st.(slots := Some([st.slot.value]), slot := None)
    else st.(slots := Some([]))
  }

  /** `updateVector(list)`. */
  function AfterVector(st: State, list: seq<Value>): (r: State)
    ensures r.slots.Some? && |r.slots.value| == |list|
    ensures st.slot.None? || st.slots.None? ==> r.slot.None?
  {
    AfterRemove(AfterItems(Promoted(st), list, |list|), |list|)
  }

  /** After `updateVector(list)` there is one slot per item, showing it. */
  lemma VectorShowsList(st: State, list: seq<Value>)
    ensures var r := AfterVector(st, list);
      forall k :: 0 <= k < |list| ==> r.slots.value[k].content == list[k] && Matches(r.slots.value[k], list[k])
  {
    ItemsShowList(Promoted(st), list, |list|);
  }

  /** Whether `ChildUpdater.update` treats a value as a list: an array, or
      an object with a synchronous iterator. */
  predicate IsSequence(v: Value) {
    v.List? || v.Iterable?
  }

  /** `ChildUpdater.update(v)`: a sequence is reconciled in vector mode; any
      other value leaves exactly one slot, in scalar mode (going through a
      one-item vector update when the updater was in vector mode). */
  function AfterUpdate(st: State, v: Value): (r: State)
    ensures IsSequence(v) ==> r.slots.Some? && |r.slots.value| == |v.items|
    ensures IsSequence(v) && (st.slot.None? || st.slots.None?) ==> r.slot.None?
    ensures !IsSequence(v) ==> r.slots.None? && r.slot.Some?
  {
    if IsSequence(v) then AfterVector(st, v.items)
    else if st.slots.Some? then
      var r := AfterVector(st, [v]);
      r.(slot := Some(r.slots.value[0]), slots := None)
    else AfterScalar(st, v)
  }

  /** After `ChildUpdater.update(v)` the slots show `v`: each item of a
      sequence in order, or `v` itself in the one scalar slot. */
  lemma UpdateShowsValue(st: State, v: Value)
    ensures var r := AfterUpdate(st, v);
      && (IsSequence(v) ==> forall k :: 0 <= k < |v.items| ==>
            r.slots.value[k].content == v.items[k] && Matches(r.slots.value[k], v.items[k]))
      && (!IsSequence(v) ==> r.slot.value.content == v && Matches(r.slot.value, v))
  {
    if IsSequence(v) {
      VectorShowsList(st, v.items);
    } else if st.slots.Some? {
      VectorShowsList(st, [v]);
    } else {
      ScalarShowsValue(st, v);
    }
  }

  /** `ChildUpdater.cancelUpdates()`: every held slot is cancelled, in
      order; nothing else changes. */
  function AfterCancel(st: State): (r: State)
    ensures r.(log := st.log) == st
    ensures r.log == st.log + Cancels(if st.slots.Some? then st.slots.value
                                      else if st.slot.Some? then [st.slot.value] else [])
  {
    if st.slots.Some? then st.(log := st.log + Cancels(st.slots.value))
    else if st.slot.Some? then st.(log := st.log + [CancelSlot(st.slot.value.id)])
    else st
  }

  /** A sequence given to a scalar-mode updater whose slot matches the
      first item keeps that slot, as the first slot, instead of recreating it. */
  lemma PromotionKeepsSlot(st: State, v: Value)
    requires st.slots.None? && st.slot.Some? && IsSequence(v) && |v.items| > 0
    requires Matches(st.slot.value, v.items[0])
    ensures AfterUpdate(st, v).slots.value[0].id == st.slot.value.id
  {
    var p := Promoted(st);
    ItemsKeepPrefix(p, v.items, 1, |v.items|);
    assert SearchFrom(p.slots.value, v.items[0], 0) == 0;
    ItemPlaced(p, v.items[0], 0);
  }

  /** A non-sequence given to a vector-mode updater keeps the first slot
      that matches it (and creates nothing), or creates one fresh slot
      when none matches; either way it ends in scalar mode. */
  lemma DemotionKeepsMatch(st: State, v: Value)
    requires st.slots.Some? && !IsSequence(v)
    ensures var r := AfterUpdate(st, v);
      var pos := SearchFrom(st.slots.value, v, 0);
      r.slots.None? && r.slot.Some?
      && if pos == -1 then r.slot.value.id == st.nextId && r.nextId == st.nextId + 1
         else r.slot.value.id == st.slots.value[pos].id && r.nextId == st.nextId
  {
    var p := Promoted(st);
    assert AfterItems(p, [v], 1) == AfterItem(p, v, 0);
    ItemPlaced(p, v, 0);
  }

  /** The `UpdateSlot` calls of an update in which every slot keeps its place. */
  function Refreshes(slots: seq<Slot>, list: seq<Value>, n: nat): (r: seq<Effect>)
    requires n <= |slots| && n <= |list|
    ensures |r| == n
    ensures forall k {:trigger r[k]} :: 0 <= k < n ==> r[k] == UpdateSlot(slots[k].id, list[k])
  {
    if n == 0 then [] else Refreshes(slots, list, n - 1) + [UpdateSlot(slots[n - 1].id, list[n - 1])]
  }

  /** When every slot already matches the item at its own index, the loop
      updates each slot in place: no slot is created, moved or removed,
      and the DOM is not touched. */
  lemma {:induction false} ItemsInPlace(st: State, list: seq<Value>, n: nat)
    requires st.slots.Some? && |st.slots.value| == |list| && n <= |list|
    requires forall k :: 0 <= k < |list| ==> Matches(st.slots.value[k], list[k])
    ensures var r := AfterItems(st, list, n);
      && r.dom == st.dom && r.nextId == st.nextId && |r.slots.value| == |list|
      && (forall k :: 0 <= k < |list| ==> r.slots.value[k].id == st.slots.value[k].id)
      && (forall k :: n <= k < |list| ==> r.slots.value[k] == st.slots.value[k])
      && r.log == st.log + Refreshes(st.slots.value, list, n)
    decreases n
  {
    if n > 0 {
      var i := n - 1;
      ItemsInPlace(st, list, i);
      ItemsStepRefreshes(st, list, n);
    }
  }

  /** Giving the same list twice: the second update only updates each
      slot in place, so the DOM keeps its ranges, every slot keeps its id
      and no slot is created, moved, cancelled or removed. */
  lemma VectorTwice(st: State, list: seq<Value>)
    ensures var once := AfterVector(st, list);
      var twice := AfterVector(once, list);
      && twice.dom == once.dom && twice.nextId == once.nextId
      && (forall k :: 0 <= k < |list| ==> twice.slots.value[k].id == once.slots.value[k].id)
      && twice.log == once.log + Refreshes(once.slots.value, list, |list|)
  {
    var once := AfterVector(st, list);
    VectorShowsList(st, list);
    assert Promoted(once) == once;
    ItemsInPlace(once, list, |list|);
  }

  /** Three slots rendering templates 1, 2 and 3 are given the list of
      templates 2, 1, 3: the slot of template 2 is moved once, before the
      slot of template 1, and every slot is updated in place; nothing is
      created, cancelled or removed. */
  lemma ReorderScenario()
    ensures var r := AfterUpdate(ThreeSlots(), List(30, Reordered()));
      && r.dom == [1, 0, 2] && r.nextId == 3
      && r.log == [InsertSiblings(1, Before(0)), UpdateSlot(1, Reordered()[0]),
                   UpdateSlot(0, Reordered()[1]), UpdateSlot(2, Reordered()[2])]
  {
    var list := Reordered();
    var s1 := ReorderFirst();
    var s2 := ReorderSecond(s1);
    var s3 := ReorderThird(s2);
    assert Promoted(ThreeSlots()) == ThreeSlots();
    assert AfterItems(ThreeSlots(), list, 1) == s1;
    assert AfterItems(ThreeSlots(), list, 2) == s2;
    assert AfterItems(ThreeSlots(), list, 3) == s3;
    assert AfterVector(ThreeSlots(), list) == s3;
    assert AfterUpdate(ThreeSlots(), List(30, list)) == s3;
  }

  function ThreeSlots(): State {
    State(None, Some([Slot(0, Template(1), Tmpl(10, 1)), Slot(1, Template(2), Tmpl(11, 2)),
                      Slot(2, Template(3), Tmpl(12, 3))]), [0, 1, 2], 3, [])
  }

  function Reordered(): seq<Value> {
    [Tmpl(20, 2), Tmpl(21, 1), Tmpl(22, 3)]
  }

  lemma ReorderFirst() returns (s1: State)
    ensures s1 == AfterItem(ThreeSlots(), Reordered()[0], 0)
    ensures s1.slots.value == [Slot(1, Template(2), Reordered()[0]), Slot(0, Template(1), Tmpl(10, 1)),
                               Slot(2, Template(3), Tmpl(12, 3))]
    ensures s1.dom == [1, 0, 2] && s1.nextId == 3
    ensures s1.log == [InsertSiblings(1, Before(0)), UpdateSlot(1, Reordered()[0])]
  {
    var st := ThreeSlots();
    assert SearchFrom(st.slots.value, Reordered()[0], 0) == 1;
    s1 := AfterItem(st, Reordered()[0], 0);
    ItemPlaced(st, Reordered()[0], 0);
    assert Moved(st.slots.value, 1, 0)
        == [st.slots.value[1], st.slots.value[0], st.slots.value[2]];
    MoveRangeMoved(st.dom, 1, 0);
    assert Moved(st.dom, 1, 0) == [1, 0, 2];
  }

  lemma ReorderSecond(s1: State) returns (s2: State)
    requires s1.slots.Some?
    requires s1.slots.value == [Slot(1, Template(2), Reordered()[0]), Slot(0, Template(1), Tmpl(10, 1)),
                                Slot(2, Template(3), Tmpl(12, 3))]
    requires s1.dom == [1, 0, 2] && s1.nextId == 3
    requires s1.log == [InsertSiblings(1, Before(0)), UpdateSlot(1, Reordered()[0])]
    ensures s2 == AfterItem(s1, Reordered()[1], 1)
    ensures s2.slots.value == [Slot(1, Template(2), Reordered()[0]), Slot(0, Template(1), Reordered()[1]),
                               Slot(2, Template(3), Tmpl(12, 3))]
    ensures s2.dom == [1, 0, 2] && s2.nextId == 3
    ensures s2.log == [InsertSiblings(1, Before(0)), UpdateSlot(1, Reordered()[0]), UpdateSlot(0, Reordered()[1])]
  {
    s2 := AfterItem(s1, Reordered()[1], 1);
    ItemRefreshes(s1, Reordered()[1], 1);
  }

  lemma ReorderThird(s2: State) returns (s3: State)
    requires s2.slots.Some?
    requires s2.slots.value == [Slot(1, Template(2), Reordered()[0]), Slot(0, Template(1), Reordered()[1]),
                                Slot(2, Template(3), Tmpl(12, 3))]
    requires s2.dom == [1, 0, 2] && s2.nextId == 3
    requires s2.log == [InsertSiblings(1, Before(0)), UpdateSlot(1, Reordered()[0]), UpdateSlot(0, Reordered()[1])]
    ensures s3 == AfterItem(s2, Reordered()[2], 2)
    ensures |s3.slots.value| == 3 && s3.dom == [1, 0, 2] && s3.nextId == 3
    ensures s3.log == [InsertSiblings(1, Before(0)), UpdateSlot(1, Reordered()[0]),
                       UpdateSlot(0, Reordered()[1]), UpdateSlot(2, Reordered()[2])]
  {
    s3 := AfterItem(s2, Reordered()[2], 2);
    ItemRefreshes(s2, Reordered()[2], 2);
  }
}
