/** `ChildUpdater` (src/updaters.js:216-343): the reconciler of one child
    position.  Its fields are those of the source (`slot`, `slots`) plus
    the modelled surroundings: the ranges between its markers (`dom`), the
    next fresh slot id, and the log of calls made on slots and on the DOM
    adapter.  Every method is proved to leave exactly the state the
    matching `After…` function of module Reconcile describes, so the
    properties proved there hold of the class. */
module ChildUpdaters {
  import opened Values
  import opened Seqs
  import opened Slots
  import opened Reconcile
  import opened ChildInvariant

  class ChildUpdater {
    var slot: Option<Slot>
    var slots: Option<seq<Slot>>
    var dom: seq<nat>
    var nextId: nat
    var log: seq<Effect>

    function Snapshot(): State
      reads this
    {
      State(slot, slots, dom, nextId, log)
    }

    ghost predicate Valid()
      reads this
    {
      Wf(Snapshot())
    }

    /** A new updater holds no slot and its markers enclose nothing. */
    constructor ()
      ensures Valid() && Snapshot() == State(None, None, [], 0, [])
    {
      slot := None;
      slots := None;
      dom := [];
      nextId := 0;
      log := [];
    }

    method Update(value: Value)
      requires Valid()
      modifies this
      ensures Valid() && Snapshot() == AfterUpdate(old(Snapshot()), value)
    {
      ghost var st := Snapshot();
      if IsSequence(value) {
        UpdateVector(value.items);
      } else if slots.Some? {
        UpdateVector([value]);
        slot := Some(slots.value[0]);
        slots := None;
      } else {
        UpdateScalar(value);
      }
      UpdateKeepsWf(st, value);
    }

    method CancelUpdates()
      modifies this`log
      ensures Snapshot() == AfterCancel(old(Snapshot()))
    {
      if slots.Some? {
        var i := 0;
        while i < |slots.value|
          invariant 0 <= i <= |slots.value|
          invariant log == old(log) + Cancels(slots.value[..i])
        {
          assert slots.value[..i + 1][..i] == slots.value[..i];
          log := log + [CancelSlot(slots.value[i].id)];
          i := i + 1;
        }
        assert slots.value[..|slots.value|] == slots.value;
      } else if slot.Some? {
        log := log + [CancelSlot(slot.value.id)];
      }
    }

    method UpdateScalar(value: Value)
      requires slots.None?
      modifies this
      ensures Snapshot() == AfterScalar(old(Snapshot()), value)
    {
      if slot.None? {
        var s := NewSlot(value, AtEnd);
        slot := Some(s);
      } else if Matches(slot.value, value) {
        var s := slot.value;
        slot := Some(s.(content := value));
        log := log + [UpdateSlot(s.id, value)];
      } else {
        var id := slot.value.id;
        log := log + [CancelSlot(id), RemoveSiblings(id, id)];
        dom := RemoveRanges(dom, id, id);
        var s := NewSlot(value, AtEnd);
        slot := Some(s);
      }
    }

    method UpdateVector(list: seq<Value>)
      modifies this
      ensures Snapshot() == AfterVector(old(Snapshot()), list)
    {
      if slots.None? {
        if slot.Some? {
          slots := Some([slot.value]);
          slot := None;
        } else {
          slots := Some([]);
        }
      }
      assert Snapshot() == Promoted(old(Snapshot()));
      UpdateItems(list);
      RemoveSlots(|list|);
    }

    /** The loop of `updateVector` (src/updaters.js:280-287): one
        `updateVectorItem` per item, in order. */
    method UpdateItems(list: seq<Value>)
      requires slots.Some?
      modifies this
      ensures Snapshot() == AfterItems(old(Snapshot()), list, |list|)
    {
      ghost var start := Snapshot();
      var i := 0;
      while i < |list|
        invariant 0 <= i <= |list|
        invariant start.slots.Some?
        invariant Snapshot() == AfterItems(start, list, i)
      {
        UpdateItemsNext(list, i, start);
        i := i + 1;
      }
    }

    /** The `i`-th pass of the loop of `updateVector`. */
    method UpdateItemsNext(list: seq<Value>, i: nat, ghost start: State)
      requires start.slots.Some? && i < |list| && Snapshot() == AfterItems(start, list, i)
      modifies this
      ensures Snapshot() == AfterItems(start, list, i + 1)
    {
      UpdateVectorItem(list[i], i);
    }

    method UpdateVectorItem(value: Value, i: nat)
      requires slots.Some? && i <= |slots.value|
      modifies this
      ensures Snapshot() == AfterItem(old(Snapshot()), value, i)
    {
      var pos := Search(value, i);
      if pos == -1 {
        InsertSlot(value, i);
      } else {
        if pos != i {
          MoveSlot(pos, i);
        }
        var s := slots.value[i];
        slots := Some(slots.value[i := s.(content := value)]);
        log := log + [UpdateSlot(s.id, value)];
      }
    }

    method Search(input: Value, i: nat) returns (r: int)
      requires slots.Some?
      ensures r == SearchFrom(slots.value, input, i)
    {
      var k := i;
      while k < |slots.value|
        invariant i <= k
        invariant SearchFrom(slots.value, input, k) == SearchFrom(slots.value, input, i)
      {
        if Matches(slots.value[k], input) {
          return k;
        }
        k := k + 1;
      }
      return -1;
    }

    method GetSlotNode(pos: nat) returns (r: Anchor)
      requires slots.Some?
      ensures r == SlotNode(slots.value, pos)
    {
      if pos >= |slots.value| {
        r := AtEnd;
      } else {
        r := Before(slots.value[pos].id);
      }
    }

    method InsertSlot(value: Value, pos: nat)
      requires slots.Some?
      modifies this
      ensures Snapshot() == AfterInsert(old(Snapshot()), value, pos)
    {
      var next := GetSlotNode(pos);
      var s := NewSlot(value, next);
      var at := if pos < |slots.value| then pos else |slots.value|;
      slots := Some(Spliced(slots.value, at, [s]));
    }

    method MoveSlot(from: nat, to: nat)
      requires slots.Some? && to < from < |slots.value|
      modifies this
      ensures Snapshot() == AfterMove(old(Snapshot()), from, to)
    {
      var s := slots.value[from];
      var next := GetSlotNode(to);
      slots := Some(Without(slots.value, from));
      slots := Some(Spliced(slots.value, to, [s]));
      dom := MoveRange(dom, s.id, next);
      log := log + [InsertSiblings(s.id, next)];
    }

    method RemoveSlots(from: nat)
      requires slots.Some?
      modifies this
      ensures Snapshot() == AfterRemove(old(Snapshot()), from)
    {
      var all := slots.value;
      if from >= |all| {
        return;
      }
      var i := from;
      while i < |all|
        invariant from <= i <= |all|
        invariant Snapshot() == old(Snapshot()).(log := log)
        invariant log == old(log) + Cancels(all[from..i])
      {
        assert all[from..i + 1][..i - from] == all[from..i];
        log := log + [CancelSlot(all[i].id)];
        i := i + 1;
      }
      assert all[from..i] == all[from..];
      var first := all[from].id;
      var last := all[|all| - 1].id;
      dom := RemoveRanges(dom, first, last);
      log := log + [RemoveSiblings(first, last)];
      slots := Some(all[..from]);
    }

    /** `createSlot(value, next)` (src/slots.js): a new slot under a fresh
        id whose range is inserted before `next`. */
    method NewSlot(value: Value, next: Anchor) returns (s: Slot)
      modifies this`dom, this`nextId, this`log
      ensures s == Fresh(old(Snapshot()), value)
      ensures Snapshot() == Created(old(Snapshot()), value, next)
    {
      s := Slot(nextId, KindOf(value), value);
      dom := InsertRanges(dom, [nextId], next);
      log := log + [CreateSlot(nextId, value, next)];
      nextId := nextId + 1;
    }
  }
}
