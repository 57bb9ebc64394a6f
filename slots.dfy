/** Slots and the ordered run of slot ranges a child updater owns.

    A slot renders one child value into a DOM range delimited by a start
    and an end marker.  The slot implementation itself (createSlot,
    Slot.matches, Slot.update, Slot.cancelUpdates) lives in src/slots.js,
    which is not part of this model: a slot is a value here, with an `id`
    standing for its object identity and a `kind` that decides which new
    values it can absorb by an in-place update.  The DOM between a child
    updater's own start and end markers is modelled as the sequence of the
    ids of the slot ranges it holds, in document order. */
module Slots {
  import opened Values
  import opened Seqs

  /** What a slot's rendering can absorb without being replaced. */
  datatype Kind =
    | Blank               // placeholder for undefined, null and false
    | Text                // a text rendering of a primitive or other object
    | Template(source: nat) // a nested render of one template structure
    | Nested              // a nested list of children

  function KindOf(v: Value): Kind
  {
    match v
    case Undefined => Blank
    case Null => Blank
    case Bool(b) => if b then Text else Blank
    case Tmpl(_, source) => Template(source)
    case List(_, _) => Nested
    case Iterable(_, _) => Nested
    case _ => Text
  }

  datatype Slot = Slot(id: nat, kind: Kind, content: Value)

  /** `slot.matches(value)`: the slot can be updated in place to show `value`. */
  predicate Matches(s: Slot, v: Value) {
    s.kind == KindOf(v)
  }

  /** The ids of a run of slots, in order. */
  function Ids(slots: seq<Slot>): (r: seq<nat>)
    ensures |r| == |slots|
    ensures forall k {:trigger r[k]} :: 0 <= k < |r| ==> r[k] == slots[k].id
  {
    seq(|slots|, k requires 0 <= k < |slots| => slots[k].id)
  }

  /** Where new or moved content goes: before a slot's start marker, or
      before the child updater's end marker. */
  datatype Anchor = Before(id: nat) | AtEnd

  /** The ranges `ids` inserted before `next` (createSlot,
      dom.insertSiblings); an anchor that is not among the ranges is
      taken as the end marker. */
  function InsertRanges(dom: seq<nat>, ids: seq<nat>, next: Anchor): seq<nat>
  {
    var at := if next.AtEnd? then -1 else IndexOf(dom, next.id);
    if at == -1 then dom + ids else Spliced(dom, at, ids)
  }

  /** The range of slot `id` moved before `next` (dom.insertSiblings on
      nodes already in the document: they leave their old place first). */
  function MoveRange(dom: seq<nat>, id: nat, next: Anchor): seq<nat>
  {
    var p := IndexOf(dom, id);
    InsertRanges(if p == -1 then dom else Without(dom, p), [id], next)
  }

  /** Everything from the start of range `first` to the end of range `last`
      taken out (dom.removeSiblings); nothing when they are not in that
      order. */
  function RemoveRanges(dom: seq<nat>, first: nat, last: nat): seq<nat>
  {
    var a, b := IndexOf(dom, first), IndexOf(dom, last);
    if a == -1 || b < a then dom else dom[..a] + dom[b + 1..]
  }

  /** In a sequence without repetitions, `IndexOf` finds each element at
      its own position. */
  lemma IndexOfDistinct<T>(s: seq<T>, k: nat)
    requires Distinct(s) && k < |s|
    ensures IndexOf(s, s[k]) == k
  {
  }

  /** Inserting before the range at `at` (or at the end) is `Spliced` on
      the DOM order. */
  lemma InsertRangesSpliced(dom: seq<nat>, at: nat, ids: seq<nat>)
    requires Distinct(dom) && at <= |dom|
    ensures InsertRanges(dom, ids, if at < |dom| then Before(dom[at]) else AtEnd) == Spliced(dom, at, ids)
  {
    if at < |dom| {
      IndexOfDistinct(dom, at);
    } else {
      assert Spliced(dom, at, ids) == dom + ids;
    }
  }

  /** Moving a range before an earlier one is `Moved` on the DOM order. */
  lemma MoveRangeMoved(dom: seq<nat>, from: nat, to: nat)
    requires Distinct(dom) && to < from < |dom|
    ensures MoveRange(dom, dom[from], Before(dom[to])) == Moved(dom, from, to)
  {
    IndexOfDistinct(dom, from);
    var rest := Without(dom, from);
    DistinctWithout(dom, from);
    assert rest[to] == dom[to];
    IndexOfDistinct(rest, to);
  }

  /** Removing from the range at `from` to the last range cuts the DOM
      order back to its first `from` ranges. */
  lemma RemoveRangesTail(dom: seq<nat>, from: nat)
    requires Distinct(dom) && from < |dom|
    ensures RemoveRanges(dom, dom[from], dom[|dom| - 1]) == dom[..from]
  {
    IndexOfDistinct(dom, from);
    IndexOfDistinct(dom, |dom| - 1);
    assert dom[|dom|..] == [];
  }

  lemma IdsMoved(s: seq<Slot>, from: nat, to: nat)
    requires to < from < |s|
    ensures Ids(Moved(s, from, to)) == Moved(Ids(s), from, to)
  {
  }

  lemma IdsSpliced(s: seq<Slot>, pos: nat, xs: seq<Slot>)
    requires pos <= |s|
    ensures Ids(Spliced(s, pos, xs)) == Spliced(Ids(s), pos, Ids(xs))
  {
  }

  lemma IdsWithout(s: seq<Slot>, pos: nat)
    requires pos < |s|
    ensures Ids(Without(s, pos)) == Without(Ids(s), pos)
  {
  }

  lemma IdsPrefix(s: seq<Slot>, n: nat)
    requires n <= |s|
    ensures Ids(s[..n]) == Ids(s)[..n]
  {
  }
}
