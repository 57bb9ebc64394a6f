/** The attribute updaters of src/updaters.js:159-214.  `dom.setAttr` is
    not part of this model (src/dom.js is not part of it): each updater
    records the calls it makes, in order, in a `writes` field, and every
    call of one updater goes to the same element and, except for
    `AttributeMapUpdater`, to the same attribute name.  What `setAttr`
    then does with `undefined`, `false` or `true` is not modelled. */
module AttributeUpdaters {
  import opened Values

  // ---------------------------------------------------------------------
  // AttributeUpdater (src/updaters.js:159-172)

  /** The state of an `AttributeUpdater`: the last value written and the
      values passed to `setAttr` so far. */
  datatype AttrState = AttrState(last: Value, writes: seq<Value>)

  /** `update(value)`: write only when `value !== last`. */
  function AttrAfter(st: AttrState, value: Value): (r: AttrState)
    ensures r.last == value || (Same(st.last, value) && r.last == st.last)
    ensures r.writes == st.writes || r.writes == st.writes + [value]
  {
    if !Same(value, st.last) then AttrState(value, st.writes + [value]) else st
  }

  /** `update` calls `setAttr` exactly when the value differs (by `===`)
      from the last one, and then with that value. */
  lemma AttrWritesOnChange(st: AttrState, value: Value)
    ensures AttrAfter(st, value).writes == st.writes + [value] <==> !Same(st.last, value)
    ensures AttrAfter(st, value).writes == st.writes <==> Same(st.last, value)
  {
    if Same(st.last, value) {
      assert Same(value, st.last);
      assert |AttrAfter(st, value).writes| == |st.writes|;
    } else {
      assert !Same(value, st.last);
    }
  }

  /** Repeating a value writes nothing the second time, except NaN, which
      is never `===` to the last value and so is written again. */
  lemma AttrRepeatSilent(st: AttrState, value: Value)
    ensures var once := AttrAfter(st, value);
      && (!value.NaN? ==> AttrAfter(once, value) == once)
      && (value.NaN? ==> AttrAfter(once, value).writes == once.writes + [NaN])
  {
  }

  /** The calls `setAttr` receives over a run of updates. */
  function AttrRun(st: AttrState, values: seq<Value>): (r: AttrState)
    decreases |values|
  {
    if values == [] then st else AttrAfter(AttrRun(st, values[..|values| - 1]), values[|values| - 1])
  }

  /** Over any run the updater writes at most once per update, only values
      of the run, and ends holding the last value. */
  lemma {:induction false} AttrRunBounded(st: AttrState, values: seq<Value>)
    ensures var r := AttrRun(st, values);
      && |st.writes| <= |r.writes| <= |st.writes| + |values|
      && r.writes[..|st.writes|] == st.writes
      && (forall k :: |st.writes| <= k < |r.writes| ==> r.writes[k] in values)
      && (values != [] ==> var x := values[|values| - 1]; r.last == x || Same(r.last, x))
    decreases |values|
  {
    if values != [] {
      var init := values[..|values| - 1];
      var prev := AttrRun(st, init);
      AttrRunBounded(st, init);
      var r := AttrAfter(prev, values[|values| - 1]);
      assert r.writes[..|prev.writes|] == prev.writes;
      assert r.writes[..|st.writes|] == prev.writes[..|st.writes|];
      forall k | |st.writes| <= k < |r.writes| ensures r.writes[k] in values {
        if k < |prev.writes| {
          assert r.writes[k] == prev.writes[k] && prev.writes[k] in init;
        } else {
          assert r.writes[k] == values[|values| - 1];
        }
      }
    }
  }

  class AttributeUpdater {
    var last: Value
    var writes: seq<Value>

    function State(): AttrState
      reads this
    {
      AttrState(last, writes)
    }

    constructor ()
      ensures last == Undefined && writes == []
    {
      last := Undefined;
      writes := [];
    }

    method Update(value: Value)
      modifies this
      ensures State() == AttrAfter(old(State()), value)
    {
      if !Same(value, last) {
        last := value;
        writes := writes + [value];
      }
    }
  }

  // ---------------------------------------------------------------------
  // AttributePartUpdater (src/updaters.js:174-202)

  /** The shared `parts` array of one attribute and its `pending` flags:
      `pending[k]` is set for each hole position still waiting for its
      first value; static text has no flag.  `None` is `pending == null`,
      which the last first update leaves behind. */
  datatype PartsState = PartsState(values: seq<Value>, pending: Option<seq<bool>>)
  {
    predicate Wf() {
      pending.Some? ==> |pending.value| == |values|
    }
  }

  /** `pending.every(p => !p)` */
  predicate Settled(flags: seq<bool>) {
    forall k :: 0 <= k < |flags| ==> !flags[k]
  }

  /** `isReady()` for position `pos`: the new flags and whether to write. */
  function Ready(pending: Option<seq<bool>>, pos: nat): (r: (Option<seq<bool>>, bool))
    requires pending.Some? ==> pos < |pending.value|
    ensures r.1 <==> r.0.None?
    ensures pending.None? ==> r.1
    ensures pending.Some? ==> (r.1 <==> Settled(pending.value[pos := false]))
    ensures pending.Some? && r.0.Some? ==> r.0.value == pending.value[pos := false] && !Settled(r.0.value)
  {
    if pending.None? then (None, true)
    else
      var flags := pending.value[pos := false];
      if Settled(flags) then (None, true) else (Some(flags), false)
  }

  /** `update(value)` at `pos`: the new parts and what is written, if anything. */
  function PartAfter(st: PartsState, pos: nat, value: Value): (r: (PartsState, Option<string>))
    requires st.Wf() && pos < |st.values|
    ensures r.0.Wf() && r.0.values == st.values[pos := value]
    ensures r.1.Some? <==> r.0.pending.None?
    ensures r.1.Some? ==> r.1.value == Concat(r.0.values)
  {
    var values := st.values[pos := value];
    var (pending, ready) := Ready(st.pending, pos);
    (PartsState(values, pending), if ready then Some(Concat(values)) else None)
  }

  /** One `update` of some part updater of the attribute. */
  datatype PartWrite = PartWrite(pos: nat, value: Value)

  predicate InRange(values: seq<Value>, run: seq<PartWrite>) {
    forall k :: 0 <= k < |run| ==> run[k].pos < |values|
  }

  /** A run of updates on the part updaters of one attribute: the final
      parts and the strings written, in order. */
  function PartsRun(st: PartsState, run: seq<PartWrite>): (r: (PartsState, seq<string>))
    requires st.Wf() && InRange(st.values, run)
    ensures r.0.Wf() && |r.0.values| == |st.values|
    decreases |run|
  {
    if run == [] then (st, [])
    else
      var (mid, out) := PartsRun(st, run[..|run| - 1]);
      var (next, w) := PartAfter(mid, run[|run| - 1].pos, run[|run| - 1].value);
      (next, out + if w.Some? then [w.value] else [])
  }

  /** Whether some update of the run is at `pos`. */
  predicate Touches(run: seq<PartWrite>, pos: nat) {
    exists k :: 0 <= k < |run| && run[k].pos == pos
  }

  /** While some hole position has not had its first value, nothing is
      written, and its flag is still set. */
  lemma {:induction false} GateHolds(st: PartsState, run: seq<PartWrite>, pos: nat)
    requires st.Wf() && InRange(st.values, run)
    requires st.pending.Some? && pos < |st.values| && st.pending.value[pos]
    requires !Touches(run, pos)
    ensures var r := PartsRun(st, run);
      r.1 == [] && r.0.pending.Some? && r.0.pending.value[pos]
    decreases |run|
  {
    if run != [] {
      var init := run[..|run| - 1];
      assert !Touches(init, pos) by {
        forall k | 0 <= k < |init| ensures init[k].pos != pos {
          assert init[k] == run[k];
        }
      }
      GateHolds(st, init, pos);
      var mid := PartsRun(st, init).0;
      var last := run[|run| - 1];
      assert last.pos != pos;
      var flags := mid.pending.value[last.pos := false];
      assert flags[pos];
    }
  }

  /** The flags only ever clear: a position is still flagged after a run
      only if it was flagged before and the run never touched it. */
  lemma {:induction false} FlagsClear(st: PartsState, run: seq<PartWrite>)
    requires st.Wf() && InRange(st.values, run)
    ensures var r := PartsRun(st, run).0;
      && (st.pending.None? ==> r.pending.None?)
      && (r.pending.Some? ==> st.pending.Some? && (run != [] ==> !Settled(r.pending.value)))
      && (r.pending.Some? ==> forall k :: 0 <= k < |st.values| && r.pending.value[k] ==>
            st.pending.value[k] && !Touches(run, k))
    decreases |run|
  {
    if run != [] {
      var init := run[..|run| - 1];
      FlagsClear(st, init);
      var mid := PartsRun(st, init).0;
      var last := run[|run| - 1];
      var r := PartsRun(st, run).0;
      if r.pending.Some? {
        forall k | 0 <= k < |st.values| && r.pending.value[k]
          ensures st.pending.value[k] && !Touches(run, k)
        {
          assert k != last.pos;
          assert mid.pending.value[k];
          forall j | 0 <= j < |run| ensures run[j].pos != k {
            if j < |init| {
              assert run[j] == init[j];
            }
          }
        }
      }
    }
  }

  /** Once every flagged position has had a value, `pending` is null. */
  lemma AllSetOpens(st: PartsState, run: seq<PartWrite>)
    requires st.Wf() && InRange(st.values, run) && run != []
    requires st.pending.Some? ==> forall k :: 0 <= k < |st.values| && st.pending.value[k] ==> Touches(run, k)
    ensures PartsRun(st, run).0.pending.None?
  {
    FlagsClear(st, run);
  }

  /** From then on every update writes the join of all parts. */
  lemma {:induction false} OpenWritesAll(st: PartsState, run: seq<PartWrite>)
    requires st.Wf() && InRange(st.values, run) && st.pending.None?
    ensures var r := PartsRun(st, run);
      && r.0.pending.None? && |r.1| == |run|
      && (run != [] ==> r.1[|run| - 1] == Concat(r.0.values))
    decreases |run|
  {
    if run != [] {
      OpenWritesAll(st, run[..|run| - 1]);
    }
  }

  /** The shared buffer of one attribute's parts. */
  class Parts {
    var values: seq<Value>
    var pending: Option<seq<bool>>

    function State(): PartsState
      reads this
    {
      PartsState(values, pending)
    }

    /** The buffer as the template builds it: the text around the holes,
        and no flag set yet. */
    constructor (values: seq<Value>)
      ensures State() == PartsState(values, Some(seq(|values|, _ => false)))
    {
      this.values := values;
      pending := Some(seq(|values|, _ => false));
    }
  }

  class AttributePartUpdater {
    const parts: Parts
    const pos: nat
    var writes: seq<string>

    /** The constructor flags its position as waiting. */
    constructor (parts: Parts, pos: nat)
      requires parts.State().Wf() && parts.pending.Some? && pos < |parts.values|
      modifies parts`pending
      ensures this.parts == parts && this.pos == pos && writes == []
      ensures parts.pending == Some(old(parts.pending).value[pos := true])
    {
      this.parts := parts;
      this.pos := pos;
      writes := [];
      new;
      parts.pending := Some(parts.pending.value[pos := true]);
    }

    method IsReady() returns (ready: bool)
      requires parts.State().Wf() && pos < |parts.values|
      modifies parts`pending
      ensures (parts.pending, ready) == Ready(old(parts.pending), pos)
    {
      if parts.pending.None? {
        return true;
      }
      parts.pending := Some(parts.pending.value[pos := false]);
      if Settled(parts.pending.value) {
        parts.pending := None;
        return true;
      }
      return false;
    }

    method Update(value: Value)
      requires parts.State().Wf() && pos < |parts.values|
      modifies parts, this`writes
      ensures var (st, w) := PartAfter(old(parts.State()), pos, value);
        parts.State() == st && writes == old(writes) + if w.Some? then [w.value] else []
    {
      parts.values := parts.values[pos := value];
      var ready := IsReady();
      if ready {
        writes := writes + [Concat(parts.values)];
      }
    }
  }

  /** The attribute `x='a${'b'}${buffer}d'`: nothing is written until the
      buffer yields, then each value of it rewrites the whole attribute. */
  method PartsScenario() returns (first: seq<string>, second: seq<string>)
    ensures first == [] && second == ["abcd", "abCd"]
  {
    var parts := new Parts([Str("a"), Undefined, Undefined, Str("d")]);
    assert parts.pending.value == [false, false, false, false];
    var b := new AttributePartUpdater(parts, 1);
    assert parts.pending.value == [false, true, false, false];
    var c := new AttributePartUpdater(parts, 2);
    assert parts.pending.value == [false, true, true, false];
    assert [false, true, true, false][1 := false] == [false, false, true, false];
    assert !Settled([false, false, true, false]) by {
      assert [false, false, true, false][2];
    }
    b.Update(Str("b"));
    first := b.writes;
    assert [false, false, true, false][2 := false] == [false, false, false, false];
    c.Update(Str("c"));
    assert parts.values == [Str("a"), Str("b"), Str("c"), Str("d")] && parts.pending.None?;
    ConcatOfText("a", "b", "c", "d");
    assert "a" + "b" + "c" + "d" == "abcd";
    c.Update(Str("C"));
    assert parts.values == [Str("a"), Str("b"), Str("C"), Str("d")];
    ConcatOfText("a", "b", "C", "d");
    assert "a" + "b" + "C" + "d" == "abCd";
    second := c.writes;
  }

  lemma ConcatOfText(a: string, b: string, c: string, d: string)
    ensures Concat([Str(a), Str(b), Str(c), Str(d)]) == a + b + c + d
  {
    var s1, s2, s3, s4 := [Str(a)], [Str(a), Str(b)], [Str(a), Str(b), Str(c)], [Str(a), Str(b), Str(c), Str(d)];
    assert s1[..0] == [] && s2[..1] == s1 && s3[..2] == s2 && s4[..3] == s3;
    assert Concat(s1) == a;
    assert Concat(s2) == a + b;
    assert Concat(s3) == a + b + c;
  }

  // ---------------------------------------------------------------------
  // AttributeMapUpdater (src/updaters.js:204-214)

  class AttributeMapUpdater {
    /** The (name, value) pairs passed to `setAttr`, in order. */
    var writes: seq<(string, Value)>

    constructor ()
      ensures writes == []
    {
      writes := [];
    }

    /** One `setAttr` per key the `for ... in` loop visits, in order;
        nothing else, so a key of an earlier map that is missing from this
        one is left as it was. */
    method Update(attrs: Value)
      modifies this
      ensures writes == old(writes) + Enumerable(attrs)
    {
      var keys := Enumerable(attrs);
      var k := 0;
      while k < |keys|
        invariant 0 <= k <= |keys|
        invariant writes == old(writes) + keys[..k]
      {
        writes := writes + [keys[k]];
        k := k + 1;
      }
    }
  }
}
