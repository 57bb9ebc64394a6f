# Reconciliation engine of a tagged-template DOM renderer, in Dafny

This project models the update engine of a small template-to-DOM renderer
(`src/updaters.js`) and the in-memory DOM double its tests run against
(`test/mocks/index.js`), and proves what the engine promises:

- A **template updater** keeps one updater per hole of a template. It also
  keeps at most one *pending handle* per hole, for the promise, observable or
  async iterator that hole is waiting on. The updaters are rebuilt only when
  the template's structural identity (`source`) changes; a rebuild cancels
  every pending handle and child updater first. A new value for a hole
  cancels that hole's handle, and re-supplying the same source is a no-op.
  The invariant `Valid()` says that every handle that is neither cancelled
  nor finished is the pending handle of its own hole. It is kept by every
  method and by every asynchronous callback, so a superseded source never
  reaches its updater.
- The **attribute updaters** write an attribute only when its value changes
  (`===`). A group of attribute *parts* (`x='a${b}${c}d'`) writes nothing
  until every hole position has had a value, and from then on writes the
  whole concatenation on every update. The attribute-map updater writes every
  key it is given and never removes one.
- The **child updater** reconciles one child position. It holds either one
  slot (scalar mode) or an ordered array of slots (vector mode), never both.
  A list is reconciled item by item: the first matching slot at or after
  index `i` is moved down to `i` and updated, or a new slot is inserted.
  Surplus slots are then cancelled and their DOM ranges removed. Every step
  is proved to keep the ranges between the updater's markers in step with the
  slot array.
- The **mock DOM** keeps each node's children both in `childNodes` and in the
  children's `parentNode`/`nextSibling` links. `insertBefore` (plain node or
  fragment) and `removeChild` are proved to keep the two representations in
  agreement.

Modules: `Values` (the tagged value variant that replaces the run-time
capability probes, `===`, `Array.prototype.join`, `for … in`), `Seqs`
(splice-style sequence operations), `Slots` (the abstract slot and the
ranges a child updater owns), `Reconcile` (the child updater's steps as
functions on a `State`, with their lemmas), `ChildInvariant` (the DOM/slot
agreement), `ChildUpdaters` (the `ChildUpdater` class, proved to follow
`Reconcile`), `AttributeUpdaters`, `TemplateUpdaters` and `MockDom`.

Calls the engine makes into code outside this model (`dom.setAttr`,
`dom.insertSiblings`, `dom.removeSiblings`, `createSlot`, `slot.update`,
`slot.cancelUpdates`, `updaters[i].update`, `subscription.unsubscribe`,
`iter.return`, `iter.next`) are recorded, in order, in a `log` or `writes`
field, so contracts can say exactly which calls happen.

## Model

| member | source | states |
|---|---|---|
| `Values.Enumerable` | src/updaters.js:210-212 | the pairs `for … in` visits: a plain object's own entries in order; for an array or string one pair per element whose key reads back as its index, so no key repeats; nothing for other primitives |
| `Values.Same` | src/updaters.js:167 | `===`: objects equal exactly when they are the same object, primitives by value, NaN equal to nothing |
| `Values.NatTextRoundTrip` | src/updaters.js:210 | the decimal key written for index `n` reads back as `n` |
| `Values.Concat` | src/updaters.js:199 | `parts.join('')`: the empty parts list joins to the empty string |
| `Values.ConcatAppend` | src/updaters.js:199 | joining two runs of parts is joining each run and concatenating the texts |
| `Seqs.IndexOf` | test/mocks/index.js:2 | `indexOf`: -1 exactly when the element is absent, otherwise the first position holding it |
| `Seqs.Without` | src/updaters.js:326 | `splice(pos, 1)`: one shorter, elements before `pos` kept, later ones shifted left |
| `Seqs.Spliced` | src/updaters.js:319 | `splice(pos, 0, ...xs)`: the block inserted at `pos`, elements before kept, later ones shifted right by the block length |
| `Seqs.Moved` | src/updaters.js:322-329 | `moveSlot(from, to)` with `to <= from`: the element from `from` at `to`, those in `[to, from)` shifted right by one, all others untouched |
| `Seqs.MovedPermutes` | src/updaters.js:322-329 | a move keeps the multiset of elements |
| `Seqs.DistinctMoved` | src/updaters.js:322-329 | a move keeps a sequence free of repetitions |
| `Seqs.DistinctSpliced` | src/updaters.js:318-320 | inserting elements absent from a repetition-free sequence keeps it repetition-free |
| `Slots.InsertRangesSpliced` | src/updaters.js:314-320 | creating a slot before the start of the slot at `pos` (or before the end marker) splices its range in at `pos` |
| `Slots.MoveRangeMoved` | src/updaters.js:322-329 | `insertSiblings` of the range at `from` before the range at `to` moves it exactly as `Moved` moves the array element |
| `Slots.RemoveRangesTail` | src/updaters.js:338-340 | removing from the start of range `from` to the end of the last range leaves the first `from` ranges |
| `Reconcile.AfterScalar` | src/updaters.js:255-265 | `updateScalar` ends in scalar mode with a slot |
| `Reconcile.ScalarShowsValue` | src/updaters.js:255-265 | the one slot shows the value; a matching slot keeps its identity and is only updated; otherwise the old slot is cancelled, its range removed, and a fresh slot created at the end |
| `Reconcile.SearchFrom` | src/updaters.js:304-312 | `search(v, i)` returns -1 or an index `k >= i` of a slot matching `v` |
| `Reconcile.SearchFindsFirst` | src/updaters.js:304-312 | no slot between `i` and the result (or the end, for -1) matches: the result is the least matching index |
| `Reconcile.AfterInsert` | src/updaters.js:318-320 | `insertSlot` adds one slot and leaves the scalar slot alone |
| `Reconcile.AfterMove` | src/updaters.js:322-329 | `moveSlot` keeps the slot count |
| `Reconcile.AfterRefresh` | src/updaters.js:300 | updating a slot in place keeps the slot count |
| `Reconcile.AfterItem` | src/updaters.js:292-302 | `updateVectorItem(v, i)` leaves a slot at index `i` and never shrinks the array |
| `Reconcile.ItemRefreshes` | src/updaters.js:297-300 | when the slot at `i` already matches, no move happens: the item only updates it |
| `Reconcile.ItemPlaced` | src/updaters.js:292-302 | after `updateVectorItem(v, i)` slot `i` shows `v`; it is a new slot spliced in when nothing matched, else the first match moved down from `k >= i`; slots before `i` untouched |
| `Reconcile.AfterItems` | src/updaters.js:279-288 | after `n` items the array has at least `n` slots and never shrank |
| `Reconcile.ItemsShowList` | src/updaters.js:279-288 | after the first `n` items, slot `k` shows item `k` for every `k < n` |
| `Reconcile.ItemsKeepPrefix` | src/updaters.js:279-288 | later items never disturb the slots placed for earlier ones |
| `Reconcile.AfterRemove` | src/updaters.js:331-342 | `removeSlots(from)` cuts the array back to `from` slots, and is a no-op when `from` is not below the length |
| `Reconcile.Promoted` | src/updaters.js:270-278 | the conversion at the head of `updateVector`: the scalar slot becomes the one-element array (not recreated), no slot becomes the empty array, vector mode is untouched |
| `Reconcile.AfterVector` | src/updaters.js:269-290 | after `updateVector(list)` there are exactly `|list|` slots and no scalar slot |
| `Reconcile.VectorShowsList` | src/updaters.js:269-290 | after `updateVector(list)` slot `k` shows item `k` |
| `Reconcile.AfterUpdate` | src/updaters.js:224-241 | `update(v)`: a list or iterable ends in vector mode with one slot per item; any other value ends in scalar mode with exactly one slot |
| `Reconcile.UpdateShowsValue` | src/updaters.js:224-241 | after `update(v)` the slots show `v`: item by item for a sequence, `v` itself in the scalar slot otherwise |
| `Reconcile.AfterCancel` | src/updaters.js:243-251 | `cancelUpdates` cancels every held slot once, in order, and changes nothing else |
| `Reconcile.PromotionKeepsSlot` | src/updaters.js:270-275 | a list given in scalar mode whose first item matches the slot keeps that very slot as `slots[0]` |
| `Reconcile.DemotionKeepsMatch` | src/updaters.js:233-237 | a non-list value in vector mode ends in scalar mode holding the first matching slot (nothing created) or one fresh slot when none matched |
| `Reconcile.ItemsInPlace` | src/updaters.js:292-302 | when every slot already matches its item, the loop only updates each slot: no create, move or removal, DOM untouched |
| `Reconcile.VectorTwice` | src/updaters.js:269-290 | reconciling the same list twice: the second pass keeps every slot's identity and DOM range and only updates each slot |
| `Reconcile.ReorderScenario` | src/updaters.js:292-329 | slots for templates 1, 2, 3 given templates 2, 1, 3: exactly one move (2 before 1), three in-place updates, no create or removal |
| `ChildInvariant.InitialWf` | src/updaters.js:217-222 | a new child updater satisfies the invariant |
| `ChildInvariant.ScalarKeepsWf` | src/updaters.js:255-265 | `updateScalar` keeps the invariant and the DOM holds exactly the slot's range |
| `ChildInvariant.InsertKeepsWf` | src/updaters.js:318-320 | `insertSlot` keeps the invariant: the new range lands where the slot lands, under an id not yet present |
| `ChildInvariant.MoveKeepsWf` | src/updaters.js:322-329 | `moveSlot` keeps the invariant: the range moves exactly as the slot moves |
| `ChildInvariant.RefreshKeepsWf` | src/updaters.js:300 | an in-place slot update keeps the invariant |
| `ChildInvariant.ItemKeepsWf` | src/updaters.js:292-302 | `updateVectorItem` keeps the invariant |
| `ChildInvariant.ItemsKeepWf` | src/updaters.js:279-288 | the item loop keeps the invariant |
| `ChildInvariant.RemoveCutsTail` | src/updaters.js:331-342 | `removeSlots(from)` cancels every surplus slot in order, removes their ranges in one call, and no surplus range remains |
| `ChildInvariant.RemoveKeepsWf` | src/updaters.js:331-342 | `removeSlots` keeps the invariant |
| `ChildInvariant.PromotedKeepsWf` | src/updaters.js:270-278 | the scalar-to-vector conversion keeps the invariant |
| `ChildInvariant.VectorKeepsWf` | src/updaters.js:269-290 | `updateVector` keeps the invariant |
| `ChildInvariant.UpdateKeepsWf` | src/updaters.js:224-241 | `update` keeps the invariant: never both modes, DOM ranges equal to the held slots in order, no range twice |
| `ChildUpdaters.ChildUpdater.constructor` | src/updaters.js:217-222 | a new updater holds no slot in either mode and encloses nothing |
| `ChildUpdaters.ChildUpdater.Update` | src/updaters.js:224-241 | the new state is `AfterUpdate` of the old one, and the invariant holds |
| `ChildUpdaters.ChildUpdater.CancelUpdates` | src/updaters.js:243-251 | the loop cancels each held slot in order and changes nothing else |
| `ChildUpdaters.ChildUpdater.UpdateScalar` | src/updaters.js:255-265 | the new state is `AfterScalar` of the old one |
| `ChildUpdaters.ChildUpdater.UpdateVector` | src/updaters.js:269-290 | the new state is `AfterVector` of the old one |
| `ChildUpdaters.ChildUpdater.UpdateItems` | src/updaters.js:279-288 | the item loop leaves `AfterItems` of the state it started from |
| `ChildUpdaters.ChildUpdater.UpdateVectorItem` | src/updaters.js:292-302 | the new state is `AfterItem` of the old one |
| `ChildUpdaters.ChildUpdater.Search` | src/updaters.js:304-312 | the linear search returns the first matching index at or after `i`, or -1 |
| `ChildUpdaters.ChildUpdater.GetSlotNode` | src/updaters.js:314-316 | the start of the slot at `pos`, or the end marker past the last slot |
| `ChildUpdaters.ChildUpdater.InsertSlot` | src/updaters.js:318-320 | the new state is `AfterInsert` of the old one |
| `ChildUpdaters.ChildUpdater.MoveSlot` | src/updaters.js:322-329 | requires `from > to`; the new state is `AfterMove` of the old one |
| `ChildUpdaters.ChildUpdater.RemoveSlots` | src/updaters.js:331-342 | the new state is `AfterRemove` of the old one |
| `ChildUpdaters.ChildUpdater.NewSlot` | src/updaters.js:257 | `createSlot`: a slot under a fresh id whose range is inserted before the given anchor |
| `AttributeUpdaters.AttrAfter` | src/updaters.js:166-171 | after `update(value)` the last value is `value`, or an old one `===` to it; at most that one value was written |
| `AttributeUpdaters.AttrWritesOnChange` | src/updaters.js:166-171 | `setAttr` is called with `value` if and only if `value !== last`; otherwise nothing is written |
| `AttributeUpdaters.AttrRepeatSilent` | src/updaters.js:166-171 | giving the same value twice writes nothing the second time, except NaN, which is written again |
| `AttributeUpdaters.AttrRunBounded` | src/updaters.js:166-171 | over any run of updates: earlier writes kept, at most one write per update, only values of the run, and the last value held is the run's last value or `===` to it |
| `AttributeUpdaters.AttributeUpdater.constructor` | src/updaters.js:160-164 | a new updater has written nothing and its last value is `undefined` |
| `AttributeUpdaters.AttributeUpdater.Update` | src/updaters.js:166-171 | the new state is `AttrAfter` of the old one |
| `AttributeUpdaters.Ready` | src/updaters.js:183-194 | `isReady` answers true exactly when `pending` ends null: always once it is null, else exactly when clearing this position's flag leaves none set; a `false` answer keeps the other flags |
| `AttributeUpdaters.PartAfter` | src/updaters.js:196-201 | `update` changes only `parts[pos]`, and writes iff the group is ready, then with the join of all parts |
| `AttributeUpdaters.PartsRun` | src/updaters.js:196-201 | a run of part updates keeps the buffer's shape |
| `AttributeUpdaters.GateHolds` | src/updaters.js:180-194 | while some registered hole position has had no value, nothing at all is written and its flag stays set |
| `AttributeUpdaters.FlagsClear` | src/updaters.js:183-194 | flags only ever clear; a flag still set after a run was set before and never touched by it |
| `AttributeUpdaters.AllSetOpens` | src/updaters.js:189-192 | once every flagged position has had a value, `pending` is null |
| `AttributeUpdaters.OpenWritesAll` | src/updaters.js:185-187 | once `pending` is null every update writes, and the last write is the join of all parts |
| `AttributeUpdaters.Parts.constructor` | src/updaters.js:175-181 | a new shared buffer holds the static text and no set flag |
| `AttributeUpdaters.AttributePartUpdater.constructor` | src/updaters.js:175-181 | registering a part sets its position's flag and no other |
| `AttributeUpdaters.AttributePartUpdater.IsReady` | src/updaters.js:183-194 | the new flags and the answer are `Ready` of the old flags |
| `AttributeUpdaters.AttributePartUpdater.Update` | src/updaters.js:196-201 | the buffer and the writes are `PartAfter` of the old buffer |
| `AttributeUpdaters.PartsScenario` | test/attribute-parts.js:35-46 | `x='a${'b'}${buffer}d'`: nothing written before the buffer yields, then "abcd", then "abCd" |
| `AttributeUpdaters.AttributeMapUpdater.constructor` | src/updaters.js:205-207 | a new updater has written nothing |
| `AttributeUpdaters.AttributeMapUpdater.Update` | src/updaters.js:209-213 | one write per enumerable key, in order, and no removal of keys from earlier maps |
| `TemplateUpdaters.Evaluated` | src/updaters.js:132 | one updater per hole, of that hole's kind, under distinct ids none of which was handed out before |
| `TemplateUpdaters.CancelCalls` | src/updaters.js:84 | cancelling a promise handle calls nothing; an observable handle calls `unsubscribe`; an iterator handle calls `return` only when the iterator has one; no cancel delivers a value |
| `TemplateUpdaters.Deliveries` | src/updaters.js:76 | the `k`-th call gives the `k`-th emitted value to the hole's updater |
| `TemplateUpdaters.HoleCalls` | src/updaters.js:137-148 | re-supplying the pending source calls nothing; a plain value cancels the pending handle and is then given to the updater (observables as in the corrected `AwaitObservable`) |
| `TemplateUpdaters.Handle.constructor` | src/updaters.js:49-53 | a new handle records its source and is not cancelled |
| `TemplateUpdaters.Handle.Cancel` | src/updaters.js:52 | afterwards the handle is cancelled |
| `TemplateUpdaters.TemplateUpdater.constructor` | src/updaters.js:7-13 | no updaters, no pending handles, no source |
| `TemplateUpdaters.TemplateUpdater.PendingSource` | src/updaters.js:27-29 | the source of hole `i`'s pending handle, or none exactly when no handle is pending there |
| `TemplateUpdaters.TemplateUpdater.CancelPending` | src/updaters.js:31-37 | hole `i` is cleared and its old handle cancelled; no other hole changes; the invariant is kept |
| `TemplateUpdaters.TemplateUpdater.SetPending` | src/updaters.js:39-42 | the old handle of hole `i` is cancelled before the new one is stored; the invariant is kept |
| `TemplateUpdaters.TemplateUpdater.AwaitPromise` | src/updaters.js:44-68 | the same promise again changes nothing; otherwise a fresh handle on it replaces the cancelled old one |
| `TemplateUpdaters.TemplateUpdater.Subscribe` | src/updaters.js:75-79 | values emitted while subscribing go to the hole's updater, in order |
| `TemplateUpdaters.TemplateUpdater.AwaitObservable` | src/updaters.js:70-87 | the same observable again changes nothing; otherwise the old handle is cancelled, then a handle is kept only when the subscription is still open; the invariant is kept |
| `TemplateUpdaters.TemplateUpdater.AwaitObservableAsWritten` | src/updaters.js:70-87 | as written, a subscription that completes while subscribing clears the hole without cancelling its old handle, which stays live and breaks the invariant |
| `TemplateUpdaters.TemplateUpdater.AwaitAsyncIterator` | src/updaters.js:89-127 | the same iterable again changes nothing; otherwise the first value is requested and a fresh handle replaces the cancelled old one |
| `TemplateUpdaters.TemplateUpdater.UpdateHole` | src/updaters.js:138-148 | routes thenables, observables and async iterables to their adapters (observables to the corrected `AwaitObservable`), and cancels and delivers plain values; only hole `i` changes |
| `TemplateUpdaters.TemplateUpdater.UpdateHoles` | src/updaters.js:136-149 | after the loop every hole follows its new value and the calls are those of each hole in order, with observables handled by the corrected adapter |
| `TemplateUpdaters.TemplateUpdater.CancelUpdates` | src/updaters.js:15-25 | every pending handle is cancelled and cleared and every child updater cancelled, hole by hole |
| `TemplateUpdaters.TemplateUpdater.Rebuild` | src/updaters.js:130-135 | everything is cancelled first, then fresh updaters are evaluated with an all-empty pending array of the same length |
| `TemplateUpdaters.TemplateUpdater.Update` | src/updaters.js:129-150 | updaters are rebuilt only when there are none or the source differs, else reused unchanged; then each hole follows its value, observables through the corrected adapter |
| `TemplateUpdaters.TemplateUpdater.PromiseFulfilled` | src/updaters.js:55-59 | a cancelled handle's fulfilment changes nothing; a live one clears its own hole and delivers the value |
| `TemplateUpdaters.TemplateUpdater.ObservableNext` | src/updaters.js:76 | an emitted value reaches the updater only for a handle still pending |
| `TemplateUpdaters.TemplateUpdater.IteratorYielded` | src/updaters.js:97-104 | a yielded value of a live handle is delivered and the next one requested; a cancelled handle's yield does nothing |
| `TemplateUpdaters.TemplateUpdater.Closed` | src/updaters.js:60-65 | the end or failure of a source clears its hole only when the handle was not cancelled |
| `TemplateUpdaters.StaleDeliveryAsWritten` | src/updaters.js:70-87 | as written, a promise superseded by a synchronously completing observable still delivers its value afterwards |
| `TemplateUpdaters.NoStaleDelivery` | src/updaters.js:31-42 | with the old handle cancelled before subscribing, the superseded promise's value is dropped |
| `MockDom.FindChild` | test/mocks/index.js:1-7 | the index of `node` among the children, or the "Node is not a child" error exactly when it is absent |
| `MockDom.Node.constructor` | test/mocks/index.js:33-48 | a new node has no parent, sibling, children or attributes, and satisfies the link invariant |
| `MockDom.Node.FirstChild` | test/mocks/index.js:50-52 | the first child, or null exactly when there are no children |
| `MockDom.Node.LastChild` | test/mocks/index.js:54-57 | the last child, or null exactly when there are no children |
| `MockDom.Node.RemoveChild` | test/mocks/index.js:59-67 | fails, changing nothing, unless `node` is a child; otherwise deletes it, bridges the predecessor to its old successor, clears its links, and keeps the invariant |
| `MockDom.Node.Detach` | test/mocks/index.js:61-66 | the removal once the position is known keeps the invariant |
| `MockDom.Node.Bypass` | test/mocks/index.js:61-63 | the predecessor now leads past the removed node |
| `MockDom.Node.Cut` | test/mocks/index.js:64-66 | the splice and link clearing restore the invariant |
| `MockDom.Node.InsertBefore` | test/mocks/index.js:69-91 | fails, changing nothing, unless `next` is null or a child; otherwise inserts the node (or all fragment children, in order) at `next`'s position, links them, and keeps the invariant; a plain node keeps its own children, their links and its attributes (the frame touches the moved children's links only for a fragment), a fragment its own links, and an empty fragment changes nothing |
| `MockDom.Node.InsertAt` | test/mocks/index.js:71-90 | both branches once the position is known: a plain node keeps its own children, their links and its attributes, a fragment keeps its own links, and an empty fragment leaves every child list and link as it was |
| `MockDom.Node.InsertNode` | test/mocks/index.js:83-90 | the node lands at `pos`, others keep their order, its parent and sibling are set, the predecessor links to it |
| `MockDom.Node.InsertFragment` | test/mocks/index.js:71-82 | the fragment's children are spliced in order at `pos`, linked at both ends, and the fragment is emptied |
| `MockDom.Node.LinkEnds` | test/mocks/index.js:73-76 | the fragment's last child leads to `next` and the predecessor to its first child |
| `MockDom.Node.Graft` | test/mocks/index.js:77-80 | the splice and adoption of the fragment's children restore the invariant |
| `MockDom.Node.AdoptAll` | test/mocks/index.js:78-80 | every moved child has this node as parent |
| `MockDom.Node.SetAttribute` | test/mocks/index.js:113-115 | the entry for `name` becomes `value`; every other entry unchanged |
| `MockDom.Node.RemoveAttribute` | test/mocks/index.js:117-119 | the entry for `name` is gone; every other entry unchanged |
| `MockDom.NestingScenario` | test/mocks/index.js:69-91 | appending a child to an element and then the element to an empty parent: the parent holds the element, the element still holds its child, and both keep the link invariant |

## Left out

- Promise, observable and async-iterator scheduling: the callbacks the await
  methods register are event methods (`PromiseFulfilled`, `ObservableNext`,
  `IteratorYielded`, `Closed`) that the environment may call in any order.
  The errors that `awaitPromise`, `awaitObservable` and `awaitAsyncIterator`
  rethrow are not modelled.
- `TemplateUpdaters.TemplateUpdater.ObservableNext` and `Closed` (for an
  observable) check the handle's `cancelled` flag, where the source's
  observer callbacks have no such check: cancelling an observable handle
  unsubscribes it, and the model takes an unsubscribed observable to call
  nothing more, as a conforming observable does.
- The capability probes (`typeof value.then`, `value[symbols.observable]`,
  `value[symbols.asyncIterator]`, `Array.isArray`, `symbols.iterator`, and
  the `typeof iter.return === 'function'` test of an async iterator's
  cancel) are constructors and fields of the closed `Value` datatype. `src/symbols.js` and the
  `symbol-observable` library are not part of this model.
- `src/slots.js` is not part of this model. A slot is a value with an id for
  its identity, and `Slots.Matches` (equal kind: blank, text, template of one
  structure, nested list) stands in for `Slot.matches`. `slot.update` and
  `slot.cancelUpdates` are log entries; recursive cancellation inside a slot
  is not modelled.
- `Values.Num`: numbers are integers only. Fractions, infinities and `-0`
  are not modelled, so `JoinText` never renders them. `JoinText` writes
  every integer in plain decimal digits, where `String(n)` switches to
  exponent form from 1e21 on (`[1e21].join()` is "1e+21"); NaN is the separate
  constructor `NaN`, which `Values.Same` equates with nothing, so
  `AttrWritesOnChange` and `AttrRepeatSilent` hold for it as the source
  behaves.
- `Values.JoinText` renders every object other than an array, including
  templates, promises, observables and iterables, as "[object Object]", and
  `Values.Enumerable` gives no pair for such objects, whose own enumerable
  properties `for … in` would visit. Only plain objects, arrays and strings
  are enumerated.
- `Values.Enumerable` on a `Str` value gives one pair per Unicode scalar
  value, because a string here is a sequence of scalar values, where a
  JavaScript string is a sequence of UTF-16 code units and `for … in` gives
  one key per code unit: "a😀" has two pairs here and three keys in JavaScript.
- `TemplateUpdaters.HoleCalls`, `TemplateUpdaters.TemplateUpdater.UpdateHole`,
  `UpdateHoles` and `Update` send observables to the corrected
  `AwaitObservable` of the finding below: the old handle is cancelled
  before subscribing. As written (`AwaitObservableAsWritten`), the source
  subscribes first, so the values emitted during `subscribe` reach the
  updater before the old handle's cancel calls, and when the subscription
  is already closed the old handle is not cancelled at all.
- `src/dom.js` is not part of this model. `setAttr` calls are recorded, not
  performed. The conversions of `true`, `false`, `null` and `undefined` it
  makes, and the space-joining of list values in attribute parts, are not
  modelled. A list stored directly in a part joins as `Array.prototype.join`
  does, with commas.
- `src/actions.js` and `template.evaluate` are not part of this model. A
  template carries the kinds of its holes. Each updater is an id and a kind,
  and `updaters[i].update(v)` is a log entry, so the nested template updaters
  of slots are not modelled.
- `CommentUpdater.update` does nothing; a comment hole only receives log
  entries. The unused `target` and `key` fields of `TemplateUpdater` are
  left out.
- `src/index.js`, the `toDataObject` serialisers and `Document` factory
  methods of the mock, and the test files are not part of this model.
- `MockDom.Node.InsertBefore` requires that the inserted node, or each child
  of an inserted fragment, is not already a child of this node, and, for a
  fragment, that the fragment's own links agree (`newNode.Valid()`) and that
  this node is not one of the fragment's children. The mock checks none of
  these, and the link invariant is not preserved without them.
- The mock's `attributes` map holds strings; the `nodeType` tests other than
  for a fragment (element, text) are constants only.

## Findings

| source | as written | input that shows it | evidently intended | confidence | as-written member | corrected member |
|---|---|---|---|---|---|---|
| src/updaters.js:75-86 | when the observable completes while `subscribe` runs, the completion callback sets `pending[i] = null` and `setPending` is never reached, so the handle that was pending for the hole is dropped without being cancelled | hole 0 waits on a promise; the template is given again with an observable that emits "observed" and completes during `subscribe`; the promise then fulfils with "stale": "stale" is delivered after "observed" (`StaleDeliveryAsWritten`) | the old handle is cancelled before subscribing, so the superseded promise's value is dropped (`NoStaleDelivery`) | medium; not executed | `TemplateUpdaters.TemplateUpdater.AwaitObservableAsWritten` | `TemplateUpdaters.TemplateUpdater.AwaitObservable` |
