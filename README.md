# wgpu-native resource-usage tracker, modelled in Dafny

This project models the usage tracker of wgpu-native (`wgpu-native/src/track.rs`). While
commands are recorded, the tracker remembers which buffers, textures and texture views a
scope has touched. A `Tracker` maps a resource's slot index to a `Track`: the liveness token,
the first and last usage within the scope, and the slot's generation (epoch). Its operations:

- `transit` moves a resource into a new usage. The answer is `Init`, `Keep`, `Extend { old }`,
  `Replace { old }`, or a hazard `Err(old)`. Which one depends on whether the usages are
  equal, on the `TrackPermit` flags `EXTEND` and `REPLACE`, and on whether the union of the
  usages is exclusive (intersects the kind's write mask).
- `query` and `remove` do first-touch insertion, lookup and erasure.
- `consume_by_replace` and `consume_by_extend` fold a child tracker into a parent.
  `consume_by_replace` yields the barriers `old .. new` the merge requires.
  `consume_by_extend` unions the usages and stops, without rolling back, at the first union
  that is exclusive.
- `DummyTracker` applies the same discipline to texture views, without usages.
- `TrackerSet` bundles one tracker of each kind.

Modules:

- `TrackTypes` (`types.dfy`) holds the values: handles, usage masks, `Tracktion`, `TrackPermit`
  and `is_exclusive`. A usage mask is the set of positions of its set bits. Bitwise OR is set
  union, and `intersects` is a non-empty intersection.
- `TrackState` (`state.dfy`) holds the one-slot operations as functions on the tracked map,
  with their contracts and the lemmas that relate several calls.
- `TrackMerge` (`merge.dfy`) holds the three consume folds (`consume_by_replace`,
  `consume_by_extend` and `DummyTracker::consume`). Each is a function of the order in
  which the child's slots are visited, and its properties are proved for every order.
- `Trackers` (`trackers.dfy`) holds the classes `Tracker`, `DummyTracker` and `TrackerSet`.
  Their methods update the map field in place, as the Rust does. Each method's postcondition
  is the matching function of `TrackState` or `TrackMerge` (`RemoveSlot`, `QueryOn`,
  `TransitOn`, `DummyQueryOn`, `ReplaceFold`, `ExtendFold`, `PresenceFold`), applied to the
  old state; the consume methods also state the merged map outright.

The skip rule of `consume_by_replace` (track.rs:241) compares the parent's last usage with
the child's *first* usage. So when a parent holds a resource at a read usage and the child
took it from that same read usage to a write usage, the merge emits no barrier for it, and
the parent still ends at the write usage; a barrier `old .. new.last` is emitted only when
the parent's last usage differs from where the child started. One could read the merge as
"one barrier per changed usage" and expect a barrier in that case; the model follows the
code, and `TrackMerge.ReplaceSkipExample` shows both cases on concrete values.

The epoch `assert_eq!` checks guard against stale handles and panic when they fail. In the
model they are preconditions: the handle's epoch must match the tracked one, and for the
consume operations the two trackers must agree on every shared slot.

## Model

| member | source | states |
|---|---|---|
| TrackTypes.IntoSource | wgpu-native/src/track.rs:27-36 | Yields no usage exactly for `Init` and `Keep`, and yields the prior usage for `Extend` and `Replace`. |
| TrackTypes.TrackPermit.Union | wgpu-native/src/track.rs:44-54 | The union of two permits contains both, and it is the least permit that does. |
| TrackTypes.ExclusiveUnion | wgpu-native/src/track.rs:56-68 | If either operand is exclusive (intersects the write mask), so is the union of two usages. |
| TrackTypes.NonExclusiveUnion | wgpu-native/src/track.rs:56-68 | The union of two usages that are not exclusive is not exclusive either. |
| TrackTypes.IsExclusive | wgpu-native/src/track.rs:56-68 | `is_exclusive`: the usage intersects the kind's write mask. `ExclusiveUnion` and `NonExclusiveUnion` carry its properties: a union is exclusive exactly when one of its operands is. |
| TrackTypes.TrackPermit.Contains | wgpu-native/src/track.rs:44-54 | The bitflags `contains` that `transit` uses at lines 216 and 219: every flag of the argument is set. `TrackPermit.Union` and `PermitFlagsIndependent` carry its properties. |
| TrackTypes.PermitFlagsIndependent | wgpu-native/src/track.rs:44-54 | `EXTEND` and `REPLACE` are distinct flags: neither contains the other, their union contains both, and the empty permit contains neither. |
| TrackState.RemoveSlot | wgpu-native/src/track.rs:158-166 | Reports true exactly when the slot was tracked. Afterwards the slot is absent and every other entry is unchanged. |
| TrackState.QueryOn | wgpu-native/src/track.rs:169-191 | `initialized` holds exactly on first touch. First touch inserts `init == last == default` with the handle's epoch. Otherwise the stored `last` is returned and the map is unchanged. The slot is tracked afterwards and other entries are kept. |
| TrackState.TransitOn | wgpu-native/src/track.rs:194-227 | `Init` exactly for an untracked slot, which inserts `init == last == usage` and the epoch. `Keep` exactly when `usage` equals the last usage, for any permit, leaving the map unchanged. `Extend(old)` exactly when the usages differ, the permit has `EXTEND` and `old + usage` is not exclusive; then `last` becomes the union. `Replace(old)` exactly when the usages differ, extension does not apply and `REPLACE` is permitted; then `last` becomes `usage`. Otherwise `Err(old)` with the map unchanged. `init` and `epoch` never change. Every success covers `usage`, and its `last` is `usage` or a non-exclusive extension. |
| TrackState.TransitWithoutExtend | wgpu-native/src/track.rs:216-224 | A permit without `EXTEND` never extends, so the `unreachable!()` of `get_with_replaced_usage` really is unreachable. With neither flag, a transit only initializes, keeps or fails. |
| TrackState.TransitSource | wgpu-native/src/track.rs:27-36 | For a successful transit, `into_source` gives the prior usage exactly when the slot was tracked with a different last usage. |
| TrackState.DummyQueryOn | wgpu-native/src/track.rs:128-139 | Reports true exactly on first touch, which inserts the token and the epoch. Otherwise the map is unchanged. |
| TrackState.UsedIds | wgpu-native/src/track.rs:277-279 | The handles `used` yields, one `Id(index, epoch)` per tracked slot. `UsedIdsMembers` and `UsedIdsCount` carry its properties. |
| TrackState.UsedIdsMembers | wgpu-native/src/track.rs:277-279 | A handle is used exactly when its slot is tracked with that epoch. |
| TrackState.UsedIdsCount | wgpu-native/src/track.rs:277-279 | There is exactly one used handle per tracked slot. |
| TrackState.QueryTwice | wgpu-native/src/track.rs:169-191 | A second query of the same handle reports not-initialized, returns the same usage and changes nothing. |
| TrackState.RemoveThenQuery | wgpu-native/src/track.rs:158-191 | After a removal, the next query of the handle is a first touch that returns the default. |
| TrackState.ExclusivePriorBlocksExtend | wgpu-native/src/track.rs:211-224 | If the tracked usage is exclusive, a differing usage is a hazard `Err(old)` under `EXTEND` alone, with the map unchanged. Under `EXTEND` and `REPLACE` together it is a `Replace(old)`. |
| TrackState.TransitAll | wgpu-native/src/track.rs:194-227 | A run of transits on one handle keeps its epoch, keeps every other tracked slot's entry, and tracks no slot other than the handle's that was not tracked before. |
| TrackState.ExtendOnlyAccumulates | wgpu-native/src/track.rs:213-218 | On a tracked handle, transits under `EXTEND` whose total union with the prior usage is not exclusive all succeed. The last usage ends as that union, and nothing else about the entry changes. |
| TrackState.ExtendOnlyFromFirstTouch | wgpu-native/src/track.rs:202-218 | On an untracked handle, a non-empty run of transits under `EXTEND` whose usages together are not exclusive all succeed and leave one new entry with the handle's token and epoch, `init` equal to the first usage and `last` equal to the union of all the usages. |
| TrackMerge.ReplaceStep | wgpu-native/src/track.rs:233-247 | The `flat_map` closure for one slot. `ReplaceStepEffect` carries its properties. |
| TrackMerge.ReplaceStepEffect | wgpu-native/src/track.rs:233-247 | One step tracks the slot with the child's last usage (cloning the child's entry if the slot was untracked), keeps every other entry, and emits at most one barrier, `old .. child.last`, exactly when the slot was tracked at a usage other than the child's first usage. |
| TrackMerge.ReplaceFold | wgpu-native/src/track.rs:231-249 | `consume_by_replace` over a given visiting order: the steps in sequence, with the barriers concatenated. `ReplaceFoldEntries`, `ReplaceFoldTransitions` and `ConsumeByReplaceComplete` carry its properties. |
| TrackMerge.ReplaceFoldEntries | wgpu-native/src/track.rs:231-249 | After any prefix of the traversal, the visited slots hold their replaced entries, and the rest of the parent is unchanged. |
| TrackMerge.ReplaceFoldTransitions | wgpu-native/src/track.rs:238-246 | After any prefix of the traversal, the emitted barriers are exactly those of the visited slots that need one, each emitted once. |
| TrackMerge.ConsumeByReplaceComplete | wgpu-native/src/track.rs:231-249 | When fully iterated in any order, every slot of the child ends with the child's `last`, and untracked slots are cloned whole. The parent's other slots are untouched. A barrier `(id, old .. new.last)` is emitted exactly for the slots tracked by both where `old != new.init`, and at most once per slot. |
| TrackMerge.ReplaceSkipsWhenChildStartsAtParent | wgpu-native/src/track.rs:238-246 | For any full traversal, a slot whose parent last usage equals the child's first usage gets no barrier, whatever the child's last usage, and ends with the child's last usage. |
| TrackMerge.ReplaceSkipExample | wgpu-native/src/track.rs:238-246 | A parent at `{0}` merged with a child that went `{0}` to `{1}` ends at `{1}` with no barrier; a child that started at `{1}` gives the one barrier `{0} .. {1}`. |
| TrackMerge.ExtendStep | wgpu-native/src/track.rs:255-271 | The loop body for one slot. `ExtendStepEffect` carries its properties. |
| TrackMerge.ExtendStepEffect | wgpu-native/src/track.rs:255-271 | One step fails exactly when the slot is tracked at a different usage whose union with the child's last usage is exclusive. A failure names the slot and the range `old .. child.last` and changes nothing. Otherwise the slot holds the union (or the child's entry, if it was untracked) and every other entry is kept. |
| TrackMerge.ExtendFold | wgpu-native/src/track.rs:253-274 | `consume_by_extend` over a given visiting order: the steps in sequence, stopping at the first failure. `ExtendFoldPrefix`, `ExtendFoldFrame` and `ConsumeByExtendComplete` carry its properties. |
| TrackMerge.ExtendFoldPrefix | wgpu-native/src/track.rs:253-274 | If a traversal prefix succeeds, it met no conflict and the visited slots are merged. If it fails, it failed at a conflicting slot, after merging exactly the slots visited before it. |
| TrackMerge.ExtendFoldFrame | wgpu-native/src/track.rs:253-274 | Slots the child does not track are untouched, whether the merge succeeds or stops at a hazard. |
| TrackMerge.ConsumeByExtendComplete | wgpu-native/src/track.rs:253-274 | When fully iterated, the merge succeeds exactly when no slot tracked by both has differing usages with an exclusive union. Then each child slot holds the union, or is cloned in. A hazard names a conflicting slot with the range `old .. new.last`, and the slots visited before it stay merged (no rollback). |
| TrackMerge.PresenceStep | wgpu-native/src/track.rs:143-145 | The re-query of one child slot. `PresenceStepEffect` carries its properties. |
| TrackMerge.PresenceStepEffect | wgpu-native/src/track.rs:143-145 | One step tracks the slot, keeping an entry that is already there and taking the child's entry otherwise. |
| TrackMerge.PresenceFold | wgpu-native/src/track.rs:142-146 | `DummyTracker::consume` over a given visiting order. `PresenceFoldOver` and `ConsumePresenceComplete` carry its properties. |
| TrackMerge.PresenceFoldOver | wgpu-native/src/track.rs:142-146 | After any prefix of the traversal, the visited slots are tracked, those already tracked keep their entry and the others hold the child's entry. |
| TrackMerge.ConsumePresenceComplete | wgpu-native/src/track.rs:142-146 | When fully iterated in any order, the tracked slots are the union of both key sets, entries already tracked are kept and the others are copied from the child. |
| Trackers.Tracker.constructor | wgpu-native/src/track.rs:150-155 | A new tracker is empty. |
| Trackers.Tracker.Remove | wgpu-native/src/track.rs:158-166 | Updates the map in place as `RemoveSlot` specifies. |
| Trackers.Tracker.Query | wgpu-native/src/track.rs:169-191 | Updates the map in place and answers as `QueryOn` specifies. |
| Trackers.Tracker.Transit | wgpu-native/src/track.rs:194-227 | Updates the map in place and answers as `TransitOn` specifies. |
| Trackers.Tracker.ConsumeByReplace | wgpu-native/src/track.rs:231-249 | Visits every slot of the child once, in some order. It updates the map in place and returns the barriers, as `ReplaceFold` specifies for that order. It also states the merged entries, the untouched slots and the exact set of barriers. |
| Trackers.Tracker.ConsumeByExtend | wgpu-native/src/track.rs:253-274 | Visits the child's slots in some order and returns at the first hazard. It updates the map as `ExtendFold` specifies, and succeeds exactly when there is no conflict. On success it states the full merge. Slots outside the child are untouched. A hazard names a conflicting slot, and the visits before it stay merged. |
| Trackers.Tracker.Used | wgpu-native/src/track.rs:277-279 | One handle per tracked slot, built from its slot and its stored epoch. |
| Trackers.Tracker.GetWithUsage | wgpu-native/src/track.rs:283-293 | Performs the transit, and pairs its outcome with the item or forwards the hazard. |
| Trackers.Tracker.GetWithExtendedUsage | wgpu-native/src/track.rs:295-304 | Transits under `EXTEND`, and returns the item or forwards the hazard. |
| Trackers.Tracker.GetWithReplacedUsage | wgpu-native/src/track.rs:306-320 | Transits under `REPLACE`. It returns the item with the usage to transition from (none for `Init`/`Keep`), or forwards the hazard. It is never an extension. |
| Trackers.DummyTracker.constructor | wgpu-native/src/track.rs:109-114 | A new dummy tracker is empty. |
| Trackers.DummyTracker.Remove | wgpu-native/src/track.rs:117-125 | Updates the map as `RemoveSlot` specifies: true exactly when the slot was tracked, after which it is absent and the others are unchanged. |
| Trackers.DummyTracker.Query | wgpu-native/src/track.rs:128-139 | Updates the map and answers as `DummyQueryOn` specifies. |
| Trackers.DummyTracker.Consume | wgpu-native/src/track.rs:142-146 | Re-queries every slot of the child once, in some order, updating the map as `PresenceFold` specifies for that order: the tracked slots become the union of both key sets, entries already tracked are kept, and the others are copied from the child. |
| Trackers.TrackerSet.constructor | wgpu-native/src/track.rs:98-105 | Creates three fresh, empty trackers: buffers, textures and views. The two usage trackers are distinct. |

## Left out

- Reference counting: `RefCount` is an opaque token that the tracker clones into its entries. Counting lives outside the tracker.
- `Storage<T>` lookup in `_get_with_usage` and `get_with_*_usage`: this is a call into the hub. The looked-up item and its liveness token are parameters of the methods.
- Concrete usage masks: the `BufferUsageFlags` / `TextureUsageFlags` definitions and their `WRITE_ALL` masks belong to `resource.rs`, which is not part of this model. Each tracker carries its write mask as a constant, and the properties hold for every mask.
- Hash-map iteration order: each consume method visits the child's slots in a nondeterministic order and returns that order as a ghost value. All stated properties hold for every order.
- Trackers.Tracker.ConsumeByReplace: does not model the laziness of the Rust iterator. It runs the traversal to completion and returns the barriers as a sequence. In the Rust, a partly consumed iterator leaves the merge partial. `TrackMerge.ReplaceFoldEntries` and `TrackMerge.ReplaceFoldTransitions` state what every prefix of the traversal has done.
- Trackers.Tracker.Used: returns the set of handles rather than a lazy iterator over them.
- Epoch `assert_eq!` panics: these are preconditions, not a modelled failure outcome.
- `PhantomData` type tags and the separate handle types (`BufferId`, `TextureId`, `TextureViewId`): they carry no behaviour. All handles are one `Id` datatype.
- The Rust `Query` struct is named `UsageQuery`, because `Query` is also a method name here.
- The C example program `framework.c`: file reading and process exit in example plumbing, with no tracker logic.
