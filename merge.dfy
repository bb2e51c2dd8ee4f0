/** Folding a child tracker into a parent: `Tracker::consume_by_replace`,
    `Tracker::consume_by_extend` and `DummyTracker::consume` as folds over the order in which the child's
    slots are visited. The hash map fixes no order, so every property below is
    stated for an arbitrary visiting order of the child's slots. */
module TrackMerge {
  import opened TrackTypes
  import opened TrackState

  /** No slot is visited twice. */
  predicate Distinct(order: seq<Index>) {
    forall i, j :: 0 <= i < j < |order| ==> order[i] != order[j]
  }

  /** `order` visits some of the slots of `other`, each once. */
  predicate Visits<V>(order: seq<Index>, other: map<Index, V>) {
    Distinct(order) && forall k :: k in order ==> k in other
  }

  /** `order` visits every slot of `other`, each once. */
  predicate Enumerates<V>(order: seq<Index>, other: map<Index, V>) {
    Visits(order, other) && forall k :: k in other ==> k in order
  }

  /** Transitions name pairwise different slots. */
  predicate DistinctSlots(ts: seq<Transition>) {
    forall i, j :: 0 <= i < j < |ts| ==> ts[i].id.index != ts[j].id.index
  }

  // ---------------------------------------------------------------- replace

  /** One slot of `consume_by_replace`: clone an untracked entry; otherwise swap in the
      child's last usage and emit `old .. child.last` unless the prior usage already
      equals the child's first usage. */
  function ReplaceStep(m: TrackMap, index: Index, child: Track): (TrackMap, seq<Transition>) {
    if index !in m then
      (m[index := child], [])
    else
      var prior := m[index].last;
      (m[index := m[index].(last := child.last)],
       if prior == child.init then [] else [Transition(Id(index, child.epoch), prior, child.last)])
  }

  /** One replace step tracks the slot with the child's last usage (cloning the child's
      entry if it was untracked), keeps every other entry, and emits at most one barrier:
      `old .. child.last`, exactly when the slot was tracked at a usage other than the
      child's first one. */
  lemma ReplaceStepEffect(m: TrackMap, index: Index, child: Track)
    ensures var (m', ts) := ReplaceStep(m, index, child);
      && m'.Keys == m.Keys + {index}
      && m'[index] == (if index in m then m[index].(last := child.last) else child)
      && (forall k :: k in m && k != index ==> m'[k] == m[k])
      && (ts == [] <==> index !in m || m[index].last == child.init)
      && (ts != [] ==> ts == [Transition(Id(index, child.epoch), m[index].last, child.last)])
  {
  }

  /** `consume_by_replace` after visiting the slots of `order`, in that order. */
  function ReplaceFold(m: TrackMap, other: TrackMap, order: seq<Index>): (TrackMap, seq<Transition>)
    requires forall k :: k in order ==> k in other
    decreases |order|
  {
    if order == [] then
      (m, [])
    else
      var prev := ReplaceFold(m, other, order[..|order| - 1]);
      var k := order[|order| - 1];
      var step := ReplaceStep(prev.0, k, other[k]);
      (step.0, prev.1 + step.1)
  }

  /** The entry a slot of `other` ends with: the parent's entry with the child's last
      usage, or the child's entry cloned when the parent did not track the slot. */
  function ReplacedEntry(m: TrackMap, other: TrackMap, k: Index): Track
    requires k in other
  {
    if k in m then m[k].(last := other[k].last) else other[k]
  }

  /** The slot needs a barrier: tracked by both, and the parent's last usage is not
      the usage the child started from. */
  predicate NeedsTransition(m: TrackMap, other: TrackMap, k: Index) {
    k in m && k in other && m[k].last != other[k].init
  }

  function RequiredTransition(m: TrackMap, other: TrackMap, k: Index): Transition
    requires k in m && k in other
  {
    Transition(Id(k, other[k].epoch), m[k].last, other[k].last)
  }

  /** The slots of `done` hold their replaced entries in `m'`, and the rest of `m` is as it was. */
  ghost predicate ReplacedOver(m: TrackMap, other: TrackMap, done: seq<Index>, m': TrackMap)
    requires forall k :: k in done ==> k in other
  {
    && (forall k :: k in m' <==> k in m || k in done)
    && (forall k :: k in done ==> m'[k] == ReplacedEntry(m, other, k))
    && (forall k :: k in m && k !in done ==> m'[k] == m[k])
  }

  /** `ts` holds, once each, the transitions required by the slots of `done`. */
  ghost predicate TransitionsOver(m: TrackMap, other: TrackMap, done: seq<Index>, ts: seq<Transition>) {
    && (forall t :: t in ts ==>
         t.id.index in done && NeedsTransition(m, other, t.id.index)
         && t == RequiredTransition(m, other, t.id.index))
    && (forall k :: k in done && NeedsTransition(m, other, k) ==> RequiredTransition(m, other, k) in ts)
    && DistinctSlots(ts)
  }

  /** The last visited slot is not among the earlier ones, and splits the visited set. */
  lemma LastVisit(order: seq<Index>)
    requires Distinct(order) && order != []
    ensures order[|order| - 1] !in order[..|order| - 1]
    ensures forall x :: x in order <==> x in order[..|order| - 1] || x == order[|order| - 1]
  {
  }

  lemma {:induction false} ReplaceFoldEntries(m: TrackMap, other: TrackMap, order: seq<Index>)
    requires Visits(order, other)
    ensures ReplacedOver(m, other, order, ReplaceFold(m, other, order).0)
    decreases |order|
  {
    if order != [] {
      var n := |order| - 1;
      var q, k := order[..n], order[n];
      LastVisit(order);
      ReplaceFoldEntries(m, other, q);
      var mq := ReplaceFold(m, other, q).0;
      assert ReplaceFold(m, other, order).0 == mq[k := ReplacedEntry(m, other, k)];
    }
  }

  lemma {:induction false} ReplaceFoldTransitions(m: TrackMap, other: TrackMap, order: seq<Index>)
    requires Visits(order, other)
    ensures TransitionsOver(m, other, order, ReplaceFold(m, other, order).1)
    decreases |order|
  {
    if order != [] {
      var n := |order| - 1;
      var q, k := order[..n], order[n];
      LastVisit(order);
      ReplaceFoldEntries(m, other, q);
      ReplaceFoldTransitions(m, other, q);
      var (mq, tq) := ReplaceFold(m, other, q);
      var step := ReplaceStep(mq, k, other[k]).1;
      assert k in mq <==> k in m;
      assert step == if NeedsTransition(m, other, k) then [RequiredTransition(m, other, k)] else [];
      var ts := tq + step;
      assert ReplaceFold(m, other, order).1 == ts;
      forall t | t in ts
        ensures t.id.index in order && NeedsTransition(m, other, t.id.index)
        ensures t == RequiredTransition(m, other, t.id.index)
      {
        if t !in tq { assert t in step; }
      }
      forall x | x in order && NeedsTransition(m, other, x)
        ensures RequiredTransition(m, other, x) in ts
      {
        if x != k { assert RequiredTransition(m, other, x) in tq; }
      }
      forall i, j | 0 <= i < j < |ts|
        ensures ts[i].id.index != ts[j].id.index
      {
        if j >= |tq| {
          assert ts[i] == tq[i];
          assert ts[j] in step;
        } else {
          assert ts[i] == tq[i] && ts[j] == tq[j];
        }
      }
    }
  }

  /** `consume_by_replace`, fully iterated in any order: every slot of the child ends
      with the child's last usage (cloned whole where the parent did not track it),
      the parent's other slots are untouched, and a transition `old .. new` is emitted,
      once, exactly for the slots tracked by both whose parent usage differs from the
      child's first usage. */
  lemma ConsumeByReplaceComplete(m: TrackMap, other: TrackMap, order: seq<Index>)
    requires Enumerates(order, other)
    ensures var (m', ts) := ReplaceFold(m, other, order);
      && m'.Keys == m.Keys + other.Keys
      && (forall k :: k in other ==> m'[k] == ReplacedEntry(m, other, k))
      && (forall k :: k in m && k !in other ==> m'[k] == m[k])
      && (forall t :: t in ts <==> exists k :: NeedsTransition(m, other, k) && t == RequiredTransition(m, other, k))
      && DistinctSlots(ts)
  {
    ReplaceFoldEntries(m, other, order);
    ReplaceFoldTransitions(m, other, order);
    var (m', ts) := ReplaceFold(m, other, order);
    forall t ensures t in ts <==> exists k :: NeedsTransition(m, other, k) && t == RequiredTransition(m, other, k) {
      if t in ts {
        assert NeedsTransition(m, other, t.id.index) && t == RequiredTransition(m, other, t.id.index);
      }
    }
  }

  /** The skip rule compares the parent's last usage with the child's FIRST usage: when
      they agree, no barrier is emitted for the slot, however the child changed the usage
      afterwards, and the slot still ends with the child's last usage. */
  lemma ReplaceSkipsWhenChildStartsAtParent(m: TrackMap, other: TrackMap, order: seq<Index>, k: Index)
    requires Enumerates(order, other)
    requires k in m && k in other && m[k].last == other[k].init
    ensures var (m', ts) := ReplaceFold(m, other, order);
      && (forall t :: t in ts ==> t.id.index != k)
      && k in m' && m'[k] == m[k].(last := other[k].last)
  {
    ConsumeByReplaceComplete(m, other, order);
    var (m', ts) := ReplaceFold(m, other, order);
    forall t | t in ts ensures t.id.index != k {
      var j :| NeedsTransition(m, other, j) && t == RequiredTransition(m, other, j);
      assert t.id.index == j;
    }
  }

  /** A parent at usage `{0}` and a child that started at `{0}` and ended at `{1}`: the
      merge emits no barrier; had the child started at `{1}`, it would emit `{0} .. {1}`. */
  lemma ReplaceSkipExample()
    ensures var m := map[7 := Track(RefCount(0), {0}, {0}, 3)];
      && ReplaceFold(m, map[7 := Track(RefCount(1), {0}, {1}, 3)], [7])
         == (map[7 := Track(RefCount(0), {0}, {1}, 3)], [])
      && ReplaceFold(m, map[7 := Track(RefCount(1), {1}, {1}, 3)], [7])
         == (map[7 := Track(RefCount(0), {0}, {1}, 3)], [Transition(Id(7, 3), {0}, {1})])
  {
    var m := map[7 := Track(RefCount(0), {0}, {0}, 3)];
    assert [7][..0] == [];
    var skipped := map[7 := Track(RefCount(1), {0}, {1}, 3)];
    var crossed := map[7 := Track(RefCount(1), {1}, {1}, 3)];
    assert ReplaceFold(m, skipped, [7]) == (ReplaceStep(m, 7, skipped[7]).0, [] + ReplaceStep(m, 7, skipped[7]).1);
    assert ReplaceFold(m, crossed, [7]) == (ReplaceStep(m, 7, crossed[7]).0, [] + ReplaceStep(m, 7, crossed[7]).1);
    assert [] + [Transition(Id(7, 3), {0}, {1})] == [Transition(Id(7, 3), {0}, {1})];
    assert m[7 := m[7].(last := {1})] == map[7 := Track(RefCount(0), {0}, {1}, 3)];
  }

  // ---------------------------------------------------------------- extend

  /** One slot of `consume_by_extend`: clone an untracked entry; for differing usages
      take their union, or stop with the slot and its range when the union is exclusive. */
  function ExtendStep(writeAll: Usage, m: TrackMap, index: Index, child: Track): (Result<(), Transition>, TrackMap) {
    if index !in m then
      (Ok(()), m[index := child])
    else
      var prior := m[index].last;
      if prior != child.last then
        var extended := prior + child.last;
        if IsExclusive(writeAll, extended) then
          (Err(Transition(Id(index, child.epoch), prior, child.last)), m)
        else
          (Ok(()), m[index := m[index].(last := extended)])
      else
        (Ok(()), m)
  }

  /** One extend step fails exactly when the slot is tracked at a different usage whose
      union with the child's last usage is exclusive; it then names the slot and the range
      `old .. child.last` and changes nothing. Otherwise the slot holds the union (or the
      child's entry, if it was untracked) and every other entry is kept. */
  lemma ExtendStepEffect(writeAll: Usage, m: TrackMap, index: Index, child: Track)
    ensures var (res, m') := ExtendStep(writeAll, m, index, child);
      && (res.Err? <==> index in m && m[index].last != child.last && IsExclusive(writeAll, m[index].last + child.last))
      && (res.Err? ==> m' == m && res.error == Transition(Id(index, child.epoch), m[index].last, child.last))
      && (res.Ok? ==> m'.Keys == m.Keys + {index})
      && (res.Ok? ==> m'[index] == if index in m then m[index].(last := m[index].last + child.last) else child)
      && (res.Ok? ==> forall k :: k in m && k != index ==> m'[k] == m[k])
  {
  }

  /** `consume_by_extend` after visiting the slots of `order`; the first hazard ends it. */
  function ExtendFold(writeAll: Usage, m: TrackMap, other: TrackMap, order: seq<Index>): (Result<(), Transition>, TrackMap)
    requires forall k :: k in order ==> k in other
    decreases |order|
  {
    if order == [] then
      (Ok(()), m)
    else
      var prev := ExtendFold(writeAll, m, other, order[..|order| - 1]);
      if prev.0.Err? then prev
      else ExtendStep(writeAll, prev.1, order[|order| - 1], other[order[|order| - 1]])
  }

  /** Both track the slot with different usages whose union is exclusive. */
  predicate Conflict(writeAll: Usage, m: TrackMap, other: TrackMap, k: Index) {
    k in m && k in other && m[k].last != other[k].last && IsExclusive(writeAll, m[k].last + other[k].last)
  }

  /** The entry a merged slot ends with: the union of both usages, or the child's entry. */
  function ExtendedEntry(m: TrackMap, other: TrackMap, k: Index): Track
    requires k in other
  {
    if k in m then m[k].(last := m[k].last + other[k].last) else other[k]
  }

  /** The slots of `done` are merged into `m'`, and the rest of `m` is as it was. */
  ghost predicate ExtendedOver(m: TrackMap, other: TrackMap, done: seq<Index>, m': TrackMap)
    requires forall k :: k in done ==> k in other
  {
    && (forall k :: k in m' <==> k in m || k in done)
    && (forall k :: k in done ==> m'[k] == ExtendedEntry(m, other, k))
    && (forall k :: k in m && k !in done ==> m'[k] == m[k])
  }

  lemma {:induction false} ExtendFoldPrefix(writeAll: Usage, m: TrackMap, other: TrackMap, order: seq<Index>)
    requires Visits(order, other)
    ensures var (res, m') := ExtendFold(writeAll, m, other, order);
      && (res.Ok? ==> (forall k :: k in order ==> !Conflict(writeAll, m, other, k)) && ExtendedOver(m, other, order, m'))
      && (res.Err? ==> exists i :: 0 <= i < |order| && FailsAt(writeAll, m, other, order, i, res.error, m'))
    decreases |order|
  {
    if order != [] {
      var n := |order| - 1;
      var q, k := order[..n], order[n];
      assert forall x :: x in q ==> x in order;
      ExtendFoldPrefix(writeAll, m, other, q);
      var (rq, mq) := ExtendFold(writeAll, m, other, q);
      if rq.Err? {
        var i :| 0 <= i < |q| && FailsAt(writeAll, m, other, q, i, rq.error, mq);
        assert ExtendFold(writeAll, m, other, order) == (rq, mq);
        assert order[i] == q[i] && order[..i] == q[..i];
        forall j | 0 <= j < i ensures order[j] == q[j] { }
        assert FailsAt(writeAll, m, other, order, i, rq.error, mq);
      } else {
        LastVisit(order);
        assert k in mq <==> k in m;
        assert k in m ==> mq[k] == m[k];
        var (rs, ms) := ExtendStep(writeAll, mq, k, other[k]);
        assert ExtendFold(writeAll, m, other, order) == (rs, ms);
        if rs.Err? {
          assert Conflict(writeAll, m, other, k) && ms == mq;
          assert order[..n] == q;
          assert FailsAt(writeAll, m, other, order, n, rs.error, ms);
        } else {
          assert !Conflict(writeAll, m, other, k);
          assert k in m && m[k].last == other[k].last ==> m[k].last + other[k].last == m[k].last;
          assert ms == mq[k := ExtendedEntry(m, other, k)];
          assert ExtendedOver(m, other, order, ms);
        }
      }
    }
  }

  /** `consume_by_extend` leaves the slots that `other` does not track as they were,
      whether it succeeds or stops at a hazard. */
  lemma {:induction false} ExtendFoldFrame(writeAll: Usage, m: TrackMap, other: TrackMap, order: seq<Index>)
    requires forall k :: k in order ==> k in other
    ensures forall k :: k !in other ==> (k in ExtendFold(writeAll, m, other, order).1 <==> k in m)
    ensures forall k :: k in m && k !in other ==> ExtendFold(writeAll, m, other, order).1[k] == m[k]
    decreases |order|
  {
    if order != [] {
      ExtendFoldFrame(writeAll, m, other, order[..|order| - 1]);
    }
  }

  /** `consume_by_extend` stopped at visit `i`: the slot visited there conflicts, the
      hazard names it with the range `old .. new`, every earlier slot merged without
      a conflict, and the map holds exactly those earlier merges. */
  ghost predicate FailsAt(writeAll: Usage, m: TrackMap, other: TrackMap, order: seq<Index>, i: int,
                    hazard: Transition, m': TrackMap)
    requires forall k :: k in order ==> k in other
    requires 0 <= i < |order|
  {
    var k := order[i];
    && Conflict(writeAll, m, other, k)
    && hazard == Transition(Id(k, other[k].epoch), m[k].last, other[k].last)
    && (forall j :: 0 <= j < i ==> !Conflict(writeAll, m, other, order[j]))
    && ExtendedOver(m, other, order[..i], m')
  }

  /** `consume_by_extend`, fully iterated in any order, succeeds exactly when no slot
      tracked by both has differing usages with an exclusive union; then every slot of
      the child holds the union (or is cloned in) and the parent's other slots are
      untouched. A hazard names a conflicting slot, and the slots visited before it
      stay merged. */
  lemma ConsumeByExtendComplete(writeAll: Usage, m: TrackMap, other: TrackMap, order: seq<Index>)
    requires Enumerates(order, other)
    ensures var (res, m') := ExtendFold(writeAll, m, other, order);
      && (res.Ok? <==> forall k :: !Conflict(writeAll, m, other, k))
      && (res.Ok? ==> m'.Keys == m.Keys + other.Keys
                      && (forall k :: k in other ==> m'[k] == ExtendedEntry(m, other, k))
                      && (forall k :: k in m && k !in other ==> m'[k] == m[k]))
      && (res.Err? ==> Conflict(writeAll, m, other, res.error.id.index)
                       && exists i :: 0 <= i < |order| && FailsAt(writeAll, m, other, order, i, res.error, m'))
  {
    ExtendFoldPrefix(writeAll, m, other, order);
    var (res, m') := ExtendFold(writeAll, m, other, order);
    if res.Err? {
      var i :| 0 <= i < |order| && FailsAt(writeAll, m, other, order, i, res.error, m');
      assert Conflict(writeAll, m, other, order[i]);
    }
  }

  // ---------------------------------------------------------------- presence

  /** One slot of `DummyTracker::consume`: re-querying the child's handle inserts an
      untracked slot and leaves a tracked one as it is. */
  function PresenceStep(m: PresenceMap, index: Index, child: Presence): PresenceMap {
    if index in m then m else m[index := child]
  }

  /** One presence step tracks the slot, keeping an entry already there and taking the
      child's otherwise. */
  lemma PresenceStepEffect(m: PresenceMap, index: Index, child: Presence)
    ensures PresenceStep(m, index, child).Keys == m.Keys + {index}
    ensures forall k :: k in PresenceStep(m, index, child) ==>
      PresenceStep(m, index, child)[k] == if k in m then m[k] else child
  {
  }

  /** `DummyTracker::consume` after visiting the slots of `order`, in that order. */
  function PresenceFold(m: PresenceMap, other: PresenceMap, order: seq<Index>): PresenceMap
    requires forall k :: k in order ==> k in other
    decreases |order|
  {
    if order == [] then m
    else
      var k := order[|order| - 1];
      PresenceStep(PresenceFold(m, other, order[..|order| - 1]), k, other[k])
  }

  /** After any prefix of the traversal, the visited slots are tracked, those already
      tracked keep their entry and the others hold the child's entry. */
  lemma {:induction false} PresenceFoldOver(m: PresenceMap, other: PresenceMap, order: seq<Index>)
    requires forall k :: k in order ==> k in other
    ensures forall k :: k in PresenceFold(m, other, order) <==> k in m || k in order
    ensures forall k :: k in PresenceFold(m, other, order) ==>
      PresenceFold(m, other, order)[k] == if k in m then m[k] else other[k]
    decreases |order|
  {
    if order != [] {
      var q := order[..|order| - 1];
      assert forall x :: x in order <==> x in q || x == order[|order| - 1];
      PresenceFoldOver(m, other, q);
    }
  }

  /** `DummyTracker::consume`, fully iterated in any order: the tracked slots are the
      union of both, entries already tracked are kept and the others come from the child. */
  lemma ConsumePresenceComplete(m: PresenceMap, other: PresenceMap, order: seq<Index>)
    requires Enumerates(order, other)
    ensures var m' := PresenceFold(m, other, order);
      && m'.Keys == m.Keys + other.Keys
      && (forall k :: k in m ==> m'[k] == m[k])
      && (forall k :: k in other && k !in m ==> m'[k] == other[k])
  {
    PresenceFoldOver(m, other, order);
  }
}
