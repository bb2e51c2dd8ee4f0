/** The per-resource operations of a tracker, as functions of the tracked map:
    what `Tracker::{query, transit, remove, used}` and `DummyTracker::{query, remove}`
    do to it and what they answer. The classes in module `Trackers` are proved
    against these functions. */
module TrackState {
  import opened TrackTypes

  type TrackMap = map<Index, Track>

  /** The entry of a presence tracker: liveness token and generation, no usage. */
  datatype Presence = Presence(refCount: RefCount, epoch: Epoch)

  type PresenceMap = map<Index, Presence>

  /** The handle is not stale: if its slot is tracked, the generations agree. */
  predicate EpochMatches(m: TrackMap, id: Id) {
    id.index in m ==> m[id.index].epoch == id.epoch
  }

  /** The same check on a presence tracker. It is written out per entry type because
      `Track` and `Presence` are different datatypes that each carry their own `epoch`,
      as the two `assert_eq!` checks of the source read different fields. */
  predicate PresenceEpochMatches(m: PresenceMap, id: Id) {
    id.index in m ==> m[id.index].epoch == id.epoch
  }

  /** Untrack a slot: report whether it was tracked, and drop it. */
  function RemoveSlot<V>(m: map<Index, V>, index: Index): (r: (bool, map<Index, V>))
    ensures r.0 <==> index in m
    ensures r.1.Keys == m.Keys - {index}
    ensures forall k :: k in r.1 ==> r.1[k] == m[k]
  {
    (index in m, m - {index})
  }

  /** `Tracker::query`: read the last usage, creating the entry with `default` on first touch. */
  function QueryOn(m: TrackMap, id: Id, rc: RefCount, default: Usage): (r: (UsageQuery, TrackMap))
    requires EpochMatches(m, id)
    ensures r.0.initialized <==> id.index !in m
    ensures r.1.Keys == m.Keys + {id.index}
    ensures EpochMatches(r.1, id)
    // the answer is the usage now tracked for the slot
    ensures r.0.usage == r.1[id.index].last
    ensures id.index !in m ==> r.0.usage == default && r.1[id.index] == Track(rc, default, default, id.epoch)
    // an already tracked slot is only read
    ensures id.index in m ==> r.1 == m
    ensures forall k :: k in m ==> r.1[k] == m[k]
  {
    if id.index !in m then
      (UsageQuery(default, true), m[id.index := Track(rc, default, default, id.epoch)])
    else
      (UsageQuery(m[id.index].last, false), m)
  }

  /** `Tracker::transit`: move the slot to `usage` under `permit`. */
  function TransitOn(writeAll: Usage, m: TrackMap, id: Id, rc: RefCount, usage: Usage, permit: TrackPermit)
    : (r: (Result<Tracktion<Usage>, Usage>, TrackMap))
    requires EpochMatches(m, id)
    // only the slot of `id` may change, and it is tracked afterwards with the handle's generation
    ensures r.1.Keys == m.Keys + {id.index}
    ensures forall k :: k in m && k != id.index ==> r.1[k] == m[k]
    ensures EpochMatches(r.1, id)
    // an existing entry keeps its liveness token, first usage and generation
    ensures id.index in m ==> r.1[id.index] == m[id.index].(last := r.1[id.index].last)
    // first touch
    ensures r.0 == Ok(Init) <==> id.index !in m
    ensures id.index !in m ==> r.1[id.index] == Track(rc, usage, usage, id.epoch)
    // equality is decided before any permit flag
    ensures r.0 == Ok(Keep) <==> id.index in m && m[id.index].last == usage
    ensures r.0 == Ok(Keep) ==> r.1 == m
    // extension: the slot holds a different usage, the permit has EXTEND and the union is not exclusive
    ensures r.0.Ok? && r.0.value.Extend? <==>
      id.index in m && m[id.index].last != usage
      && permit.Contains(EXTEND) && !IsExclusive(writeAll, m[id.index].last + usage)
    ensures r.0.Ok? && r.0.value.Extend? ==>
      r.0.value.prior == m[id.index].last && r.1[id.index].last == m[id.index].last + usage
    // replacement: extension does not apply and the permit has REPLACE
    ensures r.0.Ok? && r.0.value.Replace? <==>
      id.index in m && m[id.index].last != usage
      && !(permit.Contains(EXTEND) && !IsExclusive(writeAll, m[id.index].last + usage))
      && permit.Contains(REPLACE)
    ensures r.0.Ok? && r.0.value.Replace? ==>
      r.0.value.prior == m[id.index].last && r.1[id.index].last == usage
    // hazard: the prior usage is reported and nothing changes
    ensures r.0.Err? ==> id.index in m && r.0.error == m[id.index].last && r.1 == m
    // after success the tracked usage includes the request, and it is the request itself
    // or a non-exclusive extension that the permit allowed
    ensures r.0.Ok? ==> usage <= r.1[id.index].last
    ensures r.0.Ok? ==>
      (r.1[id.index].last == usage || (permit.Contains(EXTEND) && !IsExclusive(writeAll, r.1[id.index].last)))
  {
    if id.index !in m then
      (Ok(Init), m[id.index := Track(rc, usage, usage, id.epoch)])
    else
      var prior := m[id.index].last;
      if usage == prior then
        (Ok(Keep), m)
      else if permit.Contains(EXTEND) && !IsExclusive(writeAll, prior + usage) then
        (Ok(Extend(prior)), m[id.index := m[id.index].(last := prior + usage)])
      else if permit.Contains(REPLACE) then
        (Ok(Replace(prior)), m[id.index := m[id.index].(last := usage)])
      else
        (Err(prior), m)
  }

  /** A permit without EXTEND never extends, so a REPLACE-only transit is never
      `Extend`; a permit with neither flag only initializes or keeps. */
  lemma TransitWithoutExtend(writeAll: Usage, m: TrackMap, id: Id, rc: RefCount, usage: Usage, permit: TrackPermit)
    requires EpochMatches(m, id)
    requires !permit.Contains(EXTEND)
    ensures var r := TransitOn(writeAll, m, id, rc, usage, permit);
      && !(r.0.Ok? && r.0.value.Extend?)
      && (!permit.Contains(REPLACE) ==> r.0.Err? || r.0 == Ok(Init) || r.0 == Ok(Keep))
  {
  }

  /** The usage a successful transit forwards as its source (`into_source`) is the
      prior usage exactly when the transit changed the tracked usage. */
  lemma TransitSource(writeAll: Usage, m: TrackMap, id: Id, rc: RefCount, usage: Usage, permit: TrackPermit)
    requires EpochMatches(m, id)
    ensures var r := TransitOn(writeAll, m, id, rc, usage, permit);
      r.0.Ok? ==>
        IntoSource(r.0.value) == (if id.index in m && m[id.index].last != usage then Some(m[id.index].last) else None)
  {
  }

  /** `DummyTracker::query`: true exactly on first touch, which inserts the entry. */
  function DummyQueryOn(m: PresenceMap, id: Id, rc: RefCount): (r: (bool, PresenceMap))
    requires PresenceEpochMatches(m, id)
    ensures r.0 <==> id.index !in m
    ensures r.1.Keys == m.Keys + {id.index}
    ensures id.index !in m ==> r.1[id.index] == Presence(rc, id.epoch)
    ensures id.index in m ==> r.1 == m
    ensures forall k :: k in m ==> r.1[k] == m[k]
  {
    if id.index !in m then (true, m[id.index := Presence(rc, id.epoch)]) else (false, m)
  }

  /** `Tracker::used`: one handle per tracked slot, rebuilt from its stored generation. */
  function UsedIds(m: TrackMap): set<Id> {
    set k | k in m :: Id(k, m[k].epoch)
  }

  lemma UsedIdsMembers(m: TrackMap)
    ensures forall id :: id in UsedIds(m) <==> id.index in m && m[id.index].epoch == id.epoch
  {
  }

  /** Distinct slots give distinct handles, so there is exactly one handle per entry. */
  lemma {:induction false} UsedIdsCount(m: TrackMap)
    ensures |UsedIds(m)| == |m|
    decreases |m|
  {
    if m != map[] {
      var k :| k in m;
      var rest := m - {k};
      assert rest.Keys == m.Keys - {k};
      assert |rest| == |m| - 1;
      UsedIdsCount(rest);
      forall x
        ensures x in UsedIds(m) <==> x in UsedIds(rest) + {Id(k, m[k].epoch)}
      {
        if x in UsedIds(m) {
          var j :| j in m && x == Id(j, m[j].epoch);
          if j != k { assert j in rest; }
        }
      }
      assert UsedIds(m) == UsedIds(rest) + {Id(k, m[k].epoch)};
      assert Id(k, m[k].epoch) !in UsedIds(rest);
    }
  }

  /** A second query of the same handle is not a first touch and returns the same usage. */
  lemma QueryTwice(m: TrackMap, id: Id, rc: RefCount, rc': RefCount, default: Usage, default': Usage)
    requires EpochMatches(m, id)
    ensures var (q, m1) := QueryOn(m, id, rc, default);
      EpochMatches(m1, id) && QueryOn(m1, id, rc', default') == (UsageQuery(q.usage, false), m1)
  {
  }

  /** After removing a tracked handle, the next query is a first touch again. */
  lemma RemoveThenQuery(m: TrackMap, id: Id, rc: RefCount, default: Usage)
    requires EpochMatches(m, id)
    ensures var (_, m1) := RemoveSlot(m, id.index);
      EpochMatches(m1, id) && QueryOn(m1, id, rc, default).0 == UsageQuery(default, true)
  {
  }

  /** A prior exclusive usage blocks any extension: under EXTEND alone the transit
      is a hazard naming the prior usage; with REPLACE as well it is a replacement. */
  lemma ExclusivePriorBlocksExtend(writeAll: Usage, m: TrackMap, id: Id, rc: RefCount, usage: Usage)
    requires EpochMatches(m, id) && id.index in m
    requires IsExclusive(writeAll, m[id.index].last) && usage != m[id.index].last
    ensures TransitOn(writeAll, m, id, rc, usage, EXTEND) == (Err(m[id.index].last), m)
    ensures TransitOn(writeAll, m, id, rc, usage, EXTEND.Union(REPLACE)).0 == Ok(Replace(m[id.index].last))
  {
  }

  /** The union of a sequence of usages. */
  function UnionAll(us: seq<Usage>): Usage
    decreases |us|
  {
    if us == [] then {} else us[0] + UnionAll(us[1..])
  }

  /** Apply `transit` for each usage in turn to one handle; reports whether none was a hazard. */
  function TransitAll(writeAll: Usage, m: TrackMap, id: Id, rc: RefCount, us: seq<Usage>, permit: TrackPermit)
    : (r: (bool, TrackMap))
    requires EpochMatches(m, id)
    ensures EpochMatches(r.1, id)
    ensures forall k :: k in m && k != id.index ==> k in r.1 && r.1[k] == m[k]
    ensures r.1.Keys <= m.Keys + {id.index}
    decreases |us|
  {
    if us == [] then (true, m)
    else
      var (res, m1) := TransitOn(writeAll, m, id, rc, us[0], permit);
      var (ok, m2) := TransitAll(writeAll, m1, id, rc, us[1..], permit);
      (res.Ok? && ok, m2)
  }

  /** Under EXTEND, transits on a tracked handle accumulate: if the prior usage and all
      requested usages together are not exclusive, no transit is a hazard and the
      final usage is their union; nothing else about the entry changes. */
  lemma {:induction false} ExtendOnlyAccumulates(writeAll: Usage, m: TrackMap, id: Id, rc: RefCount, us: seq<Usage>)
    requires EpochMatches(m, id) && id.index in m
    requires !IsExclusive(writeAll, m[id.index].last + UnionAll(us))
    ensures TransitAll(writeAll, m, id, rc, us, EXTEND)
      == (true, m[id.index := m[id.index].(last := m[id.index].last + UnionAll(us))])
    decreases |us|
  {
    var prior := m[id.index].last;
    if us == [] {
      assert prior + {} == prior;
      assert m[id.index := m[id.index].(last := prior)] == m;
    } else {
      var rest := UnionAll(us[1..]);
      assert UnionAll(us) == us[0] + rest;
      ExclusiveUnion(writeAll, prior + us[0], rest);
      assert (prior + us[0]) + rest == prior + UnionAll(us);
      var (res, m1) := TransitOn(writeAll, m, id, rc, us[0], EXTEND);
      if us[0] == prior {
        assert res == Ok(Keep) && m1 == m;
        assert prior + rest == prior + UnionAll(us);
      } else {
        assert !IsExclusive(writeAll, prior + us[0]);
        assert res == Ok(Extend(prior));
        assert m1 == m[id.index := m[id.index].(last := prior + us[0])];
      }
      var final := m1[id.index := m1[id.index].(last := m1[id.index].last + rest)];
      assert final == m[id.index := m[id.index].(last := prior + UnionAll(us))];
      ExtendOnlyAccumulates(writeAll, m1, id, rc, us[1..]);
    }
  }

  /** The same from first touch: the first transit initializes with its usage, and the
      entry ends with that usage as its first and the union of all as its last. */
  lemma ExtendOnlyFromFirstTouch(writeAll: Usage, m: TrackMap, id: Id, rc: RefCount, us: seq<Usage>)
    requires id.index !in m && us != []
    requires !IsExclusive(writeAll, UnionAll(us))
    ensures TransitAll(writeAll, m, id, rc, us, EXTEND)
      == (true, m[id.index := Track(rc, us[0], UnionAll(us), id.epoch)])
  {
    var m1 := m[id.index := Track(rc, us[0], us[0], id.epoch)];
    assert TransitOn(writeAll, m, id, rc, us[0], EXTEND) == (Ok(Init), m1);
    assert UnionAll(us) == us[0] + UnionAll(us[1..]);
    ExtendOnlyAccumulates(writeAll, m1, id, rc, us[1..]);
    assert m1[id.index := m1[id.index].(last := us[0] + UnionAll(us[1..]))]
      == m[id.index := Track(rc, us[0], UnionAll(us), id.epoch)];
  }
}
