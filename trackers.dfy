/** The trackers themselves: `Tracker` (buffers, textures), `DummyTracker` (views)
    and the `TrackerSet` that bundles one of each per recording scope. Each method
    updates the tracked map in place and is proved against the matching function
    of `TrackState` or `TrackMerge`. */
module Trackers {
  import opened TrackTypes
  import opened TrackState
  import opened TrackMerge

  /** A usage tracker: slot index to tracked entry. */
  class Tracker {
    /** The write mask of the usage kind: what `is_exclusive` checks against. */
    const writeAll: Usage
    var entries: TrackMap

    constructor(writeAll: Usage)
      ensures this.writeAll == writeAll && entries == map[]
    {
      this.writeAll := writeAll;
      entries := map[];
    }

    /** Untrack a handle; true exactly when it was tracked. */
    method Remove(id: Id) returns (removed: bool)
      requires EpochMatches(entries, id)
      modifies this
      ensures (removed, entries) == RemoveSlot(old(entries), id.index)
    {
      if id.index in entries {
        var track := entries[id.index];
        entries := entries - {id.index};
        assert track.epoch == id.epoch;
        removed := true;
      } else {
        assert entries - {id.index} == entries;
        removed := false;
      }
    }

    /** The last usage of a resource, tracking it with `default` on first touch. */
    method Query(id: Id, rc: RefCount, default: Usage) returns (q: UsageQuery)
      requires EpochMatches(entries, id)
      modifies this
      ensures (q, entries) == QueryOn(old(entries), id, rc, default)
    {
      if id.index !in entries {
        entries := entries[id.index := Track(rc, default, default, id.epoch)];
        q := UsageQuery(default, true);
      } else {
        assert entries[id.index].epoch == id.epoch;
        q := UsageQuery(entries[id.index].last, false);
      }
    }

    /** Move a resource into `usage` as far as `permit` allows. */
    method Transit(id: Id, rc: RefCount, usage: Usage, permit: TrackPermit) returns (r: Result<Tracktion<Usage>, Usage>)
      requires EpochMatches(entries, id)
      modifies this
      ensures (r, entries) == TransitOn(writeAll, old(entries), id, rc, usage, permit)
    {
      if id.index !in entries {
        entries := entries[id.index := Track(rc, usage, usage, id.epoch)];
        r := Ok(Init);
      } else {
        assert entries[id.index].epoch == id.epoch;
        var prior := entries[id.index].last;
        if usage == prior {
          r := Ok(Keep);
        } else if permit.Contains(EXTEND) && !IsExclusive(writeAll, prior + usage) {
          entries := entries[id.index := entries[id.index].(last := prior + usage)];
          r := Ok(Extend(prior));
        } else if permit.Contains(REPLACE) {
          entries := entries[id.index := entries[id.index].(last := usage)];
          r := Ok(Replace(prior));
        } else {
          r := Err(prior);
        }
      }
    }

    /** Fold `other` into this tracker, taking over its last usages, and return the
        transitions needed. `order` is the order in which the slots of `other` were visited. */
    method ConsumeByReplace(other: Tracker) returns (transitions: seq<Transition>, ghost order: seq<Index>)
      requires other != this
      requires forall k :: k in entries && k in other.entries ==> entries[k].epoch == other.entries[k].epoch
      modifies this
      ensures Enumerates(order, other.entries)
      ensures (entries, transitions) == ReplaceFold(old(entries), other.entries, order)
      ensures entries.Keys == old(entries).Keys + other.entries.Keys
      ensures forall k :: k in other.entries ==> entries[k] == ReplacedEntry(old(entries), other.entries, k)
      ensures forall k :: k in old(entries) && k !in other.entries ==> entries[k] == old(entries)[k]
      ensures forall t :: t in transitions <==>
        exists k :: NeedsTransition(old(entries), other.entries, k) && t == RequiredTransition(old(entries), other.entries, k)
      ensures DistinctSlots(transitions)
    {
      var rest := other.entries.Keys;
      transitions, order := [], [];
      while rest != {}
        invariant Visits(order, other.entries)
        invariant forall k :: k in other.entries <==> k in rest || k in order
        invariant forall k :: k in rest ==> k !in order
        invariant (entries, transitions) == ReplaceFold(old(entries), other.entries, order)
        invariant forall k :: k in entries && k in other.entries ==> entries[k].epoch == other.entries[k].epoch
        decreases rest
      {
        var index :| index in rest;
        var child := other.entries[index];
        ghost var visited, before, emitted := order, entries, transitions;
        if index !in entries {
          entries := entries[index := child];
          assert emitted + [] == emitted;
        } else {
          assert entries[index].epoch == child.epoch;
          var prior := entries[index].last;
          entries := entries[index := entries[index].(last := child.last)];
          if prior != child.init {
            transitions := transitions + [Transition(Id(index, child.epoch), prior, child.last)];
          } else {
            assert emitted + [] == emitted;
          }
        }
        ghost var step := ReplaceStep(before, index, child);
        assert entries == step.0 && transitions == emitted + step.1;
        rest := rest - {index};
        order := order + [index];
        assert order[..|order| - 1] == visited;
        assert ReplaceFold(old(entries), other.entries, order) == (step.0, emitted + step.1);
      }
      ConsumeByReplaceComplete(old(entries), other.entries, order);
    }

    /** Fold `other` into this tracker by extending usages, stopping at the first slot
        whose union would be exclusive. `order` is the order in which the slots of
        `other` were visited, up to and including that slot. */
    method ConsumeByExtend(other: Tracker) returns (r: Result<(), Transition>, ghost order: seq<Index>)
      requires other != this
      requires forall k :: k in entries && k in other.entries ==> entries[k].epoch == other.entries[k].epoch
      modifies this
      ensures Visits(order, other.entries)
      ensures (r, entries) == ExtendFold(writeAll, old(entries), other.entries, order)
      ensures r.Ok? <==> forall k :: !Conflict(writeAll, old(entries), other.entries, k)
      ensures r.Ok? ==> Enumerates(order, other.entries)
      ensures r.Ok? ==> entries.Keys == old(entries).Keys + other.entries.Keys
      ensures r.Ok? ==> forall k :: k in other.entries ==> entries[k] == ExtendedEntry(old(entries), other.entries, k)
      ensures forall k :: k in old(entries) && k !in other.entries ==> k in entries && entries[k] == old(entries)[k]
      ensures r.Err? ==> Conflict(writeAll, old(entries), other.entries, r.error.id.index)
      ensures r.Err? ==> exists i :: 0 <= i < |order| && FailsAt(writeAll, old(entries), other.entries, order, i, r.error, entries)
    {
      r, order := Ok(()), [];
      var rest := other.entries.Keys;
      while rest != {}
        invariant Visits(order, other.entries)
        invariant forall k :: k in other.entries <==> k in rest || k in order
        invariant forall k :: k in rest ==> k !in order
        invariant (Ok(()), entries) == ExtendFold(writeAll, old(entries), other.entries, order)
        invariant forall k :: k in entries && k in other.entries ==> entries[k].epoch == other.entries[k].epoch
        decreases rest
      {
        var index :| index in rest;
        var child := other.entries[index];
        ghost var visited := order;
        if index !in entries {
          entries := entries[index := child];
        } else {
          assert entries[index].epoch == child.epoch;
          var prior := entries[index].last;
          if prior != child.last {
            var extended := prior + child.last;
            if IsExclusive(writeAll, extended) {
              r := Err(Transition(Id(index, child.epoch), prior, child.last));
              order := order + [index];
              assert order[..|order| - 1] == visited;
              ExtendFoldPrefix(writeAll, old(entries), other.entries, order);
              ExtendFoldFrame(writeAll, old(entries), other.entries, order);
              return;
            }
            entries := entries[index := entries[index].(last := extended)];
          }
        }
        rest := rest - {index};
        order := order + [index];
        assert order[..|order| - 1] == visited;
      }
      ExtendFoldPrefix(writeAll, old(entries), other.entries, order);
      ConsumeByExtendComplete(writeAll, old(entries), other.entries, order);
    }

    /** The handles of all tracked resources, one per entry. */
    function Used(): (ids: set<Id>)
      reads this
      ensures forall id :: id in ids <==> id.index in entries && entries[id.index].epoch == id.epoch
      ensures |ids| == |entries|
    {
      UsedIdsMembers(entries);
      UsedIdsCount(entries);
      UsedIds(entries)
    }

    /** `_get_with_usage`: transit the looked-up `item` (whose liveness token is `rc`)
        and return it with the outcome. */
    method GetWithUsage<T>(item: T, rc: RefCount, id: Id, usage: Usage, permit: TrackPermit)
      returns (r: Result<(T, Tracktion<Usage>), Usage>)
      requires EpochMatches(entries, id)
      modifies this
      ensures var (res, m) := TransitOn(writeAll, old(entries), id, rc, usage, permit);
        entries == m && r == (if res.Ok? then Ok((item, res.value)) else Err(res.error))
    {
      var t := Transit(id, rc, usage, permit);
      match t
      case Ok(tracktion) => r := Ok((item, tracktion));
      case Err(prior) => r := Err(prior);
    }

    /** `get_with_extended_usage`: transit under EXTEND and return the item. */
    method GetWithExtendedUsage<T>(item: T, rc: RefCount, id: Id, usage: Usage) returns (r: Result<T, Usage>)
      requires EpochMatches(entries, id)
      modifies this
      ensures var (res, m) := TransitOn(writeAll, old(entries), id, rc, usage, EXTEND);
        entries == m && r == (if res.Ok? then Ok(item) else Err(res.error))
    {
      var t := Transit(id, rc, usage, EXTEND);
      match t
      case Ok(_) => r := Ok(item);
      case Err(prior) => r := Err(prior);
    }

    /** `get_with_replaced_usage`: transit under REPLACE and return the item with the
        usage to transition from, if any. Such a transit is never an extension. */
    method GetWithReplacedUsage<T>(item: T, rc: RefCount, id: Id, usage: Usage) returns (r: Result<(T, Option<Usage>), Usage>)
      requires EpochMatches(entries, id)
      modifies this
      ensures var (res, m) := TransitOn(writeAll, old(entries), id, rc, usage, REPLACE);
        entries == m && r == (if res.Ok? then Ok((item, IntoSource(res.value))) else Err(res.error))
    {
      TransitWithoutExtend(writeAll, entries, id, rc, usage, REPLACE);
      var t := Transit(id, rc, usage, REPLACE);
      match t
      case Ok(Init) => r := Ok((item, None));
      case Ok(Keep) => r := Ok((item, None));
      case Ok(Extend(_)) => assert false;
      case Ok(Replace(prior)) => r := Ok((item, Some(prior)));
      case Err(prior) => r := Err(prior);
    }
  }

  /** A tracker of presence only: slot index to liveness token and generation. */
  class DummyTracker {
    var entries: PresenceMap

    constructor()
      ensures entries == map[]
    {
      entries := map[];
    }

    /** Untrack a handle; true exactly when it was tracked. */
    method Remove(id: Id) returns (removed: bool)
      requires PresenceEpochMatches(entries, id)
      modifies this
      ensures (removed, entries) == RemoveSlot(old(entries), id.index)
    {
      if id.index in entries {
        var presence := entries[id.index];
        entries := entries - {id.index};
        assert presence.epoch == id.epoch;
        removed := true;
      } else {
        assert entries - {id.index} == entries;
        removed := false;
      }
    }

    /** Track a handle; true exactly on first touch. */
    method Query(id: Id, rc: RefCount) returns (initialized: bool)
      requires PresenceEpochMatches(entries, id)
      modifies this
      ensures (initialized, entries) == DummyQueryOn(old(entries), id, rc)
    {
      if id.index !in entries {
        entries := entries[id.index := Presence(rc, id.epoch)];
        initialized := true;
      } else {
        assert entries[id.index].epoch == id.epoch;
        initialized := false;
      }
    }

    /** Query every entry of `other` into this tracker: the tracked slots become the
        union of both, and an entry already tracked here is kept as it was. `order` is
        the order in which the slots of `other` were visited. */
    method Consume(other: DummyTracker) returns (ghost order: seq<Index>)
      requires other != this
      requires forall k :: k in entries && k in other.entries ==> entries[k].epoch == other.entries[k].epoch
      modifies this
      ensures Enumerates(order, other.entries)
      ensures entries == PresenceFold(old(entries), other.entries, order)
      ensures entries.Keys == old(entries).Keys + other.entries.Keys
      ensures forall k :: k in entries ==>
        entries[k] == if k in old(entries) then old(entries)[k] else other.entries[k]
    {
      var rest := other.entries.Keys;
      order := [];
      while rest != {}
        invariant Visits(order, other.entries)
        invariant forall k :: k in other.entries <==> k in rest || k in order
        invariant forall k :: k in rest ==> k !in order
        invariant entries == PresenceFold(old(entries), other.entries, order)
        invariant forall k :: k in entries && k in other.entries ==> entries[k].epoch == other.entries[k].epoch
        decreases rest
      {
        var index :| index in rest;
        var presence := other.entries[index];
        ghost var visited, before := order, entries;
        var _ := Query(Id(index, presence.epoch), presence.refCount);
        assert entries == PresenceStep(before, index, presence);
        rest := rest - {index};
        order := order + [index];
        assert order[..|order| - 1] == visited;
      }
      ConsumePresenceComplete(old(entries), other.entries, order);
    }
  }

  /** Everything a recording scope touched: buffers, textures and views. */
  class TrackerSet {
    const buffers: Tracker
    const textures: Tracker
    const views: DummyTracker

    /** All three trackers start empty; the two masks are the write masks of the
        buffer and texture usage kinds. */
    constructor(bufferWriteAll: Usage, textureWriteAll: Usage)
      ensures fresh(buffers) && fresh(textures) && fresh(views) && buffers != textures
      ensures buffers.writeAll == bufferWriteAll && buffers.entries == map[]
      ensures textures.writeAll == textureWriteAll && textures.entries == map[]
      ensures views.entries == map[]
    {
      buffers := new Tracker(bufferWriteAll);
      textures := new Tracker(textureWriteAll);
      views := new DummyTracker();
    }
  }
}
