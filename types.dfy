/** Values shared by every tracker: handles, liveness tokens, usage masks,
    transition permits and transition outcomes. */
module TrackTypes {

  /** Slot index of a resource handle. */
  type Index = nat

  /** Generation of a slot; it changes whenever the slot is recycled. */
  type Epoch = nat

  /** A bit position of a 32-bit flag word. */
  type Bit = b: int | 0 <= b < 32

  /** A usage bitmask (buffer or texture usage flags), as the set of the positions of
      its set bits: bitwise OR is set union and "intersects" is a non-empty intersection. */
  type Usage = set<Bit>

  /** A generational handle: a slot index with the generation it was issued for. */
  datatype Id = Id(index: Index, epoch: Epoch)

  /** A liveness token. The tracker only clones it into its entries; its
      reference counting is outside the tracker, so it is an opaque value here. */
  datatype RefCount = RefCount(token: nat)

  datatype Option<T> = None | Some(value: T)

  datatype Result<T, E> = Ok(value: T) | Err(error: E)

  /** What a transit did to the tracked state of one resource. */
  datatype Tracktion<T> = Init | Keep | Extend(prior: T) | Replace(prior: T)

  /** The usage the resource had before the transit, when the transit changed it. */
  function IntoSource<T>(t: Tracktion<T>): (r: Option<T>)
    ensures r.None? <==> t.Init? || t.Keep?
    ensures t.Extend? || t.Replace? ==> r == Some(t.prior)
  {
    match t
    case Init => None
    case Keep => None
    case Extend(prior) => Some(prior)
    case Replace(prior) => Some(prior)
  }

  /** The answer of `Tracker::query` (the `Query` struct): the tracked usage and whether the query created the entry. */
  datatype UsageQuery = UsageQuery(usage: Usage, initialized: bool)

  /** The merge strategies a call site allows: a 32-bit flag set, as its set bits. */
  datatype TrackPermit = TrackPermit(bits: set<Bit>) {
    /** All flags of `flags` are set in this permit. */
    predicate Contains(flags: TrackPermit) {
      flags.bits <= bits
    }

    function Union(flags: TrackPermit): (r: TrackPermit)
      ensures r.Contains(this) && r.Contains(flags)
      ensures forall p: TrackPermit :: p.Contains(this) && p.Contains(flags) ==> p.Contains(r)
    {
      TrackPermit(bits + flags.bits)
    }
  }

  /** Allow extension of the current usage (render pass recording): the flag value 1. */
  const EXTEND: TrackPermit := TrackPermit({0})

  /** Allow replacing the current usage with the new one (live command recording): the flag value 2. */
  const REPLACE: TrackPermit := TrackPermit({1})

  /** A usage is exclusive when it intersects the write mask of its kind. */
  predicate IsExclusive(writeAll: Usage, u: Usage) {
    writeAll * u != {}
  }

  /** One tracked resource: liveness token, first and last usage in the scope, generation. */
  datatype Track = Track(refCount: RefCount, init: Usage, last: Usage, epoch: Epoch)

  /** A resource with a range of usages `start .. end`: a required transition, or
      the two usages of a hazard. */
  datatype Transition = Transition(id: Id, start: Usage, end: Usage)

  /** Exclusivity can only grow under union. */
  lemma ExclusiveUnion(writeAll: Usage, a: Usage, b: Usage)
    ensures IsExclusive(writeAll, a) ==> IsExclusive(writeAll, a + b)
    ensures IsExclusive(writeAll, b) ==> IsExclusive(writeAll, a + b)
  {
  }

  /** Conversely, two usages that are not exclusive have a union that is not exclusive,
      so extending by non-exclusive usages never turns into a hazard. */
  lemma NonExclusiveUnion(writeAll: Usage, a: Usage, b: Usage)
    requires !IsExclusive(writeAll, a) && !IsExclusive(writeAll, b)
    ensures !IsExclusive(writeAll, a + b)
  {
  }

  /** Neither of the two permit flags implies the other. */
  lemma PermitFlagsIndependent()
    ensures !EXTEND.Contains(REPLACE) && !REPLACE.Contains(EXTEND)
    ensures EXTEND.Union(REPLACE).Contains(EXTEND) && EXTEND.Union(REPLACE).Contains(REPLACE)
    ensures !TrackPermit({}).Contains(EXTEND) && !TrackPermit({}).Contains(REPLACE)
  {
  }
}
