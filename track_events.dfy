/**
 * The change notifications a track emits when its cache of blocks is rebuilt:
 * BlockAdded for every block of the new chain that the old cache lacked, found
 * while walking back from the last block (so latest first), then BlockRemoved
 * for every block of the old cache, in cache order, that the new chain lacks.
 */
module TrackEvents {
  import opened Block

  datatype Event = BlockAdded(block: Id) | BlockRemoved(block: Id)

  /** The BlockAdded notifications of a rebuild, latest block first. */
  function AddedEvents(oldCache: seq<Id>, chain: seq<Id>): seq<Event>
  {
    if chain == [] then
      []
    else
      AddedEvents(oldCache, chain[1..]) + (if chain[0] in oldCache then [] else [BlockAdded(chain[0])])
  }

  /** The BlockRemoved notifications of a rebuild, in old cache order. */
  function RemovedEvents(oldCache: seq<Id>, chain: seq<Id>): seq<Event>
  {
    if oldCache == [] then
      []
    else
      var last := oldCache[|oldCache| - 1];
      RemovedEvents(oldCache[..|oldCache| - 1], chain) + (if last in chain then [] else [BlockRemoved(last)])
  }

  /** BlockAdded is sent exactly for the blocks of the chain that the old cache lacks, and nothing else is. */
  lemma {:induction false} AddedEventsMembers(oldCache: seq<Id>, chain: seq<Id>)
    ensures forall e | e in AddedEvents(oldCache, chain) :: e.BlockAdded? && e.block in chain && e.block !in oldCache
    ensures forall b | b in chain && b !in oldCache :: BlockAdded(b) in AddedEvents(oldCache, chain)
  {
    if chain != [] {
      AddedEventsMembers(oldCache, chain[1..]);
      assert forall b | b in chain :: b == chain[0] || b in chain[1..];
    }
  }

  /** BlockRemoved is sent exactly for the blocks of the old cache that the chain lacks, and nothing else is. */
  lemma {:induction false} RemovedEventsMembers(oldCache: seq<Id>, chain: seq<Id>)
    ensures forall e | e in RemovedEvents(oldCache, chain) :: e.BlockRemoved? && e.block in oldCache && e.block !in chain
    ensures forall b | b in oldCache && b !in chain :: BlockRemoved(b) in RemovedEvents(oldCache, chain)
  {
    if oldCache != [] {
      var last := oldCache[|oldCache| - 1];
      RemovedEventsMembers(oldCache[..|oldCache| - 1], chain);
      assert forall b | b in oldCache :: b == last || b in oldCache[..|oldCache| - 1];
    }
  }

  /** Discovering one more block in front of the chain adds its notification after the later blocks'. */
  lemma AddedEventsCons(oldCache: seq<Id>, b: Id, later: seq<Id>)
    ensures AddedEvents(oldCache, [b] + later)
      == if b in oldCache then AddedEvents(oldCache, later) else AddedEvents(oldCache, later) + [BlockAdded(b)]
  {
    assert ([b] + later)[1..] == later;
  }

  /** Scanning one more entry of the old cache appends its notification, if any, to what was sent before. */
  lemma RemovedEventsSnoc(before: seq<Event>, oldCache: seq<Id>, i: nat, chain: seq<Id>)
    requires i < |oldCache|
    ensures before + RemovedEvents(oldCache[..i + 1], chain)
      == if oldCache[i] in chain then before + RemovedEvents(oldCache[..i], chain)
         else before + RemovedEvents(oldCache[..i], chain) + [BlockRemoved(oldCache[i])]
  {
    assert oldCache[..i + 1][..i] == oldCache[..i];
  }

  /** Everything one rebuild emits. */
  function RefreshEvents(oldCache: seq<Id>, chain: seq<Id>): seq<Event>
  {
    AddedEvents(oldCache, chain) + RemovedEvents(oldCache, chain)
  }

  lemma {:induction false} AddedEventsDistinct(oldCache: seq<Id>, chain: seq<Id>)
    requires Distinct(chain)
    ensures Distinct(AddedEvents(oldCache, chain))
  {
    if chain != [] {
      AddedEventsDistinct(oldCache, chain[1..]);
      AddedEventsMembers(oldCache, chain[1..]);
      assert chain[0] !in chain[1..] by {
        forall k | 0 <= k < |chain[1..]| ensures chain[1..][k] != chain[0] {
          assert chain[1..][k] == chain[k + 1];
        }
      }
    }
  }

  lemma {:induction false} RemovedEventsDistinct(oldCache: seq<Id>, chain: seq<Id>)
    requires Distinct(oldCache)
    ensures Distinct(RemovedEvents(oldCache, chain))
  {
    if oldCache != [] {
      var front := oldCache[..|oldCache| - 1];
      RemovedEventsDistinct(front, chain);
      RemovedEventsMembers(front, chain);
      assert oldCache[|oldCache| - 1] !in front;
    }
  }

  /**
   * A rebuild from a cache to a chain (each without repeats) notifies each
   * block at most once: BlockAdded exactly for the blocks that are new in the
   * chain, BlockRemoved exactly for the blocks that left it.
   */
  lemma RefreshEventsExact(oldCache: seq<Id>, chain: seq<Id>)
    requires Distinct(oldCache) && Distinct(chain)
    ensures Distinct(RefreshEvents(oldCache, chain))
    ensures forall b :: BlockAdded(b) in RefreshEvents(oldCache, chain) <==> b in chain && b !in oldCache
    ensures forall b :: BlockRemoved(b) in RefreshEvents(oldCache, chain) <==> b in oldCache && b !in chain
  {
    var a := AddedEvents(oldCache, chain);
    var r := RemovedEvents(oldCache, chain);
    AddedEventsDistinct(oldCache, chain);
    RemovedEventsDistinct(oldCache, chain);
    AddedEventsMembers(oldCache, chain);
    RemovedEventsMembers(oldCache, chain);
    forall i, j | 0 <= i < |a| && 0 <= j < |r| ensures a[i] != r[j] {
      assert a[i] in a && r[j] in r;
    }
  }
}
