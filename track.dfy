/**
 * TrackOutput: one track of a timeline.  The track keeps an ordered chain of
 * blocks joined by `previous`/`next` links and is itself the end sentinel of
 * that chain: the block linked as the track's previous block is its attached
 * block, the last block of content.  Block ids stand in for pointers.
 *
 * Two pieces of state sit on top of the links: `blockCache`, a snapshot of
 * the chain that only Refresh rebuilds, and `currentBlock`, the block chosen
 * by the last Process.  The edit operations read the cache, not the links, so
 * between a relink and the next Refresh they can act on a stale snapshot.
 */
module Track {
  import opened Block
  import opened TrackEvents
  import TrackEdits

  /**
   * What a track's fields always satisfy: links go forward in `rank` (so they
   * never form a cycle), every linked block has a known length, the track
   * itself has length 0 and the top rank, every known id was handed out
   * before `nextId`, and every cached block is known, ranks below the
   * track and is listed once.  The cache need not list the chain: between
   * Refresh calls it is a snapshot, and it may list blocks that have since
   * been unlinked or moved.
   */
  ghost predicate Inv(prev: map<Id, Id>, next: map<Id, Id>, length: map<Id, int>, rank: map<Id, real>,
                      cache: seq<Id>, nextId: Id)
  {
    && PrevRanked(prev, rank) && NextRanked(next, rank)
    && TrackId in rank && rank[TrackId] == 0.0 && rank.Keys == length.Keys && prev.Values <= length.Keys
    && TrackId in length && length[TrackId] == 0
    && (forall b | b in length :: b < nextId)
    && (forall b | b in rank :: rank[b] <= 0.0)
    && (forall b | b in cache :: b in rank && rank[b] < 0.0)
    && Distinct(cache)
  }

  /** x has no links in either direction and nothing links to it. */
  ghost predicate Unlinked(prev: map<Id, Id>, next: map<Id, Id>, x: Id)
  {
    x !in prev && x !in next && x !in prev.Values && x !in next.Values
  }

  /** Moving an unlinked block to another rank below the track keeps the invariant. */
  lemma RerankKeepsInv(prev: map<Id, Id>, next: map<Id, Id>, length: map<Id, int>, rank: map<Id, real>,
                       cache: seq<Id>, nextId: Id, x: Id, r: real)
    requires Inv(prev, next, length, rank, cache, nextId)
    requires x in length && x != TrackId && Unlinked(prev, next, x) && r < 0.0
    ensures Inv(prev, next, length, rank[x := r], cache, nextId)
  {
  }

  /** Block::ConnectBlocks(a, b) keeps the invariant when a ranks below b. */
  lemma ConnectKeepsInv(prev: map<Id, Id>, next: map<Id, Id>, length: map<Id, int>, rank: map<Id, real>,
                        cache: seq<Id>, nextId: Id, a: Id, b: Id)
    requires Inv(prev, next, length, rank, cache, nextId)
    requires a in length && b in length && rank[a] < rank[b]
    ensures Inv(prev[b := a], next[a := b], length, rank, cache, nextId)
  {
  }

  /** Linking an unlinked block x between `before` and `after`, ranked between them, keeps the invariant. */
  lemma InsertKeepsInv(prev: map<Id, Id>, next: map<Id, Id>, length: map<Id, int>, rank: map<Id, real>,
                       cache: seq<Id>, nextId: Id, before: Id, after: Id, x: Id, r: real)
    requires Inv(prev, next, length, rank, cache, nextId)
    requires x in length && x != TrackId && Unlinked(prev, next, x)
    requires before in length && after in length && before != x && after != x
    requires rank[before] < r < rank[after]
    ensures Inv(prev[x := before][after := x], next[before := x][x := after], length, rank[x := r], cache, nextId)
  {
    RerankKeepsInv(prev, next, length, rank, cache, nextId, x, r);
    ConnectKeepsInv(prev, next, length, rank[x := r], cache, nextId, before, x);
    ConnectKeepsInv(prev[x := before], next[before := x], length, rank[x := r], cache, nextId, x, after);
  }

  /** Block::DisconnectBlocks(a, b) keeps the invariant. */
  lemma DisconnectKeepsInv(prev: map<Id, Id>, next: map<Id, Id>, length: map<Id, int>, rank: map<Id, real>,
                           cache: seq<Id>, nextId: Id, a: Id, b: Id)
    requires Inv(prev, next, length, rank, cache, nextId)
    ensures Inv(Unlink(prev, b, a), Unlink(next, a, b), length, rank, cache, nextId)
  {
  }

  /** RippleRemoveBlock keeps the invariant. */
  lemma RippleKeepsInv(prev: map<Id, Id>, next: map<Id, Id>, length: map<Id, int>, rank: map<Id, real>,
                       cache: seq<Id>, nextId: Id, b: Id)
    requires Inv(prev, next, length, rank, cache, nextId)
    ensures Inv(RippledPrev(prev, next, b), RippledNext(prev, next, b), length, rank, cache, nextId)
  {
    if b in prev && b in next {
      assert rank[prev[b]] < rank[b] < rank[next[b]];
      ConnectKeepsInv(prev - {b}, next - {b}, length, rank, cache, nextId, prev[b], next[b]);
    } else if b in prev {
      DisconnectKeepsInv(prev, next, length, rank, cache, nextId, prev[b], b);
    } else if b in next {
      DisconnectKeepsInv(prev, next, length, rank, cache, nextId, b, next[b]);
    }
  }

  /** RippleRemoveBlock(b) leaves a block that nothing links to, other than b, unlinked. */
  lemma RippleKeepsUnlinked(prev: map<Id, Id>, next: map<Id, Id>, b: Id, x: Id)
    requires Unlinked(prev, next, x) && x != b
    ensures Unlinked(RippledPrev(prev, next, b), RippledNext(prev, next, b), x)
  {
    var p, n := RippledPrev(prev, next, b), RippledNext(prev, next, b);
    forall k | k in p ensures p[k] != x {
      if !(k in prev && p[k] == prev[k]) {
        assert b in prev && p[k] == prev[b];
      }
    }
    forall k | k in n ensures n[k] != x {
      if !(k in next && n[k] == next[k]) {
        assert b in next && n[k] == next[b];
      }
    }
  }

  /** Handing out `nextId` as a new block keeps the invariant, and the new block is unlinked. */
  lemma FreshKeepsInv(prev: map<Id, Id>, next: map<Id, Id>, length: map<Id, int>, rank: map<Id, real>,
                      cache: seq<Id>, nextId: Id, len: int)
    requires Inv(prev, next, length, rank, cache, nextId)
    ensures nextId !in length && nextId != TrackId && Unlinked(prev, next, nextId) && nextId !in cache
    ensures Inv(prev, next, length[nextId := len], rank[nextId := 0.0], cache, nextId + 1)
  {
    assert nextId !in next.Values by {
      forall a | a in next ensures next[a] != nextId {
        assert next[a] in rank;
      }
    }
  }

  /** Replacing the cache by the chain keeps the invariant. */
  lemma RecacheKeepsInv(prev: map<Id, Id>, next: map<Id, Id>, length: map<Id, int>, rank: map<Id, real>,
                        cache: seq<Id>, nextId: Id)
    requires Inv(prev, next, length, rank, cache, nextId)
    ensures Inv(prev, next, length, rank, ChainOf(prev, rank), nextId)
  {
    var w := Walk(prev, rank, TrackId);
    WalkFacts(prev, rank, TrackId);
    forall k | 0 <= k < |w| - 1 ensures rank[w[k]] < 0.0 {
      IncreasingOrdered(rank, w, k, |w| - 1);
    }
    IncreasingDistinct(rank, w);
    assert Distinct(w[..|w| - 1]) by {
      forall i, j | 0 <= i < j < |w| - 1 ensures w[i] != w[j] {
      }
    }
  }

  class TrackOutput {
    /** previous() of each block that has one. */
    var prev: map<Id, Id>
    /** next() of each block that has one. */
    var next: map<Id, Id>
    /** length() of every block the track knows, the track itself included. */
    var length: map<Id, int>
    /** The blocks that are gap blocks. */
    var gaps: set<Id>
    /** The blocks registered with the owning node graph (AddBlockToGraph). */
    var graph: set<Id>
    var blockCache: seq<Id>
    var currentBlock: Id
    /** The id the next newly created block receives. */
    var nextId: Id
    /**
     * A ghost position of each block in timeline order: links go forward along
     * it, so they never form a cycle.  A block gets a position between the
     * blocks it is linked between.
     */
    ghost var order: map<Id, real>

    ghost predicate Valid()
      reads this`prev, this`next, this`length, this`order, this`blockCache, this`nextId
    {
      Inv(prev, next, length, order, blockCache, nextId)
    }

    /** The walk back from the track: its chain of blocks, then the track itself. */
    ghost function Full(): seq<Id>
      reads this`prev, this`next, this`length, this`order, this`blockCache, this`nextId
      requires Valid()
    {
      Walk(prev, order, TrackId)
    }

    /** The track's content: the blocks reached from attached_block(), earliest first. */
    ghost function Chain(): seq<Id>
      reads this`prev, this`next, this`length, this`order, this`blockCache, this`nextId
      requires Valid()
    {
      ChainOf(prev, order)
    }

    /**
     * A block ready to be inserted: known to the track, not the track, and
     * linked to nothing.  It may still be listed in a stale cache.
     */
    ghost predicate Detached(b: Id)
      reads this`prev, this`next, this`length
    {
      b in length && b != TrackId && Unlinked(prev, next, b)
    }

    /** The walk back from the track is a walk of known blocks without repeats, ending at the track. */
    lemma FullFacts()
      requires Valid()
      ensures Full() == Chain() + [TrackId]
      ensures IsWalk(prev, Full()) && Increasing(order, Full()) && Distinct(Full())
      ensures forall i | 0 <= i < |Full()| :: Full()[i] in length
    {
      WalkShape(prev, order);
    }

    /** previous() of a block: None when it has no previous block. */
    function Previous(b: Id): Option<Id>
      reads this`prev
    {
      if b in prev then Some(prev[b]) else None
    }

    /** next() of a block: None when it has no next block. */
    function Next(b: Id): Option<Id>
      reads this`next
    {
      if b in next then Some(next[b]) else None
    }

    /**
     * attached_block(): the block linked as the track's previous block, which
     * is the last block of the chain, and None exactly when the chain is empty.
     */
    function AttachedBlock(): (a: Option<Id>)
      reads this`prev, this`next, this`length, this`order, this`blockCache, this`nextId
      requires Valid()
      ensures a.Some? <==> Chain() != []
      ensures a.Some? ==> a.value == Chain()[|Chain()| - 1]
    {
      Previous(TrackId)
    }

    /** in() of a block. */
    function InPoint(b: Id): int
      reads this`prev, this`next, this`length, this`order, this`blockCache, this`nextId
      requires Valid() && b in length
    {
      In(prev, order, length, b)
    }

    /** out() of a block. */
    function OutPoint(b: Id): int
      reads this`prev, this`next, this`length, this`order, this`blockCache, this`nextId
      requires Valid() && b in length
    {
      Out(prev, order, length, b)
    }

    constructor ()
      ensures Valid()
      ensures prev == map[] && next == map[] && length == map[TrackId := 0]
      ensures blockCache == [] && currentBlock == TrackId
      ensures gaps == {} && graph == {}
    {
      prev, next := map[], map[];
      length := map[TrackId := 0];
      gaps, graph := {}, {};
      blockCache := [];
      currentBlock := TrackId;
      nextId := TrackId + 1;
      order := map[TrackId := 0.0];
    }

    /** The track's own in-point is the total length of its content. */
    lemma TrackInIsTotalLength()
      requires Valid()
      ensures InPoint(TrackId) == Sum(length, Chain())
    {
      InIsSum(prev, order, length, TrackId);
    }

    /**
     * The chain is contiguous in time: the first block starts at 0, each block
     * starts where the one before it ends, and the track starts where the last
     * block ends.
     */
    lemma ChainContiguous()
      requires Valid()
      ensures var c := Chain();
        && (forall i | 0 <= i < |c| :: c[i] in length)
        && (c != [] ==> InPoint(c[0]) == 0)
        && (forall i | 0 < i < |c| :: InPoint(c[i]) == OutPoint(c[i - 1]))
        && (c != [] ==> InPoint(TrackId) == OutPoint(c[|c| - 1]))
        && (c == [] ==> InPoint(TrackId) == 0)
    {
      FullFacts();
      var w := Full();
      forall i | 0 < i < |w| ensures InPoint(w[i]) == OutPoint(w[i - 1]) {
        assert prev[w[i]] == w[i - 1];
      }
    }

    /**
     * When every block of the chain has a non-negative length, at most one
     * block of the chain covers any time.
     */
    lemma CoveringBlockIsUnique(t: int, a: Id, b: Id)
      requires Valid()
      requires forall i | 0 <= i < |Chain()| :: Chain()[i] in length && length[Chain()[i]] >= 0
      requires a in Chain() && a in length && InPoint(a) <= t < OutPoint(a)
      requires b in Chain() && b in length && InPoint(b) <= t < OutPoint(b)
      ensures a == b
    {
      FullFacts();
      var w := Full();
      var i, j := IndexOf(w, a), IndexOf(w, b);
      CoveringBlockUnique(prev, order, length, w, t, i, j);
    }

    /** TrackOutput::set_length: a no-op, so that the sentinel keeps its length; any other block takes the new length. */
    method SetLength(b: Id, len: int)
      requires Valid() && b in length
      modifies this`length
      ensures Valid()
      ensures length == if b == TrackId then old(length) else old(length)[b := len]
    {
      if b != TrackId {
        length := length[b := len];
      }
    }

    /** AddBlockToGraph: registers the block with the owning graph. */
    method AddBlockToGraph(b: Id)
      modifies this`graph
      ensures graph == old(graph) + {b}
    {
      graph := graph + {b};
    }

    /** A clip block made by the track's caller: a new block of length `len` that is not a gap, linked to nothing. */
    method NewBlock(len: int) returns (b: Id)
      requires Valid()
      modifies this`length, this`nextId, this`order
      ensures Valid() && Detached(b) && b !in blockCache
      ensures b == old(nextId) && nextId == old(nextId) + 1 && b !in old(length)
      ensures length == old(length)[b := len] && order == old(order)[b := 0.0]
    {
      FreshKeepsInv(prev, next, length, order, blockCache, nextId, len);
      b := nextId;
      nextId := nextId + 1;
      length := length[b := len];
      order := order[b := 0.0];
    }

    /** `new GapBlock()`: a new gap of length 0, linked to nothing. */
    method NewGap() returns (gap: Id)
      requires Valid()
      modifies this`length, this`gaps, this`nextId, this`order
      ensures Valid() && Detached(gap) && gap !in blockCache
      ensures gap == old(nextId) && nextId == old(nextId) + 1 && gap !in old(length)
      ensures length == old(length)[gap := 0] && gaps == old(gaps) + {gap} && order == old(order)[gap := 0.0]
    {
      FreshKeepsInv(prev, next, length, order, blockCache, nextId, 0);
      gap := nextId;
      nextId := nextId + 1;
      length := length[gap := 0];
      gaps := gaps + {gap};
      order := order[gap := 0.0];
    }

    /** Block::copy(): a new block of the same kind and length, linked to nothing. */
    method Copy(b: Id) returns (c: Id)
      requires Valid() && b in length
      modifies this`length, this`gaps, this`nextId, this`order
      ensures Valid() && Detached(c) && c !in blockCache
      ensures c == old(nextId) && nextId == old(nextId) + 1 && c !in old(length)
      ensures length == old(length)[c := old(length)[b]] && order == old(order)[c := 0.0]
      ensures gaps == if b in old(gaps) then old(gaps) + {c} else old(gaps)
    {
      FreshKeepsInv(prev, next, length, order, blockCache, nextId, length[b]);
      c := nextId;
      nextId := nextId + 1;
      length := length[c := length[b]];
      if b in gaps {
        gaps := gaps + {c};
      }
      order := order[c := 0.0];
    }

    /**
     * w lists the blocks met by following `previous` links back from the
     * track, earliest first: the track steps to w's last block, each w[i]
     * steps to w[i - 1], and w[0] steps nowhere.
     */
    ghost predicate LinksBack(w: seq<Id>)
      reads this`prev
    {
      && Previous(TrackId) == Before(w, |w|)
      && forall i {:trigger Previous(w[i])} | 0 <= i < |w| :: Previous(w[i]) == Before(w, i)
    }

    /** The chain is a sequence the links lead back through. */
    lemma ChainLinksBack() returns (w: seq<Id>)
      requires Valid()
      ensures LinksBack(w) && w == Chain()
    {
      FullFacts();
      w := Chain();
      var f := Full();
      assert forall i | 0 <= i < |f| - 1 :: w[i] == f[i];
    }

    /** Any sequence the links lead back through is the chain. */
    lemma LinksBackChain(w: seq<Id>)
      requires Valid() && LinksBack(w)
      ensures w == Chain()
    {
      var f := w + [TrackId];
      assert IsWalk(prev, f) by {
        forall i | 0 < i < |f| ensures f[i] in prev && prev[f[i]] == f[i - 1] {
          if i < |w| {
            assert Previous(w[i]) == Before(w, i);
          }
        }
        if w != [] {
          assert Previous(w[0]) == Before(w, 0);
        }
      }
      WalkUnique(prev, order, f);
      ChainOfIs(prev, order, w);
    }

    /**
     * Refresh: walks back from attached_block(), rebuilding the cache earliest
     * first, and reports the blocks that joined or left the chain.
     */
    method Refresh() returns (events: seq<Event>)
      requires Valid()
      modifies this`blockCache
      ensures Valid()
      ensures blockCache == Chain()
      ensures events == RefreshEvents(old(blockCache), Chain())
    {
      ghost var w := ChainLinksBack();
      ghost var k := |w|;
      var cache := blockCache;
      var detect: seq<Id> := [];
      var previous := AttachedBlock();
      assert previous == Before(w, k);
      events := [];
      while previous.Some?
        invariant blockCache == cache
        invariant 0 <= k <= |w| && detect == w[k..]
        invariant previous == Before(w, k)
        invariant events == AddedEvents(cache, detect)
        decreases k
      {
        var b := previous.value;
        AddedEventsCons(cache, b, detect);
        assert [b] + detect == w[k - 1..];
        detect := [b] + detect;
        if b !in cache {
          events := events + [BlockAdded(b)];
        }
        previous := Previous(b);
        k := k - 1;
      }
      LinksBackChain(detect);
      ghost var added := events;
      for i := 0 to |cache|
        invariant blockCache == cache
        invariant events == added + RemovedEvents(cache[..i], detect)
      {
        RemovedEventsSnoc(added, cache, i, detect);
        if cache[i] !in detect {
          events := events + [BlockRemoved(cache[i])];
        }
      }
      assert cache[..|cache|] == cache;
      RecacheKeepsInv(prev, next, length, order, blockCache, nextId);
      blockCache := detect;
    }

    /** GenerateBlockWidgets: replays BlockAdded for every cached block, in cache order. */
    method GenerateBlockWidgets() returns (events: seq<Event>)
      ensures |events| == |blockCache|
      ensures forall i | 0 <= i < |events| :: events[i] == BlockAdded(blockCache[i])
    {
      events := [];
      for i := 0 to |blockCache|
        invariant |events| == i
        invariant forall k | 0 <= k < i :: events[k] == BlockAdded(blockCache[k])
      {
        events := events + [BlockAdded(blockCache[i])];
      }
    }

    /**
     * Process: resolves the block active at `time`.  At or past the track's own
     * in-point the track itself is current and the output is empty; otherwise
     * the walk goes back from attached_block(), following previous links
     * only, to the block that covers `time`, whose output is used.
     */
    method Process(time: int) returns (texture: Option<Id>)
      requires Valid()
      requires 0 <= time || InPoint(TrackId) <= time
      modifies this`currentBlock
      ensures InPoint(TrackId) <= time ==> currentBlock == TrackId && texture == None
      ensures time < InPoint(TrackId) ==>
        && currentBlock in Chain() && currentBlock in length
        && InPoint(currentBlock) <= time < OutPoint(currentBlock)
        && texture == Some(currentBlock)
      ensures time < InPoint(TrackId) && (forall i | 0 <= i < |Chain()| :: Chain()[i] in length && length[Chain()[i]] >= 0) ==>
        forall b | b in Chain() && b in length && InPoint(b) <= time < OutPoint(b) :: b == currentBlock
    {
      if time >= InPoint(TrackId) {
        texture := None;
        currentBlock := TrackId;
        return;
      }
      FullFacts();
      ghost var w := Full();
      ghost var k := |w| - 2;
      currentBlock := AttachedBlock().value;
      while time < InPoint(currentBlock)
        invariant 0 <= k < |w| - 1 && currentBlock == w[k]
        invariant time < OutPoint(currentBlock)
        decreases k
      {
        currentBlock := prev[currentBlock];
        k := k - 1;
      }
      // The forward walk along `next` (track.cpp:143-146) never takes a step:
      // in() sums the lengths back along the previous links, so the backward
      // walk already stops at a block that covers `time`.
      assert time < OutPoint(currentBlock);
      texture := Some(currentBlock);
      if forall i | 0 <= i < |Chain()| :: Chain()[i] in length && length[Chain()[i]] >= 0 {
        forall b | b in Chain() && b in length && InPoint(b) <= time < OutPoint(b) ensures b == currentBlock {
          CoveringBlockIsUnique(time, b, currentBlock);
        }
      }
    }


    /**
     * InsertBlockBetweenBlocks: registers the block, breaks the link between
     * `before` and `after`, and links `before`, the block and `after` in that
     * order.
     */
    method InsertBlockBetweenBlocks(block: Id, before: Id, after: Id)
      requires Valid() && Detached(block)
      requires before in length && after in length && before != block && after != block
      requires order[before] < order[after]
      modifies this`graph, this`prev, this`next, this`order
      ensures Valid()
      ensures graph == old(graph) + {block}
      ensures prev == old(prev)[block := before][after := block]
      ensures next == old(next)[before := block][block := after]
      ensures order == old(order)[block := order[block]]
    {
      ghost var mid := (order[before] + order[after]) / 2.0;
      InsertKeepsInv(prev, next, length, order, blockCache, nextId, before, after, block, mid);
      // AddBlockToGraph, then Block::DisconnectBlocks(before, after) drops the
      // links between the two; Block::ConnectBlocks(before, block) and
      // Block::ConnectBlocks(block, after) overwrite both of those entries.
      graph, order, prev, next := graph + {block}, order[block := mid],
        prev[block := before][after := block], next[before := block][block := after];
    }

    /** InsertBlockAfter: inserts the block between `before` and before's next block. */
    method InsertBlockAfter(block: Id, before: Id)
      requires Valid() && Detached(block) && before in next && before != block
      modifies this`graph, this`prev, this`next, this`order
      ensures Valid()
      ensures graph == old(graph) + {block}
      ensures prev == old(prev)[block := before][old(next)[before] := block]
      ensures next == old(next)[before := block][block := old(next)[before]]
      ensures order == old(order)[block := order[block]]
    {
      assert order[before] < order[next[before]];
      InsertBlockBetweenBlocks(block, before, next[before]);
    }

    /** ConnectBlockInternal: registers the block and links it as the track's previous block. */
    method ConnectBlockInternal(block: Id)
      requires Valid() && Detached(block)
      modifies this`graph, this`prev, this`next, this`order
      ensures Valid()
      ensures graph == old(graph) + {block}
      ensures prev == old(prev)[TrackId := block] && next == old(next)[block := TrackId]
      ensures order == old(order)[block := order[block]]
    {
      ghost var r := order[TrackId] - 1.0;
      RerankKeepsInv(prev, next, length, order, blockCache, nextId, block, r);
      ConnectKeepsInv(prev, next, length, order[block := r], blockCache, nextId, block, TrackId);
      // AddBlockToGraph, then Block::ConnectBlocks(block, this)
      graph, order, prev, next := graph + {block}, order[block := r], prev[TrackId := block], next[block := TrackId];
    }

    /**
     * PrependBlock: links the block in front of the first cached block, or
     * connects it to the track when the cache is empty.
     */
    method PrependBlock(block: Id)
      requires Valid() && Detached(block)
      requires blockCache != [] ==> blockCache[0] != block
      modifies this`graph, this`prev, this`next, this`order
      ensures Valid()
      ensures graph == old(graph) + {block}
      ensures old(blockCache) == [] ==>
        prev == old(prev)[TrackId := block] && next == old(next)[block := TrackId]
      ensures old(blockCache) != [] ==>
        prev == old(prev)[old(blockCache)[0] := block] && next == old(next)[block := old(blockCache)[0]]
      ensures order == old(order)[block := order[block]]
    {
      graph := graph + {block};  // AddBlockToGraph
      if blockCache == [] {
        ConnectBlockInternal(block);
      } else {
        var first := blockCache[0];
        ghost var r := order[first] - 1.0;
        assert first in blockCache;
        RerankKeepsInv(prev, next, length, order, blockCache, nextId, block, r);
        ConnectKeepsInv(prev, next, length, order[block := r], blockCache, nextId, block, first);
        // Block::ConnectBlocks(block, first)
        order, prev, next := order[block := r], prev[first := block], next[block := first];
      }
    }

    /**
     * AppendBlock: links the block between the last cached block and the
     * track, or connects it to the track when the cache is empty.
     */
    method AppendBlock(block: Id)
      requires Valid() && Detached(block)
      requires blockCache != [] ==> blockCache[|blockCache| - 1] != block
      modifies this`graph, this`prev, this`next, this`order
      ensures Valid()
      ensures graph == old(graph) + {block}
      ensures old(blockCache) == [] ==>
        prev == old(prev)[TrackId := block] && next == old(next)[block := TrackId]
      ensures old(blockCache) != [] ==>
        var last := old(blockCache)[|old(blockCache)| - 1];
        prev == old(prev)[block := last][TrackId := block] && next == old(next)[last := block][block := TrackId]
      ensures order == old(order)[block := order[block]]
    {
      graph := graph + {block};  // AddBlockToGraph
      if blockCache == [] {
        ConnectBlockInternal(block);
      } else {
        var last := blockCache[|blockCache| - 1];
        assert last in blockCache;
        InsertBlockBetweenBlocks(block, last, TrackId);
      }
    }

    /**
     * InsertBlockAtIndex: puts the block at position `index` of the cached
     * chain: connected alone when the cache is empty, prepended at 0, appended
     * at or past the end, and otherwise between cache entries index - 1 and
     * index.  A negative index with a non-empty cache reads the cache out of
     * range: the block is registered, no link changes, and `ok` is false.
     */
    method InsertBlockAtIndex(block: Id, index: int) returns (ok: bool)
      requires Valid() && Detached(block)
      requires blockCache != [] && index == 0 ==> blockCache[0] != block
      requires blockCache != [] && index >= |blockCache| ==> blockCache[|blockCache| - 1] != block
      requires 0 < index < |blockCache| ==>
        && blockCache[index - 1] != block && blockCache[index] != block
        && order[blockCache[index - 1]] < order[blockCache[index]]
      modifies this`graph, this`prev, this`next, this`order
      ensures Valid()
      ensures graph == old(graph) + {block}
      ensures ok <==> old(blockCache) == [] || 0 <= index
      ensures !ok ==> prev == old(prev) && next == old(next) && order == old(order)
      ensures old(blockCache) == [] ==>
        prev == old(prev)[TrackId := block] && next == old(next)[block := TrackId]
      ensures old(blockCache) != [] && index == 0 ==>
        prev == old(prev)[old(blockCache)[0] := block] && next == old(next)[block := old(blockCache)[0]]
      ensures old(blockCache) != [] && index >= |old(blockCache)| ==>
        var last := old(blockCache)[|old(blockCache)| - 1];
        prev == old(prev)[block := last][TrackId := block] && next == old(next)[last := block][block := TrackId]
      ensures 0 < index < |old(blockCache)| ==>
        var before, after := old(blockCache)[index - 1], old(blockCache)[index];
        prev == old(prev)[block := before][after := block] && next == old(next)[before := block][block := after]
      ensures order == old(order)[block := order[block]]
    {
      graph := graph + {block};  // AddBlockToGraph
      ok := true;
      if blockCache == [] {
        ConnectBlockInternal(block);
      } else if index == 0 {
        PrependBlock(block);
      } else if index >= |blockCache| {
        AppendBlock(block);
      } else if index < 0 {
        // block_cache_.at(index - 1) is out of range
        ok := false;
      } else {
        InsertBlockBetweenBlocks(block, blockCache[index - 1], blockCache[index]);
      }
    }

    /**
     * The position of the first cache entry, at `from` or after it, whose
     * in-point is `start`; None when there is none.
     */
    function FirstStartingAt(start: int, from: nat): (r: Option<nat>)
      reads this`prev, this`next, this`length, this`order, this`blockCache, this`nextId
      requires Valid()
      ensures r.Some? ==>
        && from <= r.value < |blockCache| && InPoint(blockCache[r.value]) == start
        && forall j | from <= j < r.value :: InPoint(blockCache[j]) != start
      ensures r.None? ==> forall j | from <= j < |blockCache| :: InPoint(blockCache[j]) != start
      decreases |blockCache| - from
    {
      if from >= |blockCache| then None
      else if InPoint(blockCache[from]) == start then Some(from)
      else FirstStartingAt(start, from + 1)
    }

    /**
     * The cache entries that placing a block at a nonzero `start` links it
     * to are not the block itself: the last entry, when `start` is at or
     * past the track's in-point, and otherwise the entry before the first
     * one (after the first) that starts at `start`, which must also rank
     * below that entry.
     */
    ghost predicate PlaceLinksApart(block: Id, start: int)
      reads this`prev, this`next, this`length, this`order, this`blockCache, this`nextId
      requires Valid()
    {
      && (blockCache != [] && start != 0 && InPoint(TrackId) <= start ==> blockCache[|blockCache| - 1] != block)
      && (start != 0 && start < InPoint(TrackId) ==> ScanLinksApart(block, start))
    }

    /** The cache entries PlaceBlock's scan for `start` links the block between are not the block, and are in rank order. */
    ghost predicate ScanLinksApart(block: Id, start: int)
      reads this`prev, this`next, this`length, this`order, this`blockCache, this`nextId
      requires Valid()
    {
      match FirstStartingAt(start, 1)
      case Some(i) => blockCache[i - 1] != block && order[blockCache[i - 1]] < order[blockCache[i]]
      case None => true
    }

    /**
     * A block linked to nothing starts at 0 and is not on the chain: for it,
     * PlaceBlock(b, 0) returns at its first test, before the start == 0 branch.
     */
    lemma DetachedStartsAtZero(b: Id)
      requires Valid() && Detached(b)
      ensures InPoint(b) == 0 && b !in Chain()
    {
      OffWalk(prev, order, b);
    }

    /**
     * PlaceBlock: puts a new block so that it starts at `start`.  Nothing
     * moves when the block already starts there; past the end of the track it
     * is appended, behind a new gap of the missing length when `start` lies
     * beyond in(); otherwise it goes in front of the first cache entry after
     * the first one that starts at `start`, and nowhere when there is none.
     * Both appends read the cache as it stood before either of them.
     */
    method PlaceBlock(block: Id, start: int)
      requires Valid() && Detached(block) && PlaceLinksApart(block, start)
      modifies this`length, this`gaps, this`nextId, this`order, this`graph, this`prev, this`next
      ensures Valid()
      ensures start == 0 ==>
        && prev == old(prev) && next == old(next) && graph == old(graph) + {block}
        && length == old(length) && gaps == old(gaps) && nextId == old(nextId)
      ensures start != 0 && start == old(InPoint(TrackId)) ==>
        && prev == TrackEdits.AppendedPrev(old(prev), old(blockCache), block)
        && next == TrackEdits.AppendedNext(old(next), old(blockCache), block)
        && graph == old(graph) + {block} && length == old(length) && gaps == old(gaps) && nextId == old(nextId)
      ensures start != 0 && start > old(InPoint(TrackId)) ==>
        var gap := old(nextId);
        && prev == TrackEdits.AppendedPrev(TrackEdits.AppendedPrev(old(prev), old(blockCache), gap), old(blockCache), block)
        && next == TrackEdits.AppendedNext(TrackEdits.AppendedNext(old(next), old(blockCache), gap), old(blockCache), block)
        && graph == old(graph) + {block, gap} && length == old(length)[gap := start - old(InPoint(TrackId))]
        && gaps == old(gaps) + {gap} && nextId == gap + 1
      ensures start != 0 && start < old(InPoint(TrackId)) ==>
        && graph == old(graph) + {block} && length == old(length) && gaps == old(gaps) && nextId == old(nextId)
        && match old(FirstStartingAt(start, 1))
           case Some(i) =>
             var before, after := old(blockCache)[i - 1], old(blockCache)[i];
             prev == old(prev)[block := before][after := block] && next == old(next)[before := block][block := after]
           case None => prev == old(prev) && next == old(next)
      ensures start != 0 && start > old(InPoint(TrackId)) ==>
        order == old(order)[old(nextId) := order[old(nextId)]][block := order[block]]
      ensures !(start != 0 && start > old(InPoint(TrackId))) ==> order == old(order)[block := order[block]]
    {
      AddBlockToGraph(block);
      if InPoint(block) == start {
        return;
      }
      // The branch for start == 0, PrependBlock(block), is never reached: a
      // block linked to nothing has in() == 0, so the test above has returned.
      var end := InPoint(TrackId);
      if start >= end {
        if start > end {
          var gap := AppendGapThenBlock(start - end, block);
        } else {
          AppendBlock(block);
        }
        return;
      }
      InsertAtCachedStart(block, start);
    }

    /**
     * PlaceBlock as evidently intended: a new block placed at 0 is prepended,
     * and past the end behind a gap it is linked between the gap and the
     * track, so that it starts at `start`.  Otherwise as PlaceBlock.
     */
    method PlaceBlockCorrected(block: Id, start: int)
      requires Valid() && Detached(block) && PlaceLinksApart(block, start)
      requires blockCache != [] && start == 0 ==> blockCache[0] != block
      modifies this`length, this`gaps, this`nextId, this`order, this`graph, this`prev, this`next
      ensures Valid()
      ensures start == 0 ==>
        && prev == TrackEdits.PrependedPrev(old(prev), old(blockCache), block)
        && next == TrackEdits.PrependedNext(old(next), old(blockCache), block)
        && graph == old(graph) + {block} && length == old(length) && gaps == old(gaps) && nextId == old(nextId)
      ensures start != 0 && start == old(InPoint(TrackId)) ==>
        && prev == TrackEdits.AppendedPrev(old(prev), old(blockCache), block)
        && next == TrackEdits.AppendedNext(old(next), old(blockCache), block)
        && graph == old(graph) + {block} && length == old(length) && gaps == old(gaps) && nextId == old(nextId)
      ensures start != 0 && start > old(InPoint(TrackId)) ==>
        var gap := old(nextId);
        && prev == TrackEdits.AppendedPrev(old(prev), old(blockCache), gap)[block := gap][TrackId := block]
        && next == TrackEdits.AppendedNext(old(next), old(blockCache), gap)[gap := block][block := TrackId]
        && graph == old(graph) + {block, gap} && length == old(length)[gap := start - old(InPoint(TrackId))]
        && gaps == old(gaps) + {gap} && nextId == gap + 1
      ensures start != 0 && start < old(InPoint(TrackId)) ==>
        && graph == old(graph) + {block} && length == old(length) && gaps == old(gaps) && nextId == old(nextId)
        && match old(FirstStartingAt(start, 1))
           case Some(i) =>
             var before, after := old(blockCache)[i - 1], old(blockCache)[i];
             prev == old(prev)[block := before][after := block] && next == old(next)[before := block][block := after]
           case None => prev == old(prev) && next == old(next)
      ensures start != 0 && start > old(InPoint(TrackId)) ==>
        order == old(order)[old(nextId) := order[old(nextId)]][block := order[block]]
      ensures !(start != 0 && start > old(InPoint(TrackId))) ==> order == old(order)[block := order[block]]
    {
      if start == 0 {
        PrependBlock(block);
        return;
      }
      var end := InPoint(TrackId);
      if start >= end {
        if start > end {
          var gap := AppendBehindGap(start - end, block);
        } else {
          AppendBlock(block);
        }
        return;
      }
      AddBlockToGraph(block);
      InsertAtCachedStart(block, start);
    }

    /**
     * The gap PlaceBlock puts past the end of the track: a new gap of length
     * `len`, appended against the cache.  A detached block `other` stays detached.
     */
    method AppendGap(len: int, ghost other: Id) returns (gap: Id)
      requires Valid() && Detached(other)
      requires blockCache != [] ==> blockCache[|blockCache| - 1] != other
      modifies this`length, this`gaps, this`nextId, this`order, this`graph, this`prev, this`next
      ensures Valid() && Detached(other) && gap != other
      ensures gap == old(nextId) && nextId == old(nextId) + 1 && gap !in old(length)
      ensures length == old(length)[gap := len] && gaps == old(gaps) + {gap} && graph == old(graph) + {gap}
      ensures prev == TrackEdits.AppendedPrev(old(prev), old(blockCache), gap)
      ensures next == TrackEdits.AppendedNext(old(next), old(blockCache), gap)
      ensures order == old(order)[gap := order[gap]]
    {
      gap := NewGap();
      SetLength(gap, len);
      AppendBlock(gap);
    }

    /**
     * PlaceBlock's step past the end of the track, as written: a new gap of
     * length `len` is appended against the cache, and then the block is
     * appended against the same cache.
     */
    method AppendGapThenBlock(len: int, block: Id) returns (gap: Id)
      requires Valid() && Detached(block)
      requires blockCache != [] ==> blockCache[|blockCache| - 1] != block
      modifies this`length, this`gaps, this`nextId, this`order, this`graph, this`prev, this`next
      ensures Valid()
      ensures gap == old(nextId) && nextId == old(nextId) + 1 && gap !in old(length)
      ensures length == old(length)[gap := len] && gaps == old(gaps) + {gap} && graph == old(graph) + {block, gap}
      ensures prev == TrackEdits.AppendedPrev(TrackEdits.AppendedPrev(old(prev), old(blockCache), gap), old(blockCache), block)
      ensures next == TrackEdits.AppendedNext(TrackEdits.AppendedNext(old(next), old(blockCache), gap), old(blockCache), block)
      ensures order == old(order)[gap := order[gap]][block := order[block]]
    {
      ghost var o0 := order;
      gap := AppendGap(len, block);
      ghost var o1 := order;
      AppendBlock(block);
      TwoWrites(o0, o1, order, gap, block);
    }

    /**
     * PlaceBlock's corrected step past the end of the track: a new gap of
     * length `len` is appended against the cache, and the block is linked
     * between the gap and the track.
     */
    method AppendBehindGap(len: int, block: Id) returns (gap: Id)
      requires Valid() && Detached(block)
      requires blockCache != [] ==> blockCache[|blockCache| - 1] != block
      modifies this`length, this`gaps, this`nextId, this`order, this`graph, this`prev, this`next
      ensures Valid()
      ensures gap == old(nextId) && nextId == old(nextId) + 1 && gap !in old(length)
      ensures length == old(length)[gap := len] && gaps == old(gaps) + {gap} && graph == old(graph) + {block, gap}
      ensures prev == TrackEdits.AppendedPrev(old(prev), old(blockCache), gap)[block := gap][TrackId := block]
      ensures next == TrackEdits.AppendedNext(old(next), old(blockCache), gap)[gap := block][block := TrackId]
      ensures order == old(order)[gap := order[gap]][block := order[block]]
    {
      ghost var o0 := order;
      gap := AppendGap(len, block);
      ghost var o1 := order;
      assert prev[TrackId] == gap;
      InsertBlockBetweenBlocks(block, gap, TrackId);
      TwoWrites(o0, o1, order, gap, block);
    }

    /**
     * The scan of PlaceBlock inside the track: the block goes in front of the
     * first cache entry after the first one whose in-point is `start`, and
     * nowhere when there is none.
     */
    method InsertAtCachedStart(block: Id, start: int)
      requires Valid() && Detached(block) && InPoint(block) != start && ScanLinksApart(block, start)
      modifies this`graph, this`prev, this`next, this`order
      ensures Valid()
      ensures match old(FirstStartingAt(start, 1))
        case Some(i) =>
          var before, after := old(blockCache)[i - 1], old(blockCache)[i];
          && prev == old(prev)[block := before][after := block] && next == old(next)[before := block][block := after]
          && graph == old(graph) + {block}
        case None => prev == old(prev) && next == old(next) && graph == old(graph)
      ensures order == old(order)[block := order[block]]
    {
      var i := 1;
      while i < |blockCache| && InPoint(blockCache[i]) != start
        invariant 1 <= i
        invariant FirstStartingAt(start, i) == FirstStartingAt(start, 1)
        decreases |blockCache| - i
      {
        i := i + 1;
      }
      if i < |blockCache| {
        InsertBlockBetweenBlocks(block, blockCache[i - 1], blockCache[i]);
      }
    }

    /**
     * RippleRemoveBlock: unlinks the block from its previous and next blocks
     * and, when it had both, links them to each other.
     */
    method RippleRemoveBlock(block: Id)
      requires Valid()
      modifies this`prev, this`next
      ensures Valid()
      ensures prev == RippledPrev(old(prev), old(next), block) && next == RippledNext(old(prev), old(next), block)
    {
      RippleKeepsInv(prev, next, length, order, blockCache, nextId, block);
      var previous, following := Previous(block), Next(block);
      var p, n := prev, next;
      if previous.Some? && following.Some? {
        // Block::DisconnectBlocks(previous, block) and Block::DisconnectBlocks(block, next)
        // drop the block's links, then Block::ConnectBlocks(previous, next) joins the two
        p, n := (p - {block})[following.value := previous.value], (n - {block})[previous.value := following.value];
      } else if previous.Some? {
        // Block::DisconnectBlocks(previous, block)
        p, n := Unlink(p, block, previous.value), Unlink(n, previous.value, block);
      } else if following.Some? {
        // Block::DisconnectBlocks(block, next)
        p, n := Unlink(p, following.value, block), Unlink(n, block, following.value);
      }
      prev, next := p, n;
    }

    /**
     * The common start of RemoveBlock: a new gap of the block's length, then
     * RippleRemoveBlock(block).  The gap is left linked to nothing.
     */
    method RippleOutForGap(block: Id) returns (gap: Id)
      requires Valid() && block in length && block != TrackId
      modifies this`length, this`gaps, this`nextId, this`order, this`prev, this`next
      ensures Valid() && Detached(gap) && gap !in blockCache
      ensures gap == old(nextId) && nextId == old(nextId) + 1 && gap !in old(length)
      ensures length == old(length)[gap := old(length)[block]] && gaps == old(gaps) + {gap}
      ensures order == old(order)[gap := 0.0]
      ensures prev == RippledPrev(old(prev), old(next), block) && next == RippledNext(old(prev), old(next), block)
    {
      gap := NewGap();
      SetLength(gap, length[block]);
      RippleKeepsUnlinked(prev, next, block, gap);
      RippleRemoveBlock(block);
    }

    /**
     * RemoveBlock: a new gap of the block's length takes its place.  The block
     * is rippled out; then, when it had no previous block, the gap is
     * prepended against the cache as it stands, and otherwise it is linked
     * between the block's former previous and next blocks.
     */
    method RemoveBlock(block: Id) returns (gap: Id)
      requires Valid() && block in length && block != TrackId
      requires block in prev ==> block in next
      modifies this`length, this`gaps, this`nextId, this`order, this`graph, this`prev, this`next
      ensures Valid()
      ensures gap == old(nextId) && nextId == old(nextId) + 1 && gap !in old(length)
      ensures length == old(length)[gap := old(length)[block]] && gaps == old(gaps) + {gap}
      ensures graph == old(graph) + {gap} && order == old(order)[gap := order[gap]]
      ensures old(block in prev) ==>
        && prev == RippledPrev(old(prev), old(next), block)[gap := old(prev)[block]][old(next)[block] := gap]
        && next == RippledNext(old(prev), old(next), block)[old(prev)[block] := gap][gap := old(next)[block]]
      ensures old(block !in prev) ==>
        && prev == TrackEdits.PrependedPrev(RippledPrev(old(prev), old(next), block), old(blockCache), gap)
        && next == TrackEdits.PrependedNext(RippledNext(old(prev), old(next), block), old(blockCache), gap)
    {
      var previous, following := Previous(block), Next(block);
      assert previous.Some? ==> order[previous.value] < order[block] < order[following.value];
      gap := RippleOutForGap(block);
      if previous.None? {
        PrependBlock(gap);
      } else {
        InsertBlockBetweenBlocks(gap, previous.value, following.value);
      }
    }

    /**
     * RemoveBlock with the first-block case corrected: when the block had no
     * previous block, the gap is linked in front of the block's former next
     * block instead of in front of the cache's first entry.
     */
    method RemoveBlockCorrected(block: Id) returns (gap: Id)
      requires Valid() && block in length && block != TrackId && block in next
      modifies this`length, this`gaps, this`nextId, this`order, this`graph, this`prev, this`next
      ensures Valid()
      ensures gap == old(nextId) && nextId == old(nextId) + 1 && gap !in old(length)
      ensures length == old(length)[gap := old(length)[block]] && gaps == old(gaps) + {gap}
      ensures graph == old(graph) + {gap} && order == old(order)[gap := order[gap]]
      ensures old(block in prev) ==>
        && prev == RippledPrev(old(prev), old(next), block)[gap := old(prev)[block]][old(next)[block] := gap]
        && next == RippledNext(old(prev), old(next), block)[old(prev)[block] := gap][gap := old(next)[block]]
      ensures old(block !in prev) ==>
        && prev == RippledPrev(old(prev), old(next), block)[old(next)[block] := gap]
        && next == RippledNext(old(prev), old(next), block)[gap := old(next)[block]]
    {
      var previous, following := Previous(block), Next(block);
      assert previous.Some? ==> order[previous.value] < order[block] < order[following.value];
      gap := RippleOutForGap(block);
      if previous.None? {
        var first := following.value;
        ghost var r := order[first] - 1.0;
        RerankKeepsInv(prev, next, length, order, blockCache, nextId, gap, r);
        ConnectKeepsInv(prev, next, length, order[gap := r], blockCache, nextId, gap, first);
        // AddBlockToGraph, then Block::ConnectBlocks(gap, next)
        graph, order, prev, next := graph + {gap}, order[gap := r], prev[first := gap], next[gap := first];
      } else {
        InsertBlockBetweenBlocks(gap, previous.value, following.value);
      }
    }

    /**
     * SplitBlock: when `time` falls inside the block, cuts it there: the block
     * keeps the part before `time`, and a copy of it of the remaining length
     * is inserted after it.  Outside [in, out) nothing changes.
     */
    method SplitBlock(block: Id, time: int)
      requires Valid() && block in length
      requires InPoint(block) <= time < OutPoint(block) ==> block in next
      modifies this`length, this`gaps, this`nextId, this`order, this`graph, this`prev, this`next
      ensures Valid()
      ensures !old(InPoint(block) <= time < OutPoint(block)) ==>
        && length == old(length) && gaps == old(gaps) && nextId == old(nextId) && order == old(order)
        && graph == old(graph) && prev == old(prev) && next == old(next)
      ensures old(InPoint(block) <= time < OutPoint(block)) ==>
        && nextId == old(nextId) + 1 && old(nextId) !in old(length) && graph == old(graph) + {old(nextId)}
        && old(nextId) in order && order == old(order)[old(nextId) := order[old(nextId)]]
      ensures old(InPoint(block) <= time < OutPoint(block)) ==>
        length == old(length)[block := time - old(InPoint(block))][old(nextId) := old(OutPoint(block)) - time]
      ensures old(InPoint(block) <= time < OutPoint(block)) ==>
        gaps == if block in old(gaps) then old(gaps) + {old(nextId)} else old(gaps)
      ensures old(InPoint(block) <= time < OutPoint(block)) ==>
        && prev == old(prev)[old(nextId) := block][old(next)[block] := old(nextId)]
        && next == old(next)[block := old(nextId)][old(nextId) := old(next)[block]]
    {
      if time < InPoint(block) || time >= OutPoint(block) {
        return;
      }
      var original := length[block];
      SetLength(block, time - InPoint(block));
      var copy := CopyAfter(block, block, original - length[block]);
    }

    /**
     * The tail step of SplitBlock and SpliceBlock: a copy of block b, given
     * length `len`, is inserted after `before`.
     */
    method CopyAfter(b: Id, before: Id, len: int) returns (copy: Id)
      requires Valid() && b in length && before in next
      modifies this`length, this`gaps, this`nextId, this`order, this`graph, this`prev, this`next
      ensures Valid()
      ensures copy == old(nextId) && nextId == old(nextId) + 1 && copy !in old(length) && graph == old(graph) + {copy}
      ensures length == old(length)[copy := len] && order == old(order)[copy := order[copy]]
      ensures gaps == if b in old(gaps) then old(gaps) + {copy} else old(gaps)
      ensures prev == old(prev)[copy := before][old(next)[before] := copy]
      ensures next == old(next)[before := copy][copy := old(next)[before]]
    {
      ghost var length0, order0 := length, order;
      copy := Copy(b);
      SetLength(copy, len);
      assert length0[copy := length0[b]][copy := len] == length0[copy := len];
      InsertBlockAfter(copy, before);
      assert order0[copy := 0.0][copy := order[copy]] == order0[copy := order[copy]];
    }

    /**
     * SpliceBlock: embeds `inner` in `outer` at `innerIn`: `outer` is cut
     * back to end at `innerIn`, `inner` follows it, and then a copy of
     * `outer` whose length is what remains of the original length after
     * both.  `innerIn` must lie in [in, out) of `outer`.
     */
    method SpliceBlock(inner: Id, outer: Id, innerIn: int)
      requires Valid() && Detached(inner) && outer in length && outer in next
      requires InPoint(outer) <= innerIn < OutPoint(outer)
      modifies this`length, this`gaps, this`nextId, this`order, this`graph, this`prev, this`next
      ensures Valid()
      ensures nextId == old(nextId) + 1 && old(nextId) !in old(length)
      ensures length == old(length)[outer := innerIn - old(InPoint(outer))]
                                   [old(nextId) := old(OutPoint(outer)) - innerIn - old(length[inner])]
      ensures gaps == if outer in old(gaps) then old(gaps) + {old(nextId)} else old(gaps)
      ensures graph == old(graph) + {inner, old(nextId)}
      ensures order == old(order)[inner := order[inner]][old(nextId) := order[old(nextId)]]
      ensures prev == old(prev)[inner := outer][old(nextId) := inner][old(next)[outer] := old(nextId)]
      ensures next == old(next)[outer := inner][inner := old(nextId)][old(nextId) := old(next)[outer]]
    {
      ghost var prev0, next0 := prev, next;
      var original, after := length[outer], next[outer];
      SetLength(outer, innerIn - InPoint(outer));
      InsertBlockAfter(inner, outer);
      var copy := CopyAfter(outer, inner, original - length[outer] - length[inner]);
      Overwritten(prev0[inner := outer], after, copy, inner, inner, copy);
      Overwritten(next0[outer := inner], inner, copy, after, after, copy);
    }
  }
}
