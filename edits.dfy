/**
 * How each edit of a track changes its content and timing.  The edit methods
 * of TrackOutput state the exact new links; the lemmas here follow those
 * links back from the track and say what the chain becomes, where the
 * touched blocks start, and what happens to the total length.  Most of them
 * assume that the cache still lists the chain and that the chain is doubly
 * linked; where a stale cache leads somewhere else, that is stated too.
 */
module TrackEdits {
  import opened Block

  /** Links that rank downwards, and every block the walk meets has a length. */
  ghost predicate Timeline(prev: map<Id, Id>, rank: map<Id, real>, length: map<Id, int>)
  {
    PrevRanked(prev, rank) && TrackId in rank && rank.Keys <= length.Keys && prev.Values <= length.Keys
  }

  /** The in-point of the k-th entry of chain + [track] is the total length of the chain's first k blocks. */
  lemma InOnChain(prev: map<Id, Id>, rank: map<Id, real>, length: map<Id, int>, k: nat)
    requires Timeline(prev, rank, length) && k <= |ChainOf(prev, rank)|
    ensures var c := ChainOf(prev, rank);
      && (forall j | 0 <= j < |c| :: c[j] in length)
      && In(prev, rank, length, (c + [TrackId])[k]) == Sum(length, c[..k])
  {
    var c, w := ChainOf(prev, rank), Walk(prev, rank, TrackId);
    WalkFacts(prev, rank, TrackId);
    InAlongWalk(prev, rank, length, w, k);
    assert w[..k] == c[..k];
  }

  /** The track's in-point is the total length of the chain. */
  lemma TotalOnChain(prev: map<Id, Id>, rank: map<Id, real>, length: map<Id, int>)
    requires Timeline(prev, rank, length)
    ensures forall j | 0 <= j < |ChainOf(prev, rank)| :: ChainOf(prev, rank)[j] in length
    ensures In(prev, rank, length, TrackId) == Sum(length, ChainOf(prev, rank))
  {
    var c := ChainOf(prev, rank);
    InOnChain(prev, rank, length, |c|);
    assert (c + [TrackId])[|c|] == TrackId && c[..|c|] == c;
  }

  /** A new element inserted at position i is found there. */
  lemma IndexOfInserted(s: seq<Id>, i: nat, x: Id)
    requires i <= |s| && x !in s
    ensures x in InsertAt(s, i, x) && IndexOf(InsertAt(s, i, x), x) == i
  {
  }

  /** Putting a removed element back where it was restores the sequence. */
  lemma RemoveThenInsert(s: seq<Id>, i: nat)
    requires i < |s|
    ensures InsertAt(RemoveAt(s, i), i, s[i]) == s
  {
  }

  /** Putting x where s[i] was removed replaces s[i] by x. */
  lemma RemoveThenInsertOther(s: seq<Id>, i: nat, x: Id)
    requires i < |s|
    ensures InsertAt(RemoveAt(s, i), i, x) == s[i := x]
  {
  }

  /** The prefixes of a sequence with x inserted at i. */
  lemma InsertAtPrefix(s: seq<Id>, i: nat, x: Id, k: nat)
    requires i <= |s| && k <= |s|
    ensures k <= i ==> InsertAt(s, i, x)[..k] == s[..k]
    ensures i <= k ==> InsertAt(s, i, x)[..k + 1] == InsertAt(s[..k], i, x)
  {
  }

  /** Where the entries of s + [t] sit once x is inserted into s at i. */
  lemma InsertAtEntry(s: seq<Id>, t: Id, i: nat, x: Id, k: nat)
    requires i <= |s| && k <= |s|
    ensures k < i ==> (InsertAt(s, i, x) + [t])[k] == (s + [t])[k]
    ensures (InsertAt(s, i, x) + [t])[i] == x
    ensures i <= k ==> (InsertAt(s, i, x) + [t])[k + 1] == (s + [t])[k]
  {
  }

  /** A block before the insertion point keeps its in-point, and the inserted block starts where the displaced one did. */
  lemma InsertKeepsEarlier(prev: map<Id, Id>, rank: map<Id, real>, length: map<Id, int>,
                           prev': map<Id, Id>, rank': map<Id, real>, i: nat, x: Id, k: nat)
    requires Timeline(prev, rank, length) && Timeline(prev', rank', length)
    requires k <= i <= |ChainOf(prev, rank)|
    requires ChainOf(prev', rank') == InsertAt(ChainOf(prev, rank), i, x)
    ensures var w := ChainOf(prev, rank) + [TrackId];
      && (k < i ==> w[k] in rank' && In(prev', rank', length, w[k]) == In(prev, rank, length, w[k]))
      && (k == i ==> x in rank' && In(prev', rank', length, x) == In(prev, rank, length, w[k]))
  {
    var c, c' := ChainOf(prev, rank), ChainOf(prev', rank');
    InOnChain(prev, rank, length, k);
    InOnChain(prev', rank', length, k);
    InsertAtPrefix(c, i, x, k);
    InsertAtEntry(c, TrackId, i, x, k);
    WalkFacts(prev', rank', TrackId);
  }

  /** A block at or after the insertion point, the track included, starts later by the inserted block's length. */
  lemma InsertDelaysLater(prev: map<Id, Id>, rank: map<Id, real>, length: map<Id, int>,
                          prev': map<Id, Id>, rank': map<Id, real>, i: nat, x: Id, k: nat)
    requires Timeline(prev, rank, length) && Timeline(prev', rank', length)
    requires i <= k <= |ChainOf(prev, rank)|
    requires ChainOf(prev', rank') == InsertAt(ChainOf(prev, rank), i, x)
    ensures var w := ChainOf(prev, rank) + [TrackId];
      x in length && w[k] in rank' && In(prev', rank', length, w[k]) == In(prev, rank, length, w[k]) + length[x]
  {
    var c, c' := ChainOf(prev, rank), ChainOf(prev', rank');
    InOnChain(prev, rank, length, k);
    InOnChain(prev', rank', length, k + 1);
    InsertAtPrefix(c, i, x, k);
    InsertAtEntry(c, TrackId, i, x, k);
    SumInsertAt(length, c[..k], i, x);
    WalkFacts(prev', rank', TrackId);
  }

  /**
   * Inserting x at position i of the chain: x starts where the block it
   * displaces started, the blocks before it keep their in-points, and every
   * block after it, the track included, starts later by x's length.
   */
  lemma InsertShift(prev: map<Id, Id>, rank: map<Id, real>, length: map<Id, int>,
                    prev': map<Id, Id>, rank': map<Id, real>, i: nat, x: Id)
    requires Timeline(prev, rank, length) && Timeline(prev', rank', length)
    requires i <= |ChainOf(prev, rank)|
    requires ChainOf(prev', rank') == InsertAt(ChainOf(prev, rank), i, x)
    ensures var w := ChainOf(prev, rank) + [TrackId];
      && x in rank' && In(prev', rank', length, x) == In(prev, rank, length, w[i])
      && (forall k | 0 <= k < i :: w[k] in rank' && In(prev', rank', length, w[k]) == In(prev, rank, length, w[k]))
      && (forall k | i <= k < |w| ::
            x in length && w[k] in rank' && In(prev', rank', length, w[k]) == In(prev, rank, length, w[k]) + length[x])
  {
    InsertKeepsEarlier(prev, rank, length, prev', rank', i, x, i);
    forall k | 0 <= k < i
      ensures var w := ChainOf(prev, rank) + [TrackId];
        w[k] in rank' && In(prev', rank', length, w[k]) == In(prev, rank, length, w[k])
    {
      InsertKeepsEarlier(prev, rank, length, prev', rank', i, x, k);
    }
    forall k | i <= k < |ChainOf(prev, rank) + [TrackId]|
      ensures var w := ChainOf(prev, rank) + [TrackId];
        x in length && w[k] in rank' && In(prev', rank', length, w[k]) == In(prev, rank, length, w[k]) + length[x]
    {
      InsertDelaysLater(prev, rank, length, prev', rank', i, x, k);
    }
  }

  /**
   * Removing the block b at position i of the chain: the k-th block of the
   * new chain (the track when k is the chain's length) keeps its in-point
   * when it came before b, and starts earlier by b's length when it came
   * after b.
   */
  lemma RemoveShift(prev: map<Id, Id>, rank: map<Id, real>, length: map<Id, int>,
                    prev': map<Id, Id>, rank': map<Id, real>, i: nat, k: nat)
    requires Timeline(prev, rank, length) && Timeline(prev', rank', length)
    requires i < |ChainOf(prev, rank)| && k <= |ChainOf(prev', rank')|
    requires ChainOf(prev', rank') == RemoveAt(ChainOf(prev, rank), i)
    ensures var w, b := ChainOf(prev', rank') + [TrackId], ChainOf(prev, rank)[i];
      && b in length && w[k] in rank
      && In(prev', rank', length, w[k]) == In(prev, rank, length, w[k]) - (if k < i then 0 else length[b])
  {
    var c := ChainOf(prev, rank);
    var b := c[i];
    assert c == InsertAt(ChainOf(prev', rank'), i, b) by {
      RemoveThenInsert(c, i);
    }
    if k < i {
      InsertKeepsEarlier(prev', rank', length, prev, rank, i, b, k);
    } else {
      InsertDelaysLater(prev', rank', length, prev, rank, i, b, k);
    }
  }

  /**
   * InsertBlockBetweenBlocks(x, before, after) when `after` is on the track
   * with `before` as its previous block: x joins the chain in front of
   * `after`, starts where `after` started, and adds its length to the total.
   */
  lemma InsertBetweenOutcome(prev: map<Id, Id>, next: map<Id, Id>, rank: map<Id, real>, length: map<Id, int>,
                             before: Id, after: Id, x: Id, r: real)
    requires Timeline(prev, rank, length) && x in length && before in length
    requires x !in prev && x !in prev.Values && x != TrackId
    requires Timeline(prev[x := before][after := x], rank[x := r], length)
    ensures var w, prev', rank' := Walk(prev, rank, TrackId), prev[x := before][after := x], rank[x := r];
      after in w && after in prev && prev[after] == before ==>
        && ChainOf(prev', rank') == InsertAt(ChainOf(prev, rank), IndexOf(w, after), x)
        && In(prev', rank', length, x) == In(prev, rank, length, after)
        && In(prev', rank', length, TrackId) == In(prev, rank, length, TrackId) + length[x]
        && (ForwardLinked(next, w) ==> ForwardLinked(next[before := x][x := after], Walk(prev', rank', TrackId)))
  {
    var w, prev', rank' := Walk(prev, rank, TrackId), prev[x := before][after := x], rank[x := r];
    if after in w && after in prev && prev[after] == before {
      var c := ChainOf(prev, rank);
      ChainAfterInsert(prev, next, rank, before, after, x, r);
      var j := IndexOf(w, after);
      InsertShift(prev, rank, length, prev', rank', j, x);
      assert (c + [TrackId])[|c|] == TrackId;
    }
  }

  /**
   * InsertBlockAfter(x, b) for a block b of a doubly linked chain: x joins
   * the chain right after b, starts where b ends, and adds its length to the
   * total.
   */
  lemma InsertAfterOutcome(prev: map<Id, Id>, next: map<Id, Id>, rank: map<Id, real>, length: map<Id, int>,
                           b: Id, x: Id, r: real)
    requires Timeline(prev, rank, length) && x in length && b in length && b in next
    requires x !in prev && x !in prev.Values && x != TrackId
    requires Timeline(prev[x := b][next[b] := x], rank[x := r], length)
    ensures var c, prev', rank' := ChainOf(prev, rank), prev[x := b][next[b] := x], rank[x := r];
      b in c && ForwardLinked(next, Walk(prev, rank, TrackId)) ==>
        && b in rank
        && ChainOf(prev', rank') == InsertAt(c, IndexOf(c, b) + 1, x)
        && In(prev', rank', length, x) == Out(prev, rank, length, b)
        && In(prev', rank', length, TrackId) == In(prev, rank, length, TrackId) + length[x]
        && ForwardLinked(next[b := x][x := next[b]], Walk(prev', rank', TrackId))
  {
    var c := ChainOf(prev, rank);
    if b in c && ForwardLinked(next, Walk(prev, rank, TrackId)) {
      NextOnChain(prev, next, rank, b);
      assert In(prev, rank, length, next[b]) == Out(prev, rank, length, b);
      InsertBetweenOutcome(prev, next, rank, length, b, next[b], x, r);
    }
  }

  /** The links PrependBlock(x) leaves: x in front of the first cached block, or alone in front of the track. */
  function PrependedPrev(prev: map<Id, Id>, cache: seq<Id>, x: Id): map<Id, Id>
  {
    if cache == [] then prev[TrackId := x] else prev[cache[0] := x]
  }

  function PrependedNext(next: map<Id, Id>, cache: seq<Id>, x: Id): map<Id, Id>
  {
    if cache == [] then next[x := TrackId] else next[x := cache[0]]
  }

  /**
   * PrependBlock(x) with a cache that lists the chain: x becomes the first
   * block, starting at 0, and adds its length to the total.
   */
  lemma PrependOutcome(prev: map<Id, Id>, next: map<Id, Id>, rank: map<Id, real>, length: map<Id, int>,
                       cache: seq<Id>, x: Id, r: real)
    requires Timeline(prev, rank, length) && x in length
    requires x !in prev && x !in prev.Values && x != TrackId
    requires Increasing(rank, cache + [TrackId]) && Timeline(PrependedPrev(prev, cache, x), rank[x := r], length)
    requires cache == ChainOf(prev, rank)
    ensures ChainOf(PrependedPrev(prev, cache, x), rank[x := r]) == [x] + cache
    ensures In(PrependedPrev(prev, cache, x), rank[x := r], length, x) == 0
    ensures In(PrependedPrev(prev, cache, x), rank[x := r], length, TrackId) == In(prev, rank, length, TrackId) + length[x]
    ensures ForwardLinked(next, Walk(prev, rank, TrackId)) ==>
              ForwardLinked(PrependedNext(next, cache, x), Walk(PrependedPrev(prev, cache, x), rank[x := r], TrackId))
  {
    var prev', rank' := PrependedPrev(prev, cache, x), rank[x := r];
    if cache == [] {
      ChainAfterConnectAlone(prev, next, rank, x, r);
    } else {
      ChainAfterPrepend(prev, next, rank, cache[0], x, r);
    }
    InsertAtEnds(cache, x);
    InsertShift(prev, rank, length, prev', rank', 0, x);
    assert (cache + [TrackId])[|cache|] == TrackId;
  }

  /** The links AppendBlock(x) leaves: x between the last cached block and the track, or alone in front of the track. */
  function AppendedPrev(prev: map<Id, Id>, cache: seq<Id>, x: Id): map<Id, Id>
  {
    if cache == [] then prev[TrackId := x] else prev[x := cache[|cache| - 1]][TrackId := x]
  }

  function AppendedNext(next: map<Id, Id>, cache: seq<Id>, x: Id): map<Id, Id>
  {
    if cache == [] then next[x := TrackId] else next[cache[|cache| - 1] := x][x := TrackId]
  }

  /**
   * AppendBlock(x) with a cache that lists the chain: x becomes the last
   * block, starting where the track started, and adds its length to the total.
   */
  lemma AppendOutcome(prev: map<Id, Id>, next: map<Id, Id>, rank: map<Id, real>, length: map<Id, int>,
                      cache: seq<Id>, x: Id, r: real)
    requires Timeline(prev, rank, length) && x in length
    requires x !in prev && x !in prev.Values && x != TrackId
    requires Increasing(rank, cache + [TrackId]) && Timeline(AppendedPrev(prev, cache, x), rank[x := r], length)
    requires cache == ChainOf(prev, rank)
    ensures ChainOf(AppendedPrev(prev, cache, x), rank[x := r]) == cache + [x]
    ensures In(AppendedPrev(prev, cache, x), rank[x := r], length, x) == In(prev, rank, length, TrackId)
    ensures In(AppendedPrev(prev, cache, x), rank[x := r], length, TrackId) == In(prev, rank, length, TrackId) + length[x]
    ensures ForwardLinked(next, Walk(prev, rank, TrackId)) ==>
              ForwardLinked(AppendedNext(next, cache, x), Walk(AppendedPrev(prev, cache, x), rank[x := r], TrackId))
  {
    var prev', rank' := AppendedPrev(prev, cache, x), rank[x := r];
    InsertAtEnds(cache, x);
    if cache == [] {
      ChainAfterConnectAlone(prev, next, rank, x, r);
      InsertShift(prev, rank, length, prev', rank', 0, x);
      assert (cache + [TrackId])[0] == TrackId;
    } else {
      CacheLast(prev, rank, cache, x);
      InsertBetweenOutcome(prev, next, rank, length, cache[|cache| - 1], TrackId, x, r);
    }
  }

  /** The links InsertBlockAtIndex(x, index) leaves, read off the cache. */
  function IndexedPrev(prev: map<Id, Id>, cache: seq<Id>, x: Id, index: nat): map<Id, Id>
  {
    if cache == [] || index == 0 then PrependedPrev(prev, cache, x)
    else if index >= |cache| then AppendedPrev(prev, cache, x)
    else prev[x := cache[index - 1]][cache[index] := x]
  }

  function IndexedNext(next: map<Id, Id>, cache: seq<Id>, x: Id, index: nat): map<Id, Id>
  {
    if cache == [] || index == 0 then PrependedNext(next, cache, x)
    else if index >= |cache| then AppendedNext(next, cache, x)
    else next[cache[index - 1] := x][x := cache[index]]
  }

  /**
   * InsertBlockAtIndex(x, index) with a cache that lists the chain: x lands
   * at position index of the chain, or at its end when index is past it,
   * starts where the block it displaces started, and adds its length to the
   * total.
   */
  lemma InsertAtIndexOutcome(prev: map<Id, Id>, next: map<Id, Id>, rank: map<Id, real>, length: map<Id, int>,
                             cache: seq<Id>, x: Id, index: nat, r: real, j: nat)
    requires Timeline(prev, rank, length) && x in length
    requires x !in prev && x !in prev.Values && x != TrackId
    requires Increasing(rank, cache + [TrackId]) && Timeline(IndexedPrev(prev, cache, x, index), rank[x := r], length)
    requires cache == ChainOf(prev, rank) && j == if index < |cache| then index else |cache|
    ensures ChainOf(IndexedPrev(prev, cache, x, index), rank[x := r]) == InsertAt(cache, j, x)
    ensures In(IndexedPrev(prev, cache, x, index), rank[x := r], length, x) == In(prev, rank, length, (cache + [TrackId])[j])
    ensures In(IndexedPrev(prev, cache, x, index), rank[x := r], length, TrackId) == In(prev, rank, length, TrackId) + length[x]
    ensures ForwardLinked(next, Walk(prev, rank, TrackId)) ==>
              ForwardLinked(IndexedNext(next, cache, x, index), Walk(IndexedPrev(prev, cache, x, index), rank[x := r], TrackId))
  {
    InsertAtEnds(cache, x);
    if cache == [] || index == 0 {
      assert IndexedPrev(prev, cache, x, index) == PrependedPrev(prev, cache, x);
      assert IndexedNext(next, cache, x, index) == PrependedNext(next, cache, x);
      PrependOutcome(prev, next, rank, length, cache, x, r);
      assert In(prev, rank, length, (cache + [TrackId])[0]) == 0;
    } else if index >= |cache| {
      assert IndexedPrev(prev, cache, x, index) == AppendedPrev(prev, cache, x);
      assert IndexedNext(next, cache, x, index) == AppendedNext(next, cache, x);
      AppendOutcome(prev, next, rank, length, cache, x, r);
      assert (cache + [TrackId])[|cache|] == TrackId;
    } else {
      assert IndexedPrev(prev, cache, x, index) == prev[x := cache[index - 1]][cache[index] := x];
      assert IndexedNext(next, cache, x, index) == next[cache[index - 1] := x][x := cache[index]];
      InsertInnerOutcome(prev, next, rank, length, cache, x, index, r);
    }
  }

  /** InsertBlockAtIndex(x, index) for an index inside the cache: x goes between cache[index - 1] and cache[index]. */
  lemma InsertInnerOutcome(prev: map<Id, Id>, next: map<Id, Id>, rank: map<Id, real>, length: map<Id, int>,
                           cache: seq<Id>, x: Id, index: nat, r: real)
    requires Timeline(prev, rank, length) && x in length
    requires x !in prev && x !in prev.Values && x != TrackId && 0 < index < |cache|
    requires Increasing(rank, cache + [TrackId])
    requires Timeline(prev[x := cache[index - 1]][cache[index] := x], rank[x := r], length)
    ensures var prev', rank' := prev[x := cache[index - 1]][cache[index] := x], rank[x := r];
      cache == ChainOf(prev, rank) ==>
        && ChainOf(prev', rank') == InsertAt(cache, index, x)
        && In(prev', rank', length, x) == In(prev, rank, length, cache[index])
        && In(prev', rank', length, TrackId) == In(prev, rank, length, TrackId) + length[x]
        && (ForwardLinked(next, Walk(prev, rank, TrackId)) ==>
              ForwardLinked(next[cache[index - 1] := x][x := cache[index]], Walk(prev', rank', TrackId)))
  {
    if cache == ChainOf(prev, rank) {
      CacheLink(prev, rank, cache, index);
      assert cache[index - 1] in length;
      InsertBetweenOutcome(prev, next, rank, length, cache[index - 1], cache[index], x, r);
    }
  }

  /**
   * RippleRemoveBlock(b) for a block b of a doubly linked chain: b leaves the
   * chain, the chain stays doubly linked, and the total loses b's length.
   * RemoveShift says how the other blocks move.
   */
  lemma RippleOutcome(prev: map<Id, Id>, next: map<Id, Id>, rank: map<Id, real>, length: map<Id, int>, b: Id)
    requires Timeline(prev, rank, length) && NextRanked(next, rank)
    requires b in ChainOf(prev, rank) && ForwardLinked(next, Walk(prev, rank, TrackId))
    ensures b in length && PrevRanked(RippledPrev(prev, next, b), rank)
    ensures ChainOf(RippledPrev(prev, next, b), rank) == RemoveAt(ChainOf(prev, rank), IndexOf(ChainOf(prev, rank), b))
    ensures In(RippledPrev(prev, next, b), rank, length, TrackId) == In(prev, rank, length, TrackId) - length[b]
    ensures ForwardLinked(RippledNext(prev, next, b), Walk(RippledPrev(prev, next, b), rank, TrackId))
  {
    var c, prev' := ChainOf(prev, rank), RippledPrev(prev, next, b);
    RippleRanked(prev, next, rank, b);
    ChainAfterRipple(prev, next, rank, b);
    var c' := ChainOf(prev', rank);
    RemoveShift(prev, rank, length, prev', rank, IndexOf(c, b), |c'|);
    assert (c' + [TrackId])[|c'|] == TrackId;
  }

  /** RippleRemoveBlock keeps links ranked downwards. */
  lemma RippleRanked(prev: map<Id, Id>, next: map<Id, Id>, rank: map<Id, real>, b: Id)
    requires PrevRanked(prev, rank) && NextRanked(next, rank)
    ensures PrevRanked(RippledPrev(prev, next, b), rank)
    ensures RippledPrev(prev, next, b).Values <= prev.Values
  {
    if b in prev && b in next {
      assert rank[prev[b]] < rank[b] < rank[next[b]];
    }
  }

  /**
   * When x joins the chain right after b, and b's length becomes lb and x's
   * lx, x starts lb after b's in-point, and the total changes by b's change
   * plus lx.
   */
  lemma JoinTimes(prev: map<Id, Id>, rank: map<Id, real>, length: map<Id, int>,
                  prev': map<Id, Id>, rank': map<Id, real>, length': map<Id, int>,
                  i: nat, b: Id, lb: int, x: Id, lx: int)
    requires Timeline(prev, rank, length) && i < |ChainOf(prev, rank)| && ChainOf(prev, rank)[i] == b
    requires x !in ChainOf(prev, rank)
    requires Resized(length, length', b, lb, x, lx) && Timeline(prev', rank', length')
    requires ChainOf(prev', rank') == InsertAt(ChainOf(prev, rank), i + 1, x)
    ensures b in length
    ensures In(prev', rank', length', x) == In(prev, rank, length, b) + lb
    ensures In(prev', rank', length', TrackId) == In(prev, rank, length, TrackId) - length[b] + lb + lx
  {
    ChainInsertIn(prev, rank, length, prev', rank', length', i, b, x, lb, lx);
    ChainInsertTotal(prev, rank, length, prev', rank', length', i, b, x, lb, lx);
    TotalOnChain(prev, rank, length);
    TotalOnChain(prev', rank', length');
  }

  /**
   * SplitBlock(b, time) on a doubly linked chain holding b, with
   * head = time - in(b): the copy x joins the chain right after b, b keeps
   * its in-point and ends where x starts, x ends where b used to end, and
   * the total length is unchanged.
   */
  lemma SplitOutcome(prev: map<Id, Id>, next: map<Id, Id>, rank: map<Id, real>, length: map<Id, int>,
                     b: Id, x: Id, head: int, r: real)
    requires Timeline(prev, rank, length) && b in next && b in length
    requires x !in length && x != TrackId && x !in prev && x !in prev.Values
    requires Timeline(prev[x := b][next[b] := x], rank[x := r], length[b := head][x := length[b] - head])
    requires b in ChainOf(prev, rank) && ForwardLinked(next, Walk(prev, rank, TrackId))
    ensures ChainOf(prev[x := b][next[b] := x], rank[x := r])
              == InsertAt(ChainOf(prev, rank), IndexOf(ChainOf(prev, rank), b) + 1, x)
    ensures ForwardLinked(next[b := x][x := next[b]], Walk(prev[x := b][next[b] := x], rank[x := r], TrackId))
    ensures In(prev[x := b][next[b] := x], rank[x := r], length[b := head][x := length[b] - head], b)
              == In(prev, rank, length, b)
    ensures In(prev[x := b][next[b] := x], rank[x := r], length[b := head][x := length[b] - head], x)
              == In(prev, rank, length, b) + head
    ensures Out(prev[x := b][next[b] := x], rank[x := r], length[b := head][x := length[b] - head], x)
              == Out(prev, rank, length, b)
    ensures In(prev[x := b][next[b] := x], rank[x := r], length[b := head][x := length[b] - head], TrackId)
              == In(prev, rank, length, TrackId)
  {
    var prev', rank' := prev[x := b][next[b] := x], rank[x := r];
    ChainAfterInsertNext(prev, next, rank, b, x, r);
    assert x !in ChainOf(prev, rank) by {
      WalkShape(prev, rank);
    }
    assert Resized(length, length[b := head][x := length[b] - head], b, head, x, length[b] - head);
    JoinTimes(prev, rank, length, prev', rank', length[b := head][x := length[b] - head],
              IndexOf(ChainOf(prev, rank), b), b, head, x, length[b] - head);
    assert prev'[x] == b;
  }

  /**
   * The relinking SpliceBlock(inner, outer, _) does, as two InsertBlockAfter
   * steps: on a doubly linked chain holding `outer`, `inner` lands right
   * after `outer` and the new block x right after `inner`, and the chain
   * stays doubly linked.
   */
  lemma SpliceChain(prev: map<Id, Id>, next: map<Id, Id>, rank: map<Id, real>,
                    prev1: map<Id, Id>, next1: map<Id, Id>, rank1: map<Id, real>,
                    prev': map<Id, Id>, next': map<Id, Id>, rank': map<Id, real>,
                    inner: Id, outer: Id, x: Id, r1: real, r2: real)
    requires PrevRanked(prev, rank) && TrackId in rank && outer in next
    requires inner !in prev && inner !in prev.Values && inner != TrackId
    requires x !in prev && x !in prev.Values && x != TrackId && x != inner && x != outer
    requires prev1 == prev[inner := outer][next[outer] := inner] && rank1 == rank[inner := r1]
    requires next1 == next[outer := inner][inner := next[outer]]
    requires prev' == prev1[x := inner][next[outer] := x] && rank' == rank1[x := r2]
    requires next' == next1[inner := x][x := next[outer]]
    requires PrevRanked(prev', rank')
    requires outer in ChainOf(prev, rank) && ForwardLinked(next, Walk(prev, rank, TrackId))
    ensures PrevRanked(prev1, rank1)
    ensures ChainOf(prev1, rank1) == InsertAt(ChainOf(prev, rank), IndexOf(ChainOf(prev, rank), outer) + 1, inner)
    ensures ChainOf(prev', rank') == InsertAt(ChainOf(prev1, rank1), IndexOf(ChainOf(prev, rank), outer) + 2, x)
    ensures ForwardLinked(next', Walk(prev', rank', TrackId))
  {
    var a := next[outer];
    assert a in prev by {
      NextOnChain(prev, next, rank, outer);
    }
    assert prev' == prev[inner := outer][x := inner][a := x] by {
      Overwritten(prev[inner := outer], a, x, inner, inner, x);
    }
    SpliceFirstStep(prev, next, rank, prev1, next1, rank1, prev', rank', inner, outer, x, r1, r2);
    assert x !in prev1.Values by {
      ValuesAfterLinks(prev, inner, outer, a, inner);
    }
    JoinAfter(prev1, next1, rank1, prev', next', rank', inner, x, r2);
  }

  /**
   * InsertBlockAfter(x, b) on a doubly linked chain holding b, with the new
   * links named: x lands right after b and the chain stays doubly linked.
   */
  lemma JoinAfter(prev: map<Id, Id>, next: map<Id, Id>, rank: map<Id, real>,
                  prev': map<Id, Id>, next': map<Id, Id>, rank': map<Id, real>, b: Id, x: Id, r: real)
    requires PrevRanked(prev, rank) && TrackId in rank && b in next
    requires x !in prev && x !in prev.Values && x != TrackId
    requires prev' == prev[x := b][next[b] := x] && next' == next[b := x][x := next[b]] && rank' == rank[x := r]
    requires PrevRanked(prev', rank')
    requires b in ChainOf(prev, rank) && ForwardLinked(next, Walk(prev, rank, TrackId))
    ensures ChainOf(prev', rank') == InsertAt(ChainOf(prev, rank), IndexOf(ChainOf(prev, rank), b) + 1, x)
    ensures ForwardLinked(next', Walk(prev', rank', TrackId))
  {
    ChainAfterInsertNext(prev, next, rank, b, x, r);
  }

  /** The first step of the splice: `inner` joins the chain right after `outer`. */
  lemma SpliceFirstStep(prev: map<Id, Id>, next: map<Id, Id>, rank: map<Id, real>,
                        prev1: map<Id, Id>, next1: map<Id, Id>, rank1: map<Id, real>,
                        prev': map<Id, Id>, rank': map<Id, real>, inner: Id, outer: Id, x: Id, r1: real, r2: real)
    requires PrevRanked(prev, rank) && TrackId in rank && outer in next
    requires inner !in prev && inner !in prev.Values && inner != TrackId
    requires x !in prev && x !in prev.Values && x != TrackId && x != inner && x != outer
    requires prev1 == prev[inner := outer][next[outer] := inner] && rank1 == rank[inner := r1]
    requires next1 == next[outer := inner][inner := next[outer]]
    requires prev' == prev[inner := outer][x := inner][next[outer] := x] && rank' == rank1[x := r2]
    requires PrevRanked(prev', rank')
    requires outer in ChainOf(prev, rank) && ForwardLinked(next, Walk(prev, rank, TrackId))
    ensures PrevRanked(prev1, rank1)
    ensures ChainOf(prev1, rank1) == InsertAt(ChainOf(prev, rank), IndexOf(ChainOf(prev, rank), outer) + 1, inner)
    ensures ForwardLinked(next1, Walk(prev1, rank1, TrackId))
    ensures inner in ChainOf(prev1, rank1) && IndexOf(ChainOf(prev1, rank1), inner) == IndexOf(ChainOf(prev, rank), outer) + 1
  {
    assert next[outer] in prev && prev[next[outer]] == outer by {
      NextOnChain(prev, next, rank, outer);
    }
    assert PrevRanked(prev1, rank1) by {
      SpliceMidRanked(prev, rank, prev', rank', inner, outer, next[outer], x, r1, r2);
    }
    InsertNextOutcome(prev, next, rank, outer, inner, r1);
  }

  /** InsertBlockAfter(x, b) for a block b of a doubly linked chain puts x right after b, and keeps the chain doubly linked. */
  lemma InsertNextOutcome(prev: map<Id, Id>, next: map<Id, Id>, rank: map<Id, real>, b: Id, x: Id, r: real)
    requires PrevRanked(prev, rank) && TrackId in rank && b in next
    requires PrevRanked(prev[x := b][next[b] := x], rank[x := r])
    requires x !in prev && x !in prev.Values && x != TrackId
    requires b in ChainOf(prev, rank) && ForwardLinked(next, Walk(prev, rank, TrackId))
    ensures var c, c' := ChainOf(prev, rank), ChainOf(prev[x := b][next[b] := x], rank[x := r]);
      && c' == InsertAt(c, IndexOf(c, b) + 1, x)
      && x in c' && IndexOf(c', x) == IndexOf(c, b) + 1
    ensures ForwardLinked(next[b := x][x := next[b]], Walk(prev[x := b][next[b] := x], rank[x := r], TrackId))
  {
    var c := ChainOf(prev, rank);
    ChainAfterInsertNext(prev, next, rank, b, x, r);
    assert x !in c by {
      OffWalk(prev, rank, x);
    }
    IndexOfInserted(c, IndexOf(c, b) + 1, x);
  }

  /** Where the splice's links are ranked, so are the links after its first step. */
  lemma SpliceMidRanked(prev: map<Id, Id>, rank: map<Id, real>, prev': map<Id, Id>, rank': map<Id, real>,
                        inner: Id, outer: Id, a: Id, x: Id, r1: real, r2: real)
    requires PrevRanked(prev, rank) && a in prev && prev[a] == outer
    requires inner !in prev && inner !in prev.Values && x !in prev && x !in prev.Values && x != inner
    requires prev' == prev[inner := outer][x := inner][a := x] && rank' == rank[inner := r1][x := r2]
    requires PrevRanked(prev', rank')
    ensures PrevRanked(prev[inner := outer][a := inner], rank[inner := r1])
  {
    var prev1, rank1 := prev[inner := outer][a := inner], rank[inner := r1];
    assert a != inner && a != x && outer != x && outer != inner;
    assert prev'[inner] == outer && prev'[x] == inner && prev'[a] == x;
    assert rank[outer] < r1 < rank[a];
    forall k | k in prev1
      ensures prev1[k] in rank1 && k in rank1 && rank1[prev1[k]] < rank1[k]
    {
      if k != inner && k != a {
        assert prev1[k] == prev[k] && prev[k] != inner;
      }
    }
  }

  /**
   * SpliceBlock's timing, once the chain is known: the chain goes through a
   * middle state where only `inner` has joined (after `outer`, whose length
   * is now `head`).  Then `outer` keeps its in-point, `inner` starts `head`
   * later, the new block x starts where `inner` ends and ends where `outer`
   * used to end, and the total length is unchanged.
   */
  lemma SpliceTimes(prev: map<Id, Id>, rank: map<Id, real>, length: map<Id, int>,
                    prev1: map<Id, Id>, rank1: map<Id, real>,
                    prev': map<Id, Id>, rank': map<Id, real>, length': map<Id, int>,
                    inner: Id, outer: Id, x: Id, head: int)
    requires Timeline(prev, rank, length) && outer in length && inner in length && x !in length
    requires outer in ChainOf(prev, rank) && inner !in ChainOf(prev, rank)
    requires Timeline(prev1, rank1, length[outer := head])
    requires ChainOf(prev1, rank1) == InsertAt(ChainOf(prev, rank), IndexOf(ChainOf(prev, rank), outer) + 1, inner)
    requires length' == length[outer := head][x := length[outer] - head - length[inner]]
    requires Timeline(prev', rank', length')
    requires ChainOf(prev', rank') == InsertAt(ChainOf(prev1, rank1), IndexOf(ChainOf(prev, rank), outer) + 2, x)
    requires inner in prev' && prev'[inner] == outer && x in prev' && prev'[x] == inner
    ensures In(prev', rank', length', outer) == In(prev, rank, length, outer)
    ensures In(prev', rank', length', inner) == In(prev, rank, length, outer) + head
    ensures In(prev', rank', length', x) == In(prev, rank, length, outer) + head + length[inner]
    ensures Out(prev', rank', length', x) == Out(prev, rank, length, outer)
    ensures In(prev', rank', length', TrackId) == In(prev, rank, length, TrackId)
  {
    var i := IndexOf(ChainOf(prev, rank), outer);
    var length1 := length[outer := head];
    var lx := length[outer] - head - length[inner];
    assert ChainOf(prev1, rank1)[i + 1] == inner;
    assert x !in ChainOf(prev1, rank1) by {
      WalkShape(prev1, rank1);
    }
    ResizedOne(length, outer, head, inner);
    ResizedOne(length1, x, lx, inner);
    JoinTimes(prev, rank, length, prev1, rank1, length1, i, outer, head, inner, length[inner]);
    JoinTimes(prev1, rank1, length1, prev', rank', length', i + 1, inner, length[inner], x, lx);
    InFollows(prev', rank', length', x);
    InFollows(prev', rank', length', inner);
  }

  /** A block that has a previous block starts where that block ends. */
  lemma InFollows(prev: map<Id, Id>, rank: map<Id, real>, length: map<Id, int>, b: Id)
    requires Timeline(prev, rank, length) && b in prev
    ensures b in rank && prev[b] in length
    ensures In(prev, rank, length, b) == In(prev, rank, length, prev[b]) + length[prev[b]]
  {
  }

  /**
   * The k-th position of chain + [track] when a block x of the same length
   * takes the place of the chain's i-th block: it keeps its in-point.
   */
  lemma ReplaceKeepsTime(prev: map<Id, Id>, rank: map<Id, real>, length: map<Id, int>,
                         prev': map<Id, Id>, rank': map<Id, real>, i: nat, x: Id, k: nat)
    requires Timeline(prev, rank, length) && Timeline(prev', rank', length)
    requires i < |ChainOf(prev, rank)| && k <= |ChainOf(prev, rank)| && x in length
    requires ChainOf(prev, rank)[i] in length && length[x] == length[ChainOf(prev, rank)[i]]
    requires ChainOf(prev', rank') == ChainOf(prev, rank)[i := x]
    ensures var w, w' := ChainOf(prev, rank) + [TrackId], ChainOf(prev', rank') + [TrackId];
      w[k] in rank && w'[k] in rank' && In(prev', rank', length, w'[k]) == In(prev, rank, length, w[k])
  {
    var c, c' := ChainOf(prev, rank), ChainOf(prev', rank');
    InOnChain(prev, rank, length, k);
    InOnChain(prev', rank', length, k);
    if k <= i {
      assert c'[..k] == c[..k];
    } else {
      assert c'[..k] == c[..k][i := x];
      SumReplace(length, c[..k], i, x);
    }
  }

  /**
   * When a block x of the same length takes the place of the i-th block of
   * the chain, every other block keeps its in-point, x starts where the
   * block it replaces started, and the total length is unchanged.
   */
  lemma ReplaceKeepsTimes(prev: map<Id, Id>, rank: map<Id, real>, length: map<Id, int>,
                          prev': map<Id, Id>, rank': map<Id, real>, i: nat, x: Id)
    requires Timeline(prev, rank, length) && Timeline(prev', rank', length)
    requires i < |ChainOf(prev, rank)| && x in length
    requires ChainOf(prev, rank)[i] in length && length[x] == length[ChainOf(prev, rank)[i]]
    requires ChainOf(prev', rank') == ChainOf(prev, rank)[i := x]
    ensures forall k | 0 <= k < |ChainOf(prev, rank)| && k != i ::
      && ChainOf(prev, rank)[k] in rank && ChainOf(prev, rank)[k] in rank'
      && In(prev', rank', length, ChainOf(prev, rank)[k]) == In(prev, rank, length, ChainOf(prev, rank)[k])
    ensures x in rank' && ChainOf(prev, rank)[i] in rank
    ensures In(prev', rank', length, x) == In(prev, rank, length, ChainOf(prev, rank)[i])
    ensures In(prev', rank', length, TrackId) == In(prev, rank, length, TrackId)
  {
    var c, c' := ChainOf(prev, rank), ChainOf(prev', rank');
    forall k | 0 <= k < |c| && k != i
      ensures c[k] in rank && c[k] in rank' && In(prev', rank', length, c[k]) == In(prev, rank, length, c[k])
    {
      ReplaceKeepsTime(prev, rank, length, prev', rank', i, x, k);
      assert (c + [TrackId])[k] == c[k] && (c' + [TrackId])[k] == c[k];
    }
    ReplaceKeepsTime(prev, rank, length, prev', rank', i, x, i);
    assert (c + [TrackId])[i] == c[i] && (c' + [TrackId])[i] == x;
    ReplaceKeepsTime(prev, rank, length, prev', rank', i, x, |c|);
    assert (c + [TrackId])[|c|] == TrackId && (c' + [TrackId])[|c|] == TrackId;
  }

  /**
   * RemoveBlock(b) for a block b of a doubly linked chain that has a previous
   * block: the gap, already given b's length, takes b's place in the chain,
   * the chain stays doubly linked, the gap starts where b started, and the
   * total length is unchanged.  ReplaceKeepsTimes gives every other block's
   * in-point.
   */
  lemma RemoveInnerOutcome(prev: map<Id, Id>, next: map<Id, Id>, rank: map<Id, real>, length: map<Id, int>,
                           prev': map<Id, Id>, next': map<Id, Id>, rank': map<Id, real>, b: Id, gap: Id, r: real)
    requires Timeline(prev, rank, length) && NextRanked(next, rank)
    requires b in ChainOf(prev, rank) && b in prev && b in next && b in length
    requires ForwardLinked(next, Walk(prev, rank, TrackId))
    requires gap in length && length[gap] == length[b] && gap != TrackId
    requires gap !in prev && gap !in prev.Values && gap !in next.Values
    requires prev' == RippledPrev(prev, next, b)[gap := prev[b]][next[b] := gap]
    requires next' == RippledNext(prev, next, b)[prev[b] := gap][gap := next[b]]
    requires rank' == rank[gap := r] && Timeline(prev', rank', length)
    ensures ChainOf(prev', rank') == ChainOf(prev, rank)[IndexOf(ChainOf(prev, rank), b) := gap]
    ensures ForwardLinked(next', Walk(prev', rank', TrackId))
    ensures In(prev', rank', length, gap) == In(prev, rank, length, b)
    ensures In(prev', rank', length, TrackId) == In(prev, rank, length, TrackId)
  {
    var c := ChainOf(prev, rank);
    var i := IndexOf(c, b);
    RippleRanked(prev, next, rank, b);
    ChainAfterRipple(prev, next, rank, b);
    RippleInnerStep(prev, next, rank, b, gap);
    InsertBetweenOutcome(RippledPrev(prev, next, b), RippledNext(prev, next, b), rank, length, prev[b], next[b], gap, r);
    RemoveThenInsertOther(c, i, gap);
    ReplaceKeepsTimes(prev, rank, length, prev', rank', i, gap);
  }

  /**
   * Rippling out a block b of a doubly linked chain that has a previous block
   * links its neighbours to each other, keeps its next block where b stood in
   * the walk, and leaves an id that no link touched untouched.
   */
  lemma RippleInnerStep(prev: map<Id, Id>, next: map<Id, Id>, rank: map<Id, real>, b: Id, gap: Id)
    requires PrevRanked(prev, rank) && NextRanked(next, rank) && TrackId in rank
    requires b in ChainOf(prev, rank) && b in prev && b in next
    requires ForwardLinked(next, Walk(prev, rank, TrackId))
    requires gap !in prev && gap !in prev.Values
    requires PrevRanked(RippledPrev(prev, next, b), rank)
    requires ChainOf(RippledPrev(prev, next, b), rank) == RemoveAt(ChainOf(prev, rank), IndexOf(ChainOf(prev, rank), b))
    ensures var prev1, c := RippledPrev(prev, next, b), ChainOf(prev, rank);
      && next[b] in Walk(prev1, rank, TrackId) && next[b] in prev1 && prev1[next[b]] == prev[b]
      && IndexOf(Walk(prev1, rank, TrackId), next[b]) == IndexOf(c, b)
      && gap !in prev1
  {
    var c, w := ChainOf(prev, rank), Walk(prev, rank, TrackId);
    var i := IndexOf(c, b);
    var prev1 := RippledPrev(prev, next, b);
    assert next[b] in prev && w[i + 1] == next[b] by {
      NextOnChain(prev, next, rank, b);
    }
    assert next[b] in prev1 && prev1[next[b]] == prev[b] && gap !in prev1;
    var w1 := Walk(prev1, rank, TrackId);
    assert w1[i] == next[b] && IndexOf(w1, next[b]) == i by {
      WalkShape(prev1, rank);
      IndexOfDistinct(w1, i);
    }
  }

  /**
   * RemoveBlock(b) as written, for the first block b of a doubly linked chain
   * whose cache lists the chain: the gap is prepended in front of the
   * cache's first entry, which is b itself, already unlinked.  So the gap
   * never reaches the track: b leaves the chain still linked back to the
   * gap, and the total length drops by b's length, as a ripple remove would.
   */
  lemma RemoveFirstOutcome(prev: map<Id, Id>, next: map<Id, Id>, rank: map<Id, real>, length: map<Id, int>,
                           prev': map<Id, Id>, next': map<Id, Id>, rank': map<Id, real>, b: Id, gap: Id, r: real)
    requires Timeline(prev, rank, length) && NextRanked(next, rank)
    requires ChainOf(prev, rank) != [] && ChainOf(prev, rank)[0] == b && b in length
    requires ForwardLinked(next, Walk(prev, rank, TrackId))
    requires gap != TrackId && gap !in prev && gap !in prev.Values
    requires prev' == PrependedPrev(RippledPrev(prev, next, b), ChainOf(prev, rank), gap)
    requires next' == PrependedNext(RippledNext(prev, next, b), ChainOf(prev, rank), gap)
    requires rank' == rank[gap := r] && Timeline(prev', rank', length)
    ensures ChainOf(prev', rank') == ChainOf(prev, rank)[1..]
    ensures gap !in ChainOf(prev', rank') && b !in ChainOf(prev', rank')
    ensures b in prev' && prev'[b] == gap
    ensures In(prev', rank', length, TrackId) == In(prev, rank, length, TrackId) - length[b]
    ensures ForwardLinked(next', Walk(prev', rank', TrackId))
  {
    RemoveFirstChain(prev, next, rank, prev', rank', b, gap);
    DropFirstTotal(prev, rank, prev', rank', length);
    RippleFirst(prev, next, rank);
    ForwardAside(RippledNext(prev, next, b), Walk(prev', rank', TrackId), gap, b);
  }

  /** When the chain loses its first block, the total length loses that block's length. */
  lemma DropFirstTotal(prev: map<Id, Id>, rank: map<Id, real>, prev': map<Id, Id>, rank': map<Id, real>,
                       length: map<Id, int>)
    requires Timeline(prev, rank, length) && Timeline(prev', rank', length) && ChainOf(prev, rank) != []
    requires ChainOf(prev', rank') == ChainOf(prev, rank)[1..]
    ensures ChainOf(prev, rank)[0] in length
    ensures In(prev', rank', length, TrackId) == In(prev, rank, length, TrackId) - length[ChainOf(prev, rank)[0]]
  {
    var c := ChainOf(prev, rank);
    TotalOnChain(prev, rank, length);
    TotalOnChain(prev', rank', length);
    assert c[0] in c && IndexOf(c, c[0]) == 0 && RemoveAt(c, 0) == c[1..];
    SumRemoveAt(length, c, 0);
  }

  /**
   * The links RemoveBlock(b) leaves for the first block b of a doubly linked
   * chain whose cache lists the chain: b leaves the chain, and so does the
   * gap, which only b links back to.
   */
  lemma RemoveFirstChain(prev: map<Id, Id>, next: map<Id, Id>, rank: map<Id, real>,
                         prev': map<Id, Id>, rank': map<Id, real>, b: Id, gap: Id)
    requires PrevRanked(prev, rank) && NextRanked(next, rank) && TrackId in rank
    requires ChainOf(prev, rank) != [] && ChainOf(prev, rank)[0] == b
    requires ForwardLinked(next, Walk(prev, rank, TrackId))
    requires gap != TrackId && gap !in prev.Values
    requires prev' == PrependedPrev(RippledPrev(prev, next, b), ChainOf(prev, rank), gap)
    requires PrevRanked(prev', rank') && TrackId in rank'
    ensures PrevRanked(RippledPrev(prev, next, b), rank)
    ensures ChainOf(RippledPrev(prev, next, b), rank) == ChainOf(prev, rank)[1..]
    ensures ChainOf(prev', rank') == ChainOf(prev, rank)[1..]
    ensures gap !in ChainOf(prev', rank') && b !in ChainOf(prev', rank')
    ensures b in prev' && prev'[b] == gap
  {
    var c := ChainOf(prev, rank);
    var prev1 := RippledPrev(prev, next, b);
    RippleRanked(prev, next, rank, b);
    RippleFirst(prev, next, rank);
    FirstOffTail(prev, rank);
    assert prev' == prev1[b := gap];
    ChainAfterOffLink(prev1, rank, rank', b, gap);
    OffWalk(prev, rank, gap);
    assert c[1..] + [TrackId] == Walk(prev, rank, TrackId)[1..];
  }

  /**
   * RemoveBlock(b) with the first-block case corrected, for the first block b
   * of a doubly linked chain: the gap is linked in front of b's former next
   * block, so it takes b's place like for any other block.
   */
  lemma RemoveCorrectedOutcome(prev: map<Id, Id>, next: map<Id, Id>, rank: map<Id, real>, length: map<Id, int>,
                               prev': map<Id, Id>, next': map<Id, Id>, rank': map<Id, real>, b: Id, gap: Id, r: real)
    requires Timeline(prev, rank, length) && NextRanked(next, rank)
    requires ChainOf(prev, rank) != [] && ChainOf(prev, rank)[0] == b && b in next && b in length
    requires ForwardLinked(next, Walk(prev, rank, TrackId))
    requires gap in length && length[gap] == length[b] && gap != TrackId
    requires gap !in prev && gap !in prev.Values && gap !in next.Values
    requires prev' == RippledPrev(prev, next, b)[next[b] := gap]
    requires next' == RippledNext(prev, next, b)[gap := next[b]]
    requires rank' == rank[gap := r] && Timeline(prev', rank', length)
    ensures ChainOf(prev', rank') == ChainOf(prev, rank)[0 := gap]
    ensures ForwardLinked(next', Walk(prev', rank', TrackId))
    ensures In(prev', rank', length, gap) == 0
    ensures In(prev', rank', length, TrackId) == In(prev, rank, length, TrackId)
  {
    var c := ChainOf(prev, rank);
    RemoveCorrectedChain(prev, next, rank, prev', next', rank', b, gap, r);
    FirstReplaced(c, gap);
    ReplaceKeepsTimes(prev, rank, length, prev', rank', 0, gap);
    InOnChain(prev', rank', length, 0);
    assert ([gap] + c[1..] + [TrackId])[0] == gap && ([gap] + c[1..])[..0] == [];
  }

  /** Replacing the first element of a sequence. */
  lemma FirstReplaced(s: seq<Id>, x: Id)
    requires s != []
    ensures s[0 := x] == [x] + s[1..]
  {
  }

  /** The links RemoveBlock(b) leaves with the first-block case corrected: the gap in b's place. */
  lemma RemoveCorrectedChain(prev: map<Id, Id>, next: map<Id, Id>, rank: map<Id, real>,
                             prev': map<Id, Id>, next': map<Id, Id>, rank': map<Id, real>, b: Id, gap: Id, r: real)
    requires PrevRanked(prev, rank) && NextRanked(next, rank) && TrackId in rank
    requires ChainOf(prev, rank) != [] && ChainOf(prev, rank)[0] == b && b in next
    requires ForwardLinked(next, Walk(prev, rank, TrackId))
    requires gap != TrackId && gap !in prev && gap !in prev.Values
    requires prev' == RippledPrev(prev, next, b)[next[b] := gap]
    requires next' == RippledNext(prev, next, b)[gap := next[b]]
    requires rank' == rank[gap := r] && PrevRanked(prev', rank')
    ensures ChainOf(prev', rank') == [gap] + ChainOf(prev, rank)[1..]
    ensures ForwardLinked(next', Walk(prev', rank', TrackId))
  {
    var c, w := ChainOf(prev, rank), Walk(prev, rank, TrackId);
    var prev1, next1 := RippledPrev(prev, next, b), RippledNext(prev, next, b);
    assert PrevRanked(prev1, rank) && ChainOf(prev1, rank) == c[1..]
        && ForwardLinked(next1, Walk(prev1, rank, TrackId)) by {
      RippleRanked(prev, next, rank, b);
      RippleFirst(prev, next, rank);
    }
    assert gap !in prev1 && gap !in prev1.Values by {
      RippleRanked(prev, next, rank, b);
      RippleLinks(prev, next, rank, b);
    }
    assert next[b] == (c + [TrackId])[1] by {
      assert w[0] == b;
    }
    if |c| == 1 {
      assert next[b] == TrackId && c[1..] == [];
      ChainAfterConnectAlone(prev1, next1, rank, gap, r);
    } else {
      assert c[1..][0] == next[b];
      ChainAfterPrepend(prev1, next1, rank, next[b], gap, r);
    }
  }

  /** Ranking a block that nothing links to leaves the chain as it was. */
  lemma RankAside(prev: map<Id, Id>, rank: map<Id, real>, cache: seq<Id>, gap: Id, rg: real)
    requires PrevRanked(prev, rank) && TrackId in rank && PrevRanked(prev, rank[gap := rg])
    requires cache == ChainOf(prev, rank) && gap != TrackId && gap !in prev.Values
    ensures ChainOf(prev, rank[gap := rg]) == cache
    ensures Increasing(rank[gap := rg], cache + [TrackId])
  {
    var w, rank1 := Walk(prev, rank, TrackId), rank[gap := rg];
    WalkFacts(prev, rank, TrackId);
    WalkUnique(prev, rank1, w);
    ChainOfIs(prev, rank1, cache);
    OffWalk(prev, rank, gap);
    IncreasingAside(rank, w, gap, rg);
  }

  /** Ranking an id that no link touches keeps the links ranked. */
  lemma PrevRankedAside(prev: map<Id, Id>, rank: map<Id, real>, gap: Id, rg: real)
    requires PrevRanked(prev, rank) && gap !in prev && gap !in prev.Values
    ensures PrevRanked(prev, rank[gap := rg])
  {
    forall b | b in prev ensures b in rank[gap := rg] && prev[b] in rank[gap := rg] && rank[gap := rg][prev[b]] < rank[gap := rg][b] {
      assert b != gap && prev[b] != gap;
    }
  }

  /** Dropping a link keeps the others ranked. */
  lemma PrevRankedDrop(prev: map<Id, Id>, rank: map<Id, real>, k: Id, v: Id)
    requires PrevRanked(prev[k := v], rank) && k !in prev
    ensures PrevRanked(prev, rank)
  {
    forall b | b in prev ensures b in rank && prev[b] in rank && rank[prev[b]] < rank[b] {
      assert b in prev[k := v] && prev[k := v][b] == prev[b];
    }
  }

  /** Ranking an id that s does not hold keeps s increasing. */
  lemma IncreasingAside(rank: map<Id, real>, s: seq<Id>, gap: Id, rg: real)
    requires Increasing(rank, s) && gap !in s
    ensures Increasing(rank[gap := rg], s)
  {
    forall i | 0 <= i < |s| ensures s[i] in rank[gap := rg] && rank[gap := rg][s[i]] == rank[s[i]] {
      assert s[i] != gap;
    }
  }

  /**
   * PlaceBlock(x, start) past the end with a gap, as written, for a cache that
   * lists the chain: AppendBlock(gap) and then AppendBlock(x) both read the
   * same cache, so x is linked after the cache's last block and overwrites
   * the track's link to the gap.  The gap drops out of the chain, and x starts
   * where the track ended instead of at `start`.
   */
  lemma PlacePastEndOutcome(prev: map<Id, Id>, next: map<Id, Id>, rank: map<Id, real>, length: map<Id, int>, cache: seq<Id>,
                            prev': map<Id, Id>, next': map<Id, Id>, rank': map<Id, real>, gap: Id, x: Id, rg: real, rx: real)
    requires Timeline(prev, rank, length) && cache == ChainOf(prev, rank)
    requires ForwardLinked(next, Walk(prev, rank, TrackId))
    requires gap in length && x in length && gap != x && gap != TrackId && x != TrackId
    requires gap !in prev && gap !in prev.Values && x !in prev && x !in prev.Values
    requires prev' == AppendedPrev(AppendedPrev(prev, cache, gap), cache, x)
    requires next' == AppendedNext(AppendedNext(next, cache, gap), cache, x)
    requires rank' == rank[gap := rg][x := rx] && Timeline(prev', rank', length)
    ensures ChainOf(prev', rank') == cache + [x]
    ensures gap !in ChainOf(prev', rank')
    ensures ForwardLinked(next', Walk(prev', rank', TrackId))
    ensures In(prev', rank', length, x) == In(prev, rank, length, TrackId)
    ensures In(prev', rank', length, TrackId) == In(prev, rank, length, TrackId) + length[x]
  {
    PlacePastEndChain(prev, rank, length, cache, prev', rank', gap, x, rg, rx);
    PlacePastEndForward(prev, next, rank, cache, next', gap, x);
    InOnChain(prev', rank', length, |cache|);
    TotalOnChain(prev, rank, length);
    TotalOnChain(prev', rank', length);
    var c' := cache + [x];
    assert (c' + [TrackId])[|cache|] == x && c'[..|cache|] == cache && c'[..|c'| - 1] == cache;
  }

  /**
   * Appending the gap and then x against the same cache leaves the links of
   * appending x alone, plus the gap's own link back to the cache's last block.
   */
  lemma AppendTwiceLinks(prev: map<Id, Id>, cache: seq<Id>, gap: Id, x: Id)
    requires gap != x && gap != TrackId && x != TrackId && gap !in prev && gap !in cache
    ensures cache == [] ==> AppendedPrev(AppendedPrev(prev, cache, gap), cache, x) == AppendedPrev(prev, cache, x)
    ensures cache != [] ==>
      && gap !in AppendedPrev(prev, cache, x)
      && AppendedPrev(AppendedPrev(prev, cache, gap), cache, x) == AppendedPrev(prev, cache, x)[gap := cache[|cache| - 1]]
  {
    if cache == [] {
      Overwritten(prev, TrackId, gap, gap, gap, x);
    } else {
      var last := cache[|cache| - 1];
      Overwritten(prev[gap := last], TrackId, x, gap, last, x);
      assert prev[gap := last][x := last][TrackId := x] == prev[x := last][TrackId := x][gap := last];
    }
  }

  /** The chain PlaceBlock(x, start) leaves past the end with a gap, as written. */
  lemma PlacePastEndChain(prev: map<Id, Id>, rank: map<Id, real>, length: map<Id, int>, cache: seq<Id>,
                          prev': map<Id, Id>, rank': map<Id, real>, gap: Id, x: Id, rg: real, rx: real)
    requires Timeline(prev, rank, length) && cache == ChainOf(prev, rank)
    requires gap in length && x in length && gap != x && gap != TrackId && x != TrackId
    requires gap !in prev && gap !in prev.Values && x !in prev && x !in prev.Values
    requires prev' == AppendedPrev(AppendedPrev(prev, cache, gap), cache, x)
    requires rank' == rank[gap := rg][x := rx] && Timeline(prev', rank', length)
    ensures ChainOf(prev', rank') == cache + [x]
    ensures gap !in cache
  {
    var rank1 := rank[gap := rg];
    var p1 := AppendedPrev(prev, cache, x);
    assert gap !in cache by {
      OffWalk(prev, rank, gap);
    }
    assert Timeline(prev, rank1, length) && ChainOf(prev, rank1) == cache && Increasing(rank1, cache + [TrackId]) by {
      PrevRankedAside(prev, rank, gap, rg);
      RankAside(prev, rank, cache, gap, rg);
    }
    if cache == [] {
      AppendTwiceLinks(prev, cache, gap, x);
      AppendOutcome(prev, map[], rank1, length, cache, x, rx);
    } else {
      PlacePastEndBehind(prev, rank1, length, cache, prev', rank', gap, x, rx);
    }
  }

  /** PlacePastEndChain when the chain is not empty: the gap hangs off the chain's last block. */
  lemma PlacePastEndBehind(prev: map<Id, Id>, rank: map<Id, real>, length: map<Id, int>, cache: seq<Id>,
                           prev': map<Id, Id>, rank': map<Id, real>, gap: Id, x: Id, rx: real)
    requires Timeline(prev, rank, length) && cache == ChainOf(prev, rank) && cache != []
    requires Increasing(rank, cache + [TrackId])
    requires x in length && gap != x && gap != TrackId && x != TrackId
    requires gap !in prev && gap !in prev.Values && gap !in cache && x !in prev && x !in prev.Values
    requires prev' == AppendedPrev(AppendedPrev(prev, cache, gap), cache, x)
    requires rank' == rank[x := rx] && Timeline(prev', rank', length)
    ensures ChainOf(prev', rank') == cache + [x]
  {
    var p1 := AppendedPrev(prev, cache, x);
    var last := cache[|cache| - 1];
    AppendTwiceLinks(prev, cache, gap, x);
    assert PrevRanked(p1, rank') by {
      PrevRankedDrop(p1, rank', gap, last);
    }
    assert ChainOf(p1, rank') == cache + [x] by {
      AppendOutcome(prev, map[], rank, length, cache, x, rx);
    }
    OffWalk(p1, rank', gap);
    ChainAfterOffLink(p1, rank', rank', gap, last);
  }

  /** AppendBlock(x) against a cache that lists the chain keeps the `next` links in step with the chain. */
  lemma AppendForward(prev: map<Id, Id>, next: map<Id, Id>, rank: map<Id, real>, cache: seq<Id>, x: Id)
    requires PrevRanked(prev, rank) && TrackId in rank && cache == ChainOf(prev, rank)
    requires ForwardLinked(next, Walk(prev, rank, TrackId))
    requires x !in cache && x != TrackId
    ensures ForwardLinked(AppendedNext(next, cache, x), cache + [x] + [TrackId])
    ensures Distinct(cache + [x] + [TrackId])
  {
    WalkShape(prev, rank);
    if cache != [] {
      ChainForwardInsert(next, cache, TrackId, |cache|, x);
      InsertAtEnds(cache, x);
    }
    DistinctAppendFresh(cache, x, TrackId);
  }

  /** The `next` links PlaceBlock(x, start) leaves past the end with a gap, as written, follow the chain. */
  lemma PlacePastEndForward(prev: map<Id, Id>, next: map<Id, Id>, rank: map<Id, real>, cache: seq<Id>,
                            next': map<Id, Id>, gap: Id, x: Id)
    requires PrevRanked(prev, rank) && TrackId in rank && cache == ChainOf(prev, rank)
    requires ForwardLinked(next, Walk(prev, rank, TrackId))
    requires gap !in cache && x !in cache && gap != x && gap != TrackId && x != TrackId
    requires next' == AppendedNext(AppendedNext(next, cache, gap), cache, x)
    ensures ForwardLinked(next', cache + [x] + [TrackId])
  {
    var n1 := AppendedNext(next, cache, x);
    if cache == [] {
      assert next' == next[gap := TrackId][x := TrackId] == n1[gap := TrackId];
    } else {
      var last := cache[|cache| - 1];
      Overwritten(next, last, gap, gap, TrackId, x);
      assert next' == next[gap := TrackId][last := x][x := TrackId] == n1[gap := TrackId];
    }
    AppendForward(prev, next, rank, cache, x);
    assert (cache + [x] + [TrackId])[..|cache| + 1] == cache + [x];
    ForwardAside(n1, cache + [x] + [TrackId], gap, TrackId);
  }

  /**
   * PlaceBlock(x, start) past the end with the gap corrected: x is inserted
   * between the gap and the track rather than appended against the cache.
   * The chain grows by the gap and then x, the gap starts where the track
   * ended, and x starts after the gap, at `start` when the gap's length is
   * start - in().
   */
  lemma PlacePastEndCorrectedOutcome(prev: map<Id, Id>, next: map<Id, Id>, rank: map<Id, real>, length: map<Id, int>, cache: seq<Id>,
                                     prev': map<Id, Id>, next': map<Id, Id>, rank': map<Id, real>, gap: Id, x: Id, rg: real, rx: real)
    requires Timeline(prev, rank, length) && cache == ChainOf(prev, rank)
    requires ForwardLinked(next, Walk(prev, rank, TrackId))
    requires gap in length && x in length && gap != x && gap != TrackId && x != TrackId
    requires gap !in prev && gap !in prev.Values && x !in prev && x !in prev.Values
    requires prev' == AppendedPrev(prev, cache, gap)[x := gap][TrackId := x]
    requires next' == AppendedNext(next, cache, gap)[gap := x][x := TrackId]
    requires rank' == rank[gap := rg][x := rx] && Timeline(prev', rank', length)
    ensures ChainOf(prev', rank') == cache + [gap, x]
    ensures ForwardLinked(next', Walk(prev', rank', TrackId))
    ensures In(prev', rank', length, gap) == In(prev, rank, length, TrackId)
    ensures In(prev', rank', length, x) == In(prev, rank, length, TrackId) + length[gap]
    ensures In(prev', rank', length, TrackId) == In(prev, rank, length, TrackId) + length[gap] + length[x]
  {
    PlacePastEndCorrectedChain(prev, rank, length, cache, prev', rank', gap, x, rg, rx);
    PlacePastEndCorrectedForward(prev, next, rank, cache, next', gap, x);
    InOnChain(prev', rank', length, |cache|);
    TotalOnChain(prev, rank, length);
    PairEnds(cache, gap, x);
  }

  /** Where a sequence extended by two elements holds them. */
  lemma PairEnds(s: seq<Id>, a: Id, b: Id)
    ensures (s + [a, b] + [TrackId])[|s|] == a && (s + [a, b])[..|s|] == s && s + [a] + [b] == s + [a, b]
  {
  }

  /** The chain and end points PlaceBlock(x, start) leaves past the end with the gap corrected. */
  lemma PlacePastEndCorrectedChain(prev: map<Id, Id>, rank: map<Id, real>, length: map<Id, int>, cache: seq<Id>,
                                   prev': map<Id, Id>, rank': map<Id, real>, gap: Id, x: Id, rg: real, rx: real)
    requires Timeline(prev, rank, length) && cache == ChainOf(prev, rank)
    requires gap in length && x in length && gap != x && gap != TrackId && x != TrackId
    requires gap !in prev && gap !in prev.Values && x !in prev && x !in prev.Values
    requires prev' == AppendedPrev(prev, cache, gap)[x := gap][TrackId := x]
    requires rank' == rank[gap := rg][x := rx] && Timeline(prev', rank', length)
    ensures ChainOf(prev', rank') == cache + [gap] + [x]
    ensures In(prev', rank', length, x) == In(prev, rank, length, TrackId) + length[gap]
    ensures In(prev', rank', length, TrackId) == In(prev, rank, length, TrackId) + length[gap] + length[x]
  {
    var p1, rank1 := AppendedPrev(prev, cache, gap), rank[gap := rg];
    assert x !in p1 && x !in p1.Values && TrackId in p1 && p1[TrackId] == gap;
    assert Timeline(p1, rank1, length) by {
      PrevRankedUnderInsert(p1, rank1, gap, TrackId, x, rx);
    }
    var c1 := cache + [gap];
    assert ChainOf(p1, rank1) == c1 && In(p1, rank1, length, TrackId) == In(prev, rank, length, TrackId) + length[gap] by {
      WalkFacts(prev, rank, TrackId);
      AppendOutcome(prev, map[], rank, length, cache, gap, rg);
    }
    var w1 := Walk(p1, rank1, TrackId);
    WalkFacts(p1, rank1, TrackId);
    assert w1[|w1| - 1] == TrackId;
    CacheLast(p1, rank1, c1, x);
    InsertBetweenOutcome(p1, map[], rank1, length, gap, TrackId, x, rx);
  }

  /** The `next` links PlaceBlock(x, start) leaves past the end with the gap corrected follow the chain. */
  lemma PlacePastEndCorrectedForward(prev: map<Id, Id>, next: map<Id, Id>, rank: map<Id, real>, cache: seq<Id>,
                                     next': map<Id, Id>, gap: Id, x: Id)
    requires PrevRanked(prev, rank) && TrackId in rank && cache == ChainOf(prev, rank)
    requires ForwardLinked(next, Walk(prev, rank, TrackId))
    requires gap !in cache && x !in cache && gap != x && gap != TrackId && x != TrackId
    requires next' == AppendedNext(next, cache, gap)[gap := x][x := TrackId]
    ensures ForwardLinked(next', cache + [gap, x] + [TrackId])
  {
    var c1 := cache + [gap];
    AppendForward(prev, next, rank, cache, gap);
    assert x !in c1 + [TrackId];
    ChainForwardInsert(AppendedNext(next, cache, gap), c1, TrackId, |c1|, x);
    InsertAtEnds(c1, x);
    assert (c1 + [TrackId])[|c1|] == TrackId && c1[|c1| - 1] == gap && c1 + [x] == cache + [gap, x];
  }

  /** Links ranked after inserting x between `before` and `after` were ranked before it. */
  lemma PrevRankedUnderInsert(prev: map<Id, Id>, rank: map<Id, real>, before: Id, after: Id, x: Id, r: real)
    requires PrevRanked(prev[x := before][after := x], rank[x := r])
    requires x !in prev && x !in prev.Values && x != after && after in prev && prev[after] == before
    ensures PrevRanked(prev, rank)
  {
    var p', rank' := prev[x := before][after := x], rank[x := r];
    forall b | b in prev ensures b in rank && prev[b] in rank && rank[prev[b]] < rank[b] {
      assert b != x && prev[b] != x;
      if b == after {
        assert p'[x] == before && p'[after] == x;
      } else {
        assert p'[b] == prev[b];
      }
    }
  }
}
