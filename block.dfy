/**
 * The block capability a track relies on.  A block is named by an id; its
 * `previous` and `next` neighbours are given by two link maps, and its length
 * by a length map.  A block's in-point is the out-point of its previous block,
 * or 0 when it has none; its out-point is its in-point plus its length.
 *
 * Links are acyclic: a ghost rank decreases along every `previous` link and
 * increases along every `next` link, so every walk along links is finite.
 */
module Block {

  type Id = int

  /** The track node's own id: it is the end sentinel of its chain of blocks. */
  const TrackId: Id := 0

  datatype Option<T> = None | Some(value: T)

  /** Every `previous` link leads to a block of lower rank. */
  ghost predicate PrevRanked(prev: map<Id, Id>, rank: map<Id, real>)
  {
    forall b | b in prev :: b in rank && prev[b] in rank && rank[prev[b]] < rank[b]
  }

  /** Every `next` link leads to a block of higher rank. */
  ghost predicate NextRanked(next: map<Id, Id>, rank: map<Id, real>)
  {
    forall a | a in next :: a in rank && next[a] in rank && rank[a] < rank[next[a]]
  }

  /** The ids ranked strictly below b: shrinks along every `previous` link. */
  ghost function Below(rank: map<Id, real>, b: Id): set<Id>
    requires b in rank
  {
    set k | k in rank && rank[k] < rank[b]
  }

  /** s is ranked and each element ranks strictly above the one before it. */
  ghost predicate Increasing(rank: map<Id, real>, s: seq<Id>)
  {
    (forall i | 0 <= i < |s| :: s[i] in rank) &&
    (forall i | 0 < i < |s| :: rank[s[i - 1]] < rank[s[i]])
  }

  ghost predicate Distinct<T>(s: seq<T>)
  {
    forall i, j | 0 <= i < j < |s| :: s[i] != s[j]
  }

  /** A new element put in front of the last one keeps a sequence free of repeats. */
  lemma DistinctAppendFresh(c: seq<Id>, x: Id, t: Id)
    requires Distinct(c + [t]) && x !in c && x != t
    ensures Distinct(c + [x] + [t])
  {
    var s := c + [x] + [t];
    forall i, j | 0 <= i < j < |s| ensures s[i] != s[j] {
      if j < |c| {
        assert s[i] == (c + [t])[i] && s[j] == (c + [t])[j];
      } else if j == |c| + 1 && i < |c| {
        assert s[i] == (c + [t])[i] && s[j] == (c + [t])[|c|];
      }
    }
  }

  /**
   * w is a complete backward walk, earliest first: its first block has no
   * previous block and every other block's previous block is the one before it.
   */
  ghost predicate IsWalk(prev: map<Id, Id>, w: seq<Id>)
  {
    |w| > 0 && w[0] !in prev &&
    forall i | 0 < i < |w| :: w[i] in prev && prev[w[i]] == w[i - 1]
  }

  /** The element before position k of w, None at the front. */
  function Before(w: seq<Id>, k: nat): Option<Id>
    requires k <= |w|
  {
    if k == 0 then None else Some(w[k - 1])
  }

  /** Every block of w except the last has the following block of w as its next block. */
  ghost predicate ForwardLinked(next: map<Id, Id>, w: seq<Id>)
  {
    forall i | 0 <= i < |w| - 1 :: w[i] in next && next[w[i]] == w[i + 1]
  }

  /** The blocks reached from b by following `previous` links, earliest first, ending with b. */
  ghost function Walk(prev: map<Id, Id>, rank: map<Id, real>, b: Id): (w: seq<Id>)
    requires PrevRanked(prev, rank) && b in rank
    ensures |w| > 0 && w[|w| - 1] == b && w[0] !in prev
    ensures forall i | 0 <= i < |w| :: w[i] in rank
    ensures forall i | 0 < i < |w| :: w[i] in prev
    decreases Below(rank, b)
  {
    if b in prev then
      assert prev[b] in Below(rank, b);
      Walk(prev, rank, prev[b]) + [b]
    else
      [b]
  }

  /** The walk from b is a complete backward walk, increasing in rank. */
  lemma {:induction false} WalkFacts(prev: map<Id, Id>, rank: map<Id, real>, b: Id)
    requires PrevRanked(prev, rank) && b in rank
    ensures IsWalk(prev, Walk(prev, rank, b)) && Increasing(rank, Walk(prev, rank, b))
    decreases Below(rank, b)
  {
    if b in prev {
      assert prev[b] in Below(rank, b);
      WalkFacts(prev, rank, prev[b]);
    }
  }

  lemma {:induction false} IncreasingOrdered(rank: map<Id, real>, s: seq<Id>, i: nat, j: nat)
    requires Increasing(rank, s) && i < j < |s|
    ensures rank[s[i]] < rank[s[j]]
    decreases j - i
  {
    if i < j - 1 {
      IncreasingOrdered(rank, s, i, j - 1);
    }
  }

  /** An increasing sequence has no repeats. */
  lemma IncreasingDistinct(rank: map<Id, real>, s: seq<Id>)
    requires Increasing(rank, s)
    ensures Distinct(s)
  {
    forall i, j | 0 <= i < j < |s| ensures s[i] != s[j] {
      IncreasingOrdered(rank, s, i, j);
    }
  }

  /** A complete backward walk ending at b is the walk from b: there is only one. */
  lemma {:induction false} WalkUnique(prev: map<Id, Id>, rank: map<Id, real>, w: seq<Id>)
    requires PrevRanked(prev, rank) && IsWalk(prev, w) && w[|w| - 1] in rank
    ensures w == Walk(prev, rank, w[|w| - 1])
  {
    if |w| > 1 {
      var w' := w[..|w| - 1];
      var last := w[|w| - 1];
      assert last in prev && prev[last] == w[|w| - 2];
      assert prev[last] in rank;
      assert IsWalk(prev, w') && w'[|w'| - 1] == w[|w| - 2];
      WalkUnique(prev, rank, w');
      assert w == w' + [w[|w| - 1]];
    }
  }

  /** Block::in(): the out-point of the previous block, 0 when there is none. */
  function In(prev: map<Id, Id>, ghost rank: map<Id, real>, length: map<Id, int>, b: Id): int
    requires PrevRanked(prev, rank) && prev.Values <= length.Keys && b in rank
    decreases Below(rank, b)
  {
    if b in prev then
      assert prev[b] in Below(rank, b);
      In(prev, rank, length, prev[b]) + length[prev[b]]
    else
      0
  }

  /** Block::out(): in-point plus length. */
  function Out(prev: map<Id, Id>, ghost rank: map<Id, real>, length: map<Id, int>, b: Id): int
    requires PrevRanked(prev, rank) && prev.Values <= length.Keys && b in rank && b in length
  {
    In(prev, rank, length, b) + length[b]
  }

  /** Total length of the blocks of s. */
  ghost function Sum(length: map<Id, int>, s: seq<Id>): int
    requires forall i | 0 <= i < |s| :: s[i] in length
  {
    if s == [] then 0 else Sum(length, s[..|s| - 1]) + length[s[|s| - 1]]
  }

  lemma {:induction false} SumAppend(length: map<Id, int>, s: seq<Id>, t: seq<Id>)
    requires forall i | 0 <= i < |s| :: s[i] in length
    requires forall i | 0 <= i < |t| :: t[i] in length
    ensures Sum(length, s + t) == Sum(length, s) + Sum(length, t)
    decreases |t|
  {
    if t != [] {
      var t' := t[..|t| - 1];
      SumAppend(length, s, t');
      assert (s + t)[..|s + t| - 1] == s + t';
    } else {
      assert s + t == s;
    }
  }

  /** in(b) is the total length of the blocks before b on its backward walk. */
  lemma {:induction false} InIsSum(prev: map<Id, Id>, rank: map<Id, real>, length: map<Id, int>, b: Id)
    requires PrevRanked(prev, rank) && prev.Values <= length.Keys && b in rank
    ensures var w := Walk(prev, rank, b);
      (forall i | 0 <= i < |w| - 1 :: w[i] in length) &&
      In(prev, rank, length, b) == Sum(length, w[..|w| - 1])
    decreases Below(rank, b)
  {
    var w := Walk(prev, rank, b);
    WalkFacts(prev, rank, b);
    assert forall i | 0 <= i < |w| - 1 :: w[i] in length by {
      forall i | 0 <= i < |w| - 1 ensures w[i] in length {
        assert prev[w[i + 1]] == w[i];
      }
    }
    if b in prev {
      assert prev[b] in Below(rank, b);
      InIsSum(prev, rank, length, prev[b]);
      assert w[..|w| - 1] == Walk(prev, rank, prev[b]);
    }
  }

  /**
   * Along a walk whose blocks have non-negative lengths, every block ends
   * no later than any later block begins.
   */
  lemma {:induction false} OutBeforeIn(prev: map<Id, Id>, rank: map<Id, real>, length: map<Id, int>,
                                       w: seq<Id>, i: nat, j: nat)
    requires PrevRanked(prev, rank) && prev.Values <= length.Keys
    requires IsWalk(prev, w) && Increasing(rank, w)
    requires forall k | 0 <= k < |w| :: w[k] in length && length[w[k]] >= 0
    requires i < j < |w|
    ensures Out(prev, rank, length, w[i]) <= In(prev, rank, length, w[j])
    decreases j - i
  {
    assert prev[w[j]] == w[j - 1];
    if i < j - 1 {
      OutBeforeIn(prev, rank, length, w, i, j - 1);
    }
  }

  /**
   * On a walk with non-negative lengths at most one block covers a time t:
   * the block that resolves t is unique.
   */
  lemma CoveringBlockUnique(prev: map<Id, Id>, rank: map<Id, real>, length: map<Id, int>,
                            w: seq<Id>, t: int, i: nat, j: nat)
    requires PrevRanked(prev, rank) && prev.Values <= length.Keys
    requires IsWalk(prev, w) && Increasing(rank, w)
    requires forall k | 0 <= k < |w| :: w[k] in length && length[w[k]] >= 0
    requires i < |w| && j < |w|
    requires In(prev, rank, length, w[i]) <= t < Out(prev, rank, length, w[i])
    requires In(prev, rank, length, w[j]) <= t < Out(prev, rank, length, w[j])
    ensures i == j
  {
    if i < j {
      OutBeforeIn(prev, rank, length, w, i, j);
    } else if j < i {
      OutBeforeIn(prev, rank, length, w, j, i);
    }
  }

  // Sequence edits used to describe how an operation changes the chain.

  function InsertAt(s: seq<Id>, i: nat, x: Id): (r: seq<Id>)
    requires i <= |s|
    ensures |r| == |s| + 1 && r[i] == x
    ensures forall k | 0 <= k < i :: r[k] == s[k]
    ensures forall k | i < k < |r| :: r[k] == s[k - 1]
  {
    s[..i] + [x] + s[i..]
  }

  function RemoveAt(s: seq<Id>, i: nat): (r: seq<Id>)
    requires i < |s|
    ensures |r| == |s| - 1
    ensures forall k | 0 <= k < i :: r[k] == s[k]
    ensures forall k | i <= k < |r| :: r[k] == s[k + 1]
  {
    s[..i] + s[i + 1..]
  }

  function IndexOf(s: seq<Id>, x: Id): (i: nat)
    requires x in s
    ensures i < |s| && s[i] == x && x !in s[..i]
  {
    if s[0] == x then 0 else 1 + IndexOf(s[1..], x)
  }

  // How the links along a walk change under the edits of a track.

  /** Linking x between w[i - 1] and w[i] puts x into the walk there. */
  lemma WalkInsert(prev: map<Id, Id>, w: seq<Id>, i: nat, x: Id)
    requires IsWalk(prev, w) && Distinct(w) && 0 < i < |w| && x !in w
    ensures IsWalk(prev[x := w[i - 1]][w[i] := x], InsertAt(w, i, x))
  {
    var p := prev[x := w[i - 1]][w[i] := x];
    var r := InsertAt(w, i, x);
    forall k | 0 < k < |r| ensures r[k] in p && p[r[k]] == r[k - 1] {
      if k < i {
        assert r[k] == w[k] != w[i];
      } else if k > i + 1 {
        assert r[k] == w[k - 1] != w[i];
      }
    }
  }

  /** Linking x to the front of the walk. */
  lemma WalkPrepend(prev: map<Id, Id>, w: seq<Id>, x: Id)
    requires IsWalk(prev, w) && Distinct(w) && x !in w && x !in prev
    ensures IsWalk(prev[w[0] := x], [x] + w)
  {
    var p := prev[w[0] := x];
    var r := [x] + w;
    forall k | 0 < k < |r| ensures r[k] in p && p[r[k]] == r[k - 1] {
      if k > 1 {
        assert r[k] == w[k - 1] != w[0];
      }
    }
  }

  /** Unlinking w[i] and joining its neighbours takes it out of the walk. */
  lemma WalkRemove(prev: map<Id, Id>, w: seq<Id>, i: nat)
    requires IsWalk(prev, w) && Distinct(w) && 0 < i < |w| - 1
    ensures IsWalk((prev - {w[i]})[w[i + 1] := w[i - 1]], RemoveAt(w, i))
  {
    var p := (prev - {w[i]})[w[i + 1] := w[i - 1]];
    var r := RemoveAt(w, i);
    forall k | 0 < k < |r| ensures r[k] in p && p[r[k]] == r[k - 1] {
      if k < i {
        assert r[k] == w[k] != w[i] && w[k] != w[i + 1];
      } else if k > i {
        assert r[k] == w[k + 1] != w[i] && w[k + 1] != w[i + 1];
      }
    }
  }

  /** Unlinking the first block of a walk from its successor drops it. */
  lemma WalkDropFirst(prev: map<Id, Id>, w: seq<Id>)
    requires IsWalk(prev, w) && Distinct(w) && 1 < |w|
    ensures IsWalk(prev - {w[1]}, w[1..])
  {
    var p := prev - {w[1]};
    var r := w[1..];
    forall k | 0 < k < |r| ensures r[k] in p && p[r[k]] == r[k - 1] {
      assert r[k] == w[k + 1] != w[1];
    }
  }

  /** Relinking a block that is not on a walk leaves the walk as it is. */
  lemma WalkUnaffected(prev: map<Id, Id>, w: seq<Id>, k: Id, v: Id)
    requires IsWalk(prev, w) && k !in w
    ensures IsWalk(prev[k := v], w)
  {
  }

  lemma ForwardInsert(next: map<Id, Id>, w: seq<Id>, i: nat, x: Id)
    requires ForwardLinked(next, w) && Distinct(w) && 0 < i < |w| && x !in w
    ensures ForwardLinked(next[w[i - 1] := x][x := w[i]], InsertAt(w, i, x))
  {
    var n := next[w[i - 1] := x][x := w[i]];
    var r := InsertAt(w, i, x);
    forall k | 0 <= k < |r| - 1 ensures r[k] in n && n[r[k]] == r[k + 1] {
      if k < i - 1 {
        assert r[k] == w[k] != w[i - 1];
      } else if k > i {
        assert r[k] == w[k - 1] != w[i - 1];
      }
    }
  }

  lemma ForwardPrepend(next: map<Id, Id>, w: seq<Id>, x: Id)
    requires ForwardLinked(next, w) && x !in w && |w| > 0
    ensures ForwardLinked(next[x := w[0]], [x] + w)
  {
    var n := next[x := w[0]];
    var r := [x] + w;
    forall k | 0 <= k < |r| - 1 ensures r[k] in n && n[r[k]] == r[k + 1] {
      if k > 0 {
        assert r[k] == w[k - 1] != x;
      }
    }
  }

  lemma ForwardRemove(next: map<Id, Id>, w: seq<Id>, i: nat)
    requires ForwardLinked(next, w) && Distinct(w) && 0 < i < |w| - 1
    ensures ForwardLinked((next - {w[i]})[w[i - 1] := w[i + 1]], RemoveAt(w, i))
  {
    var n := (next - {w[i]})[w[i - 1] := w[i + 1]];
    var r := RemoveAt(w, i);
    forall k | 0 <= k < |r| - 1 ensures r[k] in n && n[r[k]] == r[k + 1] {
      if k < i - 1 {
        assert r[k] == w[k] != w[i] && w[k] != w[i - 1];
      } else if k >= i {
        assert r[k] == w[k + 1] != w[i] && w[k + 1] != w[i - 1];
      }
    }
  }

  lemma ForwardDropFirst(next: map<Id, Id>, w: seq<Id>)
    requires ForwardLinked(next, w) && Distinct(w) && 1 < |w|
    ensures ForwardLinked(next - {w[0]}, w[1..])
  {
    var n := next - {w[0]};
    var r := w[1..];
    forall k | 0 <= k < |r| - 1 ensures r[k] in n && n[r[k]] == r[k + 1] {
      assert r[k] == w[k + 1] != w[0];
    }
  }

  /** A link set for a block that is not followed along w, or is its last block, leaves w forward linked. */
  lemma ForwardAside(next: map<Id, Id>, w: seq<Id>, k: Id, v: Id)
    requires ForwardLinked(next, w) && |w| > 0 && k !in w[..|w| - 1]
    ensures ForwardLinked(next[k := v], w)
  {
    forall i | 0 <= i < |w| - 1 ensures w[i] in next[k := v] && next[k := v][w[i]] == w[i + 1] {
      assert w[..|w| - 1][i] == w[i];
    }
  }

  // How the walk back from the end of a chain changes under the edits of a track.

  /** Every block of a walk is reached from the blocks before it: the walk from w[j] is w's prefix up to j. */
  lemma WalkPrefix(prev: map<Id, Id>, rank: map<Id, real>, w: seq<Id>, j: nat)
    requires PrevRanked(prev, rank) && IsWalk(prev, w) && j < |w| && w[j] in rank
    ensures Walk(prev, rank, w[j]) == w[..j + 1]
  {
    var p := w[..j + 1];
    assert IsWalk(prev, p) by {
      forall k | 0 < k < |p| ensures p[k] in prev && prev[p[k]] == p[k - 1] {
        assert p[k] == w[k] && p[k - 1] == w[k - 1];
      }
    }
    WalkUnique(prev, rank, p);
  }

  /** The in-point of the j-th block of a walk is the total length of the blocks before it. */
  lemma InAlongWalk(prev: map<Id, Id>, rank: map<Id, real>, length: map<Id, int>, w: seq<Id>, j: nat)
    requires PrevRanked(prev, rank) && prev.Values <= length.Keys
    requires IsWalk(prev, w) && j < |w| && w[j] in rank
    ensures forall i | 0 <= i < j :: w[i] in length
    ensures In(prev, rank, length, w[j]) == Sum(length, w[..j])
  {
    WalkPrefix(prev, rank, w, j);
    InIsSum(prev, rank, length, w[j]);
    assert w[..j + 1][..j] == w[..j];
  }

  /** Linking x between the (i - 1)-th and i-th blocks of the walk c + [t] inserts it into c at i. */
  lemma ChainInsert(prev: map<Id, Id>, rank: map<Id, real>, c: seq<Id>, t: Id, i: nat, x: Id)
    requires IsWalk(prev, c + [t]) && Distinct(c + [t]) && 0 < i <= |c| && x !in c + [t]
    requires PrevRanked(prev[x := c[i - 1]][(c + [t])[i] := x], rank) && t in rank
    ensures Walk(prev[x := c[i - 1]][(c + [t])[i] := x], rank, t) == InsertAt(c, i, x) + [t]
  {
    var w := c + [t];
    var p := prev[x := w[i - 1]][w[i] := x];
    WalkInsert(prev, w, i, x);
    var r := InsertAt(w, i, x);
    assert r == InsertAt(c, i, x) + [t];
    WalkUnique(p, rank, r);
  }

  /** Linking x between the (i - 1)-th and i-th blocks of c + [t] keeps the `next` links in step with the walk. */
  lemma ChainForwardInsert(next: map<Id, Id>, c: seq<Id>, t: Id, i: nat, x: Id)
    requires ForwardLinked(next, c + [t]) && Distinct(c + [t]) && 0 < i <= |c| && x !in c + [t]
    ensures ForwardLinked(next[c[i - 1] := x][x := (c + [t])[i]], InsertAt(c, i, x) + [t])
  {
    ForwardInsert(next, c + [t], i, x);
    assert InsertAt(c + [t], i, x) == InsertAt(c, i, x) + [t];
  }

  /** Linking x in front of the first block of the walk c + [t] puts it at the front of c. */
  lemma ChainPrepend(prev: map<Id, Id>, rank: map<Id, real>, c: seq<Id>, t: Id, x: Id)
    requires IsWalk(prev, c + [t]) && Distinct(c + [t]) && c != [] && x !in c + [t] && x !in prev
    requires PrevRanked(prev[c[0] := x], rank) && t in rank
    ensures Walk(prev[c[0] := x], rank, t) == [x] + c + [t]
  {
    var w := c + [t];
    WalkPrepend(prev, w, x);
    assert [x] + w == [x] + c + [t];
    WalkUnique(prev[c[0] := x], rank, [x] + w);
  }

  /** Unlinking the i-th block (not the first) of the walk c + [t] and joining its neighbours removes it from c. */
  lemma ChainRemove(prev: map<Id, Id>, rank: map<Id, real>, c: seq<Id>, t: Id, i: nat)
    requires IsWalk(prev, c + [t]) && Distinct(c + [t]) && 0 < i < |c|
    requires PrevRanked((prev - {c[i]})[(c + [t])[i + 1] := c[i - 1]], rank) && t in rank
    ensures Walk((prev - {c[i]})[(c + [t])[i + 1] := c[i - 1]], rank, t) == RemoveAt(c, i) + [t]
  {
    var w := c + [t];
    WalkRemove(prev, w, i);
    var r := RemoveAt(w, i);
    assert r == RemoveAt(c, i) + [t];
    WalkUnique((prev - {w[i]})[w[i + 1] := w[i - 1]], rank, r);
  }

  /** Unlinking the first block of the walk c + [t] from its successor drops it from c. */
  lemma ChainDropFirst(prev: map<Id, Id>, rank: map<Id, real>, c: seq<Id>, t: Id)
    requires IsWalk(prev, c + [t]) && Distinct(c + [t]) && c != []
    requires PrevRanked(prev - {(c + [t])[1]}, rank) && t in rank
    ensures Walk(prev - {(c + [t])[1]}, rank, t) == c[1..] + [t]
  {
    var w := c + [t];
    WalkDropFirst(prev, w);
    assert w[1..] == c[1..] + [t];
    WalkUnique(prev - {w[1]}, rank, w[1..]);
  }

  /** Inserting a block adds its length to the total. */
  lemma SumInsertAt(length: map<Id, int>, s: seq<Id>, i: nat, x: Id)
    requires forall k | 0 <= k < |s| :: s[k] in length
    requires i <= |s| && x in length
    ensures Sum(length, InsertAt(s, i, x)) == Sum(length, s) + length[x]
  {
    var a, b := s[..i], s[i..];
    assert forall k | 0 <= k < |a| :: a[k] in length;
    assert forall k | 0 <= k < |b| :: b[k] in length;
    assert Sum(length, [x]) == length[x] by {
      assert [x][..0] == [];
    }
    SumAppend(length, a, [x]);
    SumAppend(length, a + [x], b);
    SumAppend(length, a, b);
    assert a + b == s;
  }

  /** Removing a block takes its length off the total. */
  lemma SumRemoveAt(length: map<Id, int>, s: seq<Id>, i: nat)
    requires forall k | 0 <= k < |s| :: s[k] in length
    requires i < |s|
    ensures Sum(length, RemoveAt(s, i)) == Sum(length, s) - length[s[i]]
  {
    var r := RemoveAt(s, i);
    assert InsertAt(r, i, s[i]) == s;
    SumInsertAt(length, r, i, s[i]);
  }

  /** Putting a block of the same length in place of s[i] keeps the total. */
  lemma {:induction false} SumReplace(length: map<Id, int>, s: seq<Id>, i: nat, x: Id)
    requires forall k | 0 <= k < |s| :: s[k] in length
    requires i < |s| && x in length && length[x] == length[s[i]]
    ensures Sum(length, s[i := x]) == Sum(length, s)
    decreases |s|
  {
    var s' := s[i := x];
    if i == |s| - 1 {
      assert s'[..|s'| - 1] == s[..|s| - 1];
    } else {
      SumReplace(length, s[..|s| - 1], i, x);
      assert s'[..|s'| - 1] == s[..|s| - 1][i := x];
    }
  }

  /** In a sequence without repeats, the position of s[k] is k. */
  lemma IndexOfDistinct(s: seq<Id>, k: nat)
    requires Distinct(s) && k < |s|
    ensures IndexOf(s, s[k]) == k
  {
  }

  /** A link written twice keeps only the second value, whatever was written in between. */
  lemma Overwritten<V>(m: map<Id, V>, k: Id, j: Id, u: V, v: V, w: V)
    requires k != j
    ensures m[k := u][j := v][k := w] == m[j := v][k := w]
    ensures m[k := u][k := w][j := v] == m[k := w][j := v]
    ensures m[k := u][k := w] == m[k := w]
  {
  }

  /** Two successive single-key writes, read back from the final map. */
  lemma TwoWrites<V>(m: map<Id, V>, m1: map<Id, V>, m2: map<Id, V>, k: Id, j: Id)
    requires k != j && k in m1 && j in m2
    requires m1 == m[k := m1[k]] && m2 == m1[j := m2[j]]
    ensures m2 == m[k := m2[k]][j := m2[j]]
  {
  }

  /** Writing two links adds at most their two targets to the values of the map. */
  lemma ValuesAfterLinks(m: map<Id, Id>, k1: Id, v1: Id, k2: Id, v2: Id)
    ensures m[k1 := v1][k2 := v2].Values <= m.Values + {v1, v2}
  {
    var m' := m[k1 := v1][k2 := v2];
    forall k | k in m' ensures m'[k] in m.Values + {v1, v2} {
      if k != k1 && k != k2 {
        assert m'[k] == m[k];
      }
    }
  }

  /** Block::DisconnectBlocks on one side: the link from k is dropped when it leads to v. */
  function Unlink(m: map<Id, Id>, k: Id, v: Id): (r: map<Id, Id>)
    ensures r.Keys <= m.Keys && r.Values <= m.Values
    ensures k !in r || r[k] != v
    ensures forall j | j in m && j != k :: j in r && r[j] == m[j]
  {
    if k in m && m[k] == v then m - {k} else m
  }

  /** The track's content: the blocks on the walk back from the track, before the track itself. */
  ghost function ChainOf(prev: map<Id, Id>, rank: map<Id, real>): (c: seq<Id>)
    requires PrevRanked(prev, rank) && TrackId in rank
    ensures c + [TrackId] == Walk(prev, rank, TrackId)
  {
    var w := Walk(prev, rank, TrackId);
    w[..|w| - 1]
  }

  /** The walk back from the track has no repeats, and no block on it is unlinked. */
  lemma WalkShape(prev: map<Id, Id>, rank: map<Id, real>)
    requires PrevRanked(prev, rank) && TrackId in rank
    ensures IsWalk(prev, Walk(prev, rank, TrackId)) && Increasing(rank, Walk(prev, rank, TrackId))
    ensures Distinct(Walk(prev, rank, TrackId))
    ensures forall b | b in ChainOf(prev, rank) :: b in prev.Values
  {
    var w := Walk(prev, rank, TrackId);
    WalkFacts(prev, rank, TrackId);
    IncreasingDistinct(rank, w);
    var c := ChainOf(prev, rank);
    forall b | b in c ensures b in prev.Values {
      var k := IndexOf(c, b);
      assert w[k] == b && prev[w[k + 1]] == b;
    }
  }

  /** The chain is s when the walk back from the track is s followed by the track. */
  lemma ChainOfIs(prev: map<Id, Id>, rank: map<Id, real>, s: seq<Id>)
    requires PrevRanked(prev, rank) && TrackId in rank
    requires Walk(prev, rank, TrackId) == s + [TrackId]
    ensures ChainOf(prev, rank) == s
  {
    assert (s + [TrackId])[..|s|] == s;
  }

  /** A block that is nobody's previous block is not on the walk back from the track, unless it is the track. */
  lemma OffWalk(prev: map<Id, Id>, rank: map<Id, real>, x: Id)
    requires PrevRanked(prev, rank) && TrackId in rank
    requires x !in prev.Values && x != TrackId
    ensures x !in Walk(prev, rank, TrackId)
  {
    var w := Walk(prev, rank, TrackId);
    WalkFacts(prev, rank, TrackId);
    forall k | 0 <= k < |w| - 1 ensures w[k] != x {
      assert prev[w[k + 1]] == w[k];
    }
  }

  /** Relinking a block that is not on the walk back from the track leaves the chain as it is. */
  lemma ChainAfterOffLink(prev: map<Id, Id>, rank: map<Id, real>, rank': map<Id, real>, k: Id, v: Id)
    requires PrevRanked(prev, rank) && TrackId in rank
    requires PrevRanked(prev[k := v], rank') && TrackId in rank'
    requires k !in Walk(prev, rank, TrackId)
    ensures ChainOf(prev[k := v], rank') == ChainOf(prev, rank)
  {
    var w := Walk(prev, rank, TrackId);
    WalkFacts(prev, rank, TrackId);
    WalkUnaffected(prev, w, k, v);
    WalkUnique(prev[k := v], rank', w);
  }

  /** The first block of the chain is not met again on the walk after it. */
  lemma FirstOffTail(prev: map<Id, Id>, rank: map<Id, real>)
    requires PrevRanked(prev, rank) && TrackId in rank && ChainOf(prev, rank) != []
    ensures ChainOf(prev, rank)[0] !in ChainOf(prev, rank)[1..] + [TrackId]
  {
    var w := Walk(prev, rank, TrackId);
    WalkShape(prev, rank);
    assert ChainOf(prev, rank)[1..] + [TrackId] == w[1..];
  }

  /**
   * Linking x between `before` and `after`, where `after` is on the walk back
   * from the track with `before` as its previous block, inserts x into the
   * chain just in front of `after`, and keeps `next` links in step.
   */
  lemma ChainAfterInsert(prev: map<Id, Id>, next: map<Id, Id>, rank: map<Id, real>,
                         before: Id, after: Id, x: Id, r: real)
    requires PrevRanked(prev, rank) && TrackId in rank
    requires PrevRanked(prev[x := before][after := x], rank[x := r])
    requires x !in prev && x !in prev.Values && x != TrackId
    ensures after in Walk(prev, rank, TrackId) && after in prev && prev[after] == before ==>
      ChainOf(prev[x := before][after := x], rank[x := r])
      == InsertAt(ChainOf(prev, rank), IndexOf(Walk(prev, rank, TrackId), after), x)
    ensures after in Walk(prev, rank, TrackId) && after in prev && prev[after] == before ==>
      ForwardLinked(next, Walk(prev, rank, TrackId)) ==>
      ForwardLinked(next[before := x][x := after], Walk(prev[x := before][after := x], rank[x := r], TrackId))
  {
    var w := Walk(prev, rank, TrackId);
    if after in w && after in prev && prev[after] == before {
      var c := ChainOf(prev, rank);
      WalkShape(prev, rank);
      OffWalk(prev, rank, x);
      var i := IndexOf(w, after);
      assert 0 < i && w[i - 1] == before;
      ChainInsert(prev, rank[x := r], c, TrackId, i, x);
      ChainOfIs(prev[x := before][after := x], rank[x := r], InsertAt(c, i, x));
      if ForwardLinked(next, w) {
        ChainForwardInsert(next, c, TrackId, i, x);
      }
    }
  }

  /** Linking x, which has no previous block, as the track's previous block makes it the whole chain. */
  lemma ChainAfterConnectAlone(prev: map<Id, Id>, next: map<Id, Id>, rank: map<Id, real>, x: Id, r: real)
    requires PrevRanked(prev[TrackId := x], rank[x := r]) && TrackId in rank
    requires x !in prev && x != TrackId
    ensures ChainOf(prev[TrackId := x], rank[x := r]) == [x]
    ensures ForwardLinked(next[x := TrackId], Walk(prev[TrackId := x], rank[x := r], TrackId))
  {
    WalkUnique(prev[TrackId := x], rank[x := r], [x, TrackId]);
    assert [x, TrackId][..1] == [x];
  }

  /**
   * Linking x, which is on no walk, in front of `first`, when `first` is the
   * first block of a non-empty chain, puts x at the front of the chain.
   */
  lemma ChainAfterPrepend(prev: map<Id, Id>, next: map<Id, Id>, rank: map<Id, real>, first: Id, x: Id, r: real)
    requires PrevRanked(prev, rank) && TrackId in rank
    requires x !in prev && x !in prev.Values && x != TrackId
    requires PrevRanked(prev[first := x], rank[x := r])
    ensures ChainOf(prev, rank) != [] && ChainOf(prev, rank)[0] == first ==>
      ChainOf(prev[first := x], rank[x := r]) == [x] + ChainOf(prev, rank)
    ensures ChainOf(prev, rank) != [] && ChainOf(prev, rank)[0] == first ==>
      ForwardLinked(next, Walk(prev, rank, TrackId)) ==>
      ForwardLinked(next[x := first], Walk(prev[first := x], rank[x := r], TrackId))
  {
    var w := Walk(prev, rank, TrackId);
    var c := ChainOf(prev, rank);
    if c != [] && c[0] == first {
      WalkShape(prev, rank);
      OffWalk(prev, rank, x);
      ChainPrepend(prev, rank[x := r], c, TrackId, x);
      var w' := Walk(prev[first := x], rank[x := r], TrackId);
      ChainOfIs(prev[first := x], rank[x := r], [x] + c);
      if ForwardLinked(next, w) {
        ForwardPrepend(next, w, x);
        assert [x] + w == w';
      }
    }
  }

  /**
   * Entry i of a ranked cache ranks above entry i - 1; when the cache lists
   * the chain, entry i is on the walk at position i, linked back to entry i - 1.
   */
  lemma CacheLink(prev: map<Id, Id>, rank: map<Id, real>, cache: seq<Id>, i: nat)
    requires PrevRanked(prev, rank) && TrackId in rank && 0 < i < |cache|
    requires Increasing(rank, cache + [TrackId])
    ensures cache[i - 1] in rank && cache[i] in rank && rank[cache[i - 1]] < rank[cache[i]]
    ensures cache == ChainOf(prev, rank) ==>
      && cache[i] in Walk(prev, rank, TrackId) && cache[i] in prev && prev[cache[i]] == cache[i - 1]
      && IndexOf(Walk(prev, rank, TrackId), cache[i]) == i
  {
    var s := cache + [TrackId];
    assert s[i - 1] == cache[i - 1] && s[i] == cache[i];
    if cache == ChainOf(prev, rank) {
      var w := Walk(prev, rank, TrackId);
      WalkShape(prev, rank);
      assert w[i] == cache[i];
      IndexOfDistinct(w, i);
    }
  }

  /**
   * The last entry of a non-empty ranked cache ranks below the track; when the
   * cache lists the chain, the track links back to that entry, and inserting
   * x in front of the track appends x to the chain.
   */
  lemma CacheLast(prev: map<Id, Id>, rank: map<Id, real>, cache: seq<Id>, x: Id)
    requires PrevRanked(prev, rank) && TrackId in rank && cache != []
    requires Increasing(rank, cache + [TrackId])
    ensures cache[|cache| - 1] in rank && rank[cache[|cache| - 1]] < rank[TrackId]
    ensures cache == ChainOf(prev, rank) ==>
      && TrackId in Walk(prev, rank, TrackId) && TrackId in prev && prev[TrackId] == cache[|cache| - 1]
      && InsertAt(cache, IndexOf(Walk(prev, rank, TrackId), TrackId), x) == cache + [x]
  {
    var s := cache + [TrackId];
    assert s[|cache| - 1] == cache[|cache| - 1] && s[|cache|] == TrackId;
    assert rank[s[|cache| - 1]] < rank[s[|cache|]];
    if cache == ChainOf(prev, rank) {
      var w := Walk(prev, rank, TrackId);
      WalkShape(prev, rank);
      assert w == s;
      IndexOfDistinct(w, |cache|);
      assert InsertAt(cache, |cache|, x) == cache + [x];
    }
  }

  /** A prefix one longer ends with the next element. */
  lemma TakeOneMore(s: seq<Id>, i: nat)
    requires i < |s|
    ensures s[..i + 1] == s[..i] + [s[i]]
  {
  }

  /** Inserting at either end of a sequence prepends or appends. */
  lemma InsertAtEnds(s: seq<Id>, x: Id)
    ensures InsertAt(s, 0, x) == [x] + s && InsertAt(s, |s|, x) == s + [x]
  {
    assert s[..0] == [] && s[0..] == s && s[..|s|] == s && s[|s|..] == [];
  }

  /**
   * Along a doubly linked chain, the next block of a chain block b is on the
   * walk right after b and links back to b.
   */
  lemma NextOnChain(prev: map<Id, Id>, next: map<Id, Id>, rank: map<Id, real>, b: Id)
    requires PrevRanked(prev, rank) && TrackId in rank
    ensures b in ChainOf(prev, rank) && ForwardLinked(next, Walk(prev, rank, TrackId)) ==>
      && b in next && next[b] in Walk(prev, rank, TrackId) && next[b] in prev && prev[next[b]] == b
      && IndexOf(Walk(prev, rank, TrackId), next[b]) == IndexOf(ChainOf(prev, rank), b) + 1
  {
    var w := Walk(prev, rank, TrackId);
    var c := ChainOf(prev, rank);
    if b in c && ForwardLinked(next, w) {
      WalkShape(prev, rank);
      var j := IndexOf(c, b);
      assert w[j] == b && next[b] == w[j + 1];
      IndexOfDistinct(w, j + 1);
    }
  }

  /**
   * Linking x between a block b of a doubly linked chain and b's next block
   * inserts x into the chain right after b and keeps `next` links in step.
   */
  lemma ChainAfterInsertNext(prev: map<Id, Id>, next: map<Id, Id>, rank: map<Id, real>, b: Id, x: Id, r: real)
    requires PrevRanked(prev, rank) && TrackId in rank && b in next
    requires PrevRanked(prev[x := b][next[b] := x], rank[x := r])
    requires x !in prev && x !in prev.Values && x != TrackId
    ensures b in ChainOf(prev, rank) && ForwardLinked(next, Walk(prev, rank, TrackId)) ==>
      && ChainOf(prev[x := b][next[b] := x], rank[x := r])
         == InsertAt(ChainOf(prev, rank), IndexOf(ChainOf(prev, rank), b) + 1, x)
      && ForwardLinked(next[b := x][x := next[b]], Walk(prev[x := b][next[b] := x], rank[x := r], TrackId))
  {
    if b in ChainOf(prev, rank) && ForwardLinked(next, Walk(prev, rank, TrackId)) {
      NextOnChain(prev, next, rank, b);
      ChainAfterInsert(prev, next, rank, b, next[b], x, r);
    }
  }

  /**
   * The `previous` links after RippleRemoveBlock(b): b drops its own link,
   * the block after b drops its link to b, and when b had both neighbours
   * the block after b links back to the block before b.
   */
  function RippledPrev(prev: map<Id, Id>, next: map<Id, Id>, b: Id): map<Id, Id>
  {
    if b in prev && b in next then (prev - {b})[next[b] := prev[b]]
    else if b in prev then prev - {b}
    else if b in next then Unlink(prev, next[b], b)
    else prev
  }

  /**
   * The `next` links after RippleRemoveBlock(b): b drops its own link, the
   * block before b drops its link to b, and when b had both neighbours the
   * block before b links on to the block after b.
   */
  function RippledNext(prev: map<Id, Id>, next: map<Id, Id>, b: Id): map<Id, Id>
  {
    if b in prev && b in next then (next - {b})[prev[b] := next[b]]
    else if b in prev then Unlink(next, prev[b], b)
    else if b in next then next - {b}
    else next
  }

  /**
   * RippleRemoveBlock leaves b with no neighbours, joins its former
   * neighbours when it had both, and changes no other link.
   */
  lemma RippleLinks(prev: map<Id, Id>, next: map<Id, Id>, rank: map<Id, real>, b: Id)
    requires PrevRanked(prev, rank) && NextRanked(next, rank)
    ensures b !in RippledPrev(prev, next, b) && b !in RippledNext(prev, next, b)
    ensures b in prev && b in next ==>
      && RippledPrev(prev, next, b)[next[b]] == prev[b]
      && RippledNext(prev, next, b)[prev[b]] == next[b]
    ensures forall k | k in prev && k != b && (b in next ==> k != next[b]) ::
      k in RippledPrev(prev, next, b) && RippledPrev(prev, next, b)[k] == prev[k]
    ensures forall k | k in next && k != b && (b in prev ==> k != prev[b]) ::
      k in RippledNext(prev, next, b) && RippledNext(prev, next, b)[k] == next[k]
  {
    if b in next {
      assert rank[b] < rank[next[b]];
    }
    if b in prev {
      assert rank[prev[b]] < rank[b];
    }
  }

  /** Rippling out the i-th block of a chain, not the first, when it is linked both ways. */
  lemma RippleInner(prev: map<Id, Id>, next: map<Id, Id>, rank: map<Id, real>, i: nat)
    requires PrevRanked(prev, rank) && TrackId in rank
    requires 0 < i < |ChainOf(prev, rank)| && ForwardLinked(next, Walk(prev, rank, TrackId))
    requires PrevRanked(RippledPrev(prev, next, ChainOf(prev, rank)[i]), rank)
    ensures var b := ChainOf(prev, rank)[i];
      && ChainOf(RippledPrev(prev, next, b), rank) == RemoveAt(ChainOf(prev, rank), i)
      && ForwardLinked(RippledNext(prev, next, b), Walk(RippledPrev(prev, next, b), rank, TrackId))
  {
    var w := Walk(prev, rank, TrackId);
    var c := ChainOf(prev, rank);
    var b := c[i];
    WalkShape(prev, rank);
    assert w[i] == b && w[i - 1] == c[i - 1] && b in prev && prev[b] == w[i - 1] && next[b] == w[i + 1];
    var p' := RippledPrev(prev, next, b);
    assert p' == (prev - {w[i]})[w[i + 1] := w[i - 1]];
    ChainRemove(prev, rank, c, TrackId, i);
    ChainOfIs(p', rank, RemoveAt(c, i));
    ForwardRemove(next, w, i);
    assert RippledNext(prev, next, b) == (next - {w[i]})[w[i - 1] := w[i + 1]];
    assert RemoveAt(w, i) == RemoveAt(c, i) + [TrackId];
  }

  /** Rippling out the first block of a chain, when it is linked both ways. */
  lemma RippleFirst(prev: map<Id, Id>, next: map<Id, Id>, rank: map<Id, real>)
    requires PrevRanked(prev, rank) && TrackId in rank
    requires ChainOf(prev, rank) != [] && ForwardLinked(next, Walk(prev, rank, TrackId))
    requires PrevRanked(RippledPrev(prev, next, ChainOf(prev, rank)[0]), rank)
    ensures var b := ChainOf(prev, rank)[0];
      && ChainOf(RippledPrev(prev, next, b), rank) == ChainOf(prev, rank)[1..]
      && ForwardLinked(RippledNext(prev, next, b), Walk(RippledPrev(prev, next, b), rank, TrackId))
  {
    var w := Walk(prev, rank, TrackId);
    var c := ChainOf(prev, rank);
    var b := c[0];
    WalkShape(prev, rank);
    assert w[0] == b && b !in prev && b in next && next[b] == w[1] && prev[w[1]] == b;
    var p' := RippledPrev(prev, next, b);
    assert p' == prev - {w[1]};
    ChainDropFirst(prev, rank, c, TrackId);
    ChainOfIs(p', rank, c[1..]);
    ForwardDropFirst(next, w);
    RippledNextFirst(prev, next, b);
    DropFirstAppended(c, TrackId);
  }

  /** A block with no previous block drops just its own `next` link. */
  lemma RippledNextFirst(prev: map<Id, Id>, next: map<Id, Id>, b: Id)
    requires b !in prev && b in next
    ensures RippledNext(prev, next, b) == next - {b}
  {
  }

  /** Dropping the first element of a non-empty sequence commutes with appending. */
  lemma DropFirstAppended(s: seq<Id>, t: Id)
    requires s != []
    ensures (s + [t])[1..] == s[1..] + [t]
  {
  }

  /**
   * Rippling out a block b of a doubly linked chain removes b from the chain
   * and keeps the `next` links in step.
   */
  lemma ChainAfterRipple(prev: map<Id, Id>, next: map<Id, Id>, rank: map<Id, real>, b: Id)
    requires PrevRanked(prev, rank) && TrackId in rank
    requires PrevRanked(RippledPrev(prev, next, b), rank)
    ensures b in ChainOf(prev, rank) && ForwardLinked(next, Walk(prev, rank, TrackId)) ==>
      && ChainOf(RippledPrev(prev, next, b), rank) == RemoveAt(ChainOf(prev, rank), IndexOf(ChainOf(prev, rank), b))
      && ForwardLinked(RippledNext(prev, next, b), Walk(RippledPrev(prev, next, b), rank, TrackId))
  {
    var c := ChainOf(prev, rank);
    if b in c && ForwardLinked(next, Walk(prev, rank, TrackId)) {
      var i := IndexOf(c, b);
      if i > 0 {
        RippleInner(prev, next, rank, i);
      } else {
        RippleFirst(prev, next, rank);
        assert RemoveAt(c, 0) == c[1..];
      }
    }
  }

  /** Two length maps that agree on the blocks of s give s the same total. */
  lemma {:induction false} SumAgree(length: map<Id, int>, length': map<Id, int>, s: seq<Id>)
    requires forall k | 0 <= k < |s| :: s[k] in length && s[k] in length' && length'[s[k]] == length[s[k]]
    ensures Sum(length', s) == Sum(length, s)
    decreases |s|
  {
    if s != [] {
      SumAgree(length, length', s[..|s| - 1]);
    }
  }

  /** Changing the length of the one block at position i of s changes s's total by the difference. */
  lemma SumChangeOne(length: map<Id, int>, length': map<Id, int>, s: seq<Id>, i: nat)
    requires Distinct(s) && i < |s|
    requires forall k | 0 <= k < |s| :: s[k] in length && s[k] in length'
    requires forall k | 0 <= k < |s| && k != i :: length'[s[k]] == length[s[k]]
    ensures Sum(length', s) == Sum(length, s) - length[s[i]] + length'[s[i]]
  {
    var r := RemoveAt(s, i);
    assert InsertAt(r, i, s[i]) == s;
    forall k | 0 <= k < |r| ensures r[k] in length && r[k] in length' && length'[r[k]] == length[r[k]] {
      if k < i {
        assert r[k] == s[k];
      } else {
        assert r[k] == s[k + 1];
      }
    }
    SumAgree(length, length', r);
    SumInsertAt(length, r, i, s[i]);
    SumInsertAt(length', r, i, s[i]);
  }

  /** length' is length with b's length set to lb and x's to lx. */
  ghost predicate Resized(length: map<Id, int>, length': map<Id, int>, b: Id, lb: int, x: Id, lx: int)
  {
    && b in length' && length'[b] == lb && x in length' && length'[x] == lx
    && forall k | k in length && k != b && k != x :: k in length' && length'[k] == length[k]
  }

  /** Setting b's length alone is a resize of b and of any other known block x, which keeps its length. */
  lemma ResizedOne(length: map<Id, int>, b: Id, lb: int, x: Id)
    requires x in length && x != b
    ensures Resized(length, length[b := lb], b, lb, x, length[x])
    ensures Resized(length, length[b := lb], x, length[x], b, lb)
  {
  }

  /**
   * When x joins the chain right after its i-th block b, and b takes length
   * lb and x length lx, x starts where b now ends.
   */
  lemma ChainInsertIn(prev: map<Id, Id>, rank: map<Id, real>, length: map<Id, int>,
                      prev': map<Id, Id>, rank': map<Id, real>, length': map<Id, int>,
                      i: nat, b: Id, x: Id, lb: int, lx: int)
    requires PrevRanked(prev, rank) && prev.Values <= length.Keys && TrackId in rank && rank.Keys <= length.Keys
    requires i < |ChainOf(prev, rank)| && ChainOf(prev, rank)[i] == b && x !in ChainOf(prev, rank)
    requires Resized(length, length', b, lb, x, lx)
    requires PrevRanked(prev', rank') && prev'.Values <= length'.Keys && TrackId in rank' && rank'.Keys <= length'.Keys
    requires ChainOf(prev', rank') == InsertAt(ChainOf(prev, rank), i + 1, x)
    ensures In(prev', rank', length', x) == In(prev, rank, length, b) + lb
  {
    var c, w := ChainOf(prev, rank), Walk(prev, rank, TrackId);
    var w' := Walk(prev', rank', TrackId);
    WalkShape(prev, rank);
    WalkFacts(prev', rank', TrackId);
    assert w[i] == b;
    assert w'[i + 1] == x && w'[..i + 1] == c[..i + 1];
    InAlongWalk(prev, rank, length, w, i);
    InAlongWalk(prev', rank', length', w', i + 1);
    assert w[..i] == c[..i];
    SumResizedPrefix(length, length', c, i, b, x, lb, lx);
  }

  /** Resizing the i-th block b of s, and a block x off s, changes the total of s[..i + 1] only by b's new length. */
  lemma SumResizedPrefix(length: map<Id, int>, length': map<Id, int>, s: seq<Id>, i: nat, b: Id, x: Id, lb: int, lx: int)
    requires Distinct(s) && i < |s| && s[i] == b && x !in s
    requires forall k | 0 <= k < |s| :: s[k] in length
    requires Resized(length, length', b, lb, x, lx)
    ensures forall k | 0 <= k <= i :: s[k] in length'
    ensures Sum(length', s[..i + 1]) == Sum(length, s[..i]) + lb
  {
    TakeOneMore(s, i);
    SumAgree(length, length', s[..i]);
  }

  /**
   * When x joins the chain right after its i-th block b, and b takes length
   * lb and x length lx, the total length changes by b's change plus lx.
   */
  lemma ChainInsertTotal(prev: map<Id, Id>, rank: map<Id, real>, length: map<Id, int>,
                         prev': map<Id, Id>, rank': map<Id, real>, length': map<Id, int>,
                         i: nat, b: Id, x: Id, lb: int, lx: int)
    requires PrevRanked(prev, rank) && prev.Values <= length.Keys && TrackId in rank && rank.Keys <= length.Keys
    requires i < |ChainOf(prev, rank)| && ChainOf(prev, rank)[i] == b && x !in ChainOf(prev, rank)
    requires Resized(length, length', b, lb, x, lx)
    requires PrevRanked(prev', rank') && prev'.Values <= length'.Keys && TrackId in rank' && rank'.Keys <= length'.Keys
    requires ChainOf(prev', rank') == InsertAt(ChainOf(prev, rank), i + 1, x)
    ensures Sum(length', ChainOf(prev', rank')) == Sum(length, ChainOf(prev, rank)) - length[b] + lb + lx
  {
    var c := ChainOf(prev, rank);
    WalkShape(prev, rank);
    SumChangeOne(length, length', c, i);
    SumInsertAt(length', c, i + 1, x);
  }
}
