/**
 * One line of the board (a row or a column) read from the edge the tiles move
 * towards: index 0 is the target edge.  A move slides every tile towards index 0,
 * merges a tile into an equal neighbour that has not itself been produced by a
 * merge during this move, and leaves zeros behind.
 *
 * `Pack` is the state after scanning a prefix of the line, exactly as the in-place
 * loop of the game board sees it; `MergePairs` is an independent, front-to-back
 * description of the same result (pair up equal neighbours greedily).
 */
module Lines {

  /** Sum of the values of a line. */
  function Sum(s: seq<int>): int
  {
    if |s| == 0 then 0 else Sum(s[..|s| - 1]) + s[|s| - 1]
  }

  /** Number of tiles (non-zero cells) of a line. */
  function Count(s: seq<int>): (n: nat)
    ensures n <= |s|
  {
    if |s| == 0 then 0 else Count(s[..|s| - 1]) + (if s[|s| - 1] != 0 then 1 else 0)
  }

  function Zeros(n: nat): (r: seq<int>)
    ensures |r| == n
    ensures forall i :: 0 <= i < n ==> r[i] == 0
  {
    seq(n, _ => 0)
  }

  predicate NoZeros(s: seq<int>)
  {
    forall i :: 0 <= i < |s| ==> s[i] != 0
  }

  predicate AllZero(s: seq<int>)
  {
    forall i :: 0 <= i < |s| ==> s[i] == 0
  }

  predicate NonNegative(s: seq<int>)
  {
    forall i :: 0 <= i < |s| ==> s[i] >= 0
  }

  /** Tiles are packed against index 0: no tile follows an empty cell. */
  predicate PackedToFront(s: seq<int>)
  {
    forall i, j :: 0 <= i < j < |s| && s[i] == 0 ==> s[j] == 0
  }

  /** No two neighbouring cells of the line hold the same value. */
  predicate NoEqualNeighbours(s: seq<int>)
  {
    forall t :: 0 <= t < |s| - 1 ==> s[t] != s[t + 1]
  }

  /** The tiles of a line in order, empty cells dropped. */
  function NonZero(s: seq<int>): (r: seq<int>)
    ensures NoZeros(r)
    ensures |r| == Count(s)
  {
    if |s| == 0 then []
    else NonZero(s[..|s| - 1]) + (if s[|s| - 1] != 0 then [s[|s| - 1]] else [])
  }

  // ---------------------------------------------------------------------------
  // The scan state
  // ---------------------------------------------------------------------------

  /**
   * The part of the line already scanned: the tiles packed at the front, whether
   * the last of them was produced by a merge in this move, and the merged values
   * in the order the merges happened.
   */
  datatype Packed = Packed(tiles: seq<int>, lastMerged: bool, gains: seq<int>)

  const Start: Packed := Packed([], false, [])

  /** The next cell of the scan arrives at the packed front. */
  function Absorb(p: Packed, x: int): Packed
  {
    if x == 0 then p
    else if |p.tiles| > 0 && p.tiles[|p.tiles| - 1] == x && !p.lastMerged then
      Packed(p.tiles[..|p.tiles| - 1] + [2 * x], true, p.gains + [2 * x])
    else
      Packed(p.tiles + [x], false, p.gains)
  }

  /** Scans the cells of `s` in order, starting from the state `p`. */
  function Feed(p: Packed, s: seq<int>): (r: Packed)
    requires NoZeros(p.tiles)
    ensures NoZeros(r.tiles)
    ensures |r.tiles| + |r.gains| == |p.tiles| + |p.gains| + Count(s)
    ensures |r.gains| >= |p.gains|
  {
    if |s| == 0 then p else Absorb(Feed(p, s[..|s| - 1]), s[|s| - 1])
  }

  /** The scan keeps the sum of the cells. */
  lemma {:induction false} FeedSum(p: Packed, s: seq<int>)
    requires NoZeros(p.tiles)
    ensures Sum(Feed(p, s).tiles) == Sum(p.tiles) + Sum(s)
  {
    if |s| > 0 {
      var q := Feed(p, s[..|s| - 1]);
      FeedSum(p, s[..|s| - 1]);
      var x := s[|s| - 1];
      if x != 0 && |q.tiles| > 0 && q.tiles[|q.tiles| - 1] == x && !q.lastMerged {
        var front := q.tiles[..|q.tiles| - 1];
        assert q.tiles == front + [x];
        SumAppend(front, [x]);
        SumAppend(front, [2 * x]);
      } else if x != 0 {
        SumAppend(q.tiles, [x]);
      }
    }
  }

  /** Appending keeps a sequence non-negative; kept as a lemma so callers see only this fact. */
  lemma NonNegativeAppend(a: seq<int>, c: seq<int>)
    requires NonNegative(a) && NonNegative(c)
    ensures NonNegative(a + c)
  {
  }

  /** One step of the scan keeps tiles and merged values non-negative. */
  lemma AbsorbSign(p: Packed, x: int)
    requires NonNegative(p.tiles) && NonNegative(p.gains) && x >= 0
    ensures NonNegative(Absorb(p, x).tiles) && NonNegative(Absorb(p, x).gains)
  {
    var r := Absorb(p, x);
    forall i | 0 <= i < |r.tiles|
      ensures r.tiles[i] >= 0
    {
      if i < |p.tiles| {
        assert p.tiles[i] >= 0;
      }
    }
  }

  /** The scan keeps tiles and merged values non-negative. */
  lemma {:induction false} FeedSign(p: Packed, s: seq<int>)
    requires NoZeros(p.tiles) && NonNegative(p.tiles) && NonNegative(p.gains) && NonNegative(s)
    ensures NonNegative(Feed(p, s).tiles) && NonNegative(Feed(p, s).gains)
  {
    if |s| > 0 {
      var s' := s[..|s| - 1];
      assert NonNegative(s') && s[|s| - 1] >= 0;
      FeedSign(p, s');
      AbsorbSign(Feed(p, s'), s[|s| - 1]);
    }
  }

  function Pack(s: seq<int>): (r: Packed)
    ensures NoZeros(r.tiles)
    ensures |r.tiles| + |r.gains| == Count(s)
  {
    Feed(Start, s)
  }

  /** The line after the move: the packed tiles followed by empty cells. */
  function SlideLine(s: seq<int>): (r: seq<int>)
    ensures |r| == |s|
    ensures PackedToFront(r)
  {
    var t := Pack(s).tiles;
    t + Zeros(|s| - |t|)
  }

  /** The merged values of one line, in the order the merges happen. */
  function LineGains(s: seq<int>): seq<int>
  {
    Pack(s).gains
  }

  // ---------------------------------------------------------------------------
  // Sum and Count
  // ---------------------------------------------------------------------------

  lemma {:induction false} SumAppend(a: seq<int>, b: seq<int>)
    ensures Sum(a + b) == Sum(a) + Sum(b)
    decreases |b|
  {
    if |b| == 0 {
      assert a + b == a;
    } else {
      var b' := b[..|b| - 1];
      assert (a + b)[..|a + b| - 1] == a + b';
      SumAppend(a, b');
    }
  }

  lemma {:induction false} CountAppend(a: seq<int>, b: seq<int>)
    ensures Count(a + b) == Count(a) + Count(b)
    decreases |b|
  {
    if |b| == 0 {
      assert a + b == a;
    } else {
      var b' := b[..|b| - 1];
      assert (a + b)[..|a + b| - 1] == a + b';
      CountAppend(a, b');
    }
  }

  lemma SumSingle(x: int)
    ensures Sum([x]) == x && Count([x]) == (if x != 0 then 1 else 0)
  {
    assert [x][..0] == [];
  }

  lemma {:induction false} SumZeros(n: nat)
    ensures Sum(Zeros(n)) == 0 && Count(Zeros(n)) == 0
  {
    if n > 0 {
      assert Zeros(n)[..n - 1] == Zeros(n - 1);
      SumZeros(n - 1);
    }
  }

  lemma {:induction false} CountNoZeros(s: seq<int>)
    requires NoZeros(s)
    ensures Count(s) == |s|
  {
    if |s| > 0 {
      CountNoZeros(s[..|s| - 1]);
    }
  }

  lemma {:induction false} CountBelowLength(s: seq<int>)
    ensures Count(s) <= |s|
    ensures Count(s) < |s| ==> exists t :: 0 <= t < |s| && s[t] == 0
  {
    if |s| > 0 {
      CountBelowLength(s[..|s| - 1]);
    }
  }

  // ---------------------------------------------------------------------------
  // Properties of one line
  // ---------------------------------------------------------------------------

  /** A move keeps the sum of the line. */
  lemma SlideLineSum(s: seq<int>)
    ensures Sum(SlideLine(s)) == Sum(s)
  {
    var t := Pack(s).tiles;
    FeedSum(Start, s);
    SumAppend(t, Zeros(|s| - |t|));
    SumZeros(|s| - |t|);
  }

  /** A move drops the number of tiles of the line by exactly the number of merges. */
  lemma SlideLineCount(s: seq<int>)
    ensures Count(SlideLine(s)) == Count(s) - |LineGains(s)|
  {
    var t := Pack(s).tiles;
    CountAppend(t, Zeros(|s| - |t|));
    SumZeros(|s| - |t|);
    CountNoZeros(t);
  }

  /** A move keeps a line of non-negative values non-negative, and merges add non-negative values. */
  lemma SlideLineSign(s: seq<int>)
    requires NonNegative(s)
    ensures NonNegative(SlideLine(s)) && NonNegative(LineGains(s))
  {
    FeedSign(Start, s);
  }

  lemma {:induction false} FeedCons(p: Packed, x: int, s: seq<int>)
    requires NoZeros(p.tiles)
    ensures Feed(p, [x] + s) == Feed(Absorb(p, x), s)
    decreases |s|
  {
    if |s| == 0 {
      assert ([x] + s)[..0] == [];
    } else {
      var s' := s[..|s| - 1];
      assert ([x] + s)[..|[x] + s| - 1] == [x] + s';
      FeedCons(p, x, s');
    }
  }

  lemma {:induction false} FeedNonZero(p: Packed, s: seq<int>)
    requires NoZeros(p.tiles)
    ensures Feed(p, s) == Feed(p, NonZero(s))
    decreases |s|
  {
    if |s| > 0 {
      var s' := s[..|s| - 1];
      FeedNonZero(p, s');
      var n := NonZero(s');
      if s[|s| - 1] != 0 {
        assert (n + [s[|s| - 1]])[..|n|] == n;
      } else {
        assert NonZero(s) == n;
      }
    }
  }

  /**
   * Reference description: scanning the tiles front to back, a tile merges with the
   * tile right behind it when the two are equal, and each resulting tile takes part
   * in no further merge of this move.
   */
  function MergePairs(ts: seq<int>): seq<int>
  {
    if |ts| < 2 then ts
    else if ts[0] == ts[1] then [2 * ts[0]] + MergePairs(ts[2..])
    else [ts[0]] + MergePairs(ts[1..])
  }

  /** The merged values of the reference description, front to back. */
  function PairGains(ts: seq<int>): seq<int>
  {
    if |ts| < 2 then []
    else if ts[0] == ts[1] then [2 * ts[0]] + PairGains(ts[2..])
    else PairGains(ts[1..])
  }

  /** The front `p` cannot absorb `x` by merging. */
  predicate Settled(p: Packed, x: int)
  {
    |p.tiles| == 0 || p.lastMerged || p.tiles[|p.tiles| - 1] != x
  }

  lemma {:induction false} FeedPairs(p: Packed, ts: seq<int>)
    requires NoZeros(p.tiles) && NoZeros(ts)
    requires |ts| == 0 || Settled(p, ts[0])
    ensures Feed(p, ts).tiles == p.tiles + MergePairs(ts)
    ensures Feed(p, ts).gains == p.gains + PairGains(ts)
    decreases |ts|, 1
  {
    if |ts| == 0 {
      assert p.tiles + [] == p.tiles && p.gains + [] == p.gains;
    } else if |ts| == 1 {
      assert ts == [ts[0]] + [];
      FeedCons(p, ts[0], []);
      assert Feed(p, ts) == Packed(p.tiles + ts, false, p.gains);
    } else {
      var p1 := Packed(p.tiles + [ts[0]], false, p.gains);
      if ts[0] == ts[1] {
        FeedPairsMerge(p, p1, ts);
      } else {
        FeedPairsKeep(p, p1, ts);
      }
      assert ts == [ts[0]] + ts[1..];
      FeedCons(p, ts[0], ts[1..]);
    }
  }

  lemma {:induction false} FeedPairsKeep(p: Packed, p1: Packed, ts: seq<int>)
    requires NoZeros(p.tiles) && NoZeros(ts)
    requires |ts| >= 2 && ts[0] != ts[1]
    requires p1 == Packed(p.tiles + [ts[0]], false, p.gains)
    ensures Feed(p1, ts[1..]).tiles == p.tiles + MergePairs(ts)
    ensures Feed(p1, ts[1..]).gains == p.gains + PairGains(ts)
    decreases |ts|, 0
  {
    FeedPairs(p1, ts[1..]);
    assert MergePairs(ts) == [ts[0]] + MergePairs(ts[1..]);
    assert PairGains(ts) == PairGains(ts[1..]);
    Associative(p.tiles, [ts[0]], MergePairs(ts[1..]));
  }

  /** Regrouping a concatenation; a separate lemma keeps the callers' contexts small. */
  lemma Associative(a: seq<int>, b: seq<int>, c: seq<int>)
    ensures a + b + c == a + (b + c)
  {
  }

  lemma {:induction false} FeedPairsMerge(p: Packed, p1: Packed, ts: seq<int>)
    requires NoZeros(p.tiles) && NoZeros(ts)
    requires |ts| >= 2 && ts[0] == ts[1]
    requires p1 == Packed(p.tiles + [ts[0]], false, p.gains)
    ensures Feed(p1, ts[1..]).tiles == p.tiles + MergePairs(ts)
    ensures Feed(p1, ts[1..]).gains == p.gains + PairGains(ts)
    decreases |ts|, 0
  {
    var a := ts[0];
    assert ts[1..] == [a] + ts[2..];
    FeedCons(p1, a, ts[2..]);
    assert p1.tiles[..|p1.tiles| - 1] == p.tiles;
    var p2 := Packed(p.tiles + [2 * a], true, p.gains + [2 * a]);
    assert Absorb(p1, a) == p2;
    FeedPairs(p2, ts[2..]);
    var f := Feed(p1, ts[1..]);
    assert f == Feed(p2, ts[2..]);
    assert MergePairs(ts) == [2 * a] + MergePairs(ts[2..]);
    assert PairGains(ts) == [2 * a] + PairGains(ts[2..]);
    Associative(p.tiles, [2 * a], MergePairs(ts[2..]));
    Associative(p.gains, [2 * a], PairGains(ts[2..]));
  }

  /**
   * The scan computes the reference description: the tiles after a move are the
   * line's tiles, in their original order, with equal neighbours paired greedily
   * from the target edge; every merge combines exactly two tiles.
   */
  lemma SlideLineIsMergePairs(s: seq<int>)
    ensures |MergePairs(NonZero(s))| <= |s|
    ensures SlideLine(s)[..|MergePairs(NonZero(s))|] == MergePairs(NonZero(s))
    ensures AllZero(SlideLine(s)[|MergePairs(NonZero(s))|..])
    ensures LineGains(s) == PairGains(NonZero(s))
  {
    FeedNonZero(Start, s);
    FeedPairs(Start, NonZero(s));
  }

  /** A line without tiles is left as it is. */
  lemma {:induction false} EmptyLineUnchanged(s: seq<int>)
    requires AllZero(s)
    ensures SlideLine(s) == s && LineGains(s) == []
  {
    FeedNonZero(Start, s);
    assert Count(s) == 0 by {
      CountZerosOnly(s);
    }
  }

  lemma {:induction false} CountZerosOnly(s: seq<int>)
    requires AllZero(s)
    ensures Count(s) == 0
  {
    if |s| > 0 {
      CountZerosOnly(s[..|s| - 1]);
    }
  }

  lemma {:induction false} FeedFullDistinct(s: seq<int>)
    requires NoZeros(s) && NoEqualNeighbours(s)
    ensures Pack(s).tiles == s && Pack(s).gains == [] && !Pack(s).lastMerged
  {
    if |s| > 0 {
      var s' := s[..|s| - 1];
      FeedFullDistinct(s');
    }
  }

  /** A full line in which no two neighbours are equal is left as it is. */
  lemma FullDistinctLineUnchanged(s: seq<int>)
    requires NoZeros(s) && NoEqualNeighbours(s)
    ensures SlideLine(s) == s && LineGains(s) == []
  {
    FeedFullDistinct(s);
  }

  lemma {:induction false} FeedNoMerge(s: seq<int>)
    requires Count(s) == |s| && |Pack(s).gains| == 0
    ensures Pack(s).tiles == s
  {
    if |s| > 0 {
      var s' := s[..|s| - 1];
      CountBelowLength(s');
      FeedNoMerge(s');
    }
  }

  /**
   * A move that changes a line leaves an empty cell in it: either a merge freed a
   * cell, or tiles slid into empty cells, which keeps the number of empty cells.
   */
  lemma ChangedLineHasGap(s: seq<int>)
    requires SlideLine(s) != s
    ensures exists t :: 0 <= t < |s| && SlideLine(s)[t] == 0
  {
    var r := SlideLine(s);
    SlideLineCount(s);
    CountBelowLength(s);
    if Count(s) == |s| && |LineGains(s)| == 0 {
      FeedNoMerge(s);
      assert false;
    }
    CountBelowLength(r);
  }
}
