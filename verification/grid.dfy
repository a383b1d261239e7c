/**
 * The board as a rectangular grid of rows, and the four directional moves.
 *
 * A direction splits the board into lines: rows for Left and Right, columns for
 * Up and Down.  Line `k` is read from the edge the tiles move towards, so position
 * `t` of a line is `t` steps away from that edge.  Every move is the same per-line
 * operation (`Lines.SlideLine`) applied to each line independently; the four
 * directions differ only in how a (line, position) pair maps to a (row, column).
 */
module Grid {
  import opened Lines

  datatype Dir = Up | Down | Left | Right

  type Board = seq<seq<int>>

  function Width(b: Board): nat
  {
    if |b| == 0 then 0 else |b[0]|
  }

  predicate Rect(b: Board)
  {
    forall i :: 0 <= i < |b| ==> |b[i]| == Width(b)
  }

  predicate InBounds(b: Board, i: int, j: int)
  {
    0 <= i < |b| && 0 <= j < |b[i]|
  }

  predicate Horizontal(d: Dir)
  {
    d.Left? || d.Right?
  }

  function LineCount(b: Board, d: Dir): nat
  {
    if Horizontal(d) then |b| else Width(b)
  }

  function LineLength(b: Board, d: Dir): nat
  {
    if Horizontal(d) then Width(b) else |b|
  }

  /** Row of position `t` of line `k`. */
  function RowOf(b: Board, d: Dir, k: int, t: int): int
  {
    match d
    case Left => k
    case Right => k
    case Up => t
    case Down => |b| - 1 - t
  }

  /** Column of position `t` of line `k`. */
  function ColOf(b: Board, d: Dir, k: int, t: int): int
  {
    match d
    case Left => t
    case Right => Width(b) - 1 - t
    case Up => k
    case Down => k
  }

  /** The line through cell (i, j). */
  function LineOf(d: Dir, i: int, j: int): int
  {
    if Horizontal(d) then i else j
  }

  /** The position of cell (i, j) within its line. */
  function PosOf(b: Board, d: Dir, i: int, j: int): int
  {
    match d
    case Left => j
    case Right => Width(b) - 1 - j
    case Up => i
    case Down => |b| - 1 - i
  }

  /** Line `k` of the board in direction `d`, read from the target edge. */
  function ReadLine(b: Board, d: Dir, k: int): (r: seq<int>)
    requires Rect(b) && 0 <= k < LineCount(b, d)
    ensures |r| == LineLength(b, d)
  {
    seq(LineLength(b, d), t requires 0 <= t < LineLength(b, d) => b[RowOf(b, d, k, t)][ColOf(b, d, k, t)])
  }

  /** The board with line `k` replaced by `line`. */
  function WriteLine(b: Board, d: Dir, k: int, line: seq<int>): (r: Board)
    requires Rect(b) && 0 <= k < LineCount(b, d) && |line| == LineLength(b, d)
    ensures Rect(r) && |r| == |b| && Width(r) == Width(b)
  {
    if Horizontal(d) then
      b[k := seq(Width(b), j requires 0 <= j < Width(b) => line[PosOf(b, d, k, j)])]
    else
      seq(|b|, i requires 0 <= i < |b| => b[i][k := line[PosOf(b, d, i, k)]])
  }

  /** The board after a move in direction `d`. */
  function MoveBoard(b: Board, d: Dir): (r: Board)
    requires Rect(b)
    ensures Rect(r) && |r| == |b| && Width(r) == Width(b)
  {
    seq(|b|, i requires 0 <= i < |b| =>
      seq(Width(b), j requires 0 <= j < Width(b) =>
        SlideLine(ReadLine(b, d, LineOf(d, i, j)))[PosOf(b, d, i, j)]))
  }

  /** The merged values of lines 0 .. n-1, line after line. */
  function GainsBefore(b: Board, d: Dir, n: nat): seq<int>
    requires Rect(b) && n <= LineCount(b, d)
  {
    if n == 0 then [] else GainsBefore(b, d, n - 1) + LineGains(ReadLine(b, d, n - 1))
  }

  /** The merged values of a whole move, in the order the merges happen. */
  function MoveGains(b: Board, d: Dir): seq<int>
    requires Rect(b)
  {
    GainsBefore(b, d, LineCount(b, d))
  }

  // ---------------------------------------------------------------------------
  // Lines are processed independently
  // ---------------------------------------------------------------------------

  /** Position `t` of line `k` is a cell of the board that lies on line `k` at position `t`. */
  lemma LineCellRoundTrip(b: Board, d: Dir, k: int, t: int)
    requires Rect(b) && 0 <= k < LineCount(b, d) && 0 <= t < LineLength(b, d)
    ensures InBounds(b, RowOf(b, d, k, t), ColOf(b, d, k, t))
    ensures LineOf(d, RowOf(b, d, k, t), ColOf(b, d, k, t)) == k
    ensures PosOf(b, d, RowOf(b, d, k, t), ColOf(b, d, k, t)) == t
  {
  }

  /** Every cell of the board is position `PosOf` of line `LineOf`. */
  lemma CellRoundTrip(b: Board, d: Dir, i: int, j: int)
    requires Rect(b) && 0 <= i < |b| && 0 <= j < Width(b)
    ensures 0 <= LineOf(d, i, j) < LineCount(b, d) && 0 <= PosOf(b, d, i, j) < LineLength(b, d)
    ensures RowOf(b, d, LineOf(d, i, j), PosOf(b, d, i, j)) == i
    ensures ColOf(b, d, LineOf(d, i, j), PosOf(b, d, i, j)) == j
  {
  }

  /** Each line of the moved board is the moved line of the original board. */
  lemma LinesIndependent(b: Board, d: Dir, k: int)
    requires Rect(b) && 0 <= k < LineCount(b, d)
    ensures ReadLine(MoveBoard(b, d), d, k) == SlideLine(ReadLine(b, d, k))
  {
    var m := MoveBoard(b, d);
    assert LineCount(m, d) == LineCount(b, d);
    var l := ReadLine(m, d, k);
    forall t | 0 <= t < |l|
      ensures l[t] == SlideLine(ReadLine(b, d, k))[t]
    {
      LineCellRoundTrip(b, d, k, t);
      assert l[t] == m[RowOf(b, d, k, t)][ColOf(b, d, k, t)];
    }
  }

  /** Writing line `k` changes line `k` to the written line and no other line. */
  lemma ReadWriteLine(c: Board, d: Dir, k: int, line: seq<int>, l: int)
    requires Rect(c) && 0 <= k < LineCount(c, d) && |line| == LineLength(c, d) && 0 <= l < LineCount(c, d)
    ensures ReadLine(WriteLine(c, d, k, line), d, l) == if l == k then line else ReadLine(c, d, l)
  {
    var w := WriteLine(c, d, k, line);
    forall t | 0 <= t < LineLength(c, d)
      ensures ReadLine(w, d, l)[t] == (if l == k then line else ReadLine(c, d, l))[t]
    {
      LineCellRoundTrip(c, d, l, t);
      assert RowOf(w, d, l, t) == RowOf(c, d, l, t) && ColOf(w, d, l, t) == ColOf(c, d, l, t);
    }
  }

  /** Two grids of one shape with the same lines along a direction are the same grid. */
  lemma SameLines(b: Board, c: Board, d: Dir)
    requires Rect(b) && Rect(c) && |c| == |b| && Width(c) == Width(b)
    requires forall l :: 0 <= l < LineCount(b, d) ==> ReadLine(b, d, l) == ReadLine(c, d, l)
    ensures b == c
  {
    forall i | 0 <= i < |b|
      ensures b[i] == c[i]
    {
      forall j | 0 <= j < Width(b)
        ensures b[i][j] == c[i][j]
      {
        CellRoundTrip(b, d, i, j);
        var l, t := LineOf(d, i, j), PosOf(b, d, i, j);
        assert ReadLine(b, d, l)[t] == b[i][j];
        assert ReadLine(c, d, l)[t] == c[i][j];
      }
    }
  }

  /** A move in which every line is left as it is leaves the board as it is. */
  lemma {:induction false} MoveBoardFixed(b: Board, d: Dir)
    requires Rect(b)
    requires forall k :: 0 <= k < LineCount(b, d) ==> SlideLine(ReadLine(b, d, k)) == ReadLine(b, d, k)
    ensures MoveBoard(b, d) == b
  {
    var m := MoveBoard(b, d);
    forall i | 0 <= i < |b|
      ensures m[i] == b[i]
    {
      forall j | 0 <= j < Width(b)
        ensures m[i][j] == b[i][j]
      {
        CellRoundTrip(b, d, i, j);
        var k := LineOf(d, i, j);
        assert ReadLine(b, d, k)[PosOf(b, d, i, j)] == b[i][j];
      }
    }
  }

  lemma {:induction false} GainsBeforeEmpty(b: Board, d: Dir, n: nat)
    requires Rect(b) && n <= LineCount(b, d)
    requires forall k {:trigger LineGains(ReadLine(b, d, k))} :: 0 <= k < n ==> LineGains(ReadLine(b, d, k)) == []
    ensures GainsBefore(b, d, n) == []
  {
    if n > 0 {
      GainsBeforeEmpty(b, d, n - 1);
      assert |LineGains(ReadLine(b, d, n - 1))| == 0;
    }
  }

  /** A move on a board without tiles changes nothing and merges nothing. */
  lemma EmptyBoardUnchanged(b: Board, d: Dir)
    requires Rect(b)
    requires forall i, j :: 0 <= i < |b| && 0 <= j < |b[i]| ==> b[i][j] == 0
    ensures MoveBoard(b, d) == b && MoveGains(b, d) == []
  {
    forall k | 0 <= k < LineCount(b, d)
      ensures SlideLine(ReadLine(b, d, k)) == ReadLine(b, d, k) && LineGains(ReadLine(b, d, k)) == []
    {
      EmptyLineUnchanged(ReadLine(b, d, k));
    }
    MoveBoardFixed(b, d);
    GainsBeforeEmpty(b, d, LineCount(b, d));
  }

  /** Cell (i, j) and its right-hand neighbour hold equal values. */
  predicate PairBeside(b: Board, i: int, j: int)
    requires Rect(b) && 0 <= i < |b| && 0 <= j < Width(b) - 1
  {
    b[i][j] == b[i][j + 1]
  }

  /** Cell (i, j) and the cell below it hold equal values. */
  predicate PairBelow(b: Board, i: int, j: int)
    requires Rect(b) && 0 <= i < |b| - 1 && 0 <= j < Width(b)
  {
    b[i][j] == b[i + 1][j]
  }

  /** No two cells that are neighbours along the axis of `d` hold equal values. */
  predicate NoPairAlong(b: Board, d: Dir)
    requires Rect(b)
  {
    if Horizontal(d) then
      forall i, j :: 0 <= i < |b| && 0 <= j < Width(b) - 1 ==> !PairBeside(b, i, j)
    else
      forall i, j :: 0 <= i < |b| - 1 && 0 <= j < Width(b) ==> !PairBelow(b, i, j)
  }

  predicate Full(b: Board)
  {
    forall i, j :: 0 <= i < |b| && 0 <= j < |b[i]| ==> b[i][j] != 0
  }

  /** A move on a full board without equal neighbours along its axis is a no-op. */
  lemma FullDistinctBoardUnchanged(b: Board, d: Dir)
    requires Rect(b) && Full(b) && NoPairAlong(b, d)
    ensures MoveBoard(b, d) == b && MoveGains(b, d) == []
  {
    forall k | 0 <= k < LineCount(b, d)
      ensures SlideLine(ReadLine(b, d, k)) == ReadLine(b, d, k) && LineGains(ReadLine(b, d, k)) == []
    {
      var l := ReadLine(b, d, k);
      forall t | 0 <= t < |l| - 1
        ensures l[t] != l[t + 1]
      {
        match d {
          case Left =>
            assert !PairBeside(b, k, t);
          case Right =>
            assert !PairBeside(b, k, Width(b) - 2 - t);
          case Up =>
            assert !PairBelow(b, t, k);
          case Down =>
            assert !PairBelow(b, |b| - 2 - t, k);
        }
      }
      FullDistinctLineUnchanged(l);
    }
    MoveBoardFixed(b, d);
    GainsBeforeEmpty(b, d, LineCount(b, d));
  }

  /** A move that changes the board leaves at least one empty cell. */
  lemma ChangedBoardHasGap(b: Board, d: Dir)
    requires Rect(b) && MoveBoard(b, d) != b
    ensures exists i, j :: 0 <= i < |b| && 0 <= j < Width(b) && MoveBoard(b, d)[i][j] == 0
  {
    if forall k :: 0 <= k < LineCount(b, d) ==> SlideLine(ReadLine(b, d, k)) == ReadLine(b, d, k) {
      MoveBoardFixed(b, d);
      assert false;
    }
    var k :| 0 <= k < LineCount(b, d) && SlideLine(ReadLine(b, d, k)) != ReadLine(b, d, k);
    ChangedLineHasGap(ReadLine(b, d, k));
    var t :| 0 <= t < LineLength(b, d) && SlideLine(ReadLine(b, d, k))[t] == 0;
    LineCellRoundTrip(b, d, k, t);
    var i, j := RowOf(b, d, k, t), ColOf(b, d, k, t);
    assert MoveBoard(b, d)[i][j] == 0;
  }

  // ---------------------------------------------------------------------------
  // Totals over the whole board
  // ---------------------------------------------------------------------------

  /** What is added up over the cells: their values, or the number of tiles. */
  datatype Measure = Value | Tiles

  function Weigh(m: Measure, s: seq<int>): int
  {
    match m
    case Value => Sum(s)
    case Tiles => Count(s)
  }

  function RowsTotal(m: Measure, b: Board): int
  {
    if |b| == 0 then 0 else RowsTotal(m, b[..|b| - 1]) + Weigh(m, b[|b| - 1])
  }

  /** Sum of all cells of the board. */
  function BoardSum(b: Board): int
  {
    RowsTotal(Value, b)
  }

  /** Number of tiles on the board. */
  function TileCount(b: Board): int
  {
    RowsTotal(Tiles, b)
  }

  function LinesTotal(m: Measure, b: Board, d: Dir, n: nat): int
    requires Rect(b) && n <= LineCount(b, d)
  {
    if n == 0 then 0 else LinesTotal(m, b, d, n - 1) + Weigh(m, ReadLine(b, d, n - 1))
  }

  function Reverse(s: seq<int>): (r: seq<int>)
    ensures |r| == |s|
  {
    seq(|s|, i requires 0 <= i < |s| => s[|s| - 1 - i])
  }

  function Column(b: Board, j: int): (r: seq<int>)
    requires 0 <= j && forall i :: 0 <= i < |b| ==> j < |b[i]|
    ensures |r| == |b|
  {
    seq(|b|, i requires 0 <= i < |b| => b[i][j])
  }

  function ColsTotal(m: Measure, b: Board, n: nat): int
    requires forall i :: 0 <= i < |b| ==> n <= |b[i]|
  {
    if n == 0 then 0 else ColsTotal(m, b, n - 1) + Weigh(m, Column(b, n - 1))
  }

  lemma WeighAppend(m: Measure, a: seq<int>, c: seq<int>)
    ensures Weigh(m, a + c) == Weigh(m, a) + Weigh(m, c)
  {
    SumAppend(a, c);
    CountAppend(a, c);
  }

  lemma {:induction false} WeighReverse(m: Measure, s: seq<int>)
    ensures Weigh(m, Reverse(s)) == Weigh(m, s)
    decreases |s|
  {
    if |s| > 0 {
      var s' := s[..|s| - 1];
      var x := s[|s| - 1];
      assert Reverse(s) == [x] + Reverse(s');
      WeighReverse(m, s');
      WeighAppend(m, [x], Reverse(s'));
      assert [x][..0] == [];
      assert Weigh(m, [x]) == Weigh(m, [x][..0]) + Weigh(m, [x]) - Weigh(m, []);
      match m {
        case Value => assert Sum([x]) == x;
        case Tiles => assert Count([x]) == (if x != 0 then 1 else 0);
      }
    }
  }

  lemma {:induction false} ColsOfNoRows(m: Measure, b: Board, n: nat)
    requires |b| == 0
    ensures ColsTotal(m, b, n) == 0
  {
    if n > 0 {
      ColsOfNoRows(m, b, n - 1);
      assert Column(b, n - 1) == [];
    }
  }

  lemma {:induction false} ColsSplit(m: Measure, b: Board, n: nat)
    requires |b| > 0 && forall i :: 0 <= i < |b| ==> n <= |b[i]|
    ensures ColsTotal(m, b, n) == ColsTotal(m, b[..|b| - 1], n) + Weigh(m, b[|b| - 1][..n])
  {
    var last := b[|b| - 1];
    if n == 0 {
      assert last[..0] == [];
    } else {
      ColsSplit(m, b, n - 1);
      assert Column(b, n - 1)[..|b| - 1] == Column(b[..|b| - 1], n - 1);
      assert last[..n][..n - 1] == last[..n - 1];
    }
  }

  /** Adding up row by row or column by column gives the same total. */
  lemma {:induction false} Exchange(m: Measure, b: Board, w: nat)
    requires forall i :: 0 <= i < |b| ==> |b[i]| == w
    ensures RowsTotal(m, b) == ColsTotal(m, b, w)
  {
    if |b| == 0 {
      ColsOfNoRows(m, b, w);
    } else {
      Exchange(m, b[..|b| - 1], w);
      ColsSplit(m, b, w);
      assert b[|b| - 1][..w] == b[|b| - 1];
    }
  }

  lemma {:induction false} LinesTotalRows(m: Measure, b: Board, d: Dir, n: nat)
    requires Rect(b) && Horizontal(d) && n <= |b|
    ensures LinesTotal(m, b, d, n) == RowsTotal(m, b[..n])
  {
    if n > 0 {
      LinesTotalRows(m, b, d, n - 1);
      assert b[..n][..n - 1] == b[..n - 1];
      if d.Left? {
        assert ReadLine(b, d, n - 1) == b[n - 1];
      } else {
        assert ReadLine(b, d, n - 1) == Reverse(b[n - 1]);
        WeighReverse(m, b[n - 1]);
      }
    }
  }

  lemma {:induction false} LinesTotalCols(m: Measure, b: Board, d: Dir, n: nat)
    requires Rect(b) && !Horizontal(d) && n <= Width(b)
    ensures LinesTotal(m, b, d, n) == ColsTotal(m, b, n)
  {
    if n > 0 {
      LinesTotalCols(m, b, d, n - 1);
      if d.Up? {
        assert ReadLine(b, d, n - 1) == Column(b, n - 1);
      } else {
        assert ReadLine(b, d, n - 1) == Reverse(Column(b, n - 1));
        WeighReverse(m, Column(b, n - 1));
      }
    }
  }

  /** Adding up the lines of any direction gives the board total. */
  lemma Along(m: Measure, b: Board, d: Dir)
    requires Rect(b)
    ensures LinesTotal(m, b, d, LineCount(b, d)) == RowsTotal(m, b)
  {
    if Horizontal(d) {
      LinesTotalRows(m, b, d, |b|);
      assert b[..|b|] == b;
    } else {
      LinesTotalCols(m, b, d, Width(b));
      Exchange(m, b, Width(b));
    }
  }

  /** Two boards whose lines have pairwise equal sums have equal line totals. */
  lemma {:induction false} SameLineSums(b: Board, c: Board, d: Dir, n: nat)
    requires Rect(b) && Rect(c) && n <= LineCount(b, d) && n <= LineCount(c, d)
    requires forall k {:trigger ReadLine(c, d, k)} :: 0 <= k < n ==> Sum(ReadLine(c, d, k)) == Sum(ReadLine(b, d, k))
    ensures LinesTotal(Value, c, d, n) == LinesTotal(Value, b, d, n)
  {
    if n > 0 {
      SameLineSums(b, c, d, n - 1);
    }
  }

  /** Lines of `c` that each lose one tile per merge of the matching line of `b`. */
  lemma {:induction false} LineCountsDrop(b: Board, c: Board, d: Dir, n: nat)
    requires Rect(b) && Rect(c) && n <= LineCount(b, d) && n <= LineCount(c, d)
    requires forall k :: 0 <= k < n ==>
      Weigh(Tiles, ReadLine(c, d, k)) == Weigh(Tiles, ReadLine(b, d, k)) - |LineGains(ReadLine(b, d, k))|
    ensures LinesTotal(Tiles, c, d, n) == LinesTotal(Tiles, b, d, n) - |GainsBefore(b, d, n)|
  {
    if n > 0 {
      LineCountsDrop(b, c, d, n - 1);
    }
  }

  /**
   * Conservation under a move: the sum of all cells is kept, and the number of
   * tiles drops by exactly the number of merges.
   */
  lemma MoveConserves(b: Board, d: Dir)
    requires Rect(b)
    ensures BoardSum(MoveBoard(b, d)) == BoardSum(b)
    ensures TileCount(MoveBoard(b, d)) == TileCount(b) - |MoveGains(b, d)|
  {
    var m := MoveBoard(b, d);
    forall k | 0 <= k < LineCount(b, d)
      ensures Sum(ReadLine(m, d, k)) == Sum(ReadLine(b, d, k))
      ensures Weigh(Tiles, ReadLine(m, d, k)) == Weigh(Tiles, ReadLine(b, d, k)) - |LineGains(ReadLine(b, d, k))|
    {
      LinesIndependent(b, d, k);
      SlideLineSum(ReadLine(b, d, k));
      SlideLineCount(ReadLine(b, d, k));
    }
    SameLineSums(b, m, d, LineCount(b, d));
    LineCountsDrop(b, m, d, LineCount(b, d));
    Along(Value, b, d);
    Along(Tiles, b, d);
    Along(Value, m, d);
    Along(Tiles, m, d);
  }

  predicate NonNegativeBoard(b: Board)
  {
    forall i, j :: 0 <= i < |b| && 0 <= j < |b[i]| ==> b[i][j] >= 0
  }

  lemma ReadLineNonNegative(b: Board, d: Dir, k: int)
    requires Rect(b) && NonNegativeBoard(b) && 0 <= k < LineCount(b, d)
    ensures NonNegative(ReadLine(b, d, k))
  {
    forall t | 0 <= t < LineLength(b, d)
      ensures ReadLine(b, d, k)[t] >= 0
    {
      LineCellRoundTrip(b, d, k, t);
    }
  }

  lemma {:induction false} GainsBeforeNonNegative(b: Board, d: Dir, n: nat)
    requires Rect(b) && NonNegativeBoard(b) && n <= LineCount(b, d)
    ensures NonNegative(GainsBefore(b, d, n))
  {
    if n > 0 {
      GainsBeforeNonNegative(b, d, n - 1);
      ReadLineNonNegative(b, d, n - 1);
      var l := ReadLine(b, d, n - 1);
      SlideLineSign(l);
      NonNegativeAppend(GainsBefore(b, d, n - 1), LineGains(l));
    }
  }

  /** A move keeps tiles non-negative and then every merge adds a non-negative value. */
  lemma MoveKeepsNonNegative(b: Board, d: Dir)
    requires Rect(b) && NonNegativeBoard(b)
    ensures NonNegativeBoard(MoveBoard(b, d))
    ensures NonNegative(MoveGains(b, d))
  {
    var m := MoveBoard(b, d);
    forall i, j | 0 <= i < |m| && 0 <= j < |m[i]|
      ensures m[i][j] >= 0
    {
      CellRoundTrip(b, d, i, j);
      ReadLineNonNegative(b, d, LineOf(d, i, j));
      SlideLineSign(ReadLine(b, d, LineOf(d, i, j)));
    }
    GainsBeforeNonNegative(b, d, LineCount(b, d));
  }
}
