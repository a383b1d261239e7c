/**
 * The game board's own loops, step for step: the in-place shift of a line with
 * its swaps and its per-move "merged" mask, the sweep over all lines of a move,
 * the row-major collection of empty cells, and the game-over scan.  Each is
 * proved to compute the corresponding pure definition.
 */
module Sweep {
  import opened Lines
  import opened Grid
  import opened State
  import opened Engine

  /** Scanning one more cell of a line is one `Absorb` step. */
  lemma PackStep(line: seq<int>, col: int)
    requires 0 <= col < |line|
    ensures Pack(line[..col + 1]) == Absorb(Pack(line[..col]), line[col])
  {
    assert line[..col + 1][..col] == line[..col];
  }

  /**
   * The state of the in-place loop once the cells before `col` have been handled:
   * the packed tiles sit at the front, then empty cells up to `col`, then the
   * untouched rest of the line; the mask marks the last tile iff it was produced
   * by a merge, and no cell after the tiles; the score has seen every merge so far.
   */
  predicate Scanned(line: seq<int>, col: int, a: seq<int>, merged: seq<bool>, g0: Game, g: Game)
    requires 0 <= col <= |line|
  {
    var p := Pack(line[..col]);
    |a| == |line| && |merged| == |line| && |p.tiles| <= col &&
    a[..|p.tiles|] == p.tiles &&
    (forall t :: |p.tiles| <= t < col ==> a[t] == 0) &&
    a[col..] == line[col..] &&
    (|p.tiles| > 0 ==> merged[|p.tiles| - 1] == p.lastMerged) &&
    (forall t :: |p.tiles| <= t < |line| ==> !merged[t]) &&
    g == ApplyGains(g0, p.gains)
  }

  lemma ScannedStart(line: seq<int>, g0: Game)
    requires |line| > 0
    ensures Scanned(line, 1, line, seq(|line|, _ => false), g0, g0)
  {
    assert line[..1] == [] + [line[0]];
    assert line[..1][..0] == [];
  }

  lemma ScannedDone(line: seq<int>, a: seq<int>, merged: seq<bool>, g0: Game, g: Game)
    requires Scanned(line, |line|, a, merged, g0, g)
    ensures a == SlideLine(line) && g == ApplyGains(g0, LineGains(line))
  {
    assert line[..|line|] == line;
    var t := Pack(line).tiles;
    assert a == a[..|t|] + a[|t|..];
  }

  /** A cell that is already empty extends the run of empty cells. */
  lemma ScannedSkip(line: seq<int>, col: int, a: seq<int>, merged: seq<bool>, g0: Game, g: Game)
    requires 0 <= col < |line| && Scanned(line, col, a, merged, g0, g) && line[col] == 0
    ensures Scanned(line, col + 1, a, merged, g0, g)
  {
    PackStep(line, col);
    assert a[col] == line[col];
  }

  /** The tile stops right behind the packed tiles without merging. */
  lemma ScannedAppend(line: seq<int>, col: int, a0: seq<int>, a: seq<int>, merged: seq<bool>, g0: Game, g: Game)
    requires 0 <= col < |line| && Scanned(line, col, a0, merged, g0, g) && line[col] != 0
    requires var p := Pack(line[..col]); var m := |p.tiles|;
      |a| == |line| && a[..m] == p.tiles && a[m] == line[col] &&
      (forall t :: m < t <= col ==> a[t] == 0) && a[col + 1..] == line[col + 1..] &&
      (m == 0 || p.lastMerged || p.tiles[m - 1] != line[col])
    ensures Scanned(line, col + 1, a, merged, g0, g)
  {
    PackStep(line, col);
    var p := Pack(line[..col]);
    assert a[..|p.tiles| + 1] == a[..|p.tiles|] + [a[|p.tiles|]];
  }

  /** The tile merges into the last packed tile, which was not itself merged. */
  lemma ScannedMerge(line: seq<int>, col: int, a0: seq<int>, a: seq<int>, merged0: seq<bool>, merged: seq<bool>, g0: Game, g: Game)
    requires 0 <= col < |line| && line[col] != 0
    requires Scanned(line, col, a0, merged0, g0, ApplyGains(g0, Pack(line[..col]).gains))
    requires var p := Pack(line[..col]); var m := |p.tiles|;
      m > 0 && !p.lastMerged && p.tiles[m - 1] == line[col] &&
      |a| == |line| && a[..m - 1] == p.tiles[..m - 1] && a[m - 1] == 2 * line[col] &&
      (forall t :: m <= t <= col ==> a[t] == 0) && a[col + 1..] == line[col + 1..] &&
      merged == merged0[m - 1 := true] &&
      g == UpdateScore(ApplyGains(g0, p.gains), 2 * line[col])
    ensures Scanned(line, col + 1, a, merged, g0, g)
  {
    PackStep(line, col);
    var p := Pack(line[..col]);
    var m := |p.tiles|;
    var gs := p.gains + [2 * line[col]];
    assert gs[..|gs| - 1] == p.gains;
    assert a[..m] == a[..m - 1] + [a[m - 1]];
  }

  /**
   * The tile taken from `col` stands at `c` on its way to the front: the packed
   * tiles are in place, the cells between them and the tile and between the tile
   * and `col` are empty, and the unscanned cells are untouched.
   */
  predicate Walking(line: seq<int>, col: int, tiles: seq<int>, a: seq<int>, c: int)
  {
    |tiles| <= c <= col < |line| && |a| == |line| &&
    a[..|tiles|] == tiles && a[c] == line[col] &&
    (forall t :: |tiles| <= t < c ==> a[t] == 0) &&
    (forall t :: c < t <= col ==> a[t] == 0) &&
    a[col + 1..] == line[col + 1..]
  }

  /** Swapping the tile with the empty cell in front of it moves it one step on. */
  lemma WalkStep(line: seq<int>, col: int, tiles: seq<int>, a: seq<int>, c: int)
    requires NoZeros(tiles) && Walking(line, col, tiles, a, c) && c > 0 && a[c - 1] == 0
    ensures Walking(line, col, tiles, a[c := a[c - 1]][c - 1 := a[c]], c - 1)
  {
    var m := |tiles|;
    var a' := a[c := a[c - 1]][c - 1 := a[c]];
    assert a'[..m] == a[..m];
    assert a'[col + 1..] == a[col + 1..];
  }

  /**
   * Handles the cell at `col`: a tile walks towards the front through empty cells;
   * on meeting an equal tile that has not been merged in this move it merges (the
   * front cell doubles, is marked, and the score is updated); otherwise it stops.
   */
  method PlaceTile(line: seq<int>, col: int, a0: seq<int>, merged0: seq<bool>, g0: Game, g1: Game)
    returns (a: seq<int>, merged: seq<bool>, g: Game)
    requires 1 <= col < |line| && Scanned(line, col, a0, merged0, g0, g1)
    ensures Scanned(line, col + 1, a, merged, g0, g)
  {
    a, merged, g := a0, merged0, g1;
    if a[col] == 0 {
      ScannedSkip(line, col, a, merged, g0, g);
      return;
    }
    ghost var p := Pack(line[..col]);
    ghost var m := |p.tiles|;
    var c := col;
    while c > 0
      invariant Walking(line, col, p.tiles, a, c)
      invariant merged == merged0 && g == g1
      decreases c
    {
      if a[c - 1] == 0 {
        WalkStep(line, col, p.tiles, a, c);
        var temp := a[c];
        a := a[c := a[c - 1]][c - 1 := temp];
        c := c - 1;
      } else if a[c - 1] == a[c] {
        if !merged[c - 1] {
          var val := a[c];
          a := a[c - 1 := 2 * val][c := 0];
          merged := merged[c - 1 := true];
          g := UpdateScore(g, 2 * val);
          ScannedMerge(line, col, a0, a, merged0, merged, g0, g);
          return;
        }
        break;
      } else {
        break;
      }
    }
    ScannedAppend(line, col, a0, a, merged, g0, g);
  }

  /**
   * The in-place shift of one line towards index 0, as the game board does it:
   * every cell after the first is handled in turn by `PlaceTile`, with a mask of
   * the cells produced by a merge in this move.  The result is the pure
   * `SlideLine`, and the score has seen the line's merges in order.
   */
  method SlideInPlace(line: seq<int>, g0: Game) returns (a: seq<int>, g: Game)
    ensures a == SlideLine(line)
    ensures g == ApplyGains(g0, LineGains(line))
  {
    a, g := line, g0;
    var n := |line|;
    if n == 0 {
      assert line[..0] == line;
      return;
    }
    var merged := seq(n, _ => false);
    ScannedStart(line, g0);
    var col := 1;
    while col < n
      invariant 1 <= col <= n
      invariant Scanned(line, col, a, merged, g0, g)
    {
      a, merged, g := PlaceTile(line, col, a, merged, g0, g);
      col := col + 1;
    }
    ScannedDone(line, a, merged, g0, g);
  }

  /** The score after one more line is the score of the merges of one more line. */
  lemma ScoreStep(g: Game, b: Board, d: Dir, k: int, r: Game)
    requires Rect(b) && 0 <= k < LineCount(b, d)
    requires r == ApplyGains(g, GainsBefore(b, d, k)).(board := r.board)
    ensures ApplyGains(r, LineGains(ReadLine(b, d, k))).(board := r.board) ==
      ApplyGains(g, GainsBefore(b, d, k + 1)).(board := r.board)
  {
    var before := ApplyGains(g, GainsBefore(b, d, k));
    var gs := LineGains(ReadLine(b, d, k));
    ApplyGainsBoard(before, gs, r.board);
    ApplyGainsAppend(g, GainsBefore(b, d, k), gs);
  }

  /** New contents for the lines of a grid along a direction, one per line. */
  predicate LinesFit(b: Board, d: Dir, lines: seq<seq<int>>)
  {
    |lines| == LineCount(b, d) && forall l :: 0 <= l < |lines| ==> |lines[l]| == LineLength(b, d)
  }

  /**
   * The grid `c` has the shape of `b`; its lines before `k` hold their new
   * contents and the others are those of `b`.
   */
  predicate WrittenBefore(b: Board, d: Dir, lines: seq<seq<int>>, k: int, c: Board)
    requires Rect(b) && LinesFit(b, d, lines)
  {
    Rect(c) && |c| == |b| && Width(c) == Width(b) && 0 <= k <= |lines| &&
    forall l {:trigger ReadLine(c, d, l)} :: 0 <= l < |lines| ==>
      ReadLine(c, d, l) == if l < k then lines[l] else ReadLine(b, d, l)
  }

  lemma WrittenStart(b: Board, d: Dir, lines: seq<seq<int>>)
    requires Rect(b) && LinesFit(b, d, lines)
    ensures WrittenBefore(b, d, lines, 0, b)
  {
  }

  /** The next line is still untouched; writing it extends the written prefix. */
  lemma WrittenStep(b: Board, d: Dir, lines: seq<seq<int>>, k: int, c: Board)
    requires Rect(b) && LinesFit(b, d, lines) && WrittenBefore(b, d, lines, k, c) && k < |lines|
    ensures ReadLine(c, d, k) == ReadLine(b, d, k)
    ensures WrittenBefore(b, d, lines, k + 1, WriteLine(c, d, k, lines[k]))
  {
    var w := WriteLine(c, d, k, lines[k]);
    forall l | 0 <= l < |lines|
      ensures ReadLine(w, d, l) == if l < k + 1 then lines[l] else ReadLine(b, d, l)
    {
      ReadWriteLine(c, d, k, lines[k], l);
    }
  }

  /** Every line shifted on its own. */
  function MovedLines(b: Board, d: Dir): (r: seq<seq<int>>)
    requires Rect(b)
    ensures LinesFit(b, d, r)
  {
    seq(LineCount(b, d), l requires 0 <= l < LineCount(b, d) => SlideLine(ReadLine(b, d, l)))
  }

  /** Once every line holds its shifted contents, the grid is the moved grid. */
  lemma WrittenAll(b: Board, d: Dir, c: Board)
    requires Rect(b) && WrittenBefore(b, d, MovedLines(b, d), LineCount(b, d), c)
    ensures c == MoveBoard(b, d)
  {
    var m := MoveBoard(b, d);
    forall l | 0 <= l < LineCount(b, d)
      ensures ReadLine(c, d, l) == ReadLine(m, d, l)
    {
      LinesIndependent(b, d, l);
    }
    SameLines(c, m, d);
  }

  /**
   * The state of a move after its first `k` lines: those lines hold their shifted
   * contents, the rest are untouched, and the score has taken the merges of the
   * first `k` lines, one by one.
   */
  predicate Swept(g: Game, d: Dir, k: int, r: Game)
    requires Rect(g.board)
  {
    0 <= k <= LineCount(g.board, d) &&
    WrittenBefore(g.board, d, MovedLines(g.board, d), k, r.board) &&
    r == ApplyGains(g, GainsBefore(g.board, d, k)).(board := r.board)
  }

  lemma SweptStart(g: Game, d: Dir)
    requires Rect(g.board)
    ensures Swept(g, d, 0, g)
  {
    WrittenStart(g.board, d, MovedLines(g.board, d));
  }

  /** After the last line the state is the pure move. */
  lemma SweptAll(g: Game, d: Dir, r: Game)
    requires WellFormed(g) && Swept(g, d, LineCount(g.board, d), r)
    ensures r == Shift(g, d)
  {
    WrittenAll(g.board, d, r.board);
  }

  /** Shifts line `k` in place and writes it back. */
  method ShiftLine(g: Game, d: Dir, k: int, r0: Game) returns (r: Game)
    requires Rect(g.board) && k < LineCount(g.board, d) && Swept(g, d, k, r0)
    ensures Swept(g, d, k + 1, r)
  {
    var b := g.board;
    WrittenStep(b, d, MovedLines(b, d), k, r0.board);
    ScoreStep(g, b, d, k, r0);
    var line := ReadLine(r0.board, d, k);
    var a, h := SlideInPlace(line, r0);
    r := h.(board := WriteLine(r0.board, d, k, a));
  }

  /**
   * A move as the game board performs it: the lines are shifted one after the
   * other, each in place, from line 0 on.  The result is the pure `Shift`.
   */
  method ShiftBoard(g: Game, d: Dir) returns (r: Game)
    requires WellFormed(g)
    ensures r == Shift(g, d)
  {
    WellFormedRect(g);
    var n := LineCount(g.board, d);
    r := g;
    var k := 0;
    SweptStart(g, d);
    while k < n
      invariant 0 <= k <= n && Swept(g, d, k, r)
    {
      r := ShiftLine(g, d, k, r);
      k := k + 1;
    }
    SweptAll(g, d, r);
  }

  /** The empty cells of a board, collected row by row as the game board does. */
  method GetEmptyCells(g: Game) returns (e: seq<Cell>)
    requires WellFormed(g)
    ensures e == EmptyCells(g.board)
  {
    var b := g.board;
    e := [];
    var i := 0;
    while i < g.xSize
      invariant 0 <= i <= |b|
      invariant e == EmptyBefore(b, i)
    {
      var j := 0;
      while j < g.ySize
        invariant 0 <= j <= |b[i]|
        invariant e == EmptyBefore(b, i) + RowEmpties(b[i], i, j)
      {
        if b[i][j] == 0 {
          e := e + [(i, j)];
        }
        j := j + 1;
      }
      i := i + 1;
    }
  }

  /**
   * The game-over check as the game board performs it: a row-major search for a
   * 2048, then, on a full board, a search for a cell with an equal orthogonal
   * neighbour that stops at the first one found.  It agrees with `CheckGameOver`.
   */
  method CheckGameOverScan(g: Game) returns (r: Game)
    requires WellFormed(g)
    ensures r == CheckGameOver(g)
  {
    var b := g.board;
    WellFormedRect(g);
    var i := 0;
    while i < |b|
      invariant 0 <= i <= |b|
      invariant forall x, y :: 0 <= x < i && 0 <= y < |b[x]| ==> b[x][y] != 2048
    {
      var j := 0;
      while j < |b[i]|
        invariant 0 <= j <= |b[i]|
        invariant forall x, y :: 0 <= x < i && 0 <= y < |b[x]| ==> b[x][y] != 2048
        invariant forall y :: 0 <= y < j ==> b[i][y] != 2048
      {
        if b[i][j] == 2048 {
          r := g.(has2048 := true, status := false);
          return;
        }
        j := j + 1;
      }
      i := i + 1;
    }
    assert !Has2048(b);
    var e := GetEmptyCells(g);
    r := g;
    if |e| == 0 {
      ghost var available := MergeAvailable(b);
      var flag := false;
      i := 0;
      while i < g.xSize
        invariant 0 <= i <= g.xSize
        invariant flag ==> available
        invariant !flag ==> forall x, y :: 0 <= x < i && 0 <= y < g.ySize ==> !SameNeighbour(b, x, y)
      {
        var j := 0;
        while j < g.ySize
          invariant 0 <= j <= g.ySize
          invariant flag ==> available
          invariant !flag ==> forall x, y :: 0 <= x < i && 0 <= y < g.ySize ==> !SameNeighbour(b, x, y)
          invariant !flag ==> forall y :: 0 <= y < j ==> !SameNeighbour(b, i, y)
        {
          if (i > 0 && b[i - 1][j] == b[i][j]) ||
             (i < g.xSize - 1 && b[i + 1][j] == b[i][j]) ||
             (j > 0 && b[i][j - 1] == b[i][j]) ||
             (j < g.ySize - 1 && b[i][j + 1] == b[i][j]) {
            assert SameNeighbour(b, i, j);
            flag := true;
            break;
          }
          j := j + 1;
        }
        if flag {
          break;
        }
        i := i + 1;
      }
      if !flag {
        r := g.(status := false);
        assert !available;
      }
    }
  }
}
