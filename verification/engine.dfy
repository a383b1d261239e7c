/**
 * The operations of the game board on an explicit `Game` state: the two ways of
 * starting a game, spawning a tile into an empty cell, the game-over check, the
 * guarded cell swap and the four moves.
 *
 * Random draws are parameters: each is the 53-bit numerator `k` of the double
 * `k / 2^53` that `Random.nextDouble` returns, turned into an index as in `Doubles`.
 */
module Engine {
  import opened Lines
  import opened Grid
  import opened State
  import opened Doubles

  // ---------------------------------------------------------------------------
  // Cells
  // ---------------------------------------------------------------------------

  type Cell = (int, int)

  predicate EmptyCell(b: Board, c: Cell)
  {
    InBounds(b, c.0, c.1) && b[c.0][c.1] == 0
  }

  /** `c` comes before `e` in row-major order. */
  predicate RowMajor(c: Cell, e: Cell)
  {
    c.0 < e.0 || (c.0 == e.0 && c.1 < e.1)
  }

  /** The same number of rows, each of the same length. */
  predicate SameShape(b: Board, c: Board)
  {
    |c| == |b| && forall i :: 0 <= i < |b| ==> |c[i]| == |b[i]|
  }

  /** The board with cell (i, j) set to `v`. */
  function SetCell(b: Board, i: int, j: int, v: int): (r: Board)
    requires InBounds(b, i, j)
    ensures SameShape(b, r)
    ensures forall x, y :: InBounds(b, x, y) ==> r[x][y] == (if x == i && y == j then v else b[x][y])
  {
    b[i := b[i][j := v]]
  }

  // ---------------------------------------------------------------------------
  // The empty cells, in row-major order
  // ---------------------------------------------------------------------------

  /** The empty cells among the first `m` cells of row `i`. */
  function RowEmpties(row: seq<int>, i: int, m: nat): seq<Cell>
    requires m <= |row|
  {
    if m == 0 then []
    else RowEmpties(row, i, m - 1) + (if row[m - 1] == 0 then [(i, m - 1)] else [])
  }

  /** The empty cells of the first `n` rows. */
  function EmptyBefore(b: Board, n: nat): seq<Cell>
    requires n <= |b|
  {
    if n == 0 then [] else EmptyBefore(b, n - 1) + RowEmpties(b[n - 1], n - 1, |b[n - 1]|)
  }

  function EmptyCells(b: Board): seq<Cell>
  {
    EmptyBefore(b, |b|)
  }

  lemma {:induction false} RowEmptiesSpec(row: seq<int>, i: int, m: nat)
    requires m <= |row|
    ensures forall p :: 0 <= p < |RowEmpties(row, i, m)| ==>
      RowEmpties(row, i, m)[p].0 == i && 0 <= RowEmpties(row, i, m)[p].1 < m && row[RowEmpties(row, i, m)[p].1] == 0
    ensures forall j :: 0 <= j < m && row[j] == 0 ==> (i, j) in RowEmpties(row, i, m)
    ensures forall p, q :: 0 <= p < q < |RowEmpties(row, i, m)| ==>
      RowEmpties(row, i, m)[p].1 < RowEmpties(row, i, m)[q].1
  {
    if m > 0 {
      RowEmptiesSpec(row, i, m - 1);
    }
  }

  lemma {:induction false} EmptyBeforeSpec(b: Board, n: nat)
    requires n <= |b|
    ensures forall p :: 0 <= p < |EmptyBefore(b, n)| ==>
      EmptyBefore(b, n)[p].0 < n && EmptyCell(b, EmptyBefore(b, n)[p])
    ensures forall i, j :: 0 <= i < n && 0 <= j < |b[i]| && b[i][j] == 0 ==> (i, j) in EmptyBefore(b, n)
    ensures forall p, q :: 0 <= p < q < |EmptyBefore(b, n)| ==> RowMajor(EmptyBefore(b, n)[p], EmptyBefore(b, n)[q])
  {
    if n > 0 {
      EmptyBeforeSpec(b, n - 1);
      RowEmptiesSpec(b[n - 1], n - 1, |b[n - 1]|);
      var e := EmptyBefore(b, n - 1);
      var r := RowEmpties(b[n - 1], n - 1, |b[n - 1]|);
      assert EmptyBefore(b, n) == e + r;
      forall p, q | 0 <= p < q < |e + r|
        ensures RowMajor((e + r)[p], (e + r)[q])
      {
        if q >= |e| && p < |e| {
          assert (e + r)[p] == e[p] && (e + r)[q] == r[q - |e|];
        }
      }
    }
  }

  /**
   * The list of empty cells is exact (a cell is listed iff it lies on the board and
   * is empty) and strictly increasing in row-major order.
   */
  lemma EmptyCellsExact(b: Board)
    ensures forall c :: c in EmptyCells(b) <==> EmptyCell(b, c)
    ensures forall p, q :: 0 <= p < q < |EmptyCells(b)| ==> RowMajor(EmptyCells(b)[p], EmptyCells(b)[q])
    ensures |EmptyCells(b)| == 0 <==> Full(b)
  {
    EmptyBeforeSpec(b, |b|);
    var e := EmptyCells(b);
    forall c | EmptyCell(b, c)
      ensures c in e
    {
      assert b[c.0][c.1] == 0;
    }
    if |e| > 0 {
      assert EmptyCell(b, e[0]);
    }
  }

  // ---------------------------------------------------------------------------
  // Spawning a tile
  // ---------------------------------------------------------------------------

  /** The two draws of one spawn: which empty cell, and whether it gets a 4. */
  datatype Draw = Draw(cell: int, value: int)

  predicate ValidDraw(u: Draw)
  {
    0 <= u.cell < Unit && 0 <= u.value < Unit
  }

  /** The tile a draw spawns: 4 when the decimal digit drawn is 9, otherwise 2. */
  function TileFor(u: Draw): (r: int)
    requires ValidDraw(u)
    ensures r == 2 || r == 4
  {
    if Pick(u.value, 10) == 9 then 4 else 2
  }

  /** The empty cell a draw selects. */
  function Chosen(b: Board, u: Draw): Cell
    requires ValidDraw(u) && |EmptyCells(b)| > 0
  {
    EmptyCells(b)[Pick(u.cell, |EmptyCells(b)|)]
  }

  /**
   * A spawn fails (indexing an empty list) exactly when the board has no empty
   * cell, and then changes nothing.  Otherwise the empty cell at the drawn
   * position of the row-major list becomes a 2 or a 4, and nothing else changes.
   */
  function AddRandomTile(g: Game, u: Draw): (r: Outcome)
    requires WellFormed(g) && ValidDraw(u)
    ensures r.Threw? <==> Full(g.board)
    ensures r.Threw? ==> r == Threw(IndexOutOfBounds, g)
    ensures r.Done? ==> |EmptyCells(g.board)| > 0 && EmptyCell(g.board, Chosen(g.board, u))
    ensures r.Done? ==> SameShape(g.board, r.game.board) && r.game == g.(board := r.game.board)
    ensures r.Done? ==> WellFormed(r.game)
    ensures r.Done? ==> forall i, j :: InBounds(g.board, i, j) ==>
      r.game.board[i][j] == (if (i, j) == Chosen(g.board, u) then TileFor(u) else g.board[i][j])
  {
    EmptyCellsExact(g.board);
    var e := EmptyCells(g.board);
    if |e| == 0 then Threw(IndexOutOfBounds, g)
    else
      var c := e[Pick(u.cell, |e|)];
      assert c in e;
      Done(g.(board := SetCell(g.board, c.0, c.1, TileFor(u))))
  }

  lemma {:induction false} WeighUpdate(m: Measure, s: seq<int>, j: int, v: int)
    requires 0 <= j < |s|
    ensures Weigh(m, s[j := v]) == Weigh(m, s) - Weigh(m, [s[j]]) + Weigh(m, [v])
  {
    var front, back := s[..j], s[j + 1..];
    assert s == front + [s[j]] + back;
    assert s[j := v] == front + [v] + back;
    WeighAppend(m, front + [s[j]], back);
    WeighAppend(m, front, [s[j]]);
    WeighAppend(m, front + [v], back);
    WeighAppend(m, front, [v]);
  }

  lemma {:induction false} RowsTotalUpdate(m: Measure, b: Board, i: int, row: seq<int>)
    requires 0 <= i < |b|
    ensures RowsTotal(m, b[i := row]) == RowsTotal(m, b) - Weigh(m, b[i]) + Weigh(m, row)
  {
    var n := |b|;
    if i == n - 1 {
      assert b[i := row][..n - 1] == b[..n - 1];
    } else {
      assert b[i := row][..n - 1] == b[..n - 1][i := row];
      RowsTotalUpdate(m, b[..n - 1], i, row);
    }
  }

  /** Setting one cell changes the totals by that cell alone. */
  lemma SetCellTotals(b: Board, i: int, j: int, v: int)
    requires InBounds(b, i, j)
    ensures BoardSum(SetCell(b, i, j, v)) == BoardSum(b) - b[i][j] + v
    ensures TileCount(SetCell(b, i, j, v)) == TileCount(b) - (if b[i][j] != 0 then 1 else 0) + (if v != 0 then 1 else 0)
  {
    SumSingle(b[i][j]);
    SumSingle(v);
    WeighUpdate(Value, b[i], j, v);
    WeighUpdate(Tiles, b[i], j, v);
    RowsTotalUpdate(Value, b, i, b[i][j := v]);
    RowsTotalUpdate(Tiles, b, i, b[i][j := v]);
  }

  /** A spawn on a board with an empty cell adds exactly one tile, worth 2 or 4. */
  lemma AddRandomTileCounts(g: Game, u: Draw)
    requires WellFormed(g) && ValidDraw(u) && !Full(g.board)
    ensures AddRandomTile(g, u).Done?
    ensures TileCount(AddRandomTile(g, u).game.board) == TileCount(g.board) + 1
    ensures BoardSum(AddRandomTile(g, u).game.board) == BoardSum(g.board) + TileFor(u)
  {
    EmptyCellsExact(g.board);
    var c := Chosen(g.board, u);
    assert AddRandomTile(g, u).game.board == SetCell(g.board, c.0, c.1, TileFor(u));
    SetCellTotals(g.board, c.0, c.1, TileFor(u));
  }

  // ---------------------------------------------------------------------------
  // Starting a game
  // ---------------------------------------------------------------------------

  function ZeroBoard(rows: nat, cols: nat): (r: Board)
    ensures |r| == rows && forall i :: 0 <= i < rows ==> r[i] == Zeros(cols)
  {
    seq(rows, _ => Zeros(cols))
  }

  /** Only 2s, 4s and empty cells. */
  predicate StartValues(b: Board)
  {
    forall i, j :: 0 <= i < |b| && 0 <= j < |b[i]| ==> b[i][j] == 0 || b[i][j] == 2 || b[i][j] == 4
  }

  function GenerateStartTiles(g: Game, u1: Draw, u2: Draw): Outcome
    requires WellFormed(g) && ValidDraw(u1) && ValidDraw(u2)
  {
    match AddRandomTile(g, u1)
    case Done(h) => AddRandomTile(h, u2)
    case Threw(e, h) => Threw(e, h)
  }

  /**
   * A new game of the given size.  Fewer than 4 rows or columns is rejected before
   * anything changes.  Otherwise the board is empty but for two start tiles, the
   * score is reset and the game is running; the high score is kept.
   */
  function Init(g: Game, rows: int, cols: int, u1: Draw, u2: Draw): (r: Outcome)
    requires ValidDraw(u1) && ValidDraw(u2)
    ensures r.Threw? <==> rows < 4 || cols < 4
    ensures r.Threw? ==> r == Threw(InvalidDimensions, g)
  {
    if rows < 4 || cols < 4 then Threw(InvalidDimensions, g)
    else
      var z := Game(rows, cols, ZeroBoard(rows, cols), 0, g.highScore, true, false);
      assert !Full(z.board) by {
        assert z.board[0][0] == 0;
      }
      GenerateStartTiles(z, u1, u2)
  }

  lemma {:induction false} NoTiles(b: Board)
    requires forall i :: 0 <= i < |b| ==> AllZero(b[i])
    ensures TileCount(b) == 0
  {
    if |b| > 0 {
      NoTiles(b[..|b| - 1]);
      CountZerosOnly(b[|b| - 1]);
    }
  }

  /** A spawn keeps the grid's shape and the restriction to 2s, 4s and empty cells. */
  lemma SpawnKeepsStartValues(g: Game, u: Draw)
    requires WellFormed(g) && ValidDraw(u) && !Full(g.board) && StartValues(g.board)
    ensures SameShape(g.board, AddRandomTile(g, u).game.board)
    ensures StartValues(AddRandomTile(g, u).game.board)
  {
  }

  lemma {:induction false} StartGame(z: Game, u1: Draw, u2: Draw)
    requires WellFormed(z) && ValidDraw(u1) && ValidDraw(u2)
    requires InBounds(z.board, 0, 1) && z.board[0][0] == 0 && z.board[0][1] == 0
    requires TileCount(z.board) == 0 && StartValues(z.board)
    ensures GenerateStartTiles(z, u1, u2).Done?
    ensures var h := GenerateStartTiles(z, u1, u2).game;
      h == z.(board := h.board) && SameShape(z.board, h.board) &&
      TileCount(h.board) == 2 && StartValues(h.board)
  {
    AddRandomTileCounts(z, u1);
    SpawnKeepsStartValues(z, u1);
    var h1 := AddRandomTile(z, u1).game;
    assert h1.board[0][0] == 0 || h1.board[0][1] == 0;
    AddRandomTileCounts(h1, u2);
    SpawnKeepsStartValues(h1, u2);
  }

  /**
   * A started game has the requested dimensions, score 0, is running without a
   * 2048, keeps the previous high score, and holds exactly two tiles, each a 2 or a 4.
   */
  lemma InitStartTiles(g: Game, rows: int, cols: int, u1: Draw, u2: Draw)
    requires ValidDraw(u1) && ValidDraw(u2) && rows >= 4 && cols >= 4
    ensures Init(g, rows, cols, u1, u2).Done?
    ensures var h := Init(g, rows, cols, u1, u2).game;
      WellFormed(h) && h.xSize == rows && h.ySize == cols &&
      h.score == 0 && h.status && !h.has2048 && h.highScore == g.highScore &&
      TileCount(h.board) == 2 && StartValues(h.board)
  {
    var z := Game(rows, cols, ZeroBoard(rows, cols), 0, g.highScore, true, false);
    assert z.board[0] == Zeros(cols);
    assert TileCount(z.board) == 0 by {
      NoTiles(z.board);
    }
    StartGame(z, u1, u2);
    assert Init(g, rows, cols, u1, u2) == GenerateStartTiles(z, u1, u2);
  }

  /**
   * A game on a given grid (used by tests).  The row count is recorded first, so an
   * empty grid fails on its missing first row with the row count already set; a
   * jagged grid fails with both sizes already set.  Otherwise the grid is taken
   * as it is, nothing is spawned, and score and flags are reset.
   */
  function InitFrom(g: Game, b: Board): (r: Outcome)
    ensures r.Done? <==> |b| > 0 && Rect(b)
    ensures |b| == 0 ==> r == Threw(IndexOutOfBounds, g.(xSize := 0))
    ensures |b| > 0 && !Rect(b) ==> r == Threw(InvalidShape, g.(xSize := |b|, ySize := |b[0]|))
    ensures r.Done? ==> (WellFormed(r.game) && r.game.board == b && r.game.score == 0 &&
                         r.game.status && !r.game.has2048 && r.game.highScore == g.highScore)
  {
    if |b| == 0 then Threw(IndexOutOfBounds, g.(xSize := 0))
    else
      var g1 := g.(xSize := |b|, ySize := |b[0]|);
      if exists i :: 0 <= i < |b| && |b[i]| != g1.ySize then Threw(InvalidShape, g1)
      else Done(g1.(board := b, score := 0, status := true, has2048 := false))
  }

  // ---------------------------------------------------------------------------
  // The game-over check
  // ---------------------------------------------------------------------------

  predicate Has2048(b: Board)
  {
    exists i, j :: 0 <= i < |b| && 0 <= j < |b[i]| && b[i][j] == 2048
  }

  /** Some orthogonal neighbour of cell (i, j) holds the same value. */
  predicate SameNeighbour(b: Board, i: int, j: int)
    requires Rect(b) && InBounds(b, i, j)
  {
    (i > 0 && b[i - 1][j] == b[i][j]) ||
    (i < |b| - 1 && b[i + 1][j] == b[i][j]) ||
    (j > 0 && b[i][j - 1] == b[i][j]) ||
    (j < Width(b) - 1 && b[i][j + 1] == b[i][j])
  }

  predicate MergeAvailable(b: Board)
    requires Rect(b)
  {
    exists i, j :: 0 <= i < |b| && 0 <= j < |b[i]| && SameNeighbour(b, i, j)
  }

  lemma NoMergeNoPairs(b: Board)
    requires Rect(b) && !MergeAvailable(b)
    ensures NoPairAlong(b, Left) && NoPairAlong(b, Up)
  {
    forall i, j | 0 <= i < |b| && 0 <= j < Width(b) - 1
      ensures !PairBeside(b, i, j)
    {
      assert !SameNeighbour(b, i, j);
    }
    forall i, j | 0 <= i < |b| - 1 && 0 <= j < Width(b)
      ensures !PairBelow(b, i, j)
    {
      assert !SameNeighbour(b, i, j);
    }
  }

  lemma PairAcross(b: Board, i: int, j: int)
    requires Rect(b) && 0 <= i < |b| && 0 <= j < Width(b) - 1 && b[i][j] == b[i][j + 1]
    ensures !NoPairAlong(b, Left)
  {
    assert PairBeside(b, i, j);
  }

  lemma PairDown(b: Board, i: int, j: int)
    requires Rect(b) && 0 <= i < |b| - 1 && 0 <= j < Width(b) && b[i][j] == b[i + 1][j]
    ensures !NoPairAlong(b, Up)
  {
    assert PairBelow(b, i, j);
  }

  /** A merge is available iff some row or some column has two equal neighbours. */
  lemma MergeAvailableIff(b: Board)
    requires Rect(b)
    ensures MergeAvailable(b) <==> !(NoPairAlong(b, Left) && NoPairAlong(b, Up))
  {
    if MergeAvailable(b) {
      var i, j :| 0 <= i < |b| && 0 <= j < |b[i]| && SameNeighbour(b, i, j);
      assert |b[i]| == Width(b);
      if i > 0 && b[i - 1][j] == b[i][j] {
        PairDown(b, i - 1, j);
      } else if i < |b| - 1 && b[i + 1][j] == b[i][j] {
        PairDown(b, i, j);
      } else if j > 0 && b[i][j - 1] == b[i][j] {
        PairAcross(b, i, j - 1);
      } else {
        PairAcross(b, i, j);
      }
    } else {
      NoMergeNoPairs(b);
    }
  }

  /**
   * A 2048 anywhere ends the game as a win.  Otherwise the game ends only when the
   * board is full and no two orthogonal neighbours are equal.  The check never
   * restarts a game and changes nothing but the two flags.
   */
  function CheckGameOver(g: Game): (r: Game)
    requires WellFormed(g)
    ensures r == g.(status := r.status, has2048 := r.has2048)
    ensures r.status ==> g.status
    ensures r.has2048 <==> g.has2048 || Has2048(g.board)
    ensures !r.status <==>
      !g.status || Has2048(g.board) || (Full(g.board) && NoPairAlong(g.board, Left) && NoPairAlong(g.board, Up))
  {
    var b := g.board;
    EmptyCellsExact(b);
    MergeAvailableIff(b);
    if Has2048(b) then g.(has2048 := true, status := false)
    else if |EmptyCells(b)| == 0 && !MergeAvailable(b) then g.(status := false)
    else g
  }

  /** Checking a checked game changes nothing: its flags are up to date. */
  lemma CheckGameOverIdempotent(g: Game)
    requires WellFormed(g)
    ensures WellFormed(CheckGameOver(g))
    ensures CheckGameOver(CheckGameOver(g)) == CheckGameOver(g)
  {
  }

  /** When the check ends a game without a 2048, no move can change the board. */
  lemma GameOverIsStuck(g: Game, d: Dir)
    requires WellFormed(g) && g.status && !Has2048(g.board) && !CheckGameOver(g).status
    ensures MoveBoard(g.board, d) == g.board && MoveGains(g.board, d) == []
  {
    var b := g.board;
    assert NoPairAlong(b, d) by {
      if Horizontal(d) {
        assert NoPairAlong(b, Left);
      } else {
        assert NoPairAlong(b, Up);
      }
    }
    FullDistinctBoardUnchanged(b, d);
  }

  // ---------------------------------------------------------------------------
  // Swapping two cells
  // ---------------------------------------------------------------------------

  /**
   * Exchanges cell (x, y) with the cell `(dx, dy)` away.  A target outside the
   * board is rejected by an explicit check; a source outside the board fails on
   * the first array access.  Either way nothing changes.
   */
  function SwapCells(g: Game, x: int, y: int, dx: int, dy: int): (r: Outcome)
    requires WellFormed(g)
    ensures r.Done? <==> InBounds(g.board, x, y) && InBounds(g.board, x + dx, y + dy)
    ensures r.Threw? ==> r == Threw(IndexOutOfBounds, g)
    ensures r.Done? ==> SameShape(g.board, r.game.board) && r.game == g.(board := r.game.board)
    ensures r.Done? ==> forall i, j :: InBounds(g.board, i, j) ==>
      r.game.board[i][j] ==
        (if (i, j) == (x, y) then g.board[x + dx][y + dy]
         else if (i, j) == (x + dx, y + dy) then g.board[x][y]
         else g.board[i][j])
  {
    if !(0 <= x + dx < g.xSize && 0 <= y + dy < g.ySize) then Threw(IndexOutOfBounds, g)
    else if !(0 <= x < g.xSize && 0 <= y < g.ySize) then Threw(IndexOutOfBounds, g)
    else
      var temp := g.board[x][y];
      var val := g.board[x + dx][y + dy];
      var b1 := SetCell(g.board, x, y, val);
      Done(g.(board := SetCell(b1, x + dx, y + dy, temp)))
  }

  /** Swapping the same pair twice restores the board. */
  lemma SwapCellsTwice(g: Game, x: int, y: int, dx: int, dy: int)
    requires WellFormed(g) && SwapCells(g, x, y, dx, dy).Done?
    ensures WellFormed(SwapCells(g, x, y, dx, dy).game)
    ensures SwapCells(SwapCells(g, x, y, dx, dy).game, x, y, dx, dy) == Done(g)
  {
    var h := SwapCells(g, x, y, dx, dy).game;
    var h2 := SwapCells(h, x, y, dx, dy).game;
    assert h2.board == g.board by {
      forall i | 0 <= i < |g.board|
        ensures h2.board[i] == g.board[i]
      {
      }
    }
  }

  // ---------------------------------------------------------------------------
  // Moves
  // ---------------------------------------------------------------------------

  /** A move: every line slides and merges, each merge updating the score in turn. */
  function Shift(g: Game, d: Dir): Game
    requires WellFormed(g)
  {
    WellFormedRect(g);
    ApplyGains(g, MoveGains(g.board, d)).(board := MoveBoard(g.board, d))
  }

  /**
   * A move keeps the grid's shape, the sum of its cells and the flags; the tile count
   * drops by the number of merges and the score rises by their total value.  On a
   * board without negative cells, cells stay non-negative and neither the score nor
   * the high score can fall.
   */
  lemma ShiftEffect(g: Game, d: Dir)
    requires WellFormed(g)
    ensures WellFormed(Shift(g, d))
    ensures Shift(g, d) == g.(board := Shift(g, d).board, score := Shift(g, d).score, highScore := Shift(g, d).highScore)
    ensures BoardSum(Shift(g, d).board) == BoardSum(g.board)
    ensures TileCount(Shift(g, d).board) == TileCount(g.board) - |MoveGains(g.board, d)|
    ensures Shift(g, d).score == g.score + Sum(MoveGains(g.board, d))
    ensures Shift(g, d).highScore >= g.highScore
    ensures NonNegativeBoard(g.board) ==>
      NonNegativeBoard(Shift(g, d).board) && Shift(g, d).score >= g.score
  {
    var b := g.board;
    MoveConserves(b, d);
    ApplyGainsScore(g, MoveGains(b, d));
    if NonNegativeBoard(b) {
      MoveKeepsNonNegative(b, d);
      NonNegativeSum(MoveGains(b, d));
    }
  }

  lemma {:induction false} NonNegativeSum(s: seq<int>)
    requires NonNegative(s)
    ensures Sum(s) >= 0
  {
    if |s| > 0 {
      NonNegativeSum(s[..|s| - 1]);
    }
  }
}
