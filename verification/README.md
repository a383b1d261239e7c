# 2048 game board and controller loop, in Dafny

A model of the game board of a console 2048 game and of the loop that plays one
game on it. The board is a grid of `int` cells in which 0 means empty. A game is
started on a grid of at least 4×4 with two random tiles, each a 2 or a 4. Every
turn moves all tiles up, down, left or right. A tile slides towards the edge
until it meets another tile. Two equal tiles merge into one of twice the value
unless the front one was produced by a merge in the same move. Each merge adds
its value to the score, and the high score follows the score up. After the move
the game ends if a 2048 appeared, or if the board is full with no two equal
neighbours. If the game still runs and the move changed the board, a new tile is
spawned in a random empty cell and the check runs again.

Modules, following the two source classes:

- `Lines`: one row or column read from the edge the tiles move towards. `Pack`
  is the left-to-right scan the board performs. `MergePairs` is an independent
  description (greedy pairing of equal neighbours) that the scan is proved to
  compute.
- `Grid`: the four directions as lines of a rectangular grid. `MoveBoard` and
  `MoveGains` give the pure effect of a move. It also holds conservation of the
  cell sum and the tile count.
- `State`: the static fields of the game board as one immutable `Game` record,
  plus the score update. Operations that throw return `Threw(error, left)`,
  where `left` is the state they leave behind.
- `Doubles`: how `(int) (rand.nextDouble() * n)` turns a random double into an
  index, including IEEE round-to-nearest-even of the product.
- `Engine`: the board operations as pure functions. These are `init` (both
  forms), `addRandomTile`, `getEmptyCells`, `checkGameOver`, `swapCells` and the
  four shifts.
- `Sweep`: the board's own in-place loops written as methods. These are the
  swap-and-merge-mask shift of one line, the line-by-line move, the empty-cell
  collection and the game-over scan. Each is proved equal to the pure functions
  in `Lines` and `Engine`.
- `Controller`: one turn and the loop of `Controller.launch`, as a function over
  a finite list of moves and as a method that mirrors the source loop.

Randomness is a parameter. A `Draw` carries the two 53-bit numerators `k` of the
doubles `k / 2^53` that `Random.nextDouble` returns: one picks the empty cell and
one picks 2 or 4. The moves the user types are a parameter too.

## Model

Engine.Shift, Engine.GenerateStartTiles and Controller.Play have no row of their
own: what they do is stated by the rows for Engine.ShiftEffect and Sweep.ShiftBoard,
Engine.StartGame, and Controller.PlayFacts, Controller.PlayStep and
Controller.StoppedGameStaysStopped.

| member | source | states |
|---|---|---|
| Lines.SlideLine | src/GameBoard.java:361-395 | a moved line keeps its length and has its tiles packed at the front with no tile after an empty cell |
| Lines.SlideLineIsMergePairs | src/GameBoard.java:361-395 | the board's scan of a line yields its tiles in original order with equal neighbours paired greedily from the target edge, then zeros; the merge values are those pairs, front to back |
| Lines.SlideLineSum | src/GameBoard.java:376-383 | a move keeps the sum of a line: a merge writes 2*val into one cell and clears the other |
| Lines.SlideLineCount | src/GameBoard.java:376-383 | a move lowers a line's tile count by exactly its number of merges |
| Lines.SlideLineSign | src/GameBoard.java:376-383 | on a line without negative cells, the cells stay non-negative and every merge adds a non-negative value |
| Lines.EmptyLineUnchanged | src/GameBoard.java:366 | a line without tiles is left as it is and merges nothing |
| Lines.FullDistinctLineUnchanged | src/GameBoard.java:388-390 | a full line with no equal neighbours is left as it is and merges nothing |
| Lines.ChangedLineHasGap | src/GameBoard.java:361-395 | a move that changes a line leaves an empty cell in that line |
| Grid.MoveBoard | src/GameBoard.java:273-439 | a move keeps the grid rectangular with the same number of rows and columns |
| Grid.LinesIndependent | src/GameBoard.java:363-364 | each line of the moved grid is its original line moved on its own, so lines do not influence each other |
| Grid.LineCellRoundTrip | src/GameBoard.java:273-439 | position t of line k, for each direction, is a cell of the grid that lies on line k at position t |
| Grid.CellRoundTrip | src/GameBoard.java:273-439 | every cell of the grid, for each direction, lies on some line at some position, and that line and position lead back to the cell |
| Grid.ReadWriteLine | src/GameBoard.java:363-364 | writing back one line changes that line and no other |
| Grid.SameLines | src/GameBoard.java:273-439 | two grids of one shape that agree on every line of a direction are equal |
| Grid.MoveConserves | src/GameBoard.java:273-439 | a move keeps the sum of all cells and lowers the tile count by the number of merges |
| Grid.MoveKeepsNonNegative | src/GameBoard.java:273-439 | a move keeps a grid without negative cells non-negative, and all its merge values are non-negative |
| Grid.EmptyBoardUnchanged | src/GameBoard.java:273-439 | a move on a grid without tiles changes nothing and merges nothing |
| Grid.FullDistinctBoardUnchanged | src/GameBoard.java:273-439 | a move on a full grid without equal neighbours along its axis changes nothing and merges nothing |
| Grid.ChangedBoardHasGap | src/Controller.java:153-156 | a move that changes the grid leaves an empty cell, so the spawn after it has a cell to fill |
| State.UpdateScore | src/GameBoard.java:229-234 | the score rises by the merge value; the high score never falls, is at least the new score, and is either the old high score or the new score; nothing else changes |
| State.ResetHighScore | src/GameBoard.java:218-220 | the high score becomes 0 and nothing else changes |
| State.SetStatus | src/GameBoard.java:186-188 | the running flag becomes the given value and nothing else changes |
| State.ApplyGainsScore | src/GameBoard.java:229-234 | a run of score updates adds the sum of the merge values, never lowers the high score, leaves the high score at least the final score, and changes nothing else |
| State.ApplyGainsHigh | src/GameBoard.java:229-234 | after at least one non-negative merge the high score is the larger of the old high score and the final score |
| State.ApplyGainsAppend | src/GameBoard.java:229-234 | score updates applied in two runs give the same state as one run |
| Doubles.RoundToDouble | src/GameBoard.java:96 | an integer of at most 53 bits is kept; a longer one is rounded to a multiple of its unit in the last place, at most half a unit away, and an exact tie goes to the even multiple |
| Doubles.RoundToMultiple | src/GameBoard.java:96 | rounding to a multiple of `2h` lands on a multiple at most `h` away, and a tie goes to the even multiple |
| Doubles.RoundBetween | src/GameBoard.java:96 | rounding is monotone against the grid: it never passes a multiple of the rounding unit on either side |
| Doubles.PickNear | src/GameBoard.java:96 | for `n < 2^53` the rounded product's integer part is the exact product's or one more |
| Doubles.Pick | src/GameBoard.java:96 | `(int) (nextDouble() * n)` is an index in [0, n), is 0 whenever the exact product is below 1, and for `n < 2^53` is the integer part of the exact product or one more |
| Doubles.PickRoundsUp | src/GameBoard.java:96 | rounding matters: for k = (2^54-1)/3 and n = 3 the exact product truncates to 1, but the index is 2 |
| Doubles.ExactBelowUnit | src/GameBoard.java:96 | an integer below 2^53 is represented exactly as a double, so no rounding occurs |
| Engine.EmptyCellsExact | src/GameBoard.java:107-123 | a cell is listed iff it lies on the grid and is empty; the list is strictly increasing in row-major order; it is empty iff the grid is full |
| Engine.TileFor | src/GameBoard.java:104 | a spawned tile is a 2 or a 4 |
| Engine.AddRandomTile | src/GameBoard.java:91-105 | the spawn throws iff the grid is full, and then changes nothing; otherwise the chosen cell is empty and becomes a 2 or a 4, and no other cell or field changes |
| Engine.AddRandomTileCounts | src/GameBoard.java:91-105 | a spawn on a grid with an empty cell adds exactly one tile and adds its value to the cell sum |
| Engine.SpawnKeepsStartValues | src/GameBoard.java:104 | a spawn keeps the grid's shape and the restriction to 2s, 4s and empty cells |
| Engine.StartGame | src/GameBoard.java:81-84 | two spawns on an empty grid leave exactly two tiles, each a 2 or a 4, and change nothing else |
| Engine.Init | src/GameBoard.java:36-48 | a new game throws iff there are fewer than 4 rows or columns, and then changes nothing |
| Engine.InitStartTiles | src/GameBoard.java:36-48 | a started game has the requested size, score 0, is running without a 2048, keeps the high score, and holds exactly two tiles, each a 2 or a 4 |
| Engine.InitFrom | src/GameBoard.java:59-79 | succeeds iff the grid has a row and all rows are as long as the first; an empty grid fails with the row count already set; a jagged grid fails with both sizes set; on success the grid is taken as given and score and flags are reset |
| Engine.MergeAvailableIff | src/GameBoard.java:149-158 | some cell has an equal orthogonal neighbour iff some row or some column has two equal neighbours |
| Engine.CheckGameOver | src/GameBoard.java:132-168 | a 2048 sets both flags; otherwise the game ends iff the grid is full with no equal neighbours; a stopped game stays stopped; nothing but the two flags changes |
| Engine.CheckGameOverIdempotent | src/GameBoard.java:132-168 | checking a checked game changes nothing |
| Engine.GameOverIsStuck | src/GameBoard.java:145-166 | when the check ends a game without a 2048, no move can change the grid or merge anything |
| Engine.SwapCells | src/GameBoard.java:253-263 | succeeds iff both cells lie on the grid and otherwise changes nothing; on success the two cells exchange values and nothing else changes |
| Engine.SwapCellsTwice | src/GameBoard.java:253-263 | swapping the same pair twice restores the game |
| Engine.ShiftEffect | src/GameBoard.java:273-439 | a move keeps the grid's shape, the cell sum and the flags; the tile count drops by the number of merges, the score rises by their total, the high score never falls, and with no negative cells the score never falls |
| Sweep.PlaceTile | src/GameBoard.java:366-392 | handling one more cell (walk through empty cells, merge once into an unmerged equal tile, or stop) extends the scanned prefix by exactly one `Absorb` step |
| Sweep.SlideInPlace | src/GameBoard.java:361-395 | the in-place loop over one line with its merge mask yields the moved line, and the score has seen the line's merges in order |
| Sweep.ShiftLine | src/GameBoard.java:363-394 | shifting the next line in place extends the moved prefix of the grid and the score by that line |
| Sweep.WrittenAll | src/GameBoard.java:363-394 | once every line holds its moved contents the grid is the moved grid |
| Sweep.ShiftBoard | src/GameBoard.java:273-439 | the board's line-by-line in-place move gives exactly the pure move, board and scores |
| Sweep.GetEmptyCells | src/GameBoard.java:107-123 | the row-major collection of empty cells gives the exact list of `Engine.EmptyCellsExact` |
| Sweep.CheckGameOverScan | src/GameBoard.java:132-168 | the 2048 search followed by the neighbour search that stops at the first match gives the game-over check |
| Controller.Turn | src/Controller.java:150-158 | a turn never throws: a move that changes the grid always leaves a cell for the spawn; the grid stays well formed |
| Controller.TurnEffect | src/Controller.java:150-158 | the score rises by the merges; without a spawn the result is the checked move; a spawn adds exactly one tile; an unchanged grid spawns nothing; a 2048 ends the game without a spawn; the result's flags are up to date |
| Controller.SpawnKeepsNonNegative | src/GameBoard.java:104 | a spawn on a grid without negative cells keeps it non-negative |
| Controller.TurnKeepsPlayable | src/Controller.java:114-158 | a turn keeps the grid well formed and the cells and score non-negative |
| Controller.TakeTurn | src/Controller.java:117-158 | snapshot, move, check, and spawn plus re-check when running and changed: agrees with `Controller.Turn` |
| Controller.PlayFacts | src/Controller.java:114-159 | the loop takes at most one turn per move, stops early only because the game ended, keeps the game playable and never lowers the high score |
| Controller.StoppedGameStaysStopped | src/Controller.java:114 | a game whose status was set to false takes no turn |
| Controller.PlayStep | src/Controller.java:114-159 | one turn of a running game followed by the rest of the loop is the loop |
| Controller.PlayLoop | src/Controller.java:114-159 | the loop over the moves computes `Controller.Play` and its turn count |
| Controller.StartPlayable | src/Controller.java:113 | a started game is playable and keeps the previous high score |
| Controller.Launch | src/Controller.java:112-160 | throws iff the size is below 4×4; otherwise the game is initialised and played, takes at most one turn per move, stops early only when over, stays playable, and keeps the high score from falling |

## Left out

- Lines.Absorb: a merge writes `2 * val` with unbounded integers. Java's `int` wraps, so a merge of two 2^30 tiles gives -2^31. Tile values that large cannot arise from 2s and 4s in any realistic game.
- State.UpdateScore: `score += val` is unbounded. Java's 32-bit wrap-around of the score and high score is not modelled.
- Console I/O is not modelled: printing the board and scores, the menu, the Scanner prompt, and the re-prompt on an invalid key (Controller.java:126-148, UserInterface.java). The moves are given as a list of directions.
- Controller.Play: the source loop `while (GameBoard.getStatus())` has no bound and waits for input forever. The model plays a finite list of moves and stops when the list runs out or the game ends.
- Controller.Turn: the source compares the snapshot with the array returned by `getBoard`, which aliases the live board. The model compares the grid before and after the move by value, which is the same test because the shifts mutate that one array in place.
- Engine.AddRandomTile, Engine.GenerateStartTiles, Engine.Shift, Engine.CheckGameOver, Engine.SwapCells, Sweep.GetEmptyCells, Sweep.ShiftBoard, Sweep.CheckGameOverScan, Controller.Turn and Controller.Play require a well-formed game, where the grid has `xSize` rows of `ySize` cells. A rejected `init(b)` keeps the old grid but changes the sizes: an empty `b` sets `xSize` to 0, and a jagged `b` sets both sizes. On that state the source uses `xSize` and `ySize` for its loops and bounds checks, and indexes past the old grid when a size grew. The 2048 search in `checkGameOver` and the source cell of `swapCells` use the old array itself. For example, after an empty `b` `getEmptyCells` finds nothing, so `checkGameOver` ends a game whose grid is not full. None of this is modelled; the model stops at the `Threw` result of `Engine.InitFrom`.
- Engine.InitFrom: a `null` grid or a `null` row (a NullPointerException in the source) cannot be expressed with sequences.
- Engine.SwapCells: a source cell outside the grid fails on the array access with ArrayIndexOutOfBoundsException. It is reported as the same `IndexOutOfBounds` error as the explicit check on the target cell, since the former is a subclass of the latter.
- Doubles.Pick: the double is taken as `k / 2^53` with `k < 2^53`, which is how `Random.nextDouble` builds it. The generator's sequence of values is not modelled.
- Controller.PlayFacts: tile values are only shown to stay non-negative. That every tile is a power of two at least 2 is not proved.
- Sweep.SlideInPlace and Sweep.ShiftBoard: the in-place loops work on a sequence per line and a functional grid, not on a shared two-dimensional array. The swaps, the merge mask and the order of score updates are kept step for step.
- The `rows` and `cols` fields of the controller, set from the menu, are parameters of `Controller.Launch`.
