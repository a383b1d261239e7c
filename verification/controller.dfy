/**
 * One game as the controller runs it: start a board of the chosen size, then,
 * while the game is running, take a move, apply it, check for the end of the game,
 * and spawn a tile (and check again) only if the game is still running and the
 * move changed the board.  User input arrives as a sequence of moves, each carrying
 * the random draw its spawn would use.
 */
module Controller {
  import opened Lines
  import opened Grid
  import opened State
  import opened Engine
  import opened Sweep

  datatype Move = Move(dir: Dir, spawn: Draw)

  predicate ValidMoves(ms: seq<Move>)
  {
    forall t :: 0 <= t < |ms| ==> ValidDraw(ms[t].spawn)
  }

  /** The invariant of a running game: a well-formed grid, no negative cells or score. */
  predicate Playable(g: Game)
  {
    WellFormed(g) && NonNegativeBoard(g.board) && g.score >= 0
  }

  /** Whether the turn spawns: the game still runs after the move, and the move changed the board. */
  predicate Spawns(g: Game, d: Dir)
    requires WellFormed(g)
  {
    WellFormedRect(g);
    ShiftEffect(g, d);
    var c := CheckGameOver(Shift(g, d));
    c.status && c.board != g.board
  }

  /**
   * One turn.  The move is applied and the game-over check runs before anything
   * else; a tile is spawned only if the game still runs and the board differs from
   * the snapshot taken before the move, and then the check runs again.  The spawn
   * never fails: a move that changes the board always leaves an empty cell.
   */
  function Turn(g: Game, mv: Move): (r: Outcome)
    requires WellFormed(g) && ValidDraw(mv.spawn)
    ensures r.Done? && WellFormed(r.game)
  {
    WellFormedRect(g);
    ShiftEffect(g, mv.dir);
    var snapshot := g.board;
    var c := CheckGameOver(Shift(g, mv.dir));
    if c.status && c.board != snapshot then
      ChangedBoardHasGap(g.board, mv.dir);
      match AddRandomTile(c, mv.spawn)
      case Done(h) => Done(CheckGameOver(h))
      case Threw(e, h) => Threw(e, h)
    else Done(c)
  }

  /**
   * What a turn does to the board and the score: the score rises by the merged
   * values; without a spawn the result is the checked move, with a spawn the tile
   * count is the moved count plus one.  A move that changes nothing spawns
   * nothing, and a move that makes a 2048 ends the game without a spawn.  Every
   * turn ends with a check, so the flags of the result are up to date.
   */
  lemma TurnEffect(g: Game, mv: Move)
    requires WellFormed(g) && ValidDraw(mv.spawn)
    ensures var r := Turn(g, mv).game; var d := mv.dir;
      r.score == g.score + Sum(MoveGains(g.board, d)) &&
      r.highScore >= g.highScore &&
      (r.status ==> g.status) &&
      (!Spawns(g, d) ==> r == CheckGameOver(Shift(g, d))) &&
      (Spawns(g, d) ==> TileCount(r.board) == TileCount(g.board) - |MoveGains(g.board, d)| + 1) &&
      (MoveBoard(g.board, d) == g.board ==> r.board == g.board) &&
      (Has2048(MoveBoard(g.board, d)) ==> r.board == MoveBoard(g.board, d) && !r.status && r.has2048)
    ensures CheckGameOver(Turn(g, mv).game) == Turn(g, mv).game
  {
    var d := mv.dir;
    WellFormedRect(g);
    ShiftEffect(g, d);
    var c := CheckGameOver(Shift(g, d));
    CheckGameOverIdempotent(Shift(g, d));
    if Spawns(g, d) {
      ChangedBoardHasGap(g.board, d);
      AddRandomTileCounts(c, mv.spawn);
      CheckGameOverIdempotent(AddRandomTile(c, mv.spawn).game);
    }
  }

  lemma SpawnKeepsNonNegative(g: Game, u: Draw)
    requires WellFormed(g) && ValidDraw(u) && !Full(g.board) && NonNegativeBoard(g.board)
    ensures NonNegativeBoard(AddRandomTile(g, u).game.board)
  {
  }

  /** A turn keeps the grid well formed and the cells and score non-negative. */
  lemma TurnKeepsPlayable(g: Game, mv: Move)
    requires Playable(g) && ValidDraw(mv.spawn)
    ensures Playable(Turn(g, mv).game)
  {
    var d := mv.dir;
    WellFormedRect(g);
    ShiftEffect(g, d);
    TurnEffect(g, mv);
    if Spawns(g, d) {
      var c := CheckGameOver(Shift(g, d));
      ChangedBoardHasGap(g.board, d);
      SpawnKeepsNonNegative(c, mv.spawn);
    }
  }

  /** Turns are taken exactly while the game runs and moves remain. */
  function Play(g: Game, ms: seq<Move>): Game
    requires WellFormed(g) && ValidMoves(ms)
    decreases |ms|
  {
    if |ms| == 0 || !g.status then g else Play(Turn(g, ms[0]).game, ms[1..])
  }

  /** The number of turns `Play` takes. */
  function Turns(g: Game, ms: seq<Move>): (n: nat)
    requires WellFormed(g) && ValidMoves(ms)
    decreases |ms|
  {
    if |ms| == 0 || !g.status then 0 else 1 + Turns(Turn(g, ms[0]).game, ms[1..])
  }

  /**
   * Play never takes more turns than there are moves; it stops early only because
   * the game ended; it keeps the game playable and never lowers the high score.
   */
  lemma {:induction false} PlayFacts(g: Game, ms: seq<Move>)
    requires Playable(g) && ValidMoves(ms)
    ensures Turns(g, ms) <= |ms|
    ensures Turns(g, ms) < |ms| ==> !Play(g, ms).status
    ensures Playable(Play(g, ms))
    ensures Play(g, ms).highScore >= g.highScore
    decreases |ms|
  {
    if |ms| > 0 && g.status {
      TurnKeepsPlayable(g, ms[0]);
      TurnEffect(g, ms[0]);
      PlayFacts(Turn(g, ms[0]).game, ms[1..]);
    }
  }

  /** A game ended by hand takes no further turns. */
  lemma StoppedGameStaysStopped(g: Game, ms: seq<Move>)
    requires WellFormed(g) && ValidMoves(ms)
    ensures Turns(SetStatus(g, false), ms) == 0 && Play(SetStatus(g, false), ms) == SetStatus(g, false)
  {
  }

  /** Taking one turn of a running game and playing on from there is playing. */
  lemma PlayStep(g: Game, ms: seq<Move>, t: int)
    requires WellFormed(g) && ValidMoves(ms) && 0 <= t < |ms| && g.status
    ensures ValidMoves(ms[t + 1..]) && ValidMoves(ms[t..])
    ensures Play(g, ms[t..]) == Play(Turn(g, ms[t]).game, ms[t + 1..])
    ensures Turns(g, ms[t..]) == 1 + Turns(Turn(g, ms[t]).game, ms[t + 1..])
  {
    assert ms[t..][0] == ms[t] && ms[t..][1..] == ms[t + 1..];
  }

  /**
   * One turn as the controller performs it with the game board's own procedures:
   * snapshot the board, move, check, and spawn and check again if the game runs
   * and the board differs from the snapshot.  It agrees with `Turn`.
   */
  method TakeTurn(cur: Game, mv: Move) returns (next: Game)
    requires WellFormed(cur) && ValidDraw(mv.spawn)
    ensures next == Turn(cur, mv).game
  {
    WellFormedRect(cur);
    ShiftEffect(cur, mv.dir);
    var snapshot := cur.board;
    next := ShiftBoard(cur, mv.dir);
    next := CheckGameOverScan(next);
    if next.status && next.board != snapshot {
      ChangedBoardHasGap(cur.board, mv.dir);
      var spawned := AddRandomTile(next, mv.spawn);
      next := CheckGameOverScan(spawned.game);
    }
  }

  /** Turns are taken while the game runs and moves remain; this agrees with `Play`. */
  method PlayLoop(start: Game, moves: seq<Move>) returns (cur: Game, turns: nat)
    requires WellFormed(start) && ValidMoves(moves)
    ensures cur == Play(start, moves) && turns == Turns(start, moves)
  {
    cur := start;
    turns := 0;
    while turns < |moves| && cur.status
      invariant 0 <= turns <= |moves|
      invariant WellFormed(cur) && ValidMoves(moves[turns..])
      invariant Play(cur, moves[turns..]) == Play(start, moves)
      invariant turns + Turns(cur, moves[turns..]) == Turns(start, moves)
      decreases |moves| - turns
    {
      PlayStep(cur, moves, turns);
      cur := TakeTurn(cur, moves[turns]);
      turns := turns + 1;
    }
  }

  /** A started game is playable and keeps the previous high score. */
  lemma StartPlayable(g: Game, rows: int, cols: int, u1: Draw, u2: Draw)
    requires ValidDraw(u1) && ValidDraw(u2) && rows >= 4 && cols >= 4
    ensures Init(g, rows, cols, u1, u2).Done?
    ensures Playable(Init(g, rows, cols, u1, u2).game)
    ensures Init(g, rows, cols, u1, u2).game.highScore == g.highScore
  {
    InitStartTiles(g, rows, cols, u1, u2);
    StartValuesNonNegative(Init(g, rows, cols, u1, u2).game.board);
  }

  lemma StartValuesNonNegative(b: Board)
    requires StartValues(b)
    ensures NonNegativeBoard(b)
  {
  }

  /**
   * One game from start to end, as the controller's loop runs it: initialise,
   * then take turns while the game runs and moves remain.  It agrees with `Init`
   * followed by `Play`; the high score survives from the previous game and the
   * score never goes negative.
   */
  method Launch(g: Game, rows: int, cols: int, u1: Draw, u2: Draw, moves: seq<Move>) returns (r: Outcome, turns: nat)
    requires ValidDraw(u1) && ValidDraw(u2) && ValidMoves(moves)
    ensures r.Threw? <==> rows < 4 || cols < 4
    ensures r.Threw? ==> r == Threw(InvalidDimensions, g) && turns == 0
    ensures r.Done? ==> Init(g, rows, cols, u1, u2).Done?
    ensures r.Done? ==> r.game == Play(Init(g, rows, cols, u1, u2).game, moves)
    ensures r.Done? ==> turns == Turns(Init(g, rows, cols, u1, u2).game, moves)
    ensures r.Done? ==> turns <= |moves| && (turns < |moves| ==> !r.game.status)
    ensures r.Done? ==> Playable(r.game) && r.game.highScore >= g.highScore
  {
    if rows < 4 || cols < 4 {
      r, turns := Threw(InvalidDimensions, g), 0;
    } else {
      StartPlayable(g, rows, cols, u1, u2);
      var start := Init(g, rows, cols, u1, u2).game;
      var cur;
      cur, turns := PlayLoop(start, moves);
      PlayFacts(start, moves);
      r := Done(cur);
    }
  }
}
