/**
 * The state of one game board: its dimensions, the grid, the score of the current
 * game, the high score over all games, whether the game is still running, and
 * whether a 2048 tile has been seen.  Operations that can fail report an error
 * together with the state they leave behind, since some of them change the state
 * before they fail.
 */
module State {
  import opened Lines
  import opened Grid

  datatype Game = Game(
    xSize: int,       // number of rows
    ySize: int,       // number of columns
    board: Board,
    score: int,
    highScore: int,
    status: bool,     // true while the game is not over
    has2048: bool)

  datatype Error = InvalidDimensions | InvalidShape | IndexOutOfBounds

  datatype Outcome = Done(game: Game) | Threw(error: Error, left: Game)

  /** The grid has `xSize` rows of `ySize` cells each. */
  predicate WellFormed(g: Game)
  {
    g.xSize == |g.board| && 0 <= g.ySize &&
    forall i :: 0 <= i < |g.board| ==> |g.board[i]| == g.ySize
  }

  lemma WellFormedRect(g: Game)
    requires WellFormed(g)
    ensures Rect(g.board) && (g.xSize > 0 ==> Width(g.board) == g.ySize)
  {
  }

  function Max(a: int, b: int): int
  {
    if a < b then b else a
  }

  /** A merge worth `v` points: the score rises by `v`, and the high score follows it up. */
  function UpdateScore(g: Game, v: int): (r: Game)
    ensures r.score == g.score + v
    ensures r.highScore >= g.highScore && r.highScore >= r.score
    ensures r.highScore == g.highScore || r.highScore == r.score
    ensures r == g.(score := r.score, highScore := r.highScore)
  {
    var s := g.score + v;
    g.(score := s, highScore := if s > g.highScore then s else g.highScore)
  }

  /** Test support: the high score goes back to zero and nothing else changes. */
  function ResetHighScore(g: Game): (r: Game)
    ensures r.highScore == 0
    ensures r == g.(highScore := r.highScore)
  {
    g.(highScore := 0)
  }

  /** The controller may end (or resume) a game by hand. */
  function SetStatus(g: Game, s: bool): (r: Game)
    ensures r.status == s
    ensures r == g.(status := r.status)
  {
    g.(status := s)
  }

  /** The score updates of a sequence of merges, in order. */
  function ApplyGains(g: Game, gs: seq<int>): Game
  {
    if |gs| == 0 then g else UpdateScore(ApplyGains(g, gs[..|gs| - 1]), gs[|gs| - 1])
  }

  /**
   * A run of merges adds their values to the score, never lowers the high score,
   * leaves the high score at least the final score, and touches nothing else.
   */
  lemma {:induction false} ApplyGainsScore(g: Game, gs: seq<int>)
    ensures ApplyGains(g, gs).score == g.score + Sum(gs)
    ensures ApplyGains(g, gs).highScore >= g.highScore
    ensures |gs| > 0 ==> ApplyGains(g, gs).highScore >= ApplyGains(g, gs).score
    ensures ApplyGains(g, gs) == g.(score := ApplyGains(g, gs).score, highScore := ApplyGains(g, gs).highScore)
  {
    if |gs| > 0 {
      ApplyGainsScore(g, gs[..|gs| - 1]);
    }
  }

  /**
   * With non-negative merge values the score only grows, so after at least one
   * merge the high score is the larger of the old high score and the final score.
   */
  lemma {:induction false} ApplyGainsHigh(g: Game, gs: seq<int>)
    requires NonNegative(gs) && |gs| > 0
    ensures ApplyGains(g, gs).highScore == Max(g.highScore, g.score + Sum(gs))
  {
    if |gs| > 1 {
      ApplyGainsHigh(g, gs[..|gs| - 1]);
    }
    ApplyGainsScore(g, gs[..|gs| - 1]);
  }

  /** Merges applied in two runs give the state of applying them in one. */
  lemma {:induction false} ApplyGainsAppend(g: Game, a: seq<int>, c: seq<int>)
    ensures ApplyGains(g, a + c) == ApplyGains(ApplyGains(g, a), c)
    decreases |c|
  {
    if |c| == 0 {
      assert a + c == a;
    } else {
      var c' := c[..|c| - 1];
      assert (a + c)[..|a + c| - 1] == a + c';
      ApplyGainsAppend(g, a, c');
    }
  }

  /** The score of a merge run does not depend on the grid. */
  lemma {:induction false} ApplyGainsBoard(g: Game, gs: seq<int>, b: Board)
    ensures ApplyGains(g.(board := b), gs) == ApplyGains(g, gs).(board := b)
  {
    if |gs| > 0 {
      ApplyGainsBoard(g, gs[..|gs| - 1], b);
    }
  }
}
