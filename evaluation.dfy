/**
 * The static evaluator: every cell and direction opens a five-cell window,
 * a window open for a player scores 10^count for the count of its stones
 * there, and the position's score is AI's total minus HUMAN's.
 */
module Evaluation {
  import opened Board
  import opened Win

  /** Offset i of the window is off the board or holds a stone other than p. */
  predicate Blocked(g: Grid, x: int, y: int, dx: int, dy: int, p: Player, i: int)
    requires WellFormed(g)
  {
    !InLine(x, y, dx, dy, i) || (g[x + i * dx][y + i * dy] != Empty && g[x + i * dx][y + i * dy] != p)
  }

  /** None of the five cells of the window is blocked for p. */
  predicate Open(g: Grid, x: int, y: int, dx: int, dy: int, p: Player)
    requires WellFormed(g)
  {
    forall i :: 0 <= i < 5 ==> !Blocked(g, x, y, dx, dy, p, i)
  }

  /** The number of stones of p among the first n cells of the window. */
  function Count(g: Grid, x: int, y: int, dx: int, dy: int, p: Player, n: nat): (c: nat)
    requires WellFormed(g)
    ensures c <= n
  {
    if n == 0 then 0
    else Count(g, x, y, dx, dy, p, n - 1) + (if Hit(g, x, y, dx, dy, p, n - 1) then 1 else 0)
  }

  function Pow10(n: nat): (r: nat)
    ensures r > 0
  {
    if n == 0 then 1 else 10 * Pow10(n - 1)
  }

  /** What evaluate_line gives the window from (x, y) along (dx, dy). */
  function WindowScore(g: Grid, x: int, y: int, dx: int, dy: int, p: Player): int
    requires WellFormed(g)
  {
    var c := Count(g, x, y, dx, dy, p, 5);
    if Open(g, x, y, dx, dy, p) && c > 0 then Pow10(c) else 0
  }

  /** A window scores one of 0, 10, 100, 1000, 10000, 100000. */
  lemma WindowScoreRange(g: Grid, x: int, y: int, dx: int, dy: int, p: Player)
    requires WellFormed(g)
    ensures WindowScore(g, x, y, dx, dy, p) in {0, 10, 100, 1000, 10000, 100000}
  {
    var c := Count(g, x, y, dx, dy, p, 5);
    assert c in {0, 1, 2, 3, 4, 5};
  }

  /** The sum of the window scores from (x, y) over the first n directions. */
  function DirectionsScore(g: Grid, p: Player, x: int, y: int, n: nat): int
    requires WellFormed(g) && n <= 4
  {
    if n == 0 then 0
    else DirectionsScore(g, p, x, y, n - 1) + WindowScore(g, x, y, Directions[n - 1].0, Directions[n - 1].1, p)
  }

  /** The sum over the first n cells (x, 0) .. (x, n - 1) of row x. */
  function RowScore(g: Grid, p: Player, x: int, n: nat): int
    requires WellFormed(g)
  {
    if n == 0 then 0 else RowScore(g, p, x, n - 1) + DirectionsScore(g, p, x, n - 1, 4)
  }

  /** The sum over the first n rows. */
  function RowsScore(g: Grid, p: Player, n: nat): int
    requires WellFormed(g)
  {
    if n == 0 then 0 else RowsScore(g, p, n - 1) + RowScore(g, p, n - 1, Size)
  }

  /** What evaluate_player gives: the sum over every cell and every direction. */
  function PlayerScore(g: Grid, p: Player): int
    requires WellFormed(g)
  {
    RowsScore(g, p, Size)
  }

  /** What evaluate gives: AI's score minus HUMAN's. */
  function Score(g: Grid): int
    requires WellFormed(g)
  {
    PlayerScore(g, Ai) - PlayerScore(g, Human)
  }

  // Exchanging the colours exchanges the players' window scores.

  lemma MirrorHit(g: Grid, x: int, y: int, dx: int, dy: int, p: Player, i: int)
    requires WellFormed(g)
    ensures Hit(Mirror(g), x, y, dx, dy, p, i) == Hit(g, x, y, dx, dy, Opponent(p), i)
    ensures Blocked(Mirror(g), x, y, dx, dy, p, i) == Blocked(g, x, y, dx, dy, Opponent(p), i)
  {
  }

  lemma {:induction false} MirrorCount(g: Grid, x: int, y: int, dx: int, dy: int, p: Player, n: nat)
    requires WellFormed(g)
    ensures Count(Mirror(g), x, y, dx, dy, p, n) == Count(g, x, y, dx, dy, Opponent(p), n)
  {
    if n > 0 {
      MirrorCount(g, x, y, dx, dy, p, n - 1);
      MirrorHit(g, x, y, dx, dy, p, n - 1);
    }
  }

  lemma MirrorWindow(g: Grid, x: int, y: int, dx: int, dy: int, p: Player)
    requires WellFormed(g)
    ensures WindowScore(Mirror(g), x, y, dx, dy, p) == WindowScore(g, x, y, dx, dy, Opponent(p))
  {
    MirrorCount(g, x, y, dx, dy, p, 5);
    forall i | 0 <= i < 5
      ensures Blocked(Mirror(g), x, y, dx, dy, p, i) == Blocked(g, x, y, dx, dy, Opponent(p), i)
    {
      MirrorHit(g, x, y, dx, dy, p, i);
    }
  }

  lemma {:induction false} MirrorDirections(g: Grid, p: Player, x: int, y: int, n: nat)
    requires WellFormed(g) && n <= 4
    ensures DirectionsScore(Mirror(g), p, x, y, n) == DirectionsScore(g, Opponent(p), x, y, n)
  {
    if n > 0 {
      MirrorDirections(g, p, x, y, n - 1);
      MirrorWindow(g, x, y, Directions[n - 1].0, Directions[n - 1].1, p);
    }
  }

  lemma {:induction false} MirrorRow(g: Grid, p: Player, x: int, n: nat)
    requires WellFormed(g)
    ensures RowScore(Mirror(g), p, x, n) == RowScore(g, Opponent(p), x, n)
  {
    if n > 0 {
      MirrorRow(g, p, x, n - 1);
      MirrorDirections(g, p, x, n - 1, 4);
    }
  }

  lemma {:induction false} MirrorRows(g: Grid, p: Player, n: nat)
    requires WellFormed(g)
    ensures RowsScore(Mirror(g), p, n) == RowsScore(g, Opponent(p), n)
  {
    if n > 0 {
      MirrorRows(g, p, n - 1);
      MirrorRow(g, p, n - 1, Size);
    }
  }

  /** Swapping HUMAN and AI on every cell negates the evaluation. */
  lemma MirrorNegatesScore(g: Grid)
    requires WellFormed(g)
    ensures Score(Mirror(g)) == -Score(g)
  {
    MirrorRows(g, Ai, Size);
    MirrorRows(g, Human, Size);
  }

  /** The board of a new game is evaluated as level. */
  lemma EmptyGridScore()
    ensures Score(EmptyGrid()) == 0
  {
    var g := EmptyGrid();
    assert Mirror(g) == g by {
      GridExtensionality(Mirror(g), g);
    }
    MirrorNegatesScore(g);
  }
}
