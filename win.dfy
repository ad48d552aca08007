/**
 * Five-in-a-row: the lines the engine scans and what it means for a player
 * to have won.
 */
module Win {
  import opened Board

  /** DIRECTIONS: horizontal, vertical and the two diagonals. */
  const Directions: seq<(int, int)> := [(1, 0), (0, 1), (1, 1), (1, -1)]

  /** Offset i along the line through (x, y) with step (dx, dy) is on the board. */
  predicate InLine(x: int, y: int, dx: int, dy: int, i: int)
  {
    InBounds(x + i * dx, y + i * dy)
  }

  /** Offset i along the line is on the board and holds a stone of p. */
  predicate Hit(g: Grid, x: int, y: int, dx: int, dy: int, p: Player, i: int)
    requires WellFormed(g)
  {
    InLine(x, y, dx, dy, i) && g[x + i * dx][y + i * dy] == p
  }

  /** Offsets s .. s + 4 along the line all hold stones of p. */
  predicate Run5(g: Grid, x: int, y: int, dx: int, dy: int, p: Player, s: int)
    requires WellFormed(g)
  {
    && Hit(g, x, y, dx, dy, p, s)
    && Hit(g, x, y, dx, dy, p, s + 1)
    && Hit(g, x, y, dx, dy, p, s + 2)
    && Hit(g, x, y, dx, dy, p, s + 3)
    && Hit(g, x, y, dx, dy, p, s + 4)
  }

  /** Some run of five stones of p starts at (x, y) along DIRECTIONS[k]. */
  predicate FiveFrom(g: Grid, x: int, y: int, k: int, p: Player)
    requires WellFormed(g) && 0 <= k < 4
  {
    Run5(g, x, y, Directions[k].0, Directions[k].1, p, 0)
  }

  /** The board has five consecutive stones of p in one of the four directions. */
  ghost predicate HasFive(g: Grid, p: Player)
    requires WellFormed(g)
  {
    exists x, y, k :: 0 <= k < 4 && FiveFrom(g, x, y, k, p)
  }

  /** The nine-cell window of check_direction around (x, y) contains a run of five. */
  ghost predicate FiveThrough(g: Grid, x: int, y: int, dx: int, dy: int, p: Player)
    requires WellFormed(g)
  {
    exists s :: -4 <= s <= 0 && Run5(g, x, y, dx, dy, p, s)
  }

  /** A run of five of p passes through the stone of p at (a, b), as is_winner looks for it. */
  ghost predicate WinsThrough(g: Grid, a: int, b: int, p: Player)
    requires WellFormed(g)
  {
    && InBounds(a, b) && g[a][b] == p
    && exists k :: 0 <= k < 4 && FiveThrough(g, a, b, Directions[k].0, Directions[k].1, p)
  }

  /**
   * A player has five exactly when a five passes through one of their
   * stones: scanning every stone in every direction finds every five.
   */
  lemma HasFiveIff(g: Grid, p: Player)
    requires WellFormed(g)
    ensures HasFive(g, p) <==> exists a, b :: WinsThrough(g, a, b, p)
  {
    if HasFive(g, p) {
      var x, y, k :| 0 <= k < 4 && FiveFrom(g, x, y, k, p);
      assert Hit(g, x, y, Directions[k].0, Directions[k].1, p, 0);
      assert FiveThrough(g, x, y, Directions[k].0, Directions[k].1, p);
      assert WinsThrough(g, x, y, p);
    }
    if exists a, b :: WinsThrough(g, a, b, p) {
      var a, b :| WinsThrough(g, a, b, p);
      var k :| 0 <= k < 4 && FiveThrough(g, a, b, Directions[k].0, Directions[k].1, p);
      var s :| -4 <= s <= 0 && Run5(g, a, b, Directions[k].0, Directions[k].1, p, s);
      FiveThroughWins(g, a, b, k, p, s);
    }
  }

  /** a * d lies between the products with the endpoints of [lo, hi]. */
  lemma MulBetween(d: int, lo: int, a: int, hi: int)
    requires lo <= a <= hi
    ensures d >= 0 ==> lo * d <= a * d <= hi * d
    ensures d <= 0 ==> lo * d >= a * d >= hi * d
  {
    assert a * d - lo * d == (a - lo) * d;
    assert hi * d - a * d == (hi - a) * d;
  }

  /** The on-board offsets of a line form an interval. */
  lemma LineConvex(x: int, y: int, dx: int, dy: int, lo: int, a: int, hi: int)
    requires lo <= a <= hi
    requires InLine(x, y, dx, dy, lo) && InLine(x, y, dx, dy, hi)
    ensures InLine(x, y, dx, dy, a)
  {
    MulBetween(dx, lo, a, hi);
    MulBetween(dy, lo, a, hi);
  }

  /** A cell of the line without a stone of p breaks every run of five covering it. */
  lemma NoRunThrough(g: Grid, x: int, y: int, dx: int, dy: int, p: Player, s: int, t: int)
    requires WellFormed(g) && s <= t <= s + 4 && !Hit(g, x, y, dx, dy, p, t)
    ensures !Run5(g, x, y, dx, dy, p, s)
  {
  }

  /**
   * The state of check_direction's scan before offset i: the current run of
   * count stones of p ends just before offset e, everything from e up to i
   * is off the board, the cell before the run is not a stone of p, and no
   * five lies wholly before i.
   */
  ghost predicate Scan(g: Grid, x: int, y: int, dx: int, dy: int, p: Player, i: int, count: int, e: int)
    requires WellFormed(g)
  {
    && -4 <= i <= 5 && 0 <= count <= 4 && -4 <= e - count && e <= i
    && (forall j :: e - count <= j < e ==> Hit(g, x, y, dx, dy, p, j))
    && (forall j :: e <= j < i ==> !InLine(x, y, dx, dy, j))
    && (e - count - 1 < -4 || !Hit(g, x, y, dx, dy, p, e - count - 1))
    && (forall s :: -4 <= s && s + 4 < i ==> !Run5(g, x, y, dx, dy, p, s))
  }

  lemma ScanStart(g: Grid, x: int, y: int, dx: int, dy: int, p: Player)
    requires WellFormed(g)
    ensures Scan(g, x, y, dx, dy, p, -4, 0, -4)
  {
  }

  /** An off-board cell is skipped: the run goes on. */
  lemma ScanSkip(g: Grid, x: int, y: int, dx: int, dy: int, p: Player, i: int, count: int, e: int)
    requires WellFormed(g) && Scan(g, x, y, dx, dy, p, i, count, e) && i < 5
    requires !InLine(x, y, dx, dy, i)
    ensures Scan(g, x, y, dx, dy, p, i + 1, count, e)
  {
    NoRunThrough(g, x, y, dx, dy, p, i - 4, i);
  }

  /** An on-board cell without a stone of p ends the run. */
  lemma ScanMiss(g: Grid, x: int, y: int, dx: int, dy: int, p: Player, i: int, count: int, e: int)
    requires WellFormed(g) && Scan(g, x, y, dx, dy, p, i, count, e) && i < 5
    requires InLine(x, y, dx, dy, i) && !Hit(g, x, y, dx, dy, p, i)
    ensures Scan(g, x, y, dx, dy, p, i + 1, 0, i + 1)
  {
    NoRunThrough(g, x, y, dx, dy, p, i - 4, i);
  }

  /**
   * A stone of p extends the run; the fifth stone completes a five, and
   * otherwise no five ends here.
   */
  lemma ScanHit(g: Grid, x: int, y: int, dx: int, dy: int, p: Player, i: int, count: int, e: int)
    requires WellFormed(g) && Scan(g, x, y, dx, dy, p, i, count, e) && i < 5
    requires Hit(g, x, y, dx, dy, p, i)
    ensures count == 4 ==> FiveThrough(g, x, y, dx, dy, p)
    ensures count < 4 ==> Scan(g, x, y, dx, dy, p, i + 1, count + 1, i + 1)
  {
    if count > 0 {
      assert Hit(g, x, y, dx, dy, p, e - 1);
      LineConvex(x, y, dx, dy, e - 1, e, i);
      assert e == i;
    }
    if count == 4 {
      assert Run5(g, x, y, dx, dy, p, i - 4);
    } else if i >= 0 {
      NoRunThrough(g, x, y, dx, dy, p, i - 4, i - count - 1);
    }
  }

  /** A scan that reaches offset 5 has seen every five of the window. */
  lemma ScanDone(g: Grid, x: int, y: int, dx: int, dy: int, p: Player, count: int, e: int)
    requires WellFormed(g) && Scan(g, x, y, dx, dy, p, 5, count, e)
    ensures !FiveThrough(g, x, y, dx, dy, p)
  {
  }

  /** A run at offset s is the run at offset 0 from the cell s steps along. */
  lemma ShiftRun(g: Grid, x: int, y: int, dx: int, dy: int, p: Player, s: int)
    requires WellFormed(g)
    ensures Run5(g, x, y, dx, dy, p, s) <==> Run5(g, x + s * dx, y + s * dy, dx, dy, p, 0)
  {
    ShiftHit(g, x, y, dx, dy, p, s, 0);
    ShiftHit(g, x, y, dx, dy, p, s, 1);
    ShiftHit(g, x, y, dx, dy, p, s, 2);
    ShiftHit(g, x, y, dx, dy, p, s, 3);
    ShiftHit(g, x, y, dx, dy, p, s, 4);
  }

  /** Offset s + j from (x, y) is offset j from the cell s steps along. */
  lemma ShiftHit(g: Grid, x: int, y: int, dx: int, dy: int, p: Player, s: int, j: int)
    requires WellFormed(g)
    ensures Hit(g, x, y, dx, dy, p, s + j) <==> Hit(g, x + s * dx, y + s * dy, dx, dy, p, j)
  {
    assert (s + j) * dx == s * dx + j * dx;
    assert (s + j) * dy == s * dy + j * dy;
  }

  /** A win found through a cell is a five of the board. */
  lemma FiveThroughWins(g: Grid, x: int, y: int, k: int, p: Player, s: int)
    requires WellFormed(g) && 0 <= k < 4
    requires Run5(g, x, y, Directions[k].0, Directions[k].1, p, s)
    ensures HasFive(g, p)
  {
    ShiftRun(g, x, y, Directions[k].0, Directions[k].1, p, s);
    assert FiveFrom(g, x + s * Directions[k].0, y + s * Directions[k].1, k, p);
  }

  /** The cells holding a stone of p. */
  function Stones(g: Grid, p: Player): (s: set<Move>)
    requires WellFormed(g)
    ensures forall m :: m in s <==> InBounds(m.0, m.1) && g[m.0][m.1] == p
  {
    set x, y | 0 <= x < Size && 0 <= y < Size && g[x][y] == p :: (x, y)
  }

  /** Five steps along a direction of DIRECTIONS visit five distinct cells. */
  lemma RunCellsDistinct(x: int, y: int, dx: int, dy: int)
    requires dx == 1 || (dx == 0 && dy == 1)
    ensures |{(x, y), (x + dx, y + dy), (x + 2 * dx, y + 2 * dy),
              (x + 3 * dx, y + 3 * dy), (x + 4 * dx, y + 4 * dy)}| == 5
  {
    var c0, c1, c2, c3, c4 := (x, y), (x + dx, y + dy), (x + 2 * dx, y + 2 * dy),
                              (x + 3 * dx, y + 3 * dy), (x + 4 * dx, y + 4 * dy);
    assert |{c0, c1}| == 2;
    assert |{c0, c1, c2}| == 3 by { assert c2 !in {c0, c1}; }
    assert |{c0, c1, c2, c3}| == 4 by { assert c3 !in {c0, c1, c2}; }
    assert c4 !in {c0, c1, c2, c3};
  }

  /** The cells of a five are five distinct stones of p. */
  lemma FiveStones(g: Grid, x: int, y: int, k: int, p: Player)
    requires WellFormed(g) && 0 <= k < 4 && FiveFrom(g, x, y, k, p)
    ensures |Stones(g, p)| >= 5
  {
    var (dx, dy) := Directions[k];
    assert Hit(g, x, y, dx, dy, p, 0) && Hit(g, x, y, dx, dy, p, 1) && Hit(g, x, y, dx, dy, p, 2);
    assert Hit(g, x, y, dx, dy, p, 3) && Hit(g, x, y, dx, dy, p, 4);
    var run := {(x, y), (x + dx, y + dy), (x + 2 * dx, y + 2 * dy),
                (x + 3 * dx, y + 3 * dy), (x + 4 * dx, y + 4 * dy)};
    RunCellsDistinct(x, y, dx, dy);
    var stones := Stones(g, p);
    assert (x, y) in stones && (x + dx, y + dy) in stones && (x + 2 * dx, y + 2 * dy) in stones;
    assert (x + 3 * dx, y + 3 * dy) in stones && (x + 4 * dx, y + 4 * dy) in stones;
    SubsetCardinality(run, stones);
  }

  /** A five occupies five distinct cells, so a player with fewer stones has not won. */
  lemma FewerThanFiveStonesNoWin(g: Grid, p: Player)
    requires WellFormed(g) && |Stones(g, p)| < 5
    ensures !HasFive(g, p)
  {
    if HasFive(g, p) {
      var x, y, k :| 0 <= k < 4 && FiveFrom(g, x, y, k, p);
      FiveStones(g, x, y, k, p);
    }
  }

  lemma SubsetCardinality(a: set<Move>, b: set<Move>)
    requires a <= b
    ensures |a| <= |b|
  {
    if a != {} {
      var m :| m in a;
      SubsetCardinality(a - {m}, b - {m});
    }
  }

  /** Nobody has five on the empty board. */
  lemma EmptyGridNoWin(p: Player)
    ensures !HasFive(EmptyGrid(), p)
  {
    assert Stones(EmptyGrid(), p) == {};
    FewerThanFiveStonesNoWin(EmptyGrid(), p);
  }
}
