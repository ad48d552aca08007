/**
 * The candidate moves searched at each node: the empty cells within
 * Chebyshev distance 2 of some stone, or the centre when there are none.
 */
module Candidates {
  import opened Board

  /** The `radius` argument of get_empty_cells. */
  const Radius: int := 2

  /** (a, b) is on the board and holds a stone. */
  predicate Stone(g: Grid, a: int, b: int)
    requires WellFormed(g)
  {
    InBounds(a, b) && g[a][b] != Empty
  }

  /** m is within Chebyshev distance Radius of (a, b). */
  predicate WithinRadius(m: Move, a: int, b: int)
  {
    -Radius <= m.0 - a <= Radius && -Radius <= m.1 - b <= Radius
  }

  /** (a, b) is a stone within Radius of m. */
  predicate NearStone(g: Grid, m: Move, a: int, b: int)
    requires WellFormed(g)
  {
    Stone(g, a, b) && WithinRadius(m, a, b)
  }

  /** m is an empty cell within Radius of some stone. */
  ghost predicate Near(g: Grid, m: Move)
    requires WellFormed(g)
  {
    m in EmptyCells(g) && exists a, b :: NearStone(g, m, a, b)
  }

  /** m is an empty cell near a stone scanned before (x, y). */
  ghost predicate NearBefore(g: Grid, m: Move, x: int, y: int)
    requires WellFormed(g)
  {
    m in EmptyCells(g) && exists a, b :: Before(a, b, x, y) && NearStone(g, m, a, b)
  }

  /** m is an empty cell at an offset from (x, y) that the scan reaches before (dx, dy). */
  predicate Reached(g: Grid, m: Move, x: int, y: int, dx: int, dy: int)
    requires WellFormed(g)
  {
    && m in EmptyCells(g) && WithinRadius(m, x, y)
    && (m.0 - x < dx || (m.0 - x == dx && m.1 - y < dy))
  }

  /** Scanning the cell (x, y) adds the empty cells near it if it holds a stone. */
  lemma NearBeforeNext(g: Grid, m: Move, x: int, y: int)
    requires WellFormed(g) && InBounds(x, y)
    ensures NearBefore(g, m, x, y + 1) <==>
      NearBefore(g, m, x, y) || (Stone(g, x, y) && Reached(g, m, x, y, Radius + 1, -Radius))
  {
    if NearBefore(g, m, x, y + 1) {
      var a, b :| Before(a, b, x, y + 1) && NearStone(g, m, a, b);
      if !Before(a, b, x, y) {
        assert a == x && b == y;
      }
    }
    if Stone(g, x, y) && Reached(g, m, x, y, Radius + 1, -Radius) {
      assert Before(x, y, x, y + 1) && NearStone(g, m, x, y);
    }
    if NearBefore(g, m, x, y) {
      var a, b :| Before(a, b, x, y) && NearStone(g, m, a, b);
      assert Before(a, b, x, y + 1);
    }
  }

  /** Finishing row x is starting row x + 1. */
  lemma NearBeforeNextRow(g: Grid, m: Move, x: int)
    requires WellFormed(g)
    ensures NearBefore(g, m, x, Size) <==> NearBefore(g, m, x + 1, 0)
  {
    if NearBefore(g, m, x + 1, 0) {
      var a, b :| Before(a, b, x + 1, 0) && NearStone(g, m, a, b);
      assert Before(a, b, x, Size);
    }
  }

  /** After the last row every stone has been scanned. */
  lemma NearBeforeEnd(g: Grid, m: Move)
    requires WellFormed(g)
    ensures NearBefore(g, m, Size, 0) <==> Near(g, m)
  {
    if Near(g, m) {
      var a, b :| NearStone(g, m, a, b);
      assert Before(a, b, Size, 0);
    }
  }

  /** The set of positions collected by get_empty_cells. */
  ghost function NearEmpty(g: Grid): (s: set<Move>)
    requires WellFormed(g)
    ensures forall m :: m in s <==> Near(g, m)
  {
    set m | m in EmptyCells(g) && Near(g, m)
  }

  /** The moves get_empty_cells offers: the near empty cells, or the centre if there are none. */
  ghost function CandidateSet(g: Grid): (s: set<Move>)
    requires WellFormed(g)
    ensures Centre in s || s == NearEmpty(g)
    ensures forall m :: m in s ==> InBounds(m.0, m.1)
  {
    if NearEmpty(g) == {} then {Centre} else NearEmpty(g)
  }

  /**
   * Stepping from a stone towards an empty cell reaches an empty cell next
   * to a stone: on a board with both, some empty cell is near a stone.
   */
  lemma {:induction false} NearCellExists(g: Grid, a: int, b: int, c: int, d: int)
    requires WellFormed(g) && Stone(g, a, b) && (c, d) in EmptyCells(g)
    ensures NearEmpty(g) != {}
    decreases (if a < c then c - a else a - c) + (if b < d then d - b else b - d)
  {
    if WithinRadius((c, d), a, b) {
      assert NearStone(g, (c, d), a, b);
      assert Near(g, (c, d));
    } else {
      var a' := if a < c then a + 1 else if a > c then a - 1 else a;
      var b' := if b < d then b + 1 else if b > d then b - 1 else b;
      assert InBounds(a', b');
      if g[a'][b'] == Empty {
        assert NearStone(g, (a', b'), a, b);
        assert Near(g, (a', b'));
      } else {
        NearCellExists(g, a', b', c, d);
      }
    }
  }

  /**
   * The centre fallback is taken exactly when the board has no stone or no
   * empty cell.
   */
  lemma NoNearCellIff(g: Grid)
    requires WellFormed(g)
    ensures NearEmpty(g) == {} <==> AllEmpty(g) || EmptyCells(g) == {}
  {
    if !AllEmpty(g) && EmptyCells(g) != {} {
      var a, b :| 0 <= a < Size && 0 <= b < Size && g[a][b] != Empty;
      var m :| m in EmptyCells(g);
      NearCellExists(g, a, b, m.0, m.1);
    }
    if AllEmpty(g) {
      assert forall a, b :: !Stone(g, a, b);
      assert NearEmpty(g) == {};
    }
  }

  /** On the board of a new game the only candidate is the centre. */
  lemma EmptyGridCandidates()
    ensures CandidateSet(EmptyGrid()) == {Centre}
  {
    NoNearCellIff(EmptyGrid());
  }

  /** On a full board the only candidate is the (occupied) centre. */
  lemma FullBoardCandidates(g: Grid)
    requires WellFormed(g) && EmptyCells(g) == {}
    ensures CandidateSet(g) == {Centre}
    ensures g[Centre.0][Centre.1] != Empty
  {
    NoNearCellIff(g);
    assert Centre !in EmptyCells(g);
  }

  /** While an empty cell remains, every candidate is an empty cell. */
  lemma CandidatesAreEmpty(g: Grid)
    requires WellFormed(g) && EmptyCells(g) != {}
    ensures CandidateSet(g) <= EmptyCells(g)
  {
    NoNearCellIff(g);
    if NearEmpty(g) == {} {
      assert AllEmpty(g);
      assert Centre in EmptyCells(g);
    }
  }
}
