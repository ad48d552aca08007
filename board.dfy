/**
 * The Gomoku board as a value: a 15 x 15 grid of cells, each empty or
 * holding a stone of one of the two players, with the primitive placement
 * used by the engine's make_move and undo_move.
 */
module Board {

  /** BOARD_SIZE: the side of the square board. */
  const Size: int := 15

  /** A cell: EMPTY (0), HUMAN (1) or AI (2). */
  datatype Cell = Empty | Human | Ai

  /** The two stone colours; `Empty` is not a player. */
  type Player = c: Cell | c != Empty witness Human

  /** A board coordinate pair (x, y); x indexes the outer list. */
  type Move = (int, int)

  datatype Option<T> = None | Some(value: T)

  /** The centre cell (BOARD_SIZE // 2, BOARD_SIZE // 2). */
  const Centre: Move := (Size / 2, Size / 2)

  type Grid = seq<seq<Cell>>

  function Opponent(p: Player): (q: Player)
    ensures q != p
  {
    if p == Human then Ai else Human
  }

  predicate WellFormed(g: Grid)
  {
    |g| == Size && forall x :: 0 <= x < Size ==> |g[x]| == Size
  }

  predicate InBounds(x: int, y: int)
  {
    0 <= x < Size && 0 <= y < Size
  }

  /** The board of a new game: every cell empty. */
  function EmptyGrid(): (g: Grid)
    ensures WellFormed(g)
    ensures forall x, y :: InBounds(x, y) ==> g[x][y] == Empty
  {
    seq(Size, _ => seq(Size, _ => Empty))
  }

  /** The board after cell (x, y) is set to c; every other cell is untouched. */
  function Place(g: Grid, x: int, y: int, c: Cell): (h: Grid)
    requires WellFormed(g) && InBounds(x, y)
    ensures WellFormed(h)
    ensures h[x][y] == c
    ensures forall a, b :: InBounds(a, b) && (a != x || b != y) ==> h[a][b] == g[a][b]
  {
    g[x := g[x][y := c]]
  }

  /** The set of empty cells of the board. */
  function EmptyCells(g: Grid): (s: set<Move>)
    requires WellFormed(g)
    ensures forall m :: m in s <==> InBounds(m.0, m.1) && g[m.0][m.1] == Empty
  {
    set x, y | 0 <= x < Size && 0 <= y < Size && g[x][y] == Empty :: (x, y)
  }

  /** The number of empty cells. */
  function EmptyCount(g: Grid): nat
    requires WellFormed(g)
  {
    |EmptyCells(g)|
  }

  /** No cell of the board holds a stone. */
  predicate AllEmpty(g: Grid)
    requires WellFormed(g)
  {
    forall x, y | 0 <= x < Size && 0 <= y < Size :: g[x][y] == Empty
  }

  /** No cell is empty exactly when the set of empty cells is empty. */
  lemma NoEmptyCellIff(g: Grid)
    requires WellFormed(g)
    ensures (forall x, y | 0 <= x < Size && 0 <= y < Size :: g[x][y] != Empty) <==> EmptyCells(g) == {}
    ensures EmptyCells(g) == {} <==> EmptyCount(g) == 0
  {
    if !(forall x, y | 0 <= x < Size && 0 <= y < Size :: g[x][y] != Empty) {
      var x, y :| 0 <= x < Size && 0 <= y < Size && g[x][y] == Empty;
      assert (x, y) in EmptyCells(g);
    }
  }

  /** A non-empty set has an element, so `:|` can pick one. */
  lemma HasElement<T>(s: set<T>)
    requires s != {}
    ensures exists v :: v in s
  {
    if forall v :: v !in s {
      assert false;
    }
  }

  /** Some element of a non-empty set. */
  ghost function Pick<T>(s: set<T>): (v: T)
    requires s != {}
    ensures v in s
  {
    HasElement(s);
    var v :| v in s; v
  }

  /** (a, b) comes before (x, y) in the row-major order in which the board is scanned. */
  predicate Before(a: int, b: int, x: int, y: int)
  {
    a < x || (a == x && b < y)
  }

  /** Two boards agree on every cell. */
  lemma {:induction false} GridExtensionality(g: Grid, h: Grid)
    requires WellFormed(g) && WellFormed(h)
    requires forall x, y :: InBounds(x, y) ==> g[x][y] == h[x][y]
    ensures g == h
  {
    forall x | 0 <= x < Size
      ensures g[x] == h[x]
    {
      assert forall y :: 0 <= y < Size ==> g[x][y] == h[x][y];
    }
  }

  /**
   * Placing a stone and then clearing the same cell gives back the board
   * exactly when that cell was empty before.
   */
  lemma PlaceThenClear(g: Grid, x: int, y: int, p: Player)
    requires WellFormed(g) && InBounds(x, y)
    ensures Place(Place(g, x, y, p), x, y, Empty) == g <==> g[x][y] == Empty
  {
    if g[x][y] == Empty {
      GridExtensionality(Place(Place(g, x, y, p), x, y, Empty), g);
    }
  }

  /** A stone put on an empty cell removes exactly that cell from the empty set. */
  lemma {:induction false} PlaceShrinksEmptyCells(g: Grid, x: int, y: int, p: Player)
    requires WellFormed(g) && InBounds(x, y) && g[x][y] == Empty
    ensures EmptyCells(Place(g, x, y, p)) == EmptyCells(g) - {(x, y)}
    ensures EmptyCount(Place(g, x, y, p)) == EmptyCount(g) - 1
  {
    var h := Place(g, x, y, p);
    assert EmptyCells(h) == EmptyCells(g) - {(x, y)};
  }

  /** Swapping the two colours on every cell. */
  function Swap(c: Cell): (d: Cell)
    ensures (c == Empty) == (d == Empty)
  {
    match c
    case Empty => Empty
    case Human => Ai
    case Ai => Human
  }

  /** The board with HUMAN and AI exchanged on every occupied cell. */
  function Mirror(g: Grid): (h: Grid)
    requires WellFormed(g)
    ensures WellFormed(h)
    ensures forall x, y :: InBounds(x, y) ==> h[x][y] == Swap(g[x][y])
  {
    seq(Size, x requires 0 <= x < Size => seq(Size, y requires 0 <= y < Size => Swap(g[x][y])))
  }

  /** A sequence of placements: each entry is a cell and the stone put there. */
  type Placements = seq<(Move, Player)>

  predicate AllInBounds(ms: Placements)
  {
    forall i :: 0 <= i < |ms| ==> InBounds(ms[i].0.0, ms[i].0.1)
  }

  /** The board after making every placement of ms, first to last. */
  function PlaceAll(g: Grid, ms: Placements): (h: Grid)
    requires WellFormed(g) && AllInBounds(ms)
    ensures WellFormed(h)
    decreases |ms|
  {
    if ms == [] then g
    else
      var last := ms[|ms| - 1];
      Place(PlaceAll(g, ms[..|ms| - 1]), last.0.0, last.0.1, last.1)
  }

  /** The board after clearing the cells of ms, last to first. */
  function UndoAll(g: Grid, ms: Placements): (h: Grid)
    requires WellFormed(g) && AllInBounds(ms)
    ensures WellFormed(h)
    decreases |ms|
  {
    if ms == [] then g
    else
      var last := ms[|ms| - 1];
      UndoAll(Place(g, last.0.0, last.0.1, Empty), ms[..|ms| - 1])
  }

  /** The cells of ms are distinct and all empty on g. */
  predicate FreshPlacements(g: Grid, ms: Placements)
    requires WellFormed(g)
  {
    && AllInBounds(ms)
    && (forall i :: 0 <= i < |ms| ==> g[ms[i].0.0][ms[i].0.1] == Empty)
    && (forall i, j :: 0 <= i < j < |ms| ==> ms[i].0 != ms[j].0)
  }

  /** Placements leave every cell they do not name as it was. */
  lemma {:induction false} PlaceAllFrame(g: Grid, ms: Placements, a: int, b: int)
    requires WellFormed(g) && AllInBounds(ms) && InBounds(a, b)
    requires forall i :: 0 <= i < |ms| ==> ms[i].0 != (a, b)
    ensures PlaceAll(g, ms)[a][b] == g[a][b]
    decreases |ms|
  {
    if ms != [] {
      PlaceAllFrame(g, ms[..|ms| - 1], a, b);
    }
  }

  /**
   * Undoing a sequence of placements on distinct empty cells in reverse
   * order gives back the original board.
   */
  lemma {:induction false} UndoAllRestores(g: Grid, ms: Placements)
    requires WellFormed(g) && FreshPlacements(g, ms)
    ensures UndoAll(PlaceAll(g, ms), ms) == g
    decreases |ms|
  {
    if ms != [] {
      var init := ms[..|ms| - 1];
      var last := ms[|ms| - 1];
      var (x, y) := last.0;
      assert FreshPlacements(g, init);
      PlaceAllFrame(g, init, x, y);
      var before := PlaceAll(g, init);
      PlaceThenClear(before, x, y, last.1);
      UndoAllRestores(g, init);
    }
  }
}
