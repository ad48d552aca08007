/**
 * The game-tree value both searches compute: a depth-bounded minimax over
 * the candidate moves, with the static evaluation at the leaves and at
 * positions where either player has already won.
 */
module Minimax {
  import opened Board
  import opened Win
  import opened Candidates
  import opened Evaluation
  import opened Extended

  /** The largest element of a non-empty finite set. */
  ghost function SetMax(s: set<int>): (r: int)
    requires s != {}
    ensures r in s && forall u :: u in s ==> u <= r
    decreases |s|
  {
    var v := Pick(s);
    if s == {v} then v
    else
      var rest := SetMax(s - {v});
      assert forall u :: u in s ==> u == v || u in s - {v};
      if v > rest then v else rest
  }

  /** The smallest element of a non-empty finite set. */
  ghost function SetMin(s: set<int>): (r: int)
    requires s != {}
    ensures r in s && forall u :: u in s ==> r <= u
    decreases |s|
  {
    var v := Pick(s);
    if s == {v} then v
    else
      var rest := SetMin(s - {v});
      assert forall u :: u in s ==> u == v || u in s - {v};
      if v < rest then v else rest
  }

  /** The search stops: no depth left, or a player already has five. */
  ghost predicate Terminal(g: Grid, depth: nat)
    requires WellFormed(g)
  {
    depth == 0 || HasFive(g, Human) || HasFive(g, Ai)
  }

  /** The stone the side to move places: AI when maximising, HUMAN otherwise. */
  function Mover(maximizing: bool): Player
  {
    if maximizing then Ai else Human
  }

  /** The minimax value of the position g with depth plies left. */
  ghost function Value(g: Grid, depth: nat, maximizing: bool): int
    requires WellFormed(g)
    decreases depth, 2
  {
    if Terminal(g, depth) then Score(g)
    else if maximizing then SetMax(ChildValues(g, depth, maximizing))
    else SetMin(ChildValues(g, depth, maximizing))
  }

  /** The values of the positions reached by each candidate move. */
  ghost function ChildValues(g: Grid, depth: nat, maximizing: bool): (vs: set<int>)
    requires WellFormed(g) && depth > 0
    ensures vs != {}
    decreases depth, 1
  {
    var vs := set m | m in CandidateSet(g) :: ChildValue(g, m, depth, maximizing);
    var m0 :| m0 in CandidateSet(g);
    assert ChildValue(g, m0, depth, maximizing) in vs;
    vs
  }

  /** The value after the side to move plays m. */
  ghost function ChildValue(g: Grid, m: Move, depth: nat, maximizing: bool): int
    requires WellFormed(g) && depth > 0 && m in CandidateSet(g)
    decreases depth, 0
  {
    Value(Place(g, m.0, m.1, Mover(maximizing)), depth - 1, !maximizing)
  }

  /**
   * cells lists exactly the candidates, every one of them empty, and at
   * least depth cells are empty.
   */
  ghost predicate Searchable(g: Grid, cells: seq<Move>, depth: nat)
    requires WellFormed(g)
  {
    && EmptyCount(g) >= depth
    && (forall m :: m in cells <==> m in CandidateSet(g))
    && (forall m :: m in cells ==> m in EmptyCells(g))
  }

  /** Every move of cells is an empty cell of the board, and at least depth cells are empty. */
  ghost predicate Playable(g: Grid, cells: seq<Move>, depth: nat)
    requires WellFormed(g)
  {
    && EmptyCount(g) >= depth
    && (forall j :: 0 <= j < |cells| ==> InBounds(cells[j].0, cells[j].1) && g[cells[j].0][cells[j].1] == Empty)
  }

  lemma SearchablePlayable(g: Grid, cells: seq<Move>, depth: nat)
    requires WellFormed(g) && Searchable(g, cells, depth)
    ensures Playable(g, cells, depth)
  {
    forall j | 0 <= j < |cells|
      ensures InBounds(cells[j].0, cells[j].1) && g[cells[j].0][cells[j].1] == Empty
    {
      assert cells[j] in cells;
    }
  }

  /** The child value of the move (x, y), as the search computes it after make_move. */
  lemma ChildValueAt(g: Grid, x: int, y: int, depth: nat, maximizing: bool)
    requires WellFormed(g) && depth > 0 && (x, y) in CandidateSet(g)
    ensures ChildValue(g, (x, y), depth, maximizing) == Value(Place(g, x, y, Mover(maximizing)), depth - 1, !maximizing)
  {
  }

  /** vals holds the child values of the first |vals| moves of cells. */
  ghost predicate ChildValuesOf(g: Grid, cells: seq<Move>, depth: nat, maximizing: bool, vals: seq<int>)
    requires WellFormed(g) && depth > 0
  {
    && |vals| <= |cells|
    && (forall j :: 0 <= j < |vals| ==> cells[j] in CandidateSet(g))
    && (forall j {:trigger ChildValue(g, cells[j], depth, maximizing)} :: 0 <= j < |vals| ==>
          vals[j] == ChildValue(g, cells[j], depth, maximizing))
  }

  /** Extending vals by the next move's child value keeps it the list of child values. */
  lemma ChildValuesStep(g: Grid, cells: seq<Move>, depth: nat, maximizing: bool, vals: seq<int>, v: int)
    requires WellFormed(g) && depth > 0
    requires ChildValuesOf(g, cells, depth, maximizing, vals) && |vals| < |cells|
    requires cells[|vals|] in CandidateSet(g) && v == ChildValue(g, cells[|vals|], depth, maximizing)
    ensures ChildValuesOf(g, cells, depth, maximizing, vals + [v])
  {
    var next := vals + [v];
    forall j | 0 <= j < |next|
      ensures cells[j] in CandidateSet(g) && next[j] == ChildValue(g, cells[j], depth, maximizing)
    {
      if j < |vals| {
        assert next[j] == vals[j];
      }
    }
  }

  /**
   * If vals lists the child values of an enumeration of the candidates and
   * none of them is better than vals[k], then vals[k] is the position's value.
   */
  lemma BestChildIsValue(g: Grid, depth: nat, maximizing: bool, cells: seq<Move>, vals: seq<int>, k: nat)
    requires WellFormed(g) && !Terminal(g, depth)
    requires forall m :: m in cells <==> m in CandidateSet(g)
    requires ChildValuesOf(g, cells, depth, maximizing, vals) && |vals| == |cells|
    requires k < |vals| && NoneBetter(maximizing, vals, Fin(vals[k]))
    ensures Value(g, depth, maximizing) == vals[k]
  {
    var best := vals[k];
    var vs := ChildValues(g, depth, maximizing);
    assert best == ChildValue(g, cells[k], depth, maximizing);
    assert best in vs;
    forall v | v in vs
      ensures !Better(maximizing, Fin(v), Fin(best))
    {
      var m :| m in CandidateSet(g) && v == ChildValue(g, m, depth, maximizing);
      var j :| 0 <= j < |cells| && cells[j] == m;
      assert vals[j] == ChildValue(g, cells[j], depth, maximizing);
    }
    if maximizing {
      assert SetMax(vs) <= best;
    } else {
      assert SetMin(vs) >= best;
    }
  }

  /** No child is strictly better for the side to move than the position's value. */
  lemma ChildBounded(g: Grid, depth: nat, maximizing: bool, m: Move)
    requires WellFormed(g) && !Terminal(g, depth) && m in CandidateSet(g)
    ensures !Better(maximizing, Fin(ChildValue(g, m, depth, maximizing)), Fin(Value(g, depth, maximizing)))
  {
    assert ChildValue(g, m, depth, maximizing) in ChildValues(g, depth, maximizing);
  }

  /**
   * The state of an alpha-beta loop after n of its moves: the window [a, b]
   * is the starting window [lo, hi] narrowed by the running best, and the
   * running best agrees within [lo, hi] with the best of the first n values
   * in vals.
   */
  predicate Tracking(maximizing: bool, vals: seq<int>, n: nat, lo: ExtInt, hi: ExtInt, best: ExtInt, a: ExtInt, b: ExtInt)
  {
    && n <= |vals|
    && Less(lo, hi) && InWindow(maximizing, lo, hi, best, a, b)
    && Clamp(best, lo, hi) == Clamp(BestOf(maximizing, vals, n), lo, hi)
  }

  /** The state an alpha-beta loop stops in: at least one move seen, and either all of them or the window closed. */
  predicate Searched(maximizing: bool, vals: seq<int>, n: nat, lo: ExtInt, hi: ExtInt, best: ExtInt, a: ExtInt, b: ExtInt)
  {
    && 0 < n <= |vals|
    && Tracking(maximizing, vals, n, lo, hi, best, a, b)
    && (n == |vals| || LessEq(b, a))
  }

  /**
   * One step of the alpha-beta loop. When the reply to move i was searched
   * with the window [a, b] and agrees there with vals[i], the loop state
   * holds one move further with the better of the two, next, as the running
   * best and the window narrowed by eval.
   */
  lemma TrackStep(maximizing: bool, vals: seq<int>, i: nat, lo: ExtInt, hi: ExtInt, best: ExtInt, a: ExtInt, b: ExtInt,
                  eval: int, next: ExtInt, a': ExtInt, b': ExtInt)
    requires i < |vals| && Tracking(maximizing, vals, i, lo, hi, best, a, b) && Less(a, b)
    requires Clamp(Fin(eval), a, b) == Clamp(Fin(vals[i]), a, b)
    requires next == Keep(maximizing, best, Fin(eval))
    requires a' == (if maximizing then Max(a, Fin(eval)) else a)
    requires b' == (if maximizing then b else Min(b, Fin(eval)))
    ensures Tracking(maximizing, vals, i + 1, lo, hi, next, a', b')
  {
    WindowStep(maximizing, lo, hi, best, BestOf(maximizing, vals, i), a, b, Fin(eval), Fin(vals[i]));
    WindowNext(maximizing, lo, hi, best, a, b, Fin(eval));
  }

  /** The child values of every move of cells, all of them candidates. */
  lemma ChildValuesFor(g: Grid, cells: seq<Move>, depth: nat, maximizing: bool) returns (vals: seq<int>)
    requires WellFormed(g) && depth > 0
    requires forall m :: m in cells ==> m in CandidateSet(g)
    ensures ChildValuesOf(g, cells, depth, maximizing, vals) && |vals| == |cells|
  {
    assert forall j :: 0 <= j < |cells| ==> cells[j] in cells;
    vals := seq(|cells|, j requires 0 <= j < |cells| => ChildValue(g, cells[j], depth, maximizing));
  }

  /** No child value listed in vals is strictly better than the position's value. */
  lemma ChildValuesBounded(g: Grid, cells: seq<Move>, depth: nat, maximizing: bool, vals: seq<int>, n: nat)
    requires WellFormed(g) && depth > 0 && !Terminal(g, depth) && n <= |vals|
    requires ChildValuesOf(g, cells, depth, maximizing, vals)
    ensures !Better(maximizing, BestOf(maximizing, vals, n), Fin(Value(g, depth, maximizing)))
  {
    forall j | 0 <= j < n
      ensures !Better(maximizing, Fin(vals[j]), Fin(Value(g, depth, maximizing)))
    {
      ChildBounded(g, depth, maximizing, cells[j]);
    }
    BestOfBounded(maximizing, vals, n, Fin(Value(g, depth, maximizing)));
  }

  /** Over the child values of an enumeration of all the candidates the running best is the position's value. */
  lemma BestOfIsValue(g: Grid, cells: seq<Move>, depth: nat, maximizing: bool, vals: seq<int>)
    requires WellFormed(g) && !Terminal(g, depth) && |cells| > 0
    requires forall m :: m in cells <==> m in CandidateSet(g)
    requires ChildValuesOf(g, cells, depth, maximizing, vals) && |vals| == |cells|
    ensures BestOf(maximizing, vals, |vals|) == Fin(Value(g, depth, maximizing))
  {
    BestOfAttained(maximizing, vals, |vals|);
    var k :| 0 <= k < |vals| && BestOf(maximizing, vals, |vals|) == Fin(vals[k]);
    BestChildIsValue(g, depth, maximizing, cells, vals, k);
  }

  /**
   * Where an alpha-beta loop over all the candidates stops, its running best
   * agrees with the position's value within [lo, hi]: having seen every
   * move the best is the value itself, and at a cutoff the value is no
   * better than the best, which the closed window then cannot tell apart.
   */
  lemma SearchResult(g: Grid, cells: seq<Move>, depth: nat, maximizing: bool, vals: seq<int>,
                     n: nat, lo: ExtInt, hi: ExtInt, best: ExtInt, a: ExtInt, b: ExtInt)
    requires WellFormed(g) && depth > 0 && !Terminal(g, depth) && |cells| > 0
    requires forall m :: m in cells <==> m in CandidateSet(g)
    requires ChildValuesOf(g, cells, depth, maximizing, vals) && |vals| == |cells|
    requires Searched(maximizing, vals, n, lo, hi, best, a, b)
    ensures Clamp(best, lo, hi) == Clamp(Fin(Value(g, depth, maximizing)), lo, hi)
  {
    if n == |vals| {
      BestOfIsValue(g, cells, depth, maximizing, vals);
    } else {
      ChildValuesBounded(g, cells, depth, maximizing, vals, n);
      WindowCutoff(maximizing, lo, hi, best, BestOf(maximizing, vals, n), a, b, Fin(Value(g, depth, maximizing)));
    }
  }
}
