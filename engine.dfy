/**
 * The Gomoku engine: a 15 x 15 board updated in place, the five-in-a-row
 * test, candidate generation, the static evaluator and the two searches
 * (plain minimax and fail-soft alpha-beta) that play a move, recurse and
 * take the move back.
 */
module Engine {
  import opened Board
  import opened Win
  import opened Candidates
  import opened Evaluation
  import opened Extended
  import opened Minimax

  /** No move occurs twice. */
  predicate NoDuplicates(s: seq<Move>)
  {
    forall i, j :: 0 <= i < j < |s| ==> s[i] != s[j]
  }

  /** The valid moves of a position are exactly its empty cells: placing a stone there and clearing it again restores the board. */
  lemma ValidMoveRoundTrip(g: Grid, x: int, y: int)
    requires WellFormed(g)
    ensures InBounds(x, y) ==>
      (g[x][y] == Empty <==> forall p: Player :: Place(Place(g, x, y, p), x, y, Empty) == g)
  {
    if InBounds(x, y) {
      forall p: Player
        ensures Place(Place(g, x, y, p), x, y, Empty) == g <==> g[x][y] == Empty
      {
        PlaceThenClear(g, x, y, p);
      }
      PlaceThenClear(g, x, y, Human);
    }
  }

  class Gomoku {
    /** board[x][y] is the stone at column x, row y. */
    var board: Grid

    ghost predicate Valid()
      reads this
    {
      WellFormed(board)
    }

    /** A new game starts on an empty board. */
    constructor ()
      ensures Valid() && board == EmptyGrid()
    {
      board := EmptyGrid();
    }

    function IsValidMove(x: int, y: int): (r: bool)
      reads this
      requires Valid()
      ensures r <==> (x, y) in EmptyCells(board)
      ensures r <==> InBounds(x, y) && forall p: Player :: Place(Place(board, x, y, p), x, y, Empty) == board
    {
      ValidMoveRoundTrip(board, x, y);
      0 <= x < Size && 0 <= y < Size && board[x][y] == Empty
    }

    method MakeMove(x: int, y: int, p: Player)
      requires Valid() && InBounds(x, y)
      modifies this
      ensures Valid() && board == Place(old(board), x, y, p)
    {
      board := board[x := board[x][y := p]];
    }

    method UndoMove(x: int, y: int)
      requires Valid() && InBounds(x, y)
      modifies this
      ensures Valid() && board == Place(old(board), x, y, Empty)
    {
      board := board[x := board[x][y := Empty]];
    }

    /**
     * Scans the nine cells at offsets -4 .. 4 along (dx, dy), counting the
     * current run of p; off-board cells are skipped without ending a run.
     */
    method CheckDirection(x: int, y: int, dx: int, dy: int, p: Player) returns (r: bool)
      requires Valid()
      ensures r <==> FiveThrough(board, x, y, dx, dy, p)
    {
      var count := 0;
      var i := -4;
      // e is the offset just past the last on-board cell seen; the current
      // run is the offsets e - count .. e - 1.
      ghost var e := -4;
      ScanStart(board, x, y, dx, dy, p);
      while i < 5
        invariant Scan(board, x, y, dx, dy, p, i, count, e)
      {
        var nx, ny := x + i * dx, y + i * dy;
        if 0 <= nx < Size && 0 <= ny < Size {
          if board[nx][ny] == p {
            ScanHit(board, x, y, dx, dy, p, i, count, e);
            count := count + 1;
            e := i + 1;
            if count == 5 {
              return true;
            }
          } else {
            ScanMiss(board, x, y, dx, dy, p, i, count, e);
            count := 0;
            e := i + 1;
          }
        } else {
          ScanSkip(board, x, y, dx, dy, p, i, count, e);
        }
        i := i + 1;
      }
      ScanDone(board, x, y, dx, dy, p, count, e);
      return false;
    }

    method IsWinner(p: Player) returns (r: bool)
      requires Valid()
      ensures r <==> HasFive(board, p)
    {
      HasFiveIff(board, p);
      var x := 0;
      while x < Size
        invariant 0 <= x <= Size
        invariant forall a, b :: 0 <= a < x && 0 <= b < Size ==> !WinsThrough(board, a, b, p)
      {
        var y := 0;
        while y < Size
          invariant 0 <= y <= Size
          invariant forall a, b :: Before(a, b, x, y) && 0 <= a && 0 <= b < Size ==> !WinsThrough(board, a, b, p)
        {
          if board[x][y] == p {
            var k := 0;
            while k < 4
              invariant 0 <= k <= 4
              invariant forall j :: 0 <= j < k ==> !FiveThrough(board, x, y, Directions[j].0, Directions[j].1, p)
            {
              var (dx, dy) := Directions[k];
              var found := CheckDirection(x, y, dx, dy, p);
              if found {
                assert WinsThrough(board, x, y, p);
                return true;
              }
              k := k + 1;
            }
          }
          assert !WinsThrough(board, x, y, p);
          y := y + 1;
        }
        x := x + 1;
      }
      return false;
    }

    function IsBoardFull(): (r: bool)
      reads this
      requires Valid()
      ensures r <==> EmptyCells(board) == {}
      ensures r <==> EmptyCount(board) == 0
    {
      NoEmptyCellIff(board);
      forall x, y | 0 <= x < Size && 0 <= y < Size :: board[x][y] != Empty
    }

    /**
     * Collects every empty cell within Radius of a stone in a row-major
     * scan; an empty collection becomes the centre. The list's order is
     * that of Python's set iteration, which the model leaves arbitrary.
     */
    method GetEmptyCells() returns (cells: seq<Move>)
      requires Valid()
      ensures |cells| > 0 && NoDuplicates(cells)
      ensures forall m :: m in cells <==> m in CandidateSet(board)
    {
      var positions: set<Move> := {};
      var x := 0;
      while x < Size
        invariant 0 <= x <= Size
        invariant forall m :: m in positions <==> NearBefore(board, m, x, 0)
      {
        var y := 0;
        while y < Size
          invariant 0 <= y <= Size
          invariant forall m :: m in positions <==> NearBefore(board, m, x, y)
        {
          if board[x][y] != Empty {
            var dx := -Radius;
            while dx <= Radius
              invariant -Radius <= dx <= Radius + 1
              invariant forall m :: m in positions <==>
                NearBefore(board, m, x, y) || Reached(board, m, x, y, dx, -Radius)
            {
              var dy := -Radius;
              while dy <= Radius
                invariant -Radius <= dy <= Radius + 1
                invariant forall m :: m in positions <==>
                  NearBefore(board, m, x, y) || Reached(board, m, x, y, dx, dy)
              {
                var nx, ny := x + dx, y + dy;
                if 0 <= nx < Size && 0 <= ny < Size && board[nx][ny] == Empty {
                  positions := positions + {(nx, ny)};
                }
                dy := dy + 1;
              }
              dx := dx + 1;
            }
          }
          forall m
            ensures m in positions <==> NearBefore(board, m, x, y + 1)
          {
            NearBeforeNext(board, m, x, y);
          }
          y := y + 1;
        }
        forall m
          ensures NearBefore(board, m, x, Size) <==> NearBefore(board, m, x + 1, 0)
        {
          NearBeforeNextRow(board, m, x);
        }
        x := x + 1;
      }
      forall m
        ensures NearBefore(board, m, Size, 0) <==> Near(board, m)
      {
        NearBeforeEnd(board, m);
      }
      assert positions == NearEmpty(board);
      if positions == {} {
        return [Centre];
      }
      cells := [];
      var rest := positions;
      while rest != {}
        invariant forall m :: m in positions <==> m in rest || m in cells
        invariant forall m :: m in cells ==> m !in rest
        invariant NoDuplicates(cells)
        decreases |rest|
      {
        HasElement(rest);
        var m :| m in rest;
        cells := cells + [m];
        rest := rest - {m};
      }
      HasElement(positions);
    }

    /** The score of the five-cell window from (x, y) along (dx, dy) for p. */
    method EvaluateLine(x: int, y: int, dx: int, dy: int, p: Player) returns (r: int)
      requires Valid()
      ensures r == WindowScore(board, x, y, dx, dy, p)
      ensures r in {0, 10, 100, 1000, 10000, 100000}
    {
      WindowScoreRange(board, x, y, dx, dy, p);
      var count := 0;
      var i := 0;
      while i < 5
        invariant 0 <= i <= 5
        invariant count == Count(board, x, y, dx, dy, p, i)
        invariant forall j :: 0 <= j < i ==> !Blocked(board, x, y, dx, dy, p, j)
      {
        var nx, ny := x + i * dx, y + i * dy;
        if 0 <= nx < Size && 0 <= ny < Size {
          if board[nx][ny] == p {
            count := count + 1;
          } else if board[nx][ny] != Empty {
            assert Blocked(board, x, y, dx, dy, p, i);
            return 0;
          }
        } else {
          assert Blocked(board, x, y, dx, dy, p, i);
          return 0;
        }
        i := i + 1;
      }
      r := if count > 0 then Pow10(count) else 0;
    }

    method EvaluatePlayer(p: Player) returns (score: int)
      requires Valid()
      ensures score == PlayerScore(board, p)
    {
      score := 0;
      var x := 0;
      while x < Size
        invariant 0 <= x <= Size
        invariant score == RowsScore(board, p, x)
      {
        var y := 0;
        while y < Size
          invariant 0 <= y <= Size
          invariant score == RowsScore(board, p, x) + RowScore(board, p, x, y)
        {
          var k := 0;
          while k < 4
            invariant 0 <= k <= 4
            invariant score == RowsScore(board, p, x) + RowScore(board, p, x, y) + DirectionsScore(board, p, x, y, k)
          {
            var (dx, dy) := Directions[k];
            var s := EvaluateLine(x, y, dx, dy, p);
            score := score + s;
            k := k + 1;
          }
          y := y + 1;
        }
        x := x + 1;
      }
    }

    method Evaluate() returns (r: int)
      requires Valid()
      ensures r == Score(board)
    {
      var ai := EvaluatePlayer(Ai);
      var human := EvaluatePlayer(Human);
      r := ai - human;
    }

    /**
     * Plain minimax. When there are at least depth empty cells, every move
     * tried is on an empty cell, so each make_move/undo_move pair restores
     * the board and the score is the position's minimax value; the move is
     * the first candidate of the enumeration order that attains it.
     */
    method MinimaxBasic(depth: nat, maximizing: bool) returns (score: int, move: Option<Move>)
      requires Valid()
      modifies this
      decreases depth, 2
      ensures Valid()
      ensures Terminal(old(board), depth) ==> score == Score(old(board)) && move == None && board == old(board)
      ensures !Terminal(old(board), depth) ==> move.Some? && move.value in CandidateSet(old(board))
      ensures EmptyCount(old(board)) >= depth ==> board == old(board) && score == Value(old(board), depth, maximizing)
    {
      ghost var b := board;
      if depth == 0 {
        score := Evaluate();
        return score, None;
      }
      var won := IsWinner(Human);
      if !won {
        won := IsWinner(Ai);
      }
      if won {
        score := Evaluate();
        return score, None;
      }
      var cells := GetEmptyCells();
      if EmptyCount(b) >= depth {
        CandidatesAreEmpty(b);
      }
      ghost var k, vals;
      score, move, k, vals := BasicLoop(cells, depth, maximizing);
      if EmptyCount(b) >= depth {
        BestChildIsValue(b, depth, maximizing, cells, vals, k);
      }
    }

    /**
     * The loop of minimax_basic over the candidate list: the first strictly
     * best score of the moves the recursive search returns, and its move.
     * The two branches of the source differ only in the stone played, the
     * comparison and the starting bound, which Mover and Better select.
     */
    method BasicLoop(cells: seq<Move>, depth: nat, maximizing: bool)
      returns (score: int, move: Option<Move>, ghost k: nat, ghost vals: seq<int>)
      requires Valid() && depth > 0 && |cells| > 0
      requires forall m :: m in cells ==> InBounds(m.0, m.1)
      modifies this
      decreases depth, 1
      ensures Valid()
      ensures k < |cells| && move == Some(cells[k])
      ensures Searchable(old(board), cells, depth) ==>
        && board == old(board)
        && ChildValuesOf(old(board), cells, depth, maximizing, vals) && |vals| == |cells|
        && score == vals[k]
        && NoneBetter(maximizing, vals, Fin(score))
        && (forall j :: 0 <= j < k ==> Better(maximizing, Fin(score), Fin(vals[j])))
    {
      ghost var b := board;
      ghost var exact := Searchable(b, cells, depth);
      var best := if maximizing then NegInf else PosInf;
      move := None;
      k := 0;
      // vals[j] is the score the search returned for cells[j].
      vals := [];
      var i := 0;
      while i < |cells|
        invariant 0 <= i <= |cells| && Valid()
        invariant exact ==> board == b
        invariant |vals| == i
        invariant exact ==> ChildValuesOf(b, cells, depth, maximizing, vals)
        invariant i == 0 ==> best == (if maximizing then NegInf else PosInf) && move == None
        invariant i > 0 ==> k < i && best == Fin(vals[k]) && move == Some(cells[k])
        invariant i > 0 ==> NoneBetter(maximizing, vals, best)
        invariant i > 0 ==> forall j :: 0 <= j < k ==> Better(maximizing, best, Fin(vals[j]))
      {
        var (x, y) := cells[i];
        var eval := TryBasic(x, y, depth, maximizing);
        if exact {
          ChildValueAt(b, x, y, depth, maximizing);
          ChildValuesStep(b, cells, depth, maximizing, vals, eval);
        }
        NoneBetterStep(maximizing, vals, best, eval);
        vals := vals + [eval];
        if Better(maximizing, Fin(eval), best) {
          best := Fin(eval);
          move := Some((x, y));
          k := i;
        }
        i := i + 1;
      }
      score := best.value;
    }

    /**
     * The body of minimax_basic's loop: play (x, y) for the side to move,
     * search the reply and take the move back. On an empty cell, with enough
     * empty cells left, the board is restored and the result is the value of
     * the position after the move.
     */
    method TryBasic(x: int, y: int, depth: nat, maximizing: bool) returns (eval: int)
      requires Valid() && InBounds(x, y) && depth > 0
      modifies this
      decreases depth, 0
      ensures Valid()
      ensures EmptyCount(old(board)) >= depth && old(board)[x][y] == Empty ==> board == old(board)
      ensures EmptyCount(old(board)) >= depth && old(board)[x][y] == Empty ==>
        eval == Value(Place(old(board), x, y, Mover(maximizing)), depth - 1, !maximizing)
    {
      ghost var b := board;
      ghost var exact := EmptyCount(b) >= depth && b[x][y] == Empty;
      MakeMove(x, y, Mover(maximizing));
      ghost var child := board;
      if exact {
        PlaceShrinksEmptyCells(b, x, y, Mover(maximizing));
        assert EmptyCount(child) >= depth - 1;
      }
      ghost var v := Value(child, depth - 1, !maximizing);
      var childMove;
      eval, childMove := MinimaxBasic(depth - 1, !maximizing);
      if exact {
        assert board == child && eval == v;
      }
      UndoMove(x, y);
      if exact {
        PlaceThenClear(b, x, y, Mover(maximizing));
      }
    }

    /**
     * Fail-soft alpha-beta. With at least depth empty cells the board is
     * restored, and whenever alpha < beta the score agrees with the minimax
     * value once both are clamped to [alpha, beta]: exact inside the window,
     * and on the correct side of it otherwise.
     */
    method MinimaxAlphaBeta(depth: nat, alpha: ExtInt, beta: ExtInt, maximizing: bool) returns (score: int, move: Option<Move>)
      requires Valid()
      modifies this
      decreases depth, 2
      ensures Valid()
      ensures Terminal(old(board), depth) ==> score == Score(old(board)) && move == None && board == old(board)
      ensures !Terminal(old(board), depth) ==> move.Some? && move.value in CandidateSet(old(board))
      ensures EmptyCount(old(board)) >= depth ==> board == old(board)
      ensures EmptyCount(old(board)) >= depth && Less(alpha, beta) ==>
        Clamp(Fin(score), alpha, beta) == Clamp(Fin(Value(old(board), depth, maximizing)), alpha, beta)
    {
      if depth == 0 {
        score := Evaluate();
        return score, None;
      }
      var won := IsWinner(Human);
      if !won {
        won := IsWinner(Ai);
      }
      if won {
        score := Evaluate();
        return score, None;
      }
      var cells := GetEmptyCells();
      ghost var b := board;
      ghost var exact := EmptyCount(b) >= depth;
      ghost var vals: seq<int> := [];
      if exact {
        CandidatesAreEmpty(b);
        SearchablePlayable(b, cells, depth);
        vals := ChildValuesFor(b, cells, depth, maximizing);
      }
      ghost var n, a, b';
      if maximizing {
        score, move, n, a, b' := AlphaBetaMax(cells, depth, alpha, beta, vals);
      } else {
        score, move, n, a, b' := AlphaBetaMin(cells, depth, alpha, beta, vals);
      }
      if exact && Less(alpha, beta) {
        SearchResult(b, cells, depth, maximizing, vals, n, alpha, beta, Fin(score), a, b');
      }
    }

    /**
     * The maximising loop of minimax_alpha_beta: the running maximum of the
     * scores the replies return, with alpha raised to it after each move and
     * a cutoff once beta <= alpha. When vals lists the replies' values, the
     * loop stops in the state Searched describes, n moves in, with the
     * running maximum as its score and [a, b] as its final window.
     */
    method AlphaBetaMax(cells: seq<Move>, depth: nat, alpha: ExtInt, beta: ExtInt, ghost vals: seq<int>)
      returns (score: int, move: Option<Move>, ghost n: nat, ghost a: ExtInt, ghost b: ExtInt)
      requires Valid() && depth > 0 && |cells| > 0
      requires forall m :: m in cells ==> InBounds(m.0, m.1)
      modifies this
      decreases depth, 1
      ensures Valid()
      ensures move.Some? && move.value in cells
      ensures Playable(old(board), cells, depth) ==> board == old(board)
      ensures Playable(old(board), cells, depth) && ChildValuesOf(old(board), cells, depth, true, vals) &&
              |vals| == |cells| && Less(alpha, beta) ==>
        Searched(true, vals, n, alpha, beta, Fin(score), a, b)
    {
      ghost var g := board;
      ghost var exact := Playable(g, cells, depth);
      ghost var good := exact && ChildValuesOf(g, cells, depth, true, vals) && |vals| == |cells| && Less(alpha, beta);
      var maxEval := NegInf;
      move := None;
      var lo := alpha;
      var i := 0;
      while i < |cells|
        invariant 0 <= i <= |cells| && Valid()
        invariant exact ==> board == g
        invariant i == 0 ==> maxEval == NegInf && move == None
        invariant i > 0 ==> maxEval.Fin? && move.Some? && move.value in cells
        invariant good ==> Less(lo, beta) && Tracking(true, vals, i, alpha, beta, maxEval, lo, beta)
      {
        var (x, y) := cells[i];
        var eval := TryAlphaBeta(x, y, depth, lo, beta, true, cells, vals, i);
        ghost var prev, lo0 := maxEval, lo;
        if Less(maxEval, Fin(eval)) {
          maxEval := Fin(eval);
          move := Some((x, y));
        }
        lo := Max(lo, Fin(eval));
        if good {
          TrackStep(true, vals, i, alpha, beta, prev, lo0, beta, eval, maxEval, lo, beta);
        }
        if LessEq(beta, lo) {
          break;
        }
        i := i + 1;
      }
      score := maxEval.value;
      n, a, b := if i == |cells| then i else i + 1, lo, beta;
    }

    /**
     * The minimising loop of minimax_alpha_beta: the running minimum, with
     * beta lowered to it after each move and a cutoff once beta <= alpha.
     */
    method AlphaBetaMin(cells: seq<Move>, depth: nat, alpha: ExtInt, beta: ExtInt, ghost vals: seq<int>)
      returns (score: int, move: Option<Move>, ghost n: nat, ghost a: ExtInt, ghost b: ExtInt)
      requires Valid() && depth > 0 && |cells| > 0
      requires forall m :: m in cells ==> InBounds(m.0, m.1)
      modifies this
      decreases depth, 1
      ensures Valid()
      ensures move.Some? && move.value in cells
      ensures Playable(old(board), cells, depth) ==> board == old(board)
      ensures Playable(old(board), cells, depth) && ChildValuesOf(old(board), cells, depth, false, vals) &&
              |vals| == |cells| && Less(alpha, beta) ==>
        Searched(false, vals, n, alpha, beta, Fin(score), a, b)
    {
      ghost var g := board;
      ghost var exact := Playable(g, cells, depth);
      ghost var good := exact && ChildValuesOf(g, cells, depth, false, vals) && |vals| == |cells| && Less(alpha, beta);
      var minEval := PosInf;
      move := None;
      var hi := beta;
      var i := 0;
      while i < |cells|
        invariant 0 <= i <= |cells| && Valid()
        invariant exact ==> board == g
        invariant i == 0 ==> minEval == PosInf && move == None
        invariant i > 0 ==> minEval.Fin? && move.Some? && move.value in cells
        invariant good ==> Less(alpha, hi) && Tracking(false, vals, i, alpha, beta, minEval, alpha, hi)
      {
        var (x, y) := cells[i];
        var eval := TryAlphaBeta(x, y, depth, alpha, hi, false, cells, vals, i);
        ghost var prev, hi0 := minEval, hi;
        if Less(Fin(eval), minEval) {
          minEval := Fin(eval);
          move := Some((x, y));
        }
        hi := Min(hi, Fin(eval));
        if good {
          TrackStep(false, vals, i, alpha, beta, prev, alpha, hi0, eval, minEval, alpha, hi);
        }
        if LessEq(hi, alpha) {
          break;
        }
        i := i + 1;
      }
      score := minEval.value;
      n, a, b := if i == |cells| then i else i + 1, alpha, hi;
    }

    /**
     * The body of minimax_alpha_beta's loop: play (x, y), search the reply
     * with the window [alpha, beta] and take the move back. When (x, y) is
     * move i of cells and vals[i] is its child value, the reply's score
     * agrees with vals[i] within the window.
     */
    method TryAlphaBeta(x: int, y: int, depth: nat, alpha: ExtInt, beta: ExtInt, maximizing: bool,
                        ghost cells: seq<Move>, ghost vals: seq<int>, ghost i: nat)
      returns (eval: int)
      requires Valid() && InBounds(x, y) && depth > 0
      modifies this
      decreases depth, 0
      ensures Valid()
      ensures EmptyCount(old(board)) >= depth && old(board)[x][y] == Empty ==> board == old(board)
      ensures EmptyCount(old(board)) >= depth && old(board)[x][y] == Empty && Less(alpha, beta) &&
              ChildValuesOf(old(board), cells, depth, maximizing, vals) && i < |vals| && cells[i] == (x, y) ==>
        Clamp(Fin(eval), alpha, beta) == Clamp(Fin(vals[i]), alpha, beta)
    {
      ghost var b := board;
      ghost var exact := EmptyCount(b) >= depth && b[x][y] == Empty;
      MakeMove(x, y, Mover(maximizing));
      ghost var child := board;
      if exact {
        PlaceShrinksEmptyCells(b, x, y, Mover(maximizing));
        assert EmptyCount(child) >= depth - 1;
      }
      var childMove;
      eval, childMove := MinimaxAlphaBeta(depth - 1, alpha, beta, !maximizing);
      if exact {
        assert board == child;
        if ChildValuesOf(b, cells, depth, maximizing, vals) && i < |vals| && cells[i] == (x, y) {
          assert vals[i] == ChildValue(b, cells[i], depth, maximizing);
        }
      }
      UndoMove(x, y);
      if exact {
        PlaceThenClear(b, x, y, Mover(maximizing));
      }
    }
  }

  /**
   * At the root, with the full window (-inf, +inf) and enough empty cells,
   * alpha-beta returns the same score as plain minimax and both leave the
   * board as they found it.
   */
  method SearchesAgree(game: Gomoku, depth: nat) returns (plain: int, pruned: int)
    requires game.Valid() && EmptyCount(game.board) >= depth
    modifies game
    ensures game.Valid() && game.board == old(game.board)
    ensures plain == pruned
  {
    var plainMove;
    plain, plainMove := game.MinimaxBasic(depth, true);
    var prunedMove;
    pruned, prunedMove := game.MinimaxAlphaBeta(depth, NegInf, PosInf, true);
    ClampUnbounded(plain);
    ClampUnbounded(pruned);
  }

  /** On a new game the AI's one-ply search opens in the centre. */
  method OpeningMove() returns (move: Option<Move>)
    ensures move == Some(Centre)
  {
    var game := new Gomoku();
    EmptyGridNoWin(Human);
    EmptyGridNoWin(Ai);
    EmptyGridCandidates();
    var score;
    score, move := game.MinimaxBasic(1, true);
  }
}
