# Gomoku engine, modelled and verified in Dafny

This project models the `Gomoku` engine class of `Gomoku.py`: a 15 x 15
board of `EMPTY`/`HUMAN`/`AI` cells updated in place, the primitive moves,
five-in-a-row detection, the candidate-move generator, the static evaluator
and the two depth-bounded searches (plain minimax and fail-soft alpha-beta).
Both searches play a move on the shared board, recurse and take the move back.

The model follows the structure of the source:

- `board.dfy` (module `Board`): cells, players, the grid as `seq<seq<Cell>>`,
  `Place`, the set of empty cells, colour swapping (`Mirror`), and sequences of
  placements with the undo-in-reverse round trip.
- `win.dfy` (module `Win`): runs of five, the nine-cell window scanned by
  `check_direction`, and the invariant of that scan.
- `candidates.dfy` (module `Candidates`): the cells within Chebyshev radius 2
  of a stone, and the centre fallback.
- `evaluation.dfy` (module `Evaluation`): the five-cell window score, the
  per-player sum over every cell and direction, and the score.
- `extended.dfy` (module `Extended`): integers extended with -inf and +inf,
  which stand for `math.inf`. Also the running best of a list of scores and
  the clamped comparison that fail-soft alpha-beta guarantees.
- `minimax.dfy` (module `Minimax`): the game-tree value both searches compute.
  It is a minimax over the candidate sets, with the evaluation at depth 0 and
  at positions where a player already has five. Also the lemmas that connect
  a search loop's state to that value.
- `engine.dfy` (module `Engine`): the class `Gomoku`. Its field `board` is
  changed in place by `MakeMove` and `UndoMove`. Its methods are the loops of
  the source, each proved against the functions above.

Each search loop is split into two methods. The loop method (`BasicLoop`,
`AlphaBetaMax`, `AlphaBetaMin`) walks the candidate list. The body method
(`TryBasic`, `TryAlphaBeta`) does one make_move / recursive search /
undo_move step. The split keeps each proof small. The control flow and the
state changes are those of the source.

`check_direction` skips off-board cells and does not reset its count there
(Gomoku.py:38-44). The model follows that code. On the board, the cells of a
line form one contiguous stretch. So skipping and resetting give the same
result, and `CheckDirection` is proved equal to "five consecutive on-board
stones of the player in the window" either way.

On a full board with no winner, the generator returns the occupied centre
(Gomoku.py:60-61). A search at depth > 0 then overwrites that cell and clears
it. The board-restoring and exact-value contracts of the searches are
therefore stated for boards with at least `depth` empty cells. That
guarantees that every move tried is on an empty cell.

## Model

| member | source | states |
|---|---|---|
| Engine.Gomoku.constructor | Gomoku.py:13-14 | a new game has the all-empty 15 x 15 board |
| Engine.Gomoku.IsValidMove | Gomoku.py:16-17 | true exactly for an on-board empty cell. Equivalently: true exactly when placing any stone there and clearing it again gives back the board |
| Engine.ValidMoveRoundTrip | Gomoku.py:16-23 | for an on-board cell: empty if and only if every make_move/undo_move pair on it restores the board |
| Engine.Gomoku.MakeMove | Gomoku.py:19-20 | the new board is the old one with the player's stone at (x, y) and nothing else changed |
| Engine.Gomoku.UndoMove | Gomoku.py:22-23 | the new board is the old one with (x, y) emptied and nothing else changed |
| Board.Place | Gomoku.py:19-23 | the placed cell holds the new value; every other cell keeps its old one |
| Board.PlaceThenClear | Gomoku.py:19-23 | make_move then undo_move on (x, y) restores the board if and only if (x, y) was empty |
| Board.UndoAllRestores | Gomoku.py:19-23 | a sequence of moves on distinct empty cells, undone in reverse order, gives back the original board |
| Engine.Gomoku.CheckDirection | Gomoku.py:34-45 | true if and only if some five consecutive offsets within -4 .. 4 along (dx, dy) are all on the board and hold the player's stones |
| Win.ScanHit | Gomoku.py:39-42 | a matching cell extends the current run; the fifth one in a row means a five through (x, y) |
| Win.ScanMiss | Gomoku.py:43-44 | a non-matching on-board cell ends the run without losing a five already passed |
| Win.ScanSkip | Gomoku.py:38 | an off-board cell leaves the count unchanged, and no five can use it |
| Win.ScanDone | Gomoku.py:36-45 | a finished scan that never reached five means there is no five in the window |
| Engine.Gomoku.IsWinner | Gomoku.py:25-32 | true if and only if the board has five consecutive stones of the player in one of the four directions |
| Win.HasFiveIff | Gomoku.py:25-32 | a five exists exactly when one passes, within check_direction's window, through one of the player's stones |
| Win.FewerThanFiveStonesNoWin | Gomoku.py:25-32 | a player with fewer than five stones (a lone four, say) has not won |
| Win.EmptyGridNoWin | Gomoku.py:25-32 | nobody has won on the empty board |
| Engine.Gomoku.IsBoardFull | Gomoku.py:47-48 | true exactly when no cell is empty, that is, when the number of empty cells is 0 |
| Board.NoEmptyCellIff | Gomoku.py:47-48 | every cell occupied, no empty cell, and zero empty cells are the same condition |
| Engine.Gomoku.GetEmptyCells | Gomoku.py:50-62 | the list is non-empty, has no duplicates, and holds exactly the candidates: the empty cells within radius 2 of a stone, or just the centre when there are none |
| Candidates.NearEmpty | Gomoku.py:51-59 | a cell is collected exactly when it is on the board, empty, and within Chebyshev distance 2 of a stone |
| Candidates.NoNearCellIff | Gomoku.py:50-61 | no empty cell is near a stone exactly when the board is all empty or full |
| Candidates.EmptyGridCandidates | Gomoku.py:60-61 | on the empty board the only candidate is the centre (7, 7) |
| Candidates.FullBoardCandidates | Gomoku.py:60-61 | on a full board the only candidate is the centre, which is occupied |
| Candidates.CandidatesAreEmpty | Gomoku.py:50-62 | while some cell is empty, every candidate is an empty cell |
| Engine.Gomoku.EvaluateLine | Gomoku.py:75-86 | the window score: 0 if a window cell is off-board or holds the opponent's stone, else 10^count for count > 0 and 0 for count 0; always one of 0, 10, ..., 100000 |
| Evaluation.WindowScoreRange | Gomoku.py:86 | every window score is one of 0, 10, 100, 1000, 10000, 100000 |
| Engine.Gomoku.EvaluatePlayer | Gomoku.py:67-73 | the sum of the window scores of every cell in every direction |
| Engine.Gomoku.Evaluate | Gomoku.py:64-65 | AI's sum minus HUMAN's sum |
| Evaluation.MirrorNegatesScore | Gomoku.py:64-86 | swapping HUMAN and AI on every cell negates the evaluation |
| Evaluation.MirrorWindow | Gomoku.py:75-86 | on the colour-swapped board a window scores for p what it scored for p's opponent |
| Evaluation.EmptyGridScore | Gomoku.py:64-73 | the empty board evaluates to 0 |
| Engine.Gomoku.MinimaxBasic | Gomoku.py:88-114 | at depth 0 or after a win: the evaluation and no move, board untouched. Otherwise the move is a candidate. With at least depth empty cells: the board is restored and the score is the position's minimax value |
| Engine.Gomoku.BasicLoop | Gomoku.py:95-114 | the move is cells[k]. When cells lists exactly the candidates, all of them empty, and at least depth cells are empty: the board is restored, vals are the child values of cells in order, the score is vals[k], no child is strictly better, and every child before k is strictly worse (the first strictly best) |
| Engine.Gomoku.TryBasic | Gomoku.py:97-100 | when (x, y) is empty and at least depth cells are empty: the board is restored and the result is the minimax value of the position after the move |
| Minimax.BestChildIsValue | Gomoku.py:95-114 | a child value that no other child beats is the position's minimax value |
| Minimax.ChildBounded | Gomoku.py:101-103 | no child is strictly better for the side to move than the position's value |
| Minimax.SetMax | Gomoku.py:96-104 | the maximum of the child values is one of them and at least every one |
| Minimax.SetMin | Gomoku.py:106-114 | the minimum of the child values is one of them and at most every one |
| Engine.Gomoku.MinimaxAlphaBeta | Gomoku.py:116-148 | the terminal cases as for plain minimax; otherwise the move is a candidate. With enough empty cells the board is restored. Whenever alpha < beta, the score agrees with the minimax value once both are clamped to [alpha, beta] |
| Engine.Gomoku.AlphaBetaMax | Gomoku.py:123-135 | the move is one of cells. When every cell of cells is on the board and empty, and at least depth cells are empty, the board is restored. If in addition vals are the child values of cells, in order, and alpha < beta, the loop stops after n >= 1 moves, either at the end or only once beta <= alpha. Its running maximum then agrees, within the starting window, with the best of those n children |
| Engine.Gomoku.AlphaBetaMin | Gomoku.py:136-148 | the same for the minimising loop, under the same conditions, with beta lowered to the running minimum |
| Engine.Gomoku.TryAlphaBeta | Gomoku.py:125-128 | when (x, y) is empty and at least depth cells are empty, the board is restored; if in addition vals[i] is the child value of cells[i] == (x, y) and alpha < beta, then within [alpha, beta] the reply's score agrees with the move's child value |
| Minimax.TrackStep | Gomoku.py:129-134 | one loop step keeps the running best in agreement with the true best of the moves seen so far. The window stays the starting one narrowed by the running best |
| Minimax.SearchResult | Gomoku.py:123-148 | where the loop stops (all moves seen, or the window closed) its running best agrees with the position's value within [alpha, beta] |
| Minimax.BestOfIsValue | Gomoku.py:123-148 | over all the candidates the running best is the minimax value |
| Minimax.ChildValuesBounded | Gomoku.py:132-134 | the best of any prefix of the children is no better than the position's value, which is what makes a cutoff safe |
| Extended.WindowStep | Gomoku.py:129-132 | fail-soft step: a reply that is correct within the narrowed window keeps the running best correct within the starting window |
| Extended.WindowCutoff | Gomoku.py:133-134 | once the window has closed, any value at least as good as the running best is correct within the starting window |
| Extended.BestOfAttained | Gomoku.py:101-103 | after at least one move, the running best is one of the scores seen, and none of them is strictly better |
| Extended.Max | Gomoku.py:132 | Python's max on the extended integers: at least both arguments and equal to one of them |
| Extended.Min | Gomoku.py:145 | Python's min on the extended integers: at most both arguments and equal to one of them |
| Engine.SearchesAgree | Gomoku.py:88-148 | from the root with the window (-inf, +inf) and enough empty cells, alpha-beta returns the same score as plain minimax, and the board is unchanged |
| Engine.OpeningMove | Gomoku.py:88-104 | on a new game a one-ply search by the AI plays the centre |

## Left out

- The `GomokuGUI` class (Gomoku.py:150-285): windows, drawing, mouse and dialog handling, timers and input parsing are user interface, not engine.
- `math.inf` as a float: it is only a sentinel below or above every score, so it is the extended integer `NegInf`/`PosInf`, and every finite score is an unbounded integer.
- The iteration order of the Python set behind `list(positions)` (Gomoku.py:62): `GetEmptyCells` returns the candidates in an arbitrary order. The properties are about values and membership; none depends on which tied move is picked.
- Engine.Gomoku.MakeMove: requires (x, y) to be on the board, because Python's negative-index wrap-around on the nested lists is not modelled; the searches only call it on candidates, which are on the board.
- Engine.Gomoku.UndoMove: requires (x, y) to be on the board, for the same reason as MakeMove.
- Engine.Gomoku.MinimaxBasic: board restoration and the exact value are promised only when at least depth cells are empty. On a full board with no winner the centre is returned occupied, and the make/undo pair on it clears that stone (Gomoku.py:60-61, 98-100).
- Engine.Gomoku.MinimaxAlphaBeta: makes the same promises only under the same condition as MinimaxBasic. Its score is promised only up to clamping to [alpha, beta], which is what fail-soft alpha-beta gives.
- Engine.Gomoku.AlphaBetaMax: does not say which of several equally good moves is returned, because that depends on the set order and on where the cutoff falls.
- Engine.Gomoku.AlphaBetaMin: does not say which of several equally good moves is returned, for the same reason as AlphaBetaMax.
- Engine.Gomoku.MinimaxBasic: states that the move is a candidate. The fact that it is the first strictly best one in the enumeration order is stated on BasicLoop, which sees the list.
- Engine.Gomoku.MinimaxBasic: depth is a nat. In the source a negative depth never meets the depth-0 test (Gomoku.py:89), so the search recurses until a five appears or the stack overflows. The interface passes only 1 to 4 or the default 2 (Gomoku.py:169-171).
- Engine.Gomoku.MinimaxAlphaBeta: depth is a nat, for the same reason as MinimaxBasic (Gomoku.py:117).
- Candidates.Radius: the `radius` parameter of get_empty_cells (Gomoku.py:50) is the constant 2, its default, which every call site uses (Gomoku.py:93, 121).
