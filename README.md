# Tic-tac-toe engine in Dafny

This project models the tic-tac-toe engine in `projects/tic-tac-toe/tictactoe.py` and proves properties of the model. The engine has four parts:

- a 3x3 board value, where a cell holds X, O or nothing (`None`, modelled as `Empty`);
- the turn rule, which counts marks, and the set of legal moves;
- the move function, which copies the board and writes the mover's mark, and fails on an illegal move;
- the outcome evaluator (the winning-line scan, the terminal test and the utility), and a minimax search with alpha-beta pruning that picks a best move for the side to move.

Modules, one per part of the engine:

- `BoardState` (`board.dfy`): cells, positions, boards and the starting board. It also has the mark counts `Count`/`Cells`, the turn rule `Turn` and the counting loop `Player`.
- `Moves` (`moves.dfy`): `Result`, the move function, which is a method with an error outcome. `Successor` is the board it builds, and `Actions` is the loop that collects empty cells.
- `Outcome` (`outcome.dfy`): `Winner` (the line scan), `Terminal` with its loop `IsTerminal`, and `Utility`.
- `Search` (`search.dfy`) has three layers:
  - The unpruned minimax values `MaxVal`/`MinVal` as ghost functions. Like the engine, every minimising node evaluates its children with the maximiser and the other way round.
  - The pruned methods `MaxValue`/`MinValue`. Each is proved against those values by the fail-soft alpha-beta relation `FailSoft`.
  - `Minimax`, which fills a score dictionary for the root moves and picks a move with the best score.
- `Scenarios` (`scenarios.dfy`): concrete boards checked against the model.
- `Wrappers` (`wrappers.dfy`): `Option` and `Result`.

Python values are modelled as follows:

- The board is a value (`seq<seq<Cell>>` restricted to 3x3). `result` deep-copies the board before writing, so callers never see a change, and value semantics is faithful.
- `float("inf")` becomes the integer `Inf = 2`, because every utility lies in -1..1.
- The `Exception("Invalid action")` of `result` becomes `Failure(InvalidAction)`.
- `random.choice` becomes a nondeterministic pick (`:|`) among the moves with the best score.
- Set and dictionary iteration order becomes an arbitrary pick from the pending set on each loop step. Every property holds whatever order is used.

Two behaviours of the code that a reader might not expect, both modelled as written:

- `winner` is documented as returning the winner of the game (line 75), but the scan at lines 77-89 also stops at the first line whose three cells are all empty, and returns that empty value. So with the top row empty and X holding the middle row, the code reports no winner, the game is not over and the utility is 0. `Scenarios.EmptyLineHidesWin` proves this on such a board, and `Scenarios.HiddenWinOToMove` shows that O is then asked to move.
- With X on (0,0) and (0,1) and O on (1,0), the engine's `player` gives the move to O (two X against one O). `Scenarios.TopRowThreatOToMove` proves this, and `Scenarios.TopRowThreatBlocked` proves that the move at (0,2) places an O.

## Model

| member | source | states |
|---|---|---|
| BoardState.InitialState | projects/tic-tac-toe/tictactoe.py:15-21 | every one of the nine cells of the starting board is empty |
| BoardState.InitialStateTurn | projects/tic-tac-toe/tictactoe.py:15-41 | the starting board has nine empty cells and no marks, and X is to move |
| BoardState.Player | projects/tic-tac-toe/tictactoe.py:24-41 | the mark counting loop returns X exactly when X and O have been placed equally often, otherwise O; the `x == 0 and o == 0` test adds nothing; the result is `Turn(b)` |
| BoardState.CountsTotal | projects/tic-tac-toe/tictactoe.py:31-36 | every cell holds exactly one of X, O and nothing, so the three counts add up to nine |
| BoardState.CellsBeforeAll | projects/tic-tac-toe/tictactoe.py:31-36 | the row-by-row visit of all cells sees exactly the cells holding a mark, and counts them |
| Moves.Successor | projects/tic-tac-toe/tictactoe.py:68-69 | the new board equals the old one at every position except the target, which holds the mark of the side to move |
| Moves.Result | projects/tic-tac-toe/tictactoe.py:58-70 | the move fails, with the single error `InvalidAction`, exactly when a coordinate is outside 0..2 or the target cell is occupied; otherwise it returns the successor board, and the input board is a value that stays the same |
| Moves.SuccessorCells | projects/tic-tac-toe/tictactoe.py:68-69 | a move removes the target from the empty cells, adds it to the mover's cells and leaves the other mark's cells alone |
| Moves.SuccessorCounts | projects/tic-tac-toe/tictactoe.py:68-69 | a move lowers the empty count by one, raises the mover's count by one and keeps the other count |
| Moves.TurnAlternates | projects/tic-tac-toe/tictactoe.py:38-41 | after a move on a board with equal counts O is to move; after a move on a board where X is one ahead X is to move |
| Moves.InitialBalanced | projects/tic-tac-toe/tictactoe.py:15-21 | the starting board is balanced: X is level with O |
| Moves.BalancedPreserved | projects/tic-tac-toe/tictactoe.py:58-70 | every move keeps a board balanced (X level with O or one ahead) and hands the turn to the other side |
| Moves.Actions | projects/tic-tac-toe/tictactoe.py:44-55 | `None` exactly on a terminal board; otherwise exactly the set of empty positions, which is non-empty and has nine minus the number of marks as its size |
| Outcome.ScanFrom | projects/tic-tac-toe/tictactoe.py:77-91 | the scan from line k on returns the common value of the first uniform line, empty cells included, and `Empty` when no remaining line is uniform |
| Outcome.Winner | projects/tic-tac-toe/tictactoe.py:73-91 | rows, then columns, then the main diagonal, then the anti-diagonal: the value of the first line whose three cells are equal (possibly `Empty`), or `Empty` when no line is uniform |
| Outcome.WinnerHoldsLine | projects/tic-tac-toe/tictactoe.py:73-91 | a winner X or O holds all three cells of some line |
| Outcome.FullNoEmpty | projects/tic-tac-toe/tictactoe.py:102-107 | a board has no empty cell exactly when its empty count is zero |
| Outcome.IsTerminal | projects/tic-tac-toe/tictactoe.py:94-107 | the cell loop with its early return is true exactly when the winner is X or O or no cell is empty |
| Outcome.Utility | projects/tic-tac-toe/tictactoe.py:110-121 | 1 exactly when the winner is X, 0 exactly when it is `None`, -1 exactly when it is O; always in -1..1 |
| Outcome.NonTerminalUtility | projects/tic-tac-toe/tictactoe.py:110-121 | a board that is not over has utility 0, the same as a draw |
| Outcome.NonTerminalHasEmpty | projects/tic-tac-toe/tictactoe.py:102-105 | a board that is not over has an empty cell, so its empty count is positive |
| Search.MaxVal | projects/tic-tac-toe/tictactoe.py:164-175 | the unpruned value for the maximiser: the utility on a terminal board, otherwise the largest minimiser value of a child; always in -1..1 |
| Search.MinVal | projects/tic-tac-toe/tictactoe.py:150-161 | the unpruned value for the minimiser; always in -1..1 |
| Search.MaxOver | projects/tic-tac-toe/tictactoe.py:169-171 | the maximum over the children from place k on is -Inf exactly when no empty cell remains from k on, and otherwise lies in -1..1 |
| Search.MinOver | projects/tic-tac-toe/tictactoe.py:155-157 | the minimum over the children from place k on is Inf exactly when no empty cell remains from k on |
| Search.MaxOverStep | projects/tic-tac-toe/tictactoe.py:170-171 | one place of the maximum is at least the rest of the scan and at least the child at that place |
| Search.MinOverStep | projects/tic-tac-toe/tictactoe.py:156-157 | one place of the minimum is at most the rest of the scan and at most the child at that place |
| Search.MaxOverBound | projects/tic-tac-toe/tictactoe.py:169-171 | the maximum from place k on is at least every child value it ranges over |
| Search.MaxOverAttained | projects/tic-tac-toe/tictactoe.py:169-171 | the maximum from place k on is -Inf or the value of one of its children |
| Search.MinOverBound | projects/tic-tac-toe/tictactoe.py:155-157 | the minimum from place k on is at most every child value it ranges over |
| Search.MinOverAttained | projects/tic-tac-toe/tictactoe.py:155-157 | the minimum from place k on is Inf or the value of one of its children |
| Search.MaxValAbove | projects/tic-tac-toe/tictactoe.py:169-171 | on a board that is not over, the maximiser's value is at least the minimiser's value of every child |
| Search.MaxValAttained | projects/tic-tac-toe/tictactoe.py:169-171 | on a board that is not over, the maximiser's value is the minimiser's value of some child |
| Search.MaxValChildren | projects/tic-tac-toe/tictactoe.py:164-175 | on a board that is not over, the maximiser's value is the maximum over the children |
| Search.MinValBelow | projects/tic-tac-toe/tictactoe.py:155-157 | on a board that is not over, the minimiser's value is at most the maximiser's value of every child |
| Search.MinValAttained | projects/tic-tac-toe/tictactoe.py:155-157 | on a board that is not over, the minimiser's value is the maximiser's value of some child |
| Search.MinValChildren | projects/tic-tac-toe/tictactoe.py:150-161 | on a board that is not over, the minimiser's value is the minimum over the children |
| Search.FailSoftWindow | projects/tic-tac-toe/tictactoe.py:150-175 | under the fail-soft relation, a true value strictly inside the window is returned exactly; a true value at or below alpha gives a result at or below alpha; one at or above beta gives a result at or above beta |
| Search.MaxScanStep | projects/tic-tac-toe/tictactoe.py:169-174 | one pass of `maxvalue`'s loop either reaches beta, and then the new `v` is the child's score and a lower bound of the child's true value, or keeps the scan invariant for one more child |
| Search.MinScanStep | projects/tic-tac-toe/tictactoe.py:155-160 | one pass of `minvalue`'s loop either reaches alpha, and then the score bounds the child's true value from above, or keeps the scan invariant |
| Search.MaxScanFinish | projects/tic-tac-toe/tictactoe.py:169-175 | a `maxvalue` loop that visits every child without a cut ends in -1..1 and in the fail-soft relation to the maximiser's value |
| Search.MinScanFinish | projects/tic-tac-toe/tictactoe.py:155-161 | a `minvalue` loop that visits every child without a cut ends in -1..1 and in the fail-soft relation to the minimiser's value |
| Search.MinOfChild | projects/tic-tac-toe/tictactoe.py:170 | scoring a child with `minvalue(result(board, act), alpha, beta)` gives a value in -1..1 that is fail-soft with respect to the child's minimiser value |
| Search.MaxOfChild | projects/tic-tac-toe/tictactoe.py:156 | scoring a child with `maxvalue(result(board, act), alpha, beta)` gives a value in -1..1 that is fail-soft with respect to the child's maximiser value |
| Search.MaxValue | projects/tic-tac-toe/tictactoe.py:164-175 | for any window with alpha < beta and any order of the moves: the utility on a terminal board, always in -1..1, and in the fail-soft relation to the unpruned value; the recursion ends because every move removes an empty cell |
| Search.MinValue | projects/tic-tac-toe/tictactoe.py:150-161 | the mirror image for the minimiser: the utility on a terminal board, in -1..1, and fail-soft with respect to the unpruned minimiser value |
| Search.FullWindowExact | projects/tic-tac-toe/tictactoe.py:128-129 | under the window (-inf, inf) the fail-soft score is the exact unpruned value |
| Search.MaxScore | projects/tic-tac-toe/tictactoe.py:138 | `max(amax.values())` is one of the values and no smaller than any |
| Search.MinScore | projects/tic-tac-toe/tictactoe.py:144 | `min(amin.values())` is one of the values and no larger than any |
| Search.RootMaxIsMaxVal | projects/tic-tac-toe/tictactoe.py:135-139 | the largest root score X collects is the maximiser's value of the board |
| Search.RootMinIsMinVal | projects/tic-tac-toe/tictactoe.py:141-145 | the smallest root score O collects is the minimiser's value of the board |
| Search.ScoreMovesForX | projects/tic-tac-toe/tictactoe.py:135-137 | under a fresh full window for every root move, `amax` gets every empty position as a key, each mapped to the minimiser's value of its child |
| Search.ScoreMovesForO | projects/tic-tac-toe/tictactoe.py:141-143 | `amin` gets every empty position as a key, each mapped to the maximiser's value of its child |
| Search.Minimax | projects/tic-tac-toe/tictactoe.py:124-147 | `None` exactly on a terminal board; otherwise an empty position, which for X leads to a child whose value is the largest of all children and equals the board's maximiser value, and for O to the smallest, which equals the board's minimiser value |
| Scenarios.DrawnBoardIsDraw | projects/tic-tac-toe/tictactoe.py:73-121 | the full board X O X / X O O / O X X has no winner, is over and is worth 0 |
| Scenarios.FullBoardRejectsAll | projects/tic-tac-toe/tictactoe.py:62-67 | on a full board every action, whatever its coordinates, is rejected |
| Scenarios.EmptyLineHidesWin | projects/tic-tac-toe/tictactoe.py:77-79 | with the top row empty and X holding the middle row, the scan stops at the top row: no winner, not over, utility 0 |
| Scenarios.HiddenWinOToMove | projects/tic-tac-toe/tictactoe.py:38-41 | on that board, with three X against two O, O is to move |
| Scenarios.TopRowThreatOToMove | projects/tic-tac-toe/tictactoe.py:38-41 | with X on (0,0) and (0,1) and O on (1,0), O is to move |
| Scenarios.TopRowThreatBlocked | projects/tic-tac-toe/tictactoe.py:58-70 | the move at (0,2) on that board is legal, places an O, and leaves a board with no winner that is not over |

## Left out

- `projects/shopping/shopping.py` is not part of this model. It is CSV input, command-line plumbing and a wrapper around a machine-learning library, with floating-point results.
- `random.choice` at lines 139 and 145 is a nondeterministic pick. The model says which moves may be picked, not which one is.
- `float("inf")` is the integer 2 (and -2). Only the order between the sentinels and the values -1..1 matters.
- `result` checks whether the cell is occupied before it checks the coordinates (lines 62-66). In Python, a row of 3 then raises `IndexError`, and -1 wraps around before the range test rejects it. The model has one error outcome for every occupied or out-of-range action.
- Moves are visited in an arbitrary order, standing in for Python's set and dictionary order. The model captures no particular order, and so says nothing about how many nodes pruning saves.
- Search.MaxValue: requires alpha < beta. Every call in the engine satisfies this: the root uses (-inf, inf), and the loop stops before alpha reaches beta.
- Search.MinValue: requires alpha < beta, for the same reason.
- Two properties need the full game tree from the empty board or a nearly empty one: that optimal play from the empty board ends in a draw, and the value of the board where O holds (0,0) and (1,1) against X on (2,2). They are not proved.
