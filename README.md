# Minimax engine for a draughts-like game, in Dafny

This project models the search engine of `p3.py`. The game is played on a rectangular grid whose cells hold
`0` (empty), `1` or `-1`. A piece of player `p` moves one row forward, to row `row + p`. It moves straight
ahead only onto an empty cell. It moves one column to either side only onto an enemy piece, and only when
the target column lies strictly between the first and the last column, so the two outer columns can never
be captured into. The piece then overwrites whatever stood on its target. The engine has five parts, each
modelled here:

- the move generator `possible_moves`, in `movegen.dfy` (module `MoveGen`);
- the terminal test `game_over`, in `movegen.dfy` and `search.dfy`;
- the evaluator `evaluate`, in `evaluation.dfy` (module `Evaluation`): the number of `1` pieces on the last
  row minus the number of `-1` pieces on row 0;
- the state transition `apply_move`, in `board.dfy` (module `Board`);
- the recursive `minimax`, in `search.dfy` (module `Search`), where player `1` maximises, player `-1`
  minimises, and a move replaces the running best only when it is strictly better.

The board is a two-dimensional array (`array2<int>`) in the methods, which follow the loops of the program:
`PossibleMoves`, `Evaluate`, `ApplyMove`, `CopyBoard` and `MinimaxSearch`. Each method is proved equal to a
specification function on the board's value `View(a): seq<seq<int>>`. The functions are `Moves`, `Score`,
`Applied` and `Minimax`, and the lemmas state the properties of the game on them.

Two stand-ins replace the program's `math.inf`:
- The running best starts from a sentinel outside `[-columns, columns]`, the range of every score
  (`Initial`).
- The search depth is `Depth = Unlimited | Limited(n)`, with `Next(Unlimited) == Unlimited` mirroring
  `inf - 1 == inf`.

With `Unlimited` depth, the search ends because every generated move strictly lowers `Measure`. `Measure`
sums `rows - 1 - row` over the pieces of `1` and `row` over the pieces of `-1`. It is the `decreases` clause
of both `Minimax` and `MinimaxSearch`.

`MinimaxSearch` has no `modifies` clause, so it provably leaves the caller's board untouched. Each child is
searched on a fresh copy made by `CopyBoard`.

## Model

| member | source | states |
|---|---|---|
| Board.Applied | p3.py:51-55 | the board after a move has the same shape, and a rectangular board stays rectangular with the same number of columns |
| Board.Set | p3.py:54-55 | one overwrite of `apply_move`: the board keeps its shape, the cell holds the new value, and every other cell is unchanged |
| Board.AppliedFrame | p3.py:54-55 | after a move the source cell is 0, the destination holds the source's old value (unless both are the same cell), and every other cell is unchanged |
| Board.ApplyMove | p3.py:51-55 | updating the array in place clears the source, copies the old source value to the destination, leaves every other cell alone, and the array's new value is `Applied` of its old value |
| Board.CopyBoard | p3.py:89 | the copy is a fresh array of the same dimensions holding the same cells |
| Board.GridSumUpdate | p3.py:54-55 | overwriting one cell changes a per-cell weighted sum over the board (a piece count, the advancement measure) by exactly the difference of the old and new cell's weights |
| Board.CountIsMultiplicity | p3.py:42-47 | the counting sum over a row equals the number of occurrences of the value in that row |
| Board.CountBounds | p3.py:42-47 | a row holds between zero and all of its cells' worth of a value |
| Board.Measure | p3.py:16-21 | the remaining advancement: over the pieces of 1 the rows left below them, plus over the pieces of -1 the rows left above them; never negative |
| MoveGen.StraightMove | p3.py:23-24 | the straight move of a piece, present only when the cell one row ahead in the same column is empty |
| MoveGen.DiagonalMove | p3.py:26-32 | a diagonal move of a piece to a column, present only when that column lies strictly between the first and the last column and the cell one row ahead in it holds an enemy piece |
| MoveGen.PieceMoves | p3.py:12-32 | one piece yields at most three moves, in the order straight, right diagonal, left diagonal, each starting on that piece and each legal by the movement rule |
| MoveGen.AppendPieceMoves | p3.py:23-32 | the inner branch appends exactly the moves of that piece, in order, to the list built so far |
| MoveGen.PossibleMoves | p3.py:6-33 | the nested row and column scan returns exactly `Moves` of the board |
| MoveGen.Moves | p3.py:6-33 | `possible_moves` as a value: the moves of each piece, scanned row by row and column by column; its properties are `MovesExactlyLegal` and `MovesOrdered` |
| MoveGen.MovesExactlyLegal | p3.py:6-33 | a move is generated if and only if it satisfies the movement rule `Legal` (one row forward, straight onto an empty cell, diagonal onto an enemy in an interior column) |
| MoveGen.MovesLegal | p3.py:12-32 | every generated move starts on a piece of the player, ends one row forward on the board, and obeys the straight and diagonal conditions |
| MoveGen.MovesOrdered | p3.py:10-32 | generated moves come in row-major order of their source cell, and for one piece straight before right before left |
| MoveGen.NoMoveOffTheBoard | p3.py:16-21 | a piece whose forward row is off the board, such as a piece on its last row, yields no move |
| MoveGen.GameOver | p3.py:36-37 | `game_over` as a value: the generator returns no move; its property is `GameOverIff` |
| MoveGen.GameOverIff | p3.py:36-37 | the game is over for a player exactly when no move of that player is legal |
| MoveGen.MovePieceCounts | p3.py:51-55 | a generated move keeps the mover's piece count and lowers the enemy's by one exactly when it is diagonal |
| MoveGen.MeasureDecreases | p3.py:51-55 | every generated move strictly lowers the remaining advancement of all pieces |
| MoveGen.CaptureLosesAPiece | p3.py:54-55 | on a concrete board, a legal capture turns two pieces into one, so the total piece count is not preserved |
| Evaluation.Score | p3.py:40-48 | the evaluation lies between minus the number of columns and the number of columns |
| Evaluation.ScoreIsCountDifference | p3.py:40-48 | the evaluation is the multiplicity of 1 in the last row minus the multiplicity of -1 in row 0 |
| Evaluation.ScoreReadsEdgeRowsOnly | p3.py:42-47 | two boards that agree on their first and last rows evaluate the same |
| Evaluation.ScoreSet | p3.py:42-47 | overwriting a cell changes the evaluation only when the cell lies on the first or the last row, by the change in its count there |
| Evaluation.ScoreAfterMove | p3.py:40-55 | a generated move raises the evaluation by one when a 1 reaches the last row, lowers it by one when a -1 reaches row 0, and leaves it unchanged otherwise, captures included |
| Evaluation.Evaluate | p3.py:40-48 | the two counting loops return `Score` of the board |
| Search.Next | p3.py:91 | one ply deeper keeps an unlimited depth unlimited and lowers a limited depth by one |
| Search.Initial | p3.py:79-82 | the starting best score lies below every score for player 1 and above every score for player -1 |
| Search.Improves | p3.py:94-99 | the strict comparison of the loop: a greater score for player 1, a smaller score for player -1 |
| Search.Terminal | p3.py:84 | the leaf test of `minimax`: depth 0, or the game is over for the player |
| Search.Choose | p3.py:88-100 | the loop's result is either its starting best or a generated move whose score is strictly better than the starting best |
| Search.ChooseStep | p3.py:94-99 | the step equation used by the loop invariant of `SearchMoves`: the fold over one more move takes that move exactly when its score is strictly better |
| Search.ChooseFirstBest | p3.py:94-99 | the loop either keeps its starting best, when no score beats it, or ends on a move no other move beats and every earlier move strictly loses to |
| Search.Minimax | p3.py:78-100 | the score lies in `[-columns, columns]`; no move is returned exactly at depth 0 or when the game is over, and then the score is the evaluation; otherwise the move is a legal generated move |
| Search.ChildScores | p3.py:88-91 | every move gets one searched score, within `[-columns, columns]` |
| Search.ChildScore | p3.py:89-91 | the searched score of the position after a move lies in `[-columns, columns]` |
| Search.MinimaxChoosesFirstBest | p3.py:88-100 | away from a terminal position the result is the first best move, with its score: no generated move scores strictly better for the player, and every move generated before it scores strictly worse |
| Search.IsGameOver | p3.py:36-37 | the test runs the generator and answers `GameOver` |
| Search.MinimaxSearch | p3.py:78-100 | the recursive search over arrays returns exactly `Minimax` of the board, without modifying the board |
| Search.SearchMoves | p3.py:88-100 | the loop over the generated moves returns the fold `Choose` of their searched scores from the starting sentinel |
| Search.SearchChild | p3.py:89-92 | searching a copy after a move returns that move with its searched score |
| Search.PlayTurn | p3.py:110-115 | a turn of play searches with unlimited depth for player 1, obtains a move, and leaves the board as `Applied` of that move |
| Search.HomePieceCannotMove | p3.py:84-86 | on `[[0,-1,0],[0,0,0],[0,1,0]]` player 1's only piece is already home, so the search returns no move and score 0 |
| Search.OnlyMoveOnSecondRow | p3.py:23-32 | on `[[0,0,0],[0,1,0],[0,0,0]]` player 1's one legal move is `(1,1)->(2,1)` |
| Search.AdvanceHomeChildScore | p3.py:89-91 | on that board, after `(1,1)->(2,1)` player -1 has no piece, so the child search stops at any depth and the position is worth 1 |
| Search.AdvanceHomeScores | p3.py:78-100 | on that board, a search of any depth but 0 returns the move `(1,1)->(2,1)` with score 1 |
| Search.AdvanceHomeUnlimited | p3.py:110 | on that board, the unlimited-depth search of a turn returns the move `(1,1)->(2,1)` with score 1 |

## Left out

- `from_csv`, `to_csv`, `main` and `stats` are left out: CSV parsing and writing, command-line handling,
  file output and printing are input/output. Of `main`, only the search and the move it plays
  (`PlayTurn`) are modelled.
- Floating-point `math.inf` is not modelled. The starting best is an integer sentinel just outside the score
  range, and the depth is the `Depth` datatype.
- Search.Depth: a negative or fractional depth is not modelled. The program's only caller passes infinity.
- Search.Minimax: players other than `1` and `-1` are excluded by a precondition, as are boards without rows.
  The program reads `state[0]` and would fail on an empty board.
- Search.PlayTurn: requires that player 1 has a move. Applying the empty move of a terminal root makes the
  program fail, so that case is a precondition rather than behaviour.
- Boards are rectangular by construction (a two-dimensional array). Ragged lists are not modelled.
- Search.MinimaxSearch: the program's search results are three-element lists. A child's list is relabelled in
  place with the move and then kept as the running best. The model uses immutable `Result` values, which give
  the same values because no list is shared after relabelling.

## Two consequences of the code worth knowing

- A diagonal capture overwrites the enemy piece, so the total piece count drops by one
  (`MoveGen.MovePieceCounts`, `MoveGen.CaptureLosesAPiece`).
- On `[[0,-1,0],[0,0,0],[0,1,0]]` player 1's only piece is already on the last row, so it has no move, and the
  search returns score 0 with no move (`Search.HomePieceCannotMove`).
