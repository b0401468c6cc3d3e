# Connect-4 search engine, modelled in Dafny

This project models the decision engine of a Connect-4 player, `src/minimax.js`. The engine has four parts:

- `heuristic` is a static evaluator. It adds `i^5 * (numLines(i, max) - numLines(i, min))` for every line length `i` from the win threshold down to 2.
- `minimax` is a depth-bounded adversarial search. It folds child values with max or min, seeded with ±10 000 000.
- `minimaxAlphaBetaWrapper` wraps an inner `minimaxAB`. The inner function folds over the children with a pruning test. It starts from `alpha = -100000` and `beta = 100000` and updates them inside the `reduce` callback. Below its own node it calls plain `minimax`, so pruning happens at that one node only.
- `makeMove` scores every legal move with the wrapper at depth 4, using the player to move as maximizer. It keeps the first move with the strictly greatest score.

The board object is reduced to an immutable game tree `Game.Pos`. A position holds:

- the player to move;
- the win threshold;
- the line counts `lines(len, player)`;
- the successor positions;
- the legal columns.

`children[i]` is the position reached by playing `moves[i]`.

Modules, one per component:

- `Game`: players and positions.
- `Evaluation`: the heuristic.
- `Folds`: the two `reduce` callbacks and their folds.
- `Search`: minimax.
- `AlphaBeta`: the wrapper, and the fold that threads `(best, alpha, beta)`.
- `MoveSelection`: `makeMove`.

The alpha-beta fold also counts how many children have been examined, meaning how many had `minimax` called on them. This makes it possible to say which children the source would evaluate. Child values are computed as a sequence. Since `minimax` is pure, the value returned is the same as the source's lazy evaluation.

## Quirks of the code

- `makeMove` scores moves with the wrapper at src/minimax.js:60, in place of the commented-out `minimax` call at src/minimax.js:59, so the two are meant to agree. They agree only when every child value at the root lies in [-100000, 100000] (`AlphaBeta.AlphaBetaAgreesWithMinimax`).
  - The wrapper cuts off only at the node it is called on, once the best value so far leaves that window. It then returns that value.
  - Outside the window the result is only a one-sided bound (`AlphaBeta.AlphaBetaMaxNode`, `AlphaBeta.AlphaBetaMinNode`).
  - `AlphaBeta.AlphaBetaCutoffExample` is a tree on which the two differ.
  - On a 7x6 board with 4 in a row, every evaluation within the lookahead stays within ±29652, so the cutoff cannot fire there. This assumes each player owns at most 84/len lines of length len. `AlphaBeta.ConnectFourAlphaBetaAgrees` and `MoveSelection.ConnectFourPruningKeepsMoveChoice` prove it.
- The comments at src/minimax.js:175-181 call the starting alpha "a very low number" and beta "a very high value". Line 214 starts them at ±100000, while the fold seeds at lines 151 and 158 are ±10 000 000.
- With the `i^5` weights, eight lines of length 2 outweigh one line of length 3 when the win length is 4 (`Evaluation.ShortLinesCanOutweigh`).

## Model

| member | source | states |
|---|---|---|
| Evaluation.HeuristicAntisymmetric | src/minimax.js:100-112 | the evaluation from one player's side is the negation of the evaluation from the other's |
| Evaluation.HeuristicBalancedIsZero | src/minimax.js:106-115 | a position where both players own equally many lines of every length from 2 to the threshold scores 0; this includes every threshold below 2, where the loop never runs |
| Evaluation.HeuristicNoLinesIsZero | src/minimax.js:106-112 | a position with no lines of any counted length (an empty board) scores 0 |
| Evaluation.HeuristicFrame | src/minimax.js:107-111 | two positions with the same threshold and the same counts for lengths 2 to the threshold score the same; counts of length 1 and above the threshold never matter |
| Evaluation.WeightIncreasing | src/minimax.js:108 | the weight `i^5` is positive and strictly increasing on lengths from 2 upwards |
| Evaluation.HeuristicMonotone | src/minimax.js:107-111 | more lines for the maximizer and fewer for the minimizer, length by length, never lower the score |
| Evaluation.ConnectFourEvaluationBound | src/minimax.js:106-112 | with threshold 4 and at most 84/len lines of length len per player, the score lies in [-29652, 29652] |
| Evaluation.ShortLinesCanOutweigh | src/minimax.js:107-112 | a position with one X line of length 3 and eight O lines of length 2 scores negative for X |
| Folds.FoldMax | src/minimax.js:148-151 | the max-reduce returns a value that is at least the seed and every child value, and is the seed or one of the child values |
| Folds.FoldMin | src/minimax.js:155-158 | the min-reduce returns a value that is at most the seed and every child value, and is the seed or one of the child values |
| Folds.FoldMaxNegated | src/minimax.js:147-161 | the max-reduce over negated values from the negated seed is the negation of the min-reduce; it follows from the two fold contracts alone |
| Search.MinimaxAtHorizon | src/minimax.js:141-145 | at depth 0, or with no successors, minimax is the evaluation |
| Search.MinimaxMaxNode | src/minimax.js:147-153 | when the maximizer moves and all child values exceed -10000000, minimax is at least every child value and equals one of them |
| Search.MinimaxMinNode | src/minimax.js:154-161 | when the other player moves and all child values are below 10000000, minimax is at most every child value and equals one of them |
| Search.MinimaxAntisymmetric | src/minimax.js:139-162 | searching with the other player as maximizer negates the value |
| Search.MinimaxWithin | src/minimax.js:139-162 | if every evaluation within the searched tree lies in [-k, k] with k below the seeds, so does the minimax value |
| AlphaBeta.MaxNodeFoldClosed | src/minimax.js:192-194 | once alpha exceeds beta at a maximizing node, every later callback returns the accumulator and examines nothing |
| AlphaBeta.MinNodeFoldClosed | src/minimax.js:202-204 | once alpha exceeds beta at a minimizing node, every later callback returns the accumulator and examines nothing |
| AlphaBeta.MaxNodeFoldPrefix | src/minimax.js:192-198 | the pruned max-fold examines a prefix of the children, returns the max-fold of that prefix, and stops early only when the window has closed |
| AlphaBeta.MinNodeFoldPrefix | src/minimax.js:202-208 | the pruned min-fold examines a prefix of the children, returns the min-fold of that prefix, and stops early only when the window has closed |
| AlphaBeta.MaxNodeFoldMirrorsMin | src/minimax.js:192-208 | the maximizing callback fold over negated values, from the window with values negated and alpha and beta swapped, examines the same children as the minimizing fold and returns the negated value |
| AlphaBeta.AlphaBetaAntisymmetric | src/minimax.js:168-214 | the wrapper with the other player as maximizer returns the negated value, because the root window and the seeds are symmetric |
| AlphaBeta.AlphaBetaAtHorizon | src/minimax.js:185-189 | the wrapper has the same base cases as minimax: the evaluation |
| AlphaBeta.AlphaBetaMaxNode | src/minimax.js:191-214 | at a maximizing root the wrapper examines the first child, returns the best examined value, never exceeds minimax, and differs from it only after a cutoff that returned an examined child value above 100000 |
| AlphaBeta.AlphaBetaMinNode | src/minimax.js:201-214 | at a minimizing root the wrapper examines the first child, returns the least examined value, never falls below minimax, and differs from it only after a cutoff that returned an examined child value below -100000 |
| AlphaBeta.AlphaBetaAgreesWithMinimax | src/minimax.js:183-214 | if every child's minimax value lies in [-100000, 100000], the wrapper returns exactly the minimax value |
| AlphaBeta.AlphaBetaAgreesOnBoundedTree | src/minimax.js:168-214 | if every position within the search depth evaluates inside [-100000, 100000], the wrapper returns exactly the minimax value |
| AlphaBeta.AlphaBetaCutoffExample | src/minimax.js:192-198 | a maximizing root with leaves worth 200000 and 300000 gets 200000 from the wrapper and 300000 from minimax |
| AlphaBeta.ConnectFourTreeWithinRootWindow | src/minimax.js:106-112 | if every position within the search depth has 4 in a row and at most 84/len lines of length len per player, every evaluation there lies in [-100000, 100000] |
| AlphaBeta.ConnectFourAlphaBetaAgrees | src/minimax.js:168-214 | on such a Connect-4 tree the wrapper returns exactly the minimax value |
| MoveSelection.ConnectFourPruningKeepsMoveChoice | src/minimax.js:59-60 | on a Connect-4 board meeting the line-count bound, scoring moves with the wrapper or with minimax gives the same scores |
| MoveSelection.PruningKeepsMoveChoice | src/minimax.js:59-60 | when all evaluations within the lookahead lie in [-100000, 100000], scoring moves with the wrapper or with minimax gives the same scores |
| MoveSelection.FirstBestUnique | src/minimax.js:62-65 | at most one index is the first greatest score, so the chosen move is determined by the scores |
| MoveSelection.MakeMove | src/minimax.js:21-70 | for a position with legal moves, returns the legal column whose wrapper score at depth 4, with the mover as maximizer, is greatest, taking the earliest on a tie |

## Left out

- Board mechanics: piece dropping, win and draw detection, and how `numLines`, `nextStates`, `legalMoves` and `move` are computed. The board is external to the engine; the model takes their results as fields of `Game.Pos`.
- The server and UI that call `makeMove`, and the commented-out logging.
- The unused `newState` in `makeMove` and the unused `linesOfLengthTwoForX` in `heuristic`. Both are dead pure computations.
- `makeMove` on a position with no legal moves. There the source first calls `state.move(allLegalMoves[0])` at src/minimax.js:40, which is `state.move(undefined)`. It then returns `undefined`, provided the board's `move` accepts an undefined column. The model requires at least one legal move.
- JavaScript coercions:
  - `stateValue > null` on the first iteration is modelled as "no best move yet" with an `Option`.
  - `==` and `===` on the depth are both modelled by a `nat` depth.
  - A perspective other than 'x' or 'o' cannot be expressed: `Player` has two values.
- JavaScript numbers are doubles. The model uses unbounded integers, which agree with doubles as long as values stay below 2^53. The values here are far below that.
- How many positions each search visits. The model keeps only the count of root children the wrapper examines.
