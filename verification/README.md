# Game-tree search: minimax, alpha-beta and stochastic sampling

A Dafny model of the adversarial search core of a two-player chess game
(`search.py`). The core has four parts:

- `generateMoves`, which lists every move of the side to move as
  `[from, to, promote]` triples;
- `minimax`, a full-width search to a fixed depth;
- `alphabeta`, the same search with an `(alpha, beta)` window that prunes
  sibling moves;
- `stochastic` with `stochastic_helper`, which searches the first ply
  exhaustively and scores each first move by the mean of `breadth`
  continuations drawn by a chooser.

Each search returns `(value, moveList, moveTree)`. The move tree maps each
move token looked at to the tree explored below it.

The chess library is seen only through its services. These are the fields
of `Game.Rules`: the side's pieces (`board[side]`), a piece's square
(`piece[:2]`), `availableMoves`, `getPromote`, `makeMove` and `evaluate`.
Nothing is assumed about them except that they are functions. Boards,
flags, pieces, squares and promotion kinds are opaque types.

Modelling choices:

- `Values`: `Min` is the source's `True` (player 1, minimises) and `Max` is
  `False`. `math.inf` and `-math.inf` are the `PosInf` and `NegInf` of an
  extended value. Evaluations are exact reals.
- The move token `encode(*move)` is taken to be a bijection, so each move
  is its own token. A tree is `Node(kids: map<Move, MoveTree>)`.
- The searches are pure. Each child is searched once and its result is
  reused for the tree, the comparison and the move list. The source repeats
  the identical recursive call to get each field.
- The chooser is a deterministic oracle `choose(k, ms)`: the move that the
  `k`-th chooser call of the search draws from `ms`. The draw count is
  threaded through the search, so successive draws may differ, as
  successive `random.choice` calls do.
- The stochastic move list `[move, subMove, helperMoveList]` is the nested
  `Path` `Then(move, Then(subMove, helperPath))`. The helper's
  `[move, newMoveList]` is `Then(move, newPath)`.

## Model

| member | source | states |
|---|---|---|
| Values.MinOf | search.py:111 | `min(beta, value)` is no larger than either argument and is one of them |
| Values.MaxOf | search.py:125 | `max(alpha, value)` is no smaller than either argument and is one of them |
| Game.PiecesMovesExact | search.py:11-16 | the generated list has one move per (piece, reachable destination) pair; a move is in it exactly when some piece of the side reaches its destination from its square, with the promotion the library assigns |
| Game.MovesToIndex | search.py:13-16 | the `i`-th move generated for a piece goes from the piece's square to its `i`-th reachable destination, with the promotion the library assigns |
| Game.GenerateMovesExact | search.py:11-16 | `generateMoves` yields exactly the moves of the side to move, and as many as the pieces have destinations in total |
| Game.EnumeratePieceMoves | search.py:14-16 | the inner loop appends one `[fro, to, promote]` per destination of the piece, in the library's order |
| Game.EnumerateMoves | search.py:11-16 | the nested loops yield the same sequence as the piece-by-piece, destination-by-destination enumeration the searches use |
| Search.Consider | search.py:61-64 | the running best changes exactly when the child's value is strictly better, and then becomes that value, that move and the child's move list; afterwards no child value beats it, and a value and move are known |
| Minimax.Minimax | search.py:48-79 | the move list is empty exactly at depth 0 or at a position without moves |
| Minimax.Scan | search.py:57-65 | after at least one move the running value is finite and a best move is known, so `decode(bestMove)` never sees `None` |
| Minimax.ScanTree | search.py:58-60 | the loop adds exactly one tree entry per move, holding that move's child tree, and keeps earlier entries |
| Minimax.ScanBound | search.py:58-64 | after the loop no child value beats the running best, and the best is no worse than where the loop started |
| Minimax.ScanWitness | search.py:58-64 | the loop's best is its start or was adopted from the first move whose child reached it, every earlier child being strictly worse |
| Minimax.MinimaxLeaf | search.py:50-51 | at depth 0, or with no moves, the result is `(evaluate(board), [], {})` |
| Minimax.MinimaxChoice | search.py:53-79 | the minimiser returns the smallest child value and the maximiser the largest; the chosen move is the first that reaches it; the move list is that move then its child's move list |
| Minimax.MinimaxTree | search.py:57-74 | the tree has exactly one key per enumerated move, chosen or not, each holding the child's full tree; it is empty at depth 0 |
| Minimax.MinimaxLine | search.py:65-79 | the move list has at most `depth` moves and is shorter only when it ends at a position with no moves; the value is `evaluate` of the board it reaches |
| AlphaBeta.AlphaBeta | search.py:82-128 | for every window the move list is empty exactly at depth 0 or at a position without moves |
| AlphaBeta.Scan | search.py:104-127 | the loop settles on a finite value and a best move once it takes a move; the bound the node does not tighten is never changed |
| AlphaBeta.AlphaBetaLeaf | search.py:98-99 | at depth 0, or with no moves, the result is `(evaluate(board), [], {})` for every window |
| AlphaBeta.ScanPrefix | search.py:104-127 | the loop takes a non-empty prefix of the moves; its tree holds exactly that prefix; it stops early only after the `break` test held, and after every shorter prefix it had taken all of those moves without the test holding, so it stops at the first move meeting the test |
| AlphaBeta.AlphaBetaPrefix | search.py:104-127 | the tree keys are the first `k >= 1` enumerated moves; if `k` is short of all moves, the returned value is `<= alpha` (minimiser) or `>= beta` (maximiser); no shorter prefix of the enumeration met that `break` test, so the loop stops at the first move that does |
| AlphaBeta.AlphaBetaRootFull | search.py:82 | with the default window `(-inf, inf)` the root takes every enumerated move |
| AlphaBeta.ScanWithin | search.py:106-120 | every tree entry the loop adds is a subtree of the exhaustive search's tree for that move |
| AlphaBeta.AlphaBetaWithin | search.py:82-128 | for every window the pruned tree is a subtree of minimax's tree at every level |
| AlphaBeta.TracksStep | search.py:104-127 | one loop step that does not break keeps the pruned running best and the tightened bound in step with the exhaustive running best |
| AlphaBeta.CutoffAgrees | search.py:111-127 | when the loop breaks, the pruned value has crossed the same bound as the exhaustive value will |
| AlphaBeta.ScanTracks | search.py:104-127 | a loop started in step with the exhaustive loop ends with a value that is `<= a` when the exhaustive best is, `>= b` when it is, and the same best (value, move, line) when the exhaustive best lies strictly inside `(a, b)` |
| AlphaBeta.AlphaBetaWindow | search.py:82-128 | for an open window `(a, b)`: the pruned value is `<= a` when the minimax value is, `>= b` when it is, and equal (same move list too) when the minimax value lies strictly inside |
| AlphaBeta.AlphaBetaIsMinimax | search.py:82-87 | with the default window the result has minimax's value and move list |
| AlphaBeta.LeafTestFinding | search.py:98 | with the written test applied at every node, a position without moves searched at depth > 0 fails while the corrected search returns its leaf; the failure reaches the parent whose first move leads there; wherever the written search returns, it returns the corrected result |
| AlphaBeta.AsWrittenAgrees | search.py:82-128 | at every depth and window, a result of the search as written equals the corrected search's result |
| Stochastic.HelperWalk | search.py:181-195 | the helper's move list is at most `depth` moves, shorter only at a position with no moves; its value is `evaluate` after those moves; its tree is that single line; one draw per ply |
| Stochastic.Helper | search.py:181-195 | the helper makes at most one draw per ply, and its move list is empty exactly at depth 0 or at a position without moves |
| Stochastic.HelperDrawn | search.py:186-190 | every helper move is the chooser's pick from the moves of the position reached, one draw per ply, never from an empty list |
| Stochastic.DrawnLegal | search.py:188 | with a chooser that returns members, every drawn move is a move of the position it is played from |
| Stochastic.DrawIsHelperPly | search.py:161-166 | one sample (draw a reply, play it, run the helper for `depth - 2` plies) appends the value, gives the move list and uses the draws of one helper run for `depth - 1` plies from the first move's position |
| Stochastic.Draw | search.py:161-167 | one pass of the sampling loop appends exactly one value |
| Stochastic.Sample | search.py:161-167 | the sampling loop collects exactly `breadth` values |
| Stochastic.DrawLine | search.py:162-165 | each sample's move list is the first move followed by a complete line of `depth - 1` plies |
| Stochastic.SampleLine | search.py:161-165 | after at least one sample, `moveList` is the first move followed by a complete line of `depth - 1` plies |
| Stochastic.SampleLast | search.py:161-167 | after `n > 0` samples, `moveList` is the first move followed by the line of the last of `n` successive helper runs, and the draw count is where that run stopped |
| Stochastic.SampleRuns | search.py:161-166 | the sampling loop appends the values of successive helper runs of `depth - 1` plies from the first move's position, each starting at the draw where the previous one stopped |
| Stochastic.DrawKeys | search.py:162-167 | one sample keeps the earlier keys of `moveTree_sub` and adds exactly the drawn reply; the reply with the subtree recorded under it is the tree of one helper run of `depth - 1` plies |
| Stochastic.SampleKeys | search.py:160-168 | each sample adds at most one key to the first move's subtree |
| Stochastic.SumBounds | search.py:170 | element bounds bound `sum(values)` by `len(values)` times the bounds |
| Stochastic.MeanBetween | search.py:170 | `sum(values)/len(values)` lies between any lower and upper bound of the values |
| Stochastic.MeanWithin | search.py:170 | `sum(values)/len(values)` lies between the smallest and the largest value (`Least` and `Greatest`, which the source does not compute, name those bounds) |
| Stochastic.TrialLine | search.py:155-165 | the move list left by a first move's samples is a complete line of `depth` plies starting with that move |
| Stochastic.TrialSampled | search.py:155-170 | a first move's `mean_val` is the mean of `breadth` successive helper runs of `depth - 1` plies below it, and lies between their smallest and largest value |
| Stochastic.Pass | search.py:168-178 | one pass of the root loop adds one score; it records the samples' subtree under the move and leaves every other entry of the tree unchanged |
| Stochastic.PassAdopts | search.py:170-178 | a pass appends the mean as the move's score; the best and `moveLists` change exactly when the mean is strictly better, and then become the mean and that move's `moveList` |
| Stochastic.Root | search.py:154-178 | the root loop scores every first move and gives each one a tree key |
| Stochastic.Adopt | search.py:171-178 | `min(mean, best)` (or `max`) differs from `best` exactly when the mean is strictly better, and then it is the mean |
| Stochastic.ChosenPass | search.py:154-178 | one pass of the root loop keeps the running best the extreme score so far, adopted from the first move reaching it, with the move list that move's samples left when drawn from where the earlier moves' samples stopped; the draw count is the one all samples so far leave |
| Stochastic.ChosenAdopt | search.py:170-178 | a strictly better mean becomes the best, the move list becomes the one the current move's samples left from the current draw, and the current move is the first one reaching the best |
| Stochastic.ChosenKeep | search.py:170-178 | a mean that is not strictly better keeps the best and the move list unchanged, and the move that reached the best first stays the same |
| Stochastic.RootChosen | search.py:154-178 | the root loop keeps the best as the extreme score, adopted from the first move reaching it, with the move list that move's samples left when drawn from where the earlier moves' samples stopped |
| Stochastic.StochasticChoice | search.py:130-179 | with no first move the result is `(±inf, [], {})` for any depth and breadth; otherwise the value is the min (or max) over the scores, the move list is the one left by the samples of the first move reaching it (later equal scores do not replace it), those samples drawn from the draw where the samples of the moves before it stopped, and the line is complete |
| Stochastic.Stochastic | search.py:130-179 | the tree has one key per first move; with no first move the result is `(±inf, [], {})` |
| Stochastic.RootKids | search.py:160-168 | each first move's subtree has at most `breadth` keys |
| Stochastic.StochasticTree | search.py:147-179 | one root key per first move; each subtree has at most `breadth` keys |
| Stochastic.RootScores | search.py:154-170 | each pass of the root loop scores its first move by the mean of `breadth` successive helper runs of `depth - 1` plies below it, the first starting where the earlier moves' samples stopped, lying between their smallest and largest value |
| Stochastic.ScoresPass | search.py:155-170 | one pass of the root loop scores its move by the mean of `breadth` successive helper runs of `depth - 1` plies below it, starting at the current draw, lying between their smallest and largest value; the draw count moves on to where those runs stopped |
| Stochastic.StochasticScores | search.py:154-170 | every first move's score is the mean of `breadth` successive helper runs of `depth - 1` plies below that move (each the evaluation at the end of its complete line, by `HelperWalk`), the first run starting at the draw where the samples of the moves before it stopped, and lies between the smallest and the largest of their values |

## Left out

- The chess library (`availableMoves`, `getPromote`, `makeMove`, `evaluate`, `encode`, `decode`) is foreign code. It is modelled only as the function fields of `Rules`, and each move is its own token.
- The example mover `random` is a demonstration with a `print`. It is not part of the search.
- True randomness: the chooser is a deterministic oracle indexed by the draw count.
- Floating point: values are exact reals, and `math.inf` is an extended-value sentinel.
- The repeated identical recursive calls are computed once. The code is pure, so the results are the same.
- A position with no moves fails in the source at a `minimax` or `alphabeta` node searched at depth > 0, where the search reaches `decode(None)`. It also fails below a stochastic first move, at the position a reply is drawn from (search.py:162) or a helper position at depth > 0 (search.py:188), where the chooser is called on an empty list. The model treats each such position as a leaf that evaluates its board, as the written test at search.py:98 evidently intended (see Findings). The stochastic root is different: without moves the source returns `(±inf, [], {})`, and so does the model (next line).
- Stochastic.Stochastic: requires `depth >= 2` and `breadth >= 1` only when the root has moves; without moves the source returns `(±inf, [], {})` for any depth and breadth, and so does the model. With a smaller depth the source passes a negative depth to the helper, which then never reaches 0. With `breadth == 0` the mean divides by zero.
- Stochastic.StochasticChoice: the move list nests one level differently. The source's `[move, subMove, helperList]` is `Then(move, Then(subMove, helperPath))`.
- AlphaBeta.AlphaBetaWithin: the count of visited nodes is not stated separately. It is bounded through the subtree inclusion.
- Idempotence of repeated calls is not stated as a lemma. Every search is a function of its inputs and the chooser.

## Findings

| source | as written | input that shows it | evidently intended | confidence | as-written member | corrected member |
|---|---|---|---|---|---|---|
| search.py:98 | `not (generateMoves(side, board, flags))` tests a generator object. A generator is always truthy, so only `depth == 0` reaches the leaf. | any position whose side has no moves, searched at depth 1: the loop adopts no move, and `decode(None)` fails at line 114 or 128 (`LeafTestFinding`) | a position without moves is a leaf `(evaluate(board), [], {})` (`AlphaBetaLeaf`) | high; not executed | AlphaBeta.AlphaBetaAsWritten | AlphaBeta.AlphaBeta |
