# why_functional: folds over trees, lazy game trees and tic-tac-toe in Dafny

This project models the core of `why_functional`, a Python rendering of the
ideas of "Why Functional Programming Matters". It has four parts, one Dafny
module per source file:

- `FoldTree` (`foldtree.dfy`, from `src/foldtree.py`) is the generic fold
  `foldtree(f, g, a, t)` over `(label, subtrees)` trees. On top of it are
  `sumtree`, `tree_labels`, `maptree`, `tree_size` and `tree_depth`. Each
  query is proved equal to an independent reference definition: the sum of
  the label list, the length of the label list, the mapped label list, and
  the maximum depth of the subtrees. The trees of the unit tests are
  evaluated as lemmas.
- `Game` (`game.dfy`, from `src/game.py`) covers `reptree`, `gametree` and
  `prune`. The Python trees are lazy and may be infinite: children are
  built only as a consumer advances an iterator. The model therefore
  describes what a consumer has seen of such a tree, as a finite value: a
  `View` whose nodes are either `Stub`s (children not yet demanded) or
  `Forced` (children listed). Every fact about the infinite tree is stated
  for each of its finite observations.
  - `RepTree(f, x, d)` is `reptree(f, x)` observed to depth `d`.
  - `Prune` works on views and never forces a stub.
  - `PrunedTree(f, x, n)` is the finite tree that `prune(n, reptree(f, x))`
    stands for.
  - The main lemma (`PruneRepTree`) says that, observed deeply enough,
    pruning the unfolded tree gives exactly that finite tree.
- `LazyUtils` (`lazy_utils.dfy`, from `src/lazy_utils.py`) covers the
  generators `repeat` and `within`. A generator is modelled by the finite part
  a consumer reads of it.
  - `Repeat` is a loop that produces the first `count` elements.
  - `Within` is a loop that reads a given prefix two elements at a time until
    it runs out.
  - Both are proved against recursive specification functions.
- `TicTacToe` (`tic_tac_toe.dfy`, from `src/tic_tac_toe.py`) covers the board
  (nine squares, `Empty` or `Mark(p)` for player 0 or 1), `init_board`,
  `make_move`, `moves`, the line extraction `board_line`/`board_lines`, and
  the heuristics `is_good_line`, `count_good_lines`, `static_eval_0` and
  `static_eval_1`.
  - `make_move` copies the board into a fresh array and writes one square.
  - `moves` is the successor function of the game tree. The model proves
    that a game tree of tic-tac-toe is finite, at most ten levels deep, and
    fully built by depth 9.

## Model

| member | source | states |
|---|---|---|
| FoldTree.FoldTree | src/foldtree.py:5-21 | `foldtree` on a `(label, subtrees)` tuple: `f` combines the label with the fold of the subtree list; its meaning is fixed by the lemmas below |
| FoldTree.FoldForest | src/foldtree.py:5-21 | `foldtree` on a list of subtrees: `a` for `[]`, otherwise `g` of the first tree's fold and the rest's fold |
| FoldTree.SumTree | src/foldtree.py:24-28 | `sumtree`, the fold with `+` and `+` from 0; `TreeSumIsLabelSum` states what it computes |
| FoldTree.TreeLabels | src/foldtree.py:31-40 | `tree_labels`; `TreeLabelsPreOrder` states what it computes |
| FoldTree.MapTree | src/foldtree.py:43-54 | `maptree`; `MapTreeNode`, `MapTreeLabels` and `MapTreeMeasures` state what it computes |
| FoldTree.TreeSize | src/foldtree.py:57-66 | `tree_size`; `TreeSizeIsLabelCount` states what it computes |
| FoldTree.TreeDepth | src/foldtree.py:69-77 | `tree_depth`; `TreeDepthNode` and `ForestDepthIsMax` state what it computes |
| FoldTree.ForestLabelsFlatten | src/foldtree.py:5-21 | folding a list of subtrees with the label combiners concatenates the label lists of the trees, first tree first |
| FoldTree.TreeLabelsPreOrder | src/foldtree.py:31-40 | `tree_labels` lists the root label first and then the labels of each subtree in order (pre-order); the list is never empty |
| FoldTree.TreeSumIsLabelSum | src/foldtree.py:24-28 | `sumtree` is the sum of the labels `tree_labels` lists |
| FoldTree.ForestSumIsLabelSum | src/foldtree.py:24-28 | the sum fold of a list of subtrees is the sum of all their labels |
| FoldTree.TreeSizeIsLabelCount | src/foldtree.py:57-66 | `tree_size` is the number of labels of the tree; a leaf has size 1 |
| FoldTree.ForestSizeIsLabelCount | src/foldtree.py:57-66 | the size fold of a list of subtrees counts all their labels |
| FoldTree.ForestDepthIsMax | src/foldtree.py:69-77 | the depth fold of a list of subtrees is 0 when it is empty and otherwise the depth of its deepest tree |
| FoldTree.ForestDepthBound | src/foldtree.py:69-77 | a bound on the depth of every tree of a list bounds the depth fold of the list |
| FoldTree.TreeDepthNode | src/foldtree.py:69-77 | `tree_depth` is 1 for a leaf and otherwise one more than the depth of some subtree and than the depth of every subtree |
| FoldTree.TreeDepthWithinSize | src/foldtree.py:57-77 | `1 <= tree_depth(t) <= tree_size(t)` |
| FoldTree.ForestDepthWithinSize | src/foldtree.py:57-77 | the depth fold of a list of subtrees lies between 0 and its size fold |
| FoldTree.MapTreeNode | src/foldtree.py:43-54 | `maptree` applies `func` to the root label and keeps one mapped subtree per subtree, in order |
| FoldTree.MapForestShape | src/foldtree.py:43-54 | mapping a list of subtrees keeps its length and maps each tree in place |
| FoldTree.MapTreeLabels | src/foldtree.py:43-54 | the labels of `maptree(func, t)` are `func` applied to the labels of `t`, in the same order |
| FoldTree.MapTreeMeasures | src/foldtree.py:43-77 | `maptree` keeps `tree_size` and `tree_depth` |
| FoldTree.MapForestMeasures | src/foldtree.py:43-77 | mapping a list of subtrees keeps its size and depth folds |
| FoldTree.MapTreeIdentity | src/foldtree.py:43-54 | mapping the identity gives back the tree |
| FoldTree.MapForestIdentity | src/foldtree.py:43-54 | mapping the identity over a list of subtrees gives back the list |
| FoldTree.SmallTreeQueries | src/test_foldtree.py:6-42 | on `my_tree`: labels `[1, 2, 3, 4]`, sum 10, size 4, depth 3, negated labels `[-1, -2, -3, -4]` |
| FoldTree.LargeTreeLabels | src/test_foldtree.py:3-16 | on `my_tree2` the labels are 1 to 11 in order |
| FoldTree.LargeTreeDepth | src/test_foldtree.py:35-44 | `my_tree2` is 5 levels deep |
| FoldTree.LargeTreeQueries | src/test_foldtree.py:9-32 | on `my_tree2`: sum 66, size 11, negated labels -1 to -11 |
| FoldTree.SmallDepths | src/test_foldtree.py:29-40 | a leaf has size 1 and depth 1; a node with one leaf has depth 2 |
| Game.RepTree | src/game.py:1-3 | `reptree(f, x)` observed to a depth; `RepTreeObserved` states what it is |
| Game.GameTree | src/game.py:6-10 | `gametree(moves, state)` is `reptree(moves, state)` |
| Game.Prune | src/game.py:13-18 | `prune(n, t)` on an observation; `PruneRepTree`, `PruneIsLazy`, `PruneTwice` and `PruneNegative` state what it does |
| Game.RepTreeObserved | src/game.py:1-3 | `reptree(f, x)` observed to depth `d` is rooted at `x`, has every node above level `d` forced with the successors of its label as children, in order, and nothing demanded below; it is the only such view |
| Game.RepTreeDemandMore | src/game.py:1-3 | demanding more levels of `reptree(f, x)` never changes what was already seen |
| Game.PruneNegative | src/game.py:13-18 | a negative depth never reaches the base case: every observation of the tree is returned unchanged |
| Game.PruneIsLazy | src/game.py:13-18 | pruning a partial observation gives a partial observation of the pruned tree, so `prune` demands no children itself |
| Game.PruneTwice | src/game.py:13-18 | pruning at `m` after pruning at `n` is pruning once at `min(m, n)` |
| Game.PruneRepTree | src/game.py:1-18 | observed at any depth `d >= n`, `prune(n, gametree(f, x))` is fully forced and is the finite tree `PrunedTree(f, x, n)` |
| Game.PrunedTreeUnfolds | src/game.py:1-18 | `PrunedTree(f, x, n)` is rooted at `x`, follows `f` down to depth `n` and stops there, and it is the only tree that does |
| Game.PrunedTreeSettles | src/game.py:1-18 | when every move lowers a measure `m`, pruning at any depth from `m(x)` on gives the same tree |
| Game.PrunedTreeDepthMeasure | src/game.py:1-18 | when every move lowers a measure `m`, the pruned tree is at most `m(x) + 1` levels deep |
| Game.PrunedTreeDepth | src/game.py:13-18 | `prune(n, reptree(f, x))` is between 1 and `n + 1` levels deep, and a single node at `n == 0` |
| Game.PrunedTreeDepthExact | src/game.py:13-18 | when every label has a successor, `prune(n, reptree(f, x))` is exactly `n + 1` levels deep |
| LazyUtils.Repeat | src/lazy_utils.py:4-10 | the first `count` values of `repeat(f, a)`; value `k` is `f` applied `k` times to `a` |
| LazyUtils.IterateShift | src/lazy_utils.py:4-10 | dropping the first value of `repeat(f, a)` leaves `repeat(f, f(a))` |
| LazyUtils.IterateSuccessor | src/lazy_utils.py:4-10 | `repeat(n -> n + 1, 0)` yields `k` at position `k`, so its first three values are 0, 1, 2 |
| LazyUtils.WithinYields | src/lazy_utils.py:12-18 | what `within(esp, xs)` yields before `xs` runs out; its meaning is stated by `WithinYieldsQualifying`, `WithinNone` and `WithinFirst` |
| LazyUtils.Within | src/lazy_utils.py:12-18 | reading the input two elements at a time until it runs out yields exactly `WithinYields(esp, xs)` |
| LazyUtils.WithinSplit | src/lazy_utils.py:12-18 | the input is read in disjoint pairs: cutting it after an even number of elements splits the yields |
| LazyUtils.WithinStep | src/lazy_utils.py:12-18 | reading pair `i` adds its second element when the two are closer than `esp`, and nothing otherwise |
| LazyUtils.WithinYieldsQualifying | src/lazy_utils.py:12-18 | a value is yielded if and only if it is the second element of a fully read pair closer than `esp` |
| LazyUtils.WithinNone | src/lazy_utils.py:12-18 | nothing is yielded if and only if no pair is closer than `esp` |
| LazyUtils.WithinFirst | src/lazy_utils.py:12-18 | the first value yielded is the second element of the first pair closer than `esp` |
| LazyUtils.WithinDisjointPairs | src/lazy_utils.py:12-18 | close neighbours that straddle two pairs are never compared; the comparison is strict: a pair exactly `esp` apart yields nothing |
| TicTacToe.InitBoard | src/tic_tac_toe.py:9-13 | nine empty squares; no mark of either player |
| TicTacToe.MakeMove | src/tic_tac_toe.py:16-25 | the new board has the player's mark at `move` and every other square as before; one empty square fewer and one more mark of the player |
| TicTacToe.CountUpdate | src/tic_tac_toe.py:16-25 | overwriting one square changes each `count` by what left and what came |
| TicTacToe.CountSplit | src/tic_tac_toe.py:114-115 | every square is empty or marked by player 0 or 1, so the three counts add up to the length |
| TicTacToe.EmptySquares | src/tic_tac_toe.py:34 | there are as many candidate moves as empty squares |
| TicTacToe.EmptySquaresSpec | src/tic_tac_toe.py:34 | the candidate moves are exactly the empty squares, in increasing order |
| TicTacToe.NextPlayer | src/tic_tac_toe.py:32 | marks of player 0 minus marks of player 1; `MovesAlternate` states that it alternates |
| TicTacToe.Moves | src/tic_tac_toe.py:28-35 | `moves`; `MovesSpec`, `MovesAt`, `MovesFillOneSquare` and `MovesAlternate` state what it computes |
| TicTacToe.MovesSpec | src/tic_tac_toe.py:28-35 | one successor per empty square; successor `k` has the next player's mark on the `k`-th empty square and every other square unchanged; a full board has none |
| TicTacToe.MovesAt | src/tic_tac_toe.py:28-35 | successor `k` fills the `k`-th candidate square, which was empty, with the mark of a next player who is 0 or 1 |
| TicTacToe.MovesFillOneSquare | src/tic_tac_toe.py:28-35 | every successor has one empty square fewer |
| TicTacToe.MovesAlternate | src/tic_tac_toe.py:28-35 | on a board where 0 or 1 is to move, every successor is such a board and the turn passes to the other player |
| TicTacToe.InitBoardLegal | src/tic_tac_toe.py:9-35 | player 0 moves first on the empty board and has nine moves |
| TicTacToe.MovesIgnoresWins | src/tic_tac_toe.py:28-35 | `moves` does not look for a winner: after player 0 completes the middle column, player 1 is still offered squares 5 and 6 |
| TicTacToe.SuccessorCount | src/tic_tac_toe.py:28-35 | a legal board has one successor per empty square |
| TicTacToe.SuccessorAt | src/tic_tac_toe.py:28-35 | successor `k` of a legal board has one empty square fewer |
| TicTacToe.MovesLowerEmptyCount | src/tic_tac_toe.py:28-35 | every move lowers the number of empty squares |
| TicTacToe.GameTreeDepth | src/tic_tac_toe.py:28-35 | a pruned tic-tac-toe tree is at most one level deeper than the number of empty squares of its root |
| TicTacToe.GameTreePruneBeyondEnd | src/tic_tac_toe.py:28-35 | pruning at any depth from the number of empty squares of the root on gives the same tree as pruning at that number |
| TicTacToe.GameTreeFromEmptyBoard | src/game.py:6-18 | `prune(n, gametree(moves, init_board()))` is the finite tree of the empty board with nine first moves, at most ten levels deep, the same for every `n >= 9` |
| TicTacToe.BoardLine | src/tic_tac_toe.py:98-100 | `board_line`; `LineFull` and `LinesAreRowsColumnsDiagonals` state what it computes |
| TicTacToe.BoardLines | src/tic_tac_toe.py:94-105 | eight lines of three squares each |
| TicTacToe.LineFull | src/tic_tac_toe.py:94-105 | line `k` holds three marks of `p` exactly when its three indexed squares are `p`'s |
| TicTacToe.WinsHasFullLine | src/tic_tac_toe.py:94-105 | every full row, column or diagonal of `p` is one of the eight lines |
| TicTacToe.HasFullLineWins | src/tic_tac_toe.py:94-105 | each of the eight lines is a row, a column or a diagonal |
| TicTacToe.LinesAreRowsColumnsDiagonals | src/tic_tac_toe.py:94-105 | some line has three marks of `p` if and only if `p` has a full row, column or diagonal |
| TicTacToe.IsGoodLine | src/tic_tac_toe.py:108-116 | `is_good_line(n, p, l)`; `GoodLineOwnMarksOnly` and `GoodLinesOfOnePlayer` state what it accepts |
| TicTacToe.GoodLineOwnMarksOnly | src/tic_tac_toe.py:108-116 | a good line of three squares holds no mark of the other player |
| TicTacToe.CountGoodLines | src/tic_tac_toe.py:119-126 | there are no more good lines than lines |
| TicTacToe.GoodLinesOfOnePlayer | src/tic_tac_toe.py:108-126 | a line of three squares is never good for both one and two marks of the same player |
| TicTacToe.NoGoodLines | src/tic_tac_toe.py:108-126 | lines without an empty square are good for nobody |
| TicTacToe.StaticEval0 | src/tic_tac_toe.py:129-148 | `static_eval_0`; `StaticEvalRange`, `StaticEvalExamples` and `StaticEvalSwap` state what it computes |
| TicTacToe.StaticEval1 | src/tic_tac_toe.py:151-156 | `static_eval_1`; `StaticEvalRange` and `StaticEvalSwap` state what it computes |
| TicTacToe.StaticEvalRange | src/tic_tac_toe.py:129-156 | the value for player 0 is 1000000 if and only if player 0 has a full line, -1000000 if and only if only player 1 has one, and otherwise between -24 and 24; `static_eval_1` is its negation |
| TicTacToe.StaticEvalExamples | src/tic_tac_toe.py:129-156 | the board where player 0 has the middle column scores 1000000 for player 0 and -1000000 for player 1; a board where player 1 has the first column scores the other way round; a full drawn board scores 0 |
| TicTacToe.CountGoodLinesSwap | src/tic_tac_toe.py:108-126 | exchanging the players' marks turns the good lines of `p` into good lines of the other player, and full lines likewise |
| TicTacToe.StaticEvalSwap | src/tic_tac_toe.py:129-156 | `static_eval_1(b)` is `static_eval_0` of `b` with the marks exchanged, unless both players have a full line |

## Left out

- Console I/O is not modelled: `display_board`, `player_input` and the game loop `tic_tac_toe1` in `src/tic_tac_toe.py` read from and print to the terminal.
- `src/tic_tac_toe.py` imports `maximize`, `evaluate1` and `maptree`, but neither `src/game.py` nor `src/lazy_utils.py` defines them; they are not modelled.
- The numeric modules (`diff.py`, `integrate.py`, `newton.py`) are not modelled. They use `repeat` and `within` on floating-point values.
- `src/zz.py` is not modelled. It is a tic-tac-toe script that prints boards and calls `who_plays`, a one-argument `gametree(b)` and `evaluate1`, functions of another revision of the code.
- LazyUtils.Within works on integers, not floats. The comparison `abs(a - b) < esp` is the same.
- LazyUtils.Within returns what the generator yields until its input runs out. The Python generator then fails with the exhausted iterator's `StopIteration` (a `RuntimeError` inside a generator). That final error is not returned.
- LazyUtils.Repeat produces a finite prefix; the Python generator is infinite and yields on demand.
- Game.Prune is a Dafny function over observations of the tree. It does not model Python iterator objects, their single-pass consumption, or sharing between two consumers.
- TicTacToe.MakeMove requires `0 <= move < 9`. Python would accept a negative index and count it from the end of the list. It would raise `IndexError` from 9 on.
- Boards hold only empty squares and marks of players 0 and 1. Python lists could hold other values.
- Tests that target another revision of the code are not modelled: `who_plays`, `moves` returning `None` for a won board, `static_eval(p)` and `won`. The code modelled here has no `who_plays` or `won`, and its `moves` never returns `None`.
- TicTacToe.GameTreeDepth gives an upper bound on the depth, not the exact depth of the game.
- `within` keeps yielding after the first close pair, and its comparison is strict `<`; LazyUtils.Within models exactly that.
- `prune` gives a node with no children an empty iterator; Game.Prune gives it an empty list of children.
- `moves` gives an empty iterator on a full board and does not stop at a won board; TicTacToe.Moves does the same.
- Game.RepTree: successor lists are finite sequences (`f: L -> seq<L>`). Python's lazy `map` in `reptree` and `prune` also copes with a successor iterator that never ends, and that case is not modelled. A `Forced` node lists all of its children at once, so a consumer that advances a children iterator only partway is not represented.
- TicTacToe.MakeMove: the `assert`s of `make_move` are preconditions (square empty, player 0 or 1) rather than a raised `AssertionError`.
- TicTacToe.Moves: `make_move`'s player assertion becomes the precondition that the next player `count(0) - count(1)` is 0 or 1 whenever there is an empty square, since the lazy `map` only calls `make_move` for a candidate square.
- TicTacToe.IsGoodLine: the `assert`s that `n` is 1 or 2 and the player 0 or 1 are preconditions.
- TicTacToe.CountGoodLines: the same `assert`s are preconditions.
- LazyUtils.IterateSuccessor: `src/test_lazy_utils.py` tests a function `repeat_f`, which `src/lazy_utils.py` does not define; the lemma states the values 0, 1, 2 that test expects, for `repeat`.
