# Tic-tac-toe and Monte Carlo tree search, modelled in Dafny

This project models the game core of the Alphazero repository:

- the 3×3 tic-tac-toe board and the two game classes built on it;
- the `TreeNode` search tree;
- the two Monte Carlo tree search engines.

The modules are:

| module | file | models |
|---|---|---|
| `Wrappers` | `wrappers.dfy` | `Option`, `Result` and `Outcome` (whether an operation returned or raised `ValueError`) |
| `Rules` | `rules.dfy` | The rules both boards implement: the eight winning lines in the order the sources test them, the winner, a full board, a draw, the empty cells. Also Python's strided slices as they are used on the board. |
| `Boards` | `board.dfy` | `src/board.py`: a class over a nine-cell `array<int>` |
| `TicTacToe1` | `tictactoe.dfy` | `src/tictactoe.py`: the game value `Game(cells, player)` and a class holding a `Board` and the player to move |
| `TicTacToe2` | `tictactoe2.dfy` | `src/tictactoe2.py`: the game value `Game(cells, player, history)` and a class over its own array, with the move history |
| `Arena` | `arena.dfy` | Tree nodes kept in a sequence (an arena). A node refers to its parent by index, and a parent's index is always below its child's. This module defines the path to the root and backpropagation, generically for both trees. |
| `TreeNodes` | `treenode.dfy` | `src/treenode.py`: node creation, `update`, `add_child`, `add_all_children`, `last_move`, `get_ucb`, `get_best_child`, `get_best_move` |
| `Mcts1` | `mcts.dfy` | `src/mcts.py`: leaf search, roll-out, backpropagation with the reset of the engine's game, one search step, tree building, best move |
| `Mcts2` | `mcts2.dfy` | `src/mcts2.py`: the same operations over nodes whose children are a dictionary from move to node |

Behaviour is modelled in two layers:

- Pure functions state what each operation computes: `Winner`, `GameResult`, `PossibleMoves`, `Play`, `Expanded`, `Backprop`, `SearchLeaf`, `StepAt`.
- Classes hold the state the source updates in place. Their methods are proved equal to those functions, and lemmas state the properties the functions have.

A tree is a sequence of nodes. Node 0 is the root, and a child link or parent link is an index into the sequence. In this form, the parent-walking loop of `backpropagate` terminates. It is also provable that the nodes off the walked path stay unchanged.

Nondeterminism and unknown code are handled as follows:

- A random move in a roll-out is any element of the current possible moves (`:|`). The roll-out's ghost out-parameter records the moves it made.
- The UCB exploration term `sqrt(2 ln N / n)` is a function parameter `bonus`.
- `src/treenode2.py` is not part of this model. Its three operations that `src/mcts2.py` calls are supplied as a `NodeOps` value. The predicate `Mcts2.Sound` states what the search relies on them to do.

Two behaviours of the source are kept as written:

- `src/mcts.py:64` tests the engine's own game, not the leaf's. The engine's game is the root node's game object, and `backpropagate` resets it (`src/mcts.py:54`). From the second step on, every unvisited leaf is therefore expanded, even one whose game is already won. `Mcts1.StepAfterResetExpands` states this. In the model, the step resets the root node's game to the initial game.
- `src/mcts2.py:83-84` ignores the `node` argument: each simulation steps from the root. `Mcts2.MCTS.BuildMctsTree` always calls `DoOneStep(None)`.

In `src/mcts.py`, `search_leaf` only returns childless nodes. So in `do_one_step` the visited-leaf branch always finds no best child and returns at line 72. Lines 73-74 are dead. In the model, that branch asks for the best child, and its `Some` case holds only `assert false`.

## Model

| member | source | states |
|---|---|---|
| Rules.Alternating | src/mcts.py:53 | The sign flip applied at each tree level: the value is `x` or `-x`. |
| Rules.AlternatingNegated | src/mcts2.py:60 | Starting the flips from `-x` negates every later value. |
| Rules.AlternatingShift | src/mcts.py:53 | The sign of `x` one level up equals the sign of `-x` at the level below. |
| Rules.FirstWinner | src/board.py:29-48 | The result is 1, -1 or 0. A non-zero result is a complete line of that player. The result is 0 exactly when no line is complete for either player. |
| Rules.FirstCompleteLineDecides | src/board.py:29-46 | The first line complete for either player fixes the result, whatever the later lines hold. |
| Rules.LineCellsHold | src/board.py:31 | `all(cells == p)` over a line's three cells holds exactly when all three cells hold `p`. |
| Rules.RowSlice | src/board.py:31 | The slice `board[3i:3i+3]` is row `i`, cells 3i, 3i+1, 3i+2. |
| Rules.ColumnSlice | src/board.py:38 | The strided slice `board[i::3]` is column `i`, cells i, i+3, i+6. |
| Rules.DiagonalSlices | src/board.py:43 | `board[0::4]` is the diagonal 0,4,8. `board[2:-1:2]` is the antidiagonal 2,4,6. |
| Rules.FirstWinnerStep | src/board.py:31-34 | Testing one line for 1, then for -1, then going on with the rest, is one step of the ordered search. |
| Rules.RowStep | src/board.py:30-34 | One iteration of the row loop, on the row's slice, is one step of the ordered search. |
| Rules.ColumnStep | src/board.py:37-41 | One iteration of the column loop, on the column's strided slice, is one step of the ordered search. |
| Rules.DiagonalsStep | src/board.py:43-48 | The combined diagonal tests give the same result as testing the two diagonals one by one. This relies on the diagonals sharing the centre cell. |
| Rules.PossibleMoves | src/board.py:62 | Every listed index is an empty cell, every empty cell is listed, and the list is strictly ascending. |
| Rules.ZeroCount | src/board.py:55 | The number of empty cells is at most the board size. |
| Rules.FillingDecreasesZeroCount | src/board.py:16-17 | Writing a mark into an empty cell removes exactly one empty cell. |
| Rules.PossibleMovesCount | src/board.py:62 | There are as many possible moves as empty cells. |
| Rules.ZeroCountSnoc | src/board.py:55 | Appending a cell adds one to the count exactly when the cell is empty. |
| Rules.NoMarksAllMoves | src/board.py:62 | On a board without marks, the possible moves are 0, 1, …, n-1. |
| Rules.EmptyBoardGoesOn | src/board.py:5-8 | Nobody has won on the empty board and it is not full. Its possible moves are 0 to 8. |
| Rules.NotOverHasMoves | src/tictactoe.py:33-42 | A game that is not over has at least one possible move. |
| Rules.DiagonalsAgree | src/board.py:43-46 | The two diagonals cannot be complete for different players. |
| Boards.Board.constructor | src/board.py:5-8 | A fresh board has nine cells, all 0. |
| Boards.Board.FromCells | src/mcts.py:38 | The deep copy of a board has the same cells in a new array. |
| Boards.Board.MakeMove | src/board.py:10-19 | On an empty cell, only that cell changes, to `player`. On an occupied cell, `ValueError` is raised exactly then, and the board is unchanged. |
| Boards.Board.IsValidMove | src/board.py:21-22 | True exactly when the cell is 0, that is, exactly when the move is a possible move. |
| Boards.Board.CheckWinner | src/board.py:24-48 | The loops over rows and columns and the diagonal tests compute `Winner` of the cells. |
| Boards.Board.CheckDraw | src/board.py:50-55 | True exactly when no cell is 0 and there is no winner. |
| Boards.Board.GetPossibleMoves | src/board.py:57-62 | Exactly the empty cells, in ascending order. |
| TicTacToe1.ReplayAlternatesPlayer | src/tictactoe.py:16-17 | After k successful moves, the player to move is the starting player times (-1)^k, and the board keeps its size. |
| TicTacToe1.ReplayKeepsGameValid | src/tictactoe.py:17 | Starting from player 1 or -1, the player to move stays 1 or -1 across any run of successful moves. |
| TicTacToe1.WalkSnoc | src/mcts.py:39-42 | One more iteration of the roll-out loop extends the walk by one legal move. |
| TicTacToe1.TicTacToe.constructor | src/tictactoe.py:7-9 | A default game has a new empty board and player 1. |
| TicTacToe1.TicTacToe.WithBoard | src/tictactoe.py:7-9 | A game built from a board uses that board object itself and the given player. |
| TicTacToe1.TicTacToe.MakeMove | src/tictactoe.py:11-17 | Succeeds exactly when the cell is empty. Then the current player's mark is placed and the player negated. On `ValueError`, the player is unchanged because the exception propagates before the flip. |
| TicTacToe1.TicTacToe.CheckWinner | src/tictactoe.py:19-24 | Delegates to the board: the winner of its cells. |
| TicTacToe1.TicTacToe.CheckDraw | src/tictactoe.py:26-31 | Delegates to the board: a full board without a winner. |
| TicTacToe1.TicTacToe.IsOver | src/tictactoe.py:33-35 | True exactly when there is a winner or a draw. When the game is not over, a possible move exists. |
| TicTacToe1.TicTacToe.GetPossibleMoves | src/tictactoe.py:37-42 | Delegates to the board: the empty cells in ascending order. |
| TicTacToe1.TicTacToe.GetCurrentPlayer | src/tictactoe.py:47-48 | The player to move. |
| TicTacToe1.TicTacToe.Reset | src/tictactoe.py:50-52 | A new all-zero board and player 1. |
| TicTacToe2.GameResult | src/tictactoe2.py:13-44 | ±1 only for a complete line of that player. 0 exactly for a full board without a complete line. `None` exactly for a board that is neither. |
| TicTacToe2.GameResultAgreesWithIsOver | src/tictactoe2.py:46-52 | `return_winner` is not `None` exactly when the game is over in the sense of tictactoe.py. Its value then is the winner. |
| TicTacToe2.LastMove | src/tictactoe2.py:85-90 | `None` exactly for an empty history; otherwise the last entry. |
| TicTacToe2.LastMoveAfterPlay | src/tictactoe2.py:59-61 | After a successful move, the last move is that move. |
| TicTacToe2.InitialHistoryMatches | src/tictactoe2.py:8-11 | On a fresh game, the empty history agrees with the empty board, with nine empty cells. |
| TicTacToe2.PlayPreservesHistory | src/tictactoe2.py:59-62 | A successful move keeps the history a list of distinct cells that are exactly the occupied ones. The history length plus the empty cells stays 9. |
| TicTacToe2.ReplayBounded | src/tictactoe2.py:59-62 | From a consistent game, any run of successful moves keeps the history consistent and grows it by one per move. There are at most as many moves as empty cells, so from the empty board at most 9. |
| TicTacToe2.WalkSnoc | src/mcts2.py:45-48 | One more iteration of the roll-out loop extends the walk by one legal move. |
| TicTacToe2.TicTacToe.constructor | src/tictactoe2.py:8-11 | A new all-zero board, player 1, empty history. |
| TicTacToe2.TicTacToe.WithBoard | src/tictactoe2.py:8-11 | A game over the given array itself, with the given player and an empty history. |
| TicTacToe2.TicTacToe.ReturnWinner | src/tictactoe2.py:13-44 | The row loop, the column loop, the diagonal tests and the draw test compute `GameResult` of the cells. |
| TicTacToe2.TicTacToe.IsOver | src/tictactoe2.py:46-52 | True exactly when `return_winner` is not `None`. When the game is not over, a possible move exists. |
| TicTacToe2.TicTacToe.MakeMove | src/tictactoe2.py:54-65 | Succeeds exactly for a move in 0..8 on an empty cell. Then it sets that cell only, appends the move to the history and negates the player. Otherwise it raises `ValueError` and changes nothing. |
| TicTacToe2.TicTacToe.GetUpdatedGameState | src/tictactoe2.py:67-76 | This game is unchanged. Succeeds exactly when the move is legal, returning a new game over a new array whose state is this state after the move. |
| TicTacToe2.TicTacToe.GetPossibleMoves | src/tictactoe2.py:78-83 | The empty cells in ascending order. |
| TicTacToe2.TicTacToe.GetLastMove | src/tictactoe2.py:85-90 | The last history entry, or `None` for an empty history. |
| TicTacToe2.TicTacToe.Reset | src/tictactoe2.py:92-98 | An all-zero board in a new array, player 1, empty history. |
| Arena.Path | src/mcts.py:50-52 | The nodes visited by following parent links from `n`: it starts at `n`, ends at a root, and stays inside the arena at or below `n`. It is empty exactly for no node. |
| Arena.PathStep | src/mcts.py:50-52 | Each node of a parent walk after the first is the parent of the node before it. |
| Arena.AncestorsCompose | src/mcts2.py:34 | An ancestor of an ancestor of `n` is an ancestor of `n`. |
| Arena.PathFrame | src/treenode.py:21-23 | Adding nodes or changing anything but parent links leaves every path unchanged. |
| Arena.Backprop | src/mcts2.py:56-60 | Backpropagation changes no node count. |
| Arena.BackpropKeepsLinks | src/mcts2.py:56-60 | Backpropagation changes only `visits` and `wins`: data, parents and children stay. |
| Arena.BackpropUnfold | src/mcts2.py:56-60 | One loop iteration: updating the current node, moving to its parent and negating the result leaves the outcome of the whole walk unchanged. |
| Arena.BackpropOnPath | src/mcts2.py:56-60 | The k-th node on the path from the start gets one more visit and `result·(-1)^k` more wins. |
| Arena.BackpropAtStart | src/mcts2.py:57-58 | The start node gains one visit and `result` wins. |
| Arena.BackpropOffPath | src/mcts2.py:56-60 | A node off the path from the start to the root is unchanged. |
| Arena.BackpropEffect | src/mcts.py:50-53 | Both of the above for all path positions and all nodes at once. |
| Arena.BackpropVisitsGrow | src/mcts.py:50-52 | No node loses visits, and the start node gains exactly one. |
| TreeNodes.PathEndsAtRoot | src/mcts.py:50-52 | In a well-formed tree, every parent walk ends at the root. |
| TreeNodes.ArgMaxAbsDiff | src/treenode.py:19 | numpy `abs(a - b).argmax()`: the first index of a largest absolute difference. |
| TreeNodes.ArgMaxFindsMove | src/treenode.py:17-19 | For a child made by one legal move, `last_move` is exactly that move. |
| TreeNodes.LastMove | src/treenode.py:17-19 | `last_move` of a non-root node is a cell index. |
| TreeNodes.ExpandWithWellFormed | src/treenode.py:50-54 | Adding children for legal moves keeps the tree well formed. |
| TreeNodes.ExpandedShape | src/treenode.py:50-54 | `add_all_children` adds one child per possible move. The node's children are extended by the new nodes' indices in ascending move order. The node's own game, parent and counters, and every other node, are unchanged. |
| TreeNodes.ExpandedNewNodes | src/treenode.py:15 | After `add_all_children`, the k-th child's board is the parent's with the k-th possible move made by the parent's player, and the child's player is negated. Its history is the parent's plus that move. It has the parent link, no children, and no visits or wins. |
| TreeNodes.ExpandWithNothing | src/treenode.py:50-51 | Expanding with no moves changes nothing. |
| TreeNodes.ExpandWithSnocAt | src/treenode.py:52-54 | One more `add_child` leaves a given node other than the parent as the expansion over one move more has it. |
| TreeNodes.ExpandWithSnoc | src/treenode.py:51-54 | One iteration of the `add_all_children` loop is one `add_child` of a node for the copied game after the move. |
| TreeNodes.Tree.constructor | src/treenode.py:9-15 | A root node: the game, no parent, no children, no visits or wins, empty history. |
| TreeNodes.Tree.Update | src/treenode.py:25-27 | One more visit and `result` more wins on that node. Nothing else changes. |
| TreeNodes.NewNode | src/treenode.py:9-15 | A new node holds the given game and parent, with no children, visits or wins. A root's `game_history` is empty; a child's is one entry longer than its parent's. |
| TreeNodes.NewNodeHistory | src/treenode.py:15-19 | A child made by one legal move has its parent's `game_history` followed by that move. |
| TreeNodes.AddChildTo | src/treenode.py:21-23 | The child is appended as the last node and the last child link of node i, with i as its parent. Every other node stays, and a childless child with a valid game keeps the tree well formed. |
| TreeNodes.Tree.AddChild | src/treenode.py:21-23 | The child is appended at the end of the children and its parent becomes this node. Earlier children are unchanged. |
| TreeNodes.Tree.AddAllChildren | src/treenode.py:50-54 | The loop produces `Expanded`, whose properties the two `Expanded…` lemmas state. |
| TreeNodes.GetUcb | src/treenode.py:29-35 | +infinity exactly for an unvisited node. For a visited root, `wins / visits`. |
| TreeNodes.FirstMax | src/treenode.py:48 | Python's `max`: no score is larger than the chosen one, and every earlier score is smaller. |
| TreeNodes.ChildScores | src/treenode.py:48 | One `get_ucb` score per child, in order. |
| TreeNodes.GetBestChild | src/treenode.py:42-48 | `None` exactly when there are no children. Otherwise a child with no larger score, the first one with the largest score. When some child is unvisited, an unvisited child is chosen. |
| TreeNodes.GetBestMove | src/treenode.py:37-40 | The `last_move` of the best child, a cell index. `None` exactly when there are no children. |
| Mcts1.SearchLeaf | src/mcts.py:24-32 | A childless node at or below the start, on a path through the start's best child. It is the start exactly when the start is childless. |
| Mcts1.SearchLeafChain | src/mcts.py:29-32 | The leaf is reached from the start through best children at every level: on the leaf's path up to the start, each node's `get_best_child` is the node below it. |
| Mcts1.ChainAtLeaf | src/mcts.py:29-30 | A node without children is its own leaf, reached by the empty chain. |
| Mcts1.ChainUp | src/mcts.py:31-32 | A best-child chain from the best child c of i extends by one level to i. |
| Mcts1.BestChildChainExtends | src/mcts.py:32 | A chain of best children extends by one more node whose best child is the chain's top. |
| Mcts1.ResetRoot | src/mcts.py:54 | `self.game.reset()` makes the root's game the initial game. The root keeps its history, links and counters, every other node stays, and the tree stays well formed. |
| Mcts1.GameGoesOn | src/mcts.py:64 | The guard holds exactly when the root's game is not over, and then a move is possible. |
| Mcts1.Grow | src/mcts.py:64-65 | The leaf is expanded exactly when the engine's (root's) game is neither won nor drawn. Otherwise nothing is added. The leaf gets one new child link per possible move, and every other node stays. New nodes are unvisited children of the leaf. |
| Mcts1.BackpropResetEffect | src/mcts.py:50-54 | Backpropagation followed by `self.game.reset()` applies the alternating update on the path and leaves other nodes unchanged. The root's game becomes a fresh game, and the tree stays well formed. |
| Mcts1.GrowFrame | src/mcts.py:64-67 | Expansion does not change the path from the leaf to the root, and no new node lies on it. |
| Mcts1.StepWellFormed | src/mcts.py:61-74 | A step keeps the tree well formed and never removes a node. On a visited leaf it changes nothing at all. |
| Mcts1.StepBackpropagates | src/mcts.py:63-67 | On an unvisited leaf, a step backpropagates exactly once from the leaf, resetting the root's game. |
| Mcts1.StepOnPath | src/mcts.py:66-67 | On an unvisited leaf, the k-th node of the path from the leaf gains one visit and `r·(-1)^k` wins. |
| Mcts1.StepOnPathAt | src/mcts.py:66-67 | The same for one position `k` of the path. |
| Mcts1.StepOffPath | src/mcts.py:66-67 | On an unvisited leaf, every old node off the path from the leaf is unchanged. |
| Mcts1.StepGrowsBy | src/mcts.py:64-65 | On an unvisited leaf, the step adds as many nodes as the leaf has possible moves when the root's game goes on, and none otherwise. |
| Mcts1.StepNewNodes | src/mcts.py:65-67 | The nodes a step adds are unvisited, childless children of the leaf. |
| Mcts1.StepExpands | src/mcts.py:63-67 | The two lemmas above together. |
| Mcts1.StepChildren | src/mcts.py:65-67 | The leaf's children after the step are its old children followed by the new nodes, in move order. |
| Mcts1.StepAfterResetExpands | src/mcts.py:54-65 | Once the root's game is fresh, every unvisited leaf is expanded by all of its possible moves, whatever its own game. |
| Mcts1.FreshRootWellFormed | src/mcts.py:12-22 | A fresh root node (the initial game, no parent, children, visits or wins) meets the premises of `FirstStep` and `FirstStepChildren`: a well-formed tree whose game goes on, with nine possible moves. |
| Mcts1.FreshRootFirstChildren | src/mcts.py:62-66 | One step from a fresh root gives it exactly the children 1 to 9, one per cell in order, in a tree of ten nodes. |
| Mcts1.OneToNine | src/mcts.py:65 | Nine children numbered one past their position are exactly the children 1 to 9. |
| Mcts1.FirstStep | src/mcts.py:63-67 | From a single unvisited root whose game goes on, one step adds one node per possible move. The root gets one visit and `r` more wins, and the new nodes are unvisited children of the root. |
| Mcts1.FirstStepChildren | src/mcts.py:65 | After that first step the root's children are nodes 1, 2, … in move order. |
| Mcts1.Playout | src/mcts.py:38-43 | The loop plays legal moves on a copy while the game is not over. It returns the finished game's winner, 1, -1 or 0, within as many moves as there were empty cells. |
| Mcts1.MCTS.constructor | src/mcts.py:12-22 | The tree holds only the root node for `game`. |
| Mcts1.MCTS.Rollout | src/mcts.py:34-43 | A finished random playout of the node's game, with result 1, -1 or 0. The tree is not modified. |
| Mcts1.MCTS.Backpropagate | src/mcts.py:45-54 | The parent walk computes `Backprop`, and then the root's game is reset. |
| Mcts1.MCTS.DoOneStep | src/mcts.py:56-74 | The new tree is `Step` from the leaf `search_leaf` finds. The result is 1, -1 or 0, and for an unvisited leaf it is the winner of a finished playout from that leaf. |
| Mcts1.MCTS.BuildTree | src/mcts.py:76-82 | Exactly `num_simulations` steps from `node`, each one a `Step` of the tree before it whose roll-out result is 1, -1 or 0 and, for an unvisited leaf, the winner of a finished playout (`StepTaken`). |
| Mcts1.TraceExtends | src/mcts.py:81-82 | Extending a trace of steps by one more step gives a trace of steps. |
| Mcts1.MCTS.FindBestMoveWithMcts | src/mcts.py:84-95 | Returns `get_best_move` of the node in the tree reached from the old tree by exactly `num_simulations` steps from `node`, each one a `StepTaken`. |
| Mcts2.ChildlessOpsSound | src/mcts2.py:28-35 | Node operations that never add and never choose a child meet what the search relies on. |
| Mcts2.AddFirstChildWellFormed | src/mcts2.py:69 | Giving a node one child for its first possible move keeps the tree well formed. |
| Mcts2.AddFirstChildExpands | src/mcts2.py:69 | That one-child `add_all_children` is an expansion: old links stay, the new child holds the game after a legal move and has no children, visits or wins. |
| Mcts2.FirstChildOpsSound | src/mcts2.py:68-72 | Operations that really expand (one child per call) and choose that child meet what the search relies on, so the premises of the visited-leaf lemmas can hold with a real expansion. |
| Mcts2.BestChildInArena | src/mcts2.py:70-72 | A best child is a node of the tree below its parent. |
| Mcts2.SearchLeaf | src/mcts2.py:23-35 | A node at or below the start, on whose path to the root the start lies. The node is childless or has no best move. It is the start exactly when the start is so. |
| Mcts2.Grown | src/mcts2.py:68-69 | A visited leaf is expanded. An unvisited one is left as it is. The leaf's visits do not change. |
| Mcts2.RolledOut | src/mcts2.py:70-74 | An unvisited leaf rolls out itself. A visited one rolls out its best child, a child of the leaf, or nothing. |
| Mcts2.StepWellFormed | src/mcts2.py:66-75 | A step keeps the tree well formed and never removes a node. |
| Mcts2.StepUnvisited | src/mcts2.py:68-75 | On an unvisited leaf, a step adds nothing. It backpropagates once from the leaf, with an alternating result along the path, and leaves the other nodes unchanged. |
| Mcts2.StepVisitedExpands | src/mcts2.py:68-70 | On a visited leaf, a step first expands it. When the expanded leaf has no best child, nothing else changes. |
| Mcts2.StepVisitedBackpropagates | src/mcts2.py:70-72 | With a best child, which is a child of the leaf, a step backpropagates once from it. There is an alternating result along its path, and the nodes off the path are unchanged. |
| Mcts2.StepVisitedCounts | src/mcts2.py:68-75 | On a visited leaf, no node gains more than one visit. The leaf stays visited, so the test of line 73 fails and there is no second backpropagation. |
| Mcts2.FreshRootOneStep | src/mcts2.py:62-75 | From a single childless, unvisited root, one step leaves one node with 1 visit, `r` more wins and no children. |
| Mcts2.TraceExtends | src/mcts2.py:83-84 | Extending a trace of steps by one more step gives a trace of steps. |
| Mcts2.BackpropWellFormed | src/mcts2.py:56-60 | Backpropagation keeps the tree well formed. |
| Mcts2.Playout | src/mcts2.py:44-49 | The loop plays legal moves on a copy while `return_winner` is `None`. It returns the finished game's `return_winner`, 1, -1 or 0, after no more moves than there were empty cells. |
| Mcts2.MCTS.constructor | src/mcts2.py:13-21 | The tree holds only the root node for `game`, without children, visits or wins. |
| Mcts2.MCTS.Rollout | src/mcts2.py:37-49 | 0 for no node. Otherwise a finished random playout of at most as many moves as the node has empty cells: 1, -1 or 0. The tree is not modified. |
| Mcts2.MCTS.Backpropagate | src/mcts2.py:51-60 | The parent walk computes `Backprop`. |
| Mcts2.MCTS.DoOneStep | src/mcts2.py:62-75 | The new tree is `StepAt` from the leaf `search_leaf` finds. The result is 1, -1 or 0, and the `return_winner` of a finished playout of the node rolled out when there is one. |
| Mcts2.MCTS.BuildMctsTree | src/mcts2.py:77-84 | Exactly `num_simulations` steps, each from the root whatever `node` is, and each with a roll-out result that is 1, -1 or 0 and comes from a finished playout (`StepTaken`). |
| Mcts2.MCTS.FindBestMoveWithMcts | src/mcts2.py:100-107 | Returns the node's best move, a key of its children, in the tree reached from the old tree by exactly `num_simulations` steps from the root, each one a `StepTaken`. |

## Left out

- The games run on 3×3 only; the board sizes are constants. The diagonal slices of `check_winner` and `return_winner` are correct only for 3×3.
- `Boards.Board.MakeMove`: requires 0 <= move < 9. numpy's negative indices and its `IndexError` beyond the board are not modelled.
- `Boards.Board.IsValidMove`: takes a move 0 <= move < 9. numpy's negative indices (-9 to -1 read cells 0 to 8) and its `IndexError` beyond the board are not modelled. Nothing in the core calls it.
- `Boards.Board.GetPossibleMoves` and `TicTacToe1.TicTacToe.GetPossibleMoves` return the array of empty cells. `np.where` wraps that array in a one-element tuple, which the model leaves out, because every caller within the core takes element `[0]` (`src/treenode.py:51`, `src/mcts.py:40`).
- `TicTacToe1.TicTacToe.MakeMove`: inherits the requirement 0 <= move < 9 from `Boards.Board.MakeMove`, for the same reason. Every call within the core passes a possible move (`src/treenode.py:53`, `src/mcts.py:42`).
- `Board.get_board` and `TicTacToe.get_board` are not modelled: they use an undefined `i` (`src/board.py:65`).
- Nothing the source prints or logs is modelled:
  - `print_board`, `print_tree`, `__repr__`, `__str__` and `TreeNode.print`;
  - the logging calls (`src/mcts.py:92`, `src/mcts2.py:42`).
- `TreeNodes.GetUcb`: the exploration term `sqrt(2 ln N / n)` of a visited non-root node is the parameter `bonus`. Floats are reals.
- `TreeNodes.GetBestChild`: the source calls `x.ucb()`, which `TreeNode` does not define; the model calls `get_ucb`.
- `TreeNodes.GetBestMove`: where Python's `max` raises on a node without children, the model returns `None`.
- Random moves (`np.random.choice`) are nondeterministic choices among the possible moves. The model does not state their distribution.
- `src/treenode2.py` is not part of this model. Its operations are the supplied `Mcts2.NodeOps`, constrained only by `Mcts2.Sound`. `Mcts2.RolledOut` reads `if leaf.best_child:` (`src/mcts2.py:70`) as "is not `None`", which assumes that `Node` defines no falsy `__bool__` or `__len__`.
- `Mcts2.MCTS.constructor`: assumes that `Node(game)` starts with no children, no visits and no wins. This is an assumption about `src/treenode2.py`.
- Deep copies are modelled as follows:
  - a roll-out's `copy.deepcopy` of a game is a new game over a fresh array;
  - a new node's copied game is a value.

  Aliasing between a node's game and the caller's game is modelled only where `src/mcts.py` relies on it: the engine's game is the root's game.
- `Mcts1.MCTS.FindBestMoveWithMcts`: the guard at `src/mcts.py:90-93` is not modelled. `get_possible_moves()` returns a one-element tuple there, so its length is never 0.
- `current_node` (`src/mcts.py:22`) is never read and is not modelled.
- `@timer` on `build_mcts_tree` (`src/mcts2.py:76`) measures wall-clock time and is not modelled.
- `src/agent.py`, `src/play.py`, `src/piclikng_trial.py` and `src/utils.py` are not part of this model.
