# TicTacToe-AI players, modelled in Dafny

This project models the four computer players of the TicTacToe-AI
repository (`project/tictactoe/`) and proves properties of them:

- **Minimax** (`minimax.py`): an exhaustive depth-bounded search. X
  maximises and O minimises a fixed-perspective score (X win +1, O win -1,
  otherwise 0). A cell replaces the best so far only on a strict
  improvement.
- **Alpha-beta** (`alphabeta.py`): the same search with fail-soft
  `alpha`/`beta` bounds. Each scan stops once `beta <= alpha`. The headline
  theorem: searched with the infinite window, alpha-beta returns exactly
  minimax's score and cell, on any game.
- **Monte-Carlo tree search** (`mcts.py`): select to a leaf, expand it
  unless it is terminal, play out from the leaf and backpropagate the
  negated result. The final answer is the most-visited child of the root.
  The tree is an arena, a sequence of node records that refer to their
  parent and children by index.
- **Q-learning player** (`q_learning.py`), as it plays: the board key
  `hash_board`, the epsilon-greedy `choose_action` and `get_move`.

## Files and modules

- `Wrappers.dfy`: `Option`.
- `Games.dfy`: the game interface the players use, as the record
  `Rules<G>`. Its fields are `gameOver`, `wins`, `emptyCells`, `play`
  (`set_move` on a copy) and `curr` (`curr_player`). The search proofs are
  done once for any game behind this interface.
  - `NeverStuck`: a game that is not over has an empty cell.
  - `FillsOne`: playing an empty cell leaves one empty cell fewer.
  - `Consistent`: both of the above. The range results need it; the
    equivalence of alpha-beta and minimax does not.
- `TicTacToe.dfy`: the 3x3 board as an instance `Standard` of the
  interface. `game.py` is not part of this model, so these definitions
  are assumptions:
  - empty cells are listed in row-major order;
  - `set_move` writes the letter into the cell and passes the turn to the
    other letter;
  - a win is three marks in a line;
  - the game is over on a win or a full board.

  `StandardIsConsistent` proves that this board meets `Consistent`.
- `Minimax.dfy` (module `MinimaxPlayer`): the search, plus an independent
  reference value `Value`, the max/min of the child values.
- `AlphaBeta.dfy` (module `AlphaBetaPlayer`): the pruned search, the
  fail-soft bound lemma and the equivalence with minimax.
- `Mcts.dfy` (module `Mcts`): the tree node, the four phases, `get_move`
  and the arena invariants. The invariants are:
  - `Linked`: parent and child links agree, and children come after their
    parent;
  - `Sound`: every child was built from its parent;
  - `Balanced`: `|Q| <= N` at every node, and the children's `N` add up to
    at most the node's `N`.
- `QLearning.dfy` (module `QLearning`): the key encoder and its inverse,
  and the greedy choice over a Q-table (a map from (key, cell) pairs to
  reals).

## Model

| member | source | states |
|---|---|---|
| `MinimaxPlayer.Evaluate` | project/tictactoe/minimax.py:82-88 | the score is 1 exactly when X has won, -1 exactly when O has won and X has not, 0 exactly when neither has won |
| `MinimaxPlayer.Minimax` | project/tictactoe/minimax.py:27-73 | no contract; characterised by `MinimaxPlayer.MinimaxIsValue`, `MinimaxPlayer.MinimaxScore` and `MinimaxPlayer.MaximiserMinimiser` |
| `MinimaxPlayer.Scan` | project/tictactoe/minimax.py:44-68 | no contract; characterised by `MinimaxPlayer.ScanSpec` and `MinimaxPlayer.ScanKeepsTop` |
| `MinimaxPlayer.MinimaxIsValue` | project/tictactoe/minimax.py:35-73 | the returned score is the reference game value. When the game is over or depth is 0 the result is `[None, None, evaluate]`. Otherwise the cell is the first in `empty_cells` order whose child value equals the score; if no child beats the infinite start, the result is `[None, None, ±inf]` |
| `MinimaxPlayer.ScanSpec` | project/tictactoe/minimax.py:44-52 | the cell loop with strict `>` (`<` for O) keeps the starting best unless some child beats it. Otherwise it ends with the first cell reaching the best child value, paired with that value |
| `MinimaxPlayer.ScanKeepsTop` | project/tictactoe/minimax.py:50-52 | a scan whose best already equals the other letter's infinite start returns that best unchanged, since no child beats it strictly |
| `MinimaxPlayer.MinimaxScore` | project/tictactoe/minimax.py:35-73 | the score minimax returns is the reference game value: `evaluate` in the base case, otherwise the max (X) or min (O) of the child values |
| `MinimaxPlayer.MaximiserMinimiser` | project/tictactoe/minimax.py:40-70 | with a cell to play, the score is one of the child values (each child searched with the other letter, one ply shallower). It is at least every child value for X and at most every child value for O |
| `MinimaxPlayer.MinimaxMoveIsLegal` | project/tictactoe/minimax.py:41-70 | on a consistent game the score is in {-1, 0, 1}. Below the base case the returned cell is an empty cell |
| `MinimaxPlayer.ValueInRange` | project/tictactoe/minimax.py:57-70 | on a consistent game every game value is a real score in -1 .. 1, never an infinite start |
| `MinimaxPlayer.ValueBounded` | project/tictactoe/minimax.py:41-42 | on any game every value lies between the -inf and +inf starts |
| `MinimaxPlayer.BestOf` | project/tictactoe/minimax.py:50-52 | the best of a non-empty list of scores is one of them and at least as good as each |
| `MinimaxPlayer.GetMove` | project/tictactoe/minimax.py:17-25 | on the empty board the result is a random empty cell. Otherwise it is the full `[row, col, score]` of the search with depth equal to the number of empty cells |
| `AlphaBetaPlayer.Evaluation` | project/tictactoe/alphabeta.py:85-97 | the same fixed-perspective score as minimax's evaluate, stated as three if-and-only-ifs |
| `AlphaBetaPlayer.Search` | project/tictactoe/alphabeta.py:29-83 | no contract; characterised by `AlphaBetaPlayer.SearchBound`, `AlphaBetaPlayer.SearchWithin` and `AlphaBetaPlayer.SearchIsMinimax` |
| `AlphaBetaPlayer.PrunedScan` | project/tictactoe/alphabeta.py:48-81 | no contract; characterised by `AlphaBetaPlayer.ScanBound` and `AlphaBetaPlayer.ExploredIsCutOff` |
| `AlphaBetaPlayer.SearchWithin` | project/tictactoe/alphabeta.py:39-83 | whatever the window, the returned score lies between the -inf and +inf starts |
| `AlphaBetaPlayer.SearchBound` | project/tictactoe/alphabeta.py:39-83 | fail-soft bound for `alpha < beta`, with `v` the minimax value: a `v` strictly inside the window is returned exactly; `v <= alpha` gives a result `<= alpha`; `v >= beta` gives a result `>= beta` |
| `AlphaBetaPlayer.ScanBound` | project/tictactoe/alphabeta.py:48-81 | the same window relation for one cell loop, with alpha raised after each child (beta lowered for O) and the early break |
| `AlphaBetaPlayer.SearchInRange` | project/tictactoe/alphabeta.py:45-76 | on a consistent game every returned score is in -1 .. 1 |
| `AlphaBetaPlayer.RootScanIsMinimaxScan` | project/tictactoe/alphabeta.py:54-59 | at the root, the scan with alpha or beta fixed at infinity returns the same cell and score as minimax's scan |
| `AlphaBetaPlayer.SearchIsMinimax` | project/tictactoe/alphabeta.py:22-25 | with `alpha = -inf` and `beta = +inf` the search returns exactly minimax's cell and score, for every game, depth and letter, with no assumption about the game |
| `AlphaBetaPlayer.Explored` | project/tictactoe/alphabeta.py:60-61 | a scan looks at between one and all of its cells; which cell it stops at is stated by `AlphaBetaPlayer.ExploredIsCutOff` |
| `AlphaBetaPlayer.ExploredIsCutOff` | project/tictactoe/alphabeta.py:48-81 | the scan stops right after the first cell after which `beta <= alpha`, or after the last cell when there is none: the window is still open after every earlier cell, it is closed after the last explored cell whenever cells remain, and the result is the best after the explored cells |

| `AlphaBetaPlayer.UnexploredIrrelevant` | project/tictactoe/alphabeta.py:78-81 | the explored cells are a prefix of `empty_cells`: replacing everything after the break by other cells leaves the result unchanged |
| `AlphaBetaPlayer.GetMove` | project/tictactoe/alphabeta.py:14-27 | no move exactly when the game is over (a full board counts as over). Any move is an empty cell. Off the empty board it equals minimax's cell at depth = number of empty cells |
| `Mcts.Root` | project/tictactoe/mcts.py:21-28 | no contract; a node with the game and letter, no parent or action, no children, N = Q = 0; characterised by `Mcts.GetMove` (root N after the loop) |
| `Mcts.IsLeaf` | project/tictactoe/mcts.py:93-94 | no contract; characterised by `Mcts.Select` (the walk ends at a leaf) |
| `Mcts.IsTerminal` | project/tictactoe/mcts.py:96-97 | no contract; characterised by `Mcts.Expand` (a terminal node comes back unchanged) |
| `Mcts.ChildNode` | project/tictactoe/mcts.py:47-56 | no contract; characterised by `Mcts.Expand` and `Mcts.ExpandKeepsInvariants` |
| `Mcts.Ucb` | project/tictactoe/mcts.py:102-105 | the UCB value is infinite exactly when the node has no visits |
| `Mcts.ArgMax` | project/tictactoe/mcts.py:100 | `max` by key: no key is above the chosen one, and every earlier key is strictly below it (first on ties) |
| `Mcts.BestChild` | project/tictactoe/mcts.py:99-100 | the result is a child of the node. Its UCB value is the greatest, and it is the first child with that value |
| `Mcts.BestChildPrefersUnvisited` | project/tictactoe/mcts.py:103-104 | if some child has `N == 0`, the chosen child has `N == 0` and every child listed before it has been visited |
| `Mcts.Select` | project/tictactoe/mcts.py:30-37 | the result is a leaf. The path walked starts at the node, each step goes to `best_child` of the previous node, and it ends at the leaf |
| `Mcts.Expand` | project/tictactoe/mcts.py:39-59 | a terminal node comes back unchanged. Otherwise one child per empty cell is appended in order, each with parent = this node, `parent_action` = the cell, the opposite letter and the cell played on a copy; the returned node is one of the children |
| `Mcts.ExpandKeepsInvariants` | project/tictactoe/mcts.py:46-57 | expansion preserves `Linked`, `Sound` and `Balanced` |
| `Mcts.ChildLinksAppend` | project/tictactoe/mcts.py:57 | appending later nodes to a child list keeps it ordered and linked back to the parent |
| `Mcts.Playout` | project/tictactoe/mcts.py:65-72 | the playout stops in a position that is over or has no empty cell |
| `Mcts.Classify` | project/tictactoe/mcts.py:74-80 | WIN exactly when the node's letter has won; LOSE exactly when it has not but the other letter has; DRAW exactly when neither has |
| `Mcts.Simulate` | project/tictactoe/mcts.py:61-80 | the result is one of WIN, LOSE, DRAW |
| `Mcts.PathClimbs` | project/tictactoe/mcts.py:89-90 | the chain of parents from a node strictly descends in index, one parent link per step, and ends at a node without parent |
| `Mcts.Backpropagate` | project/tictactoe/mcts.py:82-90 | the arena keeps its size; characterised by `Mcts.BackpropagateAlongPath` and `Mcts.BackpropagateKeepsInvariants` |
| `Mcts.BackpropagateAlongPath` | project/tictactoe/mcts.py:82-90 | every node from the start node to the root gains one visit. Q gains `result` at the start node, `-result` at its parent and so on alternating; every other node is unchanged |
| `Mcts.BackpropagateBalanced` | project/tictactoe/mcts.py:86-90 | starting from a node one visit short, backpropagation with a result in -1 .. 1 leaves `|Q| <= N` and children's N total `<= N` everywhere |
| `Mcts.BackpropagateKeepsInvariants` | project/tictactoe/mcts.py:82-90 | one backpropagation keeps `Linked`, `Sound` and `Balanced`, changes only N and Q, and adds exactly one visit to the root |
| `Mcts.SameShapeLinked` | project/tictactoe/mcts.py:86-87 | changing only N and Q keeps the parent and child links |
| `Mcts.SameShapeSound` | project/tictactoe/mcts.py:86-87 | changing only N and Q keeps every child's provenance from its parent |
| `Mcts.MostVisited` | project/tictactoe/mcts.py:123 | the result is a child with the greatest N, the first one on ties |
| `Mcts.Round` | project/tictactoe/mcts.py:115-121 | one round of the loop keeps `Linked`, `Sound` and `Balanced`, keeps the root's game and letter, and adds one root visit. In a game not yet over the root has children afterwards; in a game over, the tree stays the bare root |
| `Mcts.GetMove` | project/tictactoe/mcts.py:113-124 | after the loop the root has N = number of simulations, and the tree is `Linked`, `Sound` and `Balanced`. No move exactly when there were no simulations or the game is over. Otherwise the move is an empty cell of the game: the `parent_action` of the most visited root child |
| `QLearning.HashBoard` | project/tictactoe/q_learning.py:120-133 | the key has exactly 9 characters; character `3i+j` codes cell `(i, j)` as '1' for X, '2' for O, '0' otherwise |
| `QLearning.BoardOfHashBoard` | project/tictactoe/q_learning.py:125-132 | decoding a board's key gives the board back |
| `QLearning.HashBoardOf` | project/tictactoe/q_learning.py:127-132 | every nine-character string over '0', '1', '2' is the key of the board it decodes to |
| `QLearning.HashBoardInjective` | project/tictactoe/q_learning.py:124-133 | two boards have the same key exactly when they are equal, and every key is over '0', '1', '2' |
| `QLearning.QOf` | project/tictactoe/q_learning.py:99 | a stored (state, action) value is looked up; a missing key counts as 0 |
| `QLearning.Top` | project/tictactoe/q_learning.py:101 | the position of a value no other action's value exceeds |
| `QLearning.Ties` | project/tictactoe/q_learning.py:102 | an action is kept exactly when it is one of the actions and its value equals the maximum |
| `QLearning.BestActions` | project/tictactoe/q_learning.py:101-102 | an action is listed exactly when it is one of the actions and no action has a greater value; the list is never empty |
| `QLearning.Exploit` | project/tictactoe/q_learning.py:96-103 | the chosen action is one of the actions, and no action has a greater value |
| `QLearning.ExploitReachesEveryBest` | project/tictactoe/q_learning.py:103 | every action of greatest value is chosen by some random index |
| `QLearning.ChooseAction` | project/tictactoe/q_learning.py:82-103 | in both branches the action is an empty cell. When the random draw is not below epsilon, no empty cell has a greater value |
| `QLearning.GetMove` | project/tictactoe/q_learning.py:135-141 | epsilon is 0 afterwards. The move is the exploitation choice, an empty cell with no greater-valued empty cell |
| `TicTacToe.EmptyCells` | project/tictactoe/minimax.py:44 | the listed cells are exactly the empty on-board cells, at most nine of them |
| `TicTacToe.EmptyCellsRowMajor` | project/tictactoe/minimax.py:44 | the empty cells are listed in strictly increasing row-major order, so each appears once |
| `TicTacToe.Wins` | project/tictactoe/mcts.py:74-78 | no contract; an assumption about the game's `wins`: three of the letter's marks in a row, column or diagonal; used by `MinimaxPlayer.Evaluate` and `Mcts.Classify` |
| `TicTacToe.GameOver` | project/tictactoe/mcts.py:67 | no contract; an assumption about the game's `game_over`: either letter has won or no cell is empty; characterised by `TicTacToe.StandardIsConsistent` |
| `TicTacToe.SetMove` | project/tictactoe/minimax.py:46-47 | the played cell holds the letter, every other cell is unchanged, and the turn passes to the other letter |
| `TicTacToe.SetMoveFillsOne` | project/tictactoe/minimax.py:18 | playing an empty cell removes exactly that cell from the empty cells, one fewer |
| `TicTacToe.StandardIsConsistent` | project/tictactoe/mcts.py:67-72 | the 3x3 board never leaves a game that is not over without an empty cell, and every move fills exactly one cell |

## Left out

- Q-learning training (`train`, `update_rewards`, `update_q_values`): floating-point Bellman updates driven by an episode loop over the game engine, with a progress bar and `print`. The Q-table is a parameter.
- Floating point: Q-values are exact reals and the tie test in `choose_action` is exact equality. NaN and rounding are not modelled.
- The UCB1 formula: it is a parameter `formula(Q, N, parent N)`, because it uses float `sqrt` and `log`.
- Mcts.Ucb: only the `N == 0` case is stated, because the finite formula is a parameter.
- Randomness: `random.choice`, `np.random.rand` and `np.random.randint` are parameters: a `pick`/`roll` index taken modulo the list length, and the draw `u`. Only membership is claimed, nothing about distributions.
- The game class (`game.py`) and the player base class (`player.py`) are not part of this model. The board in module `TicTacToe` is a stated assumption about them, including row-major `empty_cells` and `curr_player` passing to the other letter after `set_move`.
- TicTacToe.SetMove: an off-board coordinate leaves the board as it is; the players never pass one.
- Object identity and copying: games are immutable values, so "the caller's game is unchanged" holds by construction and is not stated as a lemma. TreeNode parent references are arena indices.
- Player letters are a two-valued type, so the `[None, None, None]` fall-through for an unknown letter cannot be written.
- MinimaxPlayer.MinimaxMoveIsLegal, MinimaxPlayer.ValueInRange, AlphaBetaPlayer.SearchInRange, AlphaBetaPlayer.GetMove, Mcts.Round and Mcts.GetMove assume a `Consistent` game. On an arbitrary game a non-final position without cells would return the infinite start. `TicTacToe.StandardIsConsistent` discharges the assumption for the board.
- Mcts.Playout, Mcts.Simulate: assume that every move fills exactly one cell (`FillsOne`). The playout loop of `simulate` ends only because of that; if `set_move` left the cell empty, it would loop forever. `TicTacToe.SetMoveFillsOne` discharges the assumption for the board.
- AlphaBetaPlayer.GetMove: `alphabeta.py`'s bare `return` (no move) and a `[None, None]` pair both become `None`; under `Consistent` the second cannot happen.
- Mcts.Expand: `random.choice` of an empty child list raises in `mcts.py`; the model returns no chosen node there, which cannot happen on a consistent game. `get_move` ignores the returned node anyway.
- Mcts.GetMove: `max` of an empty root child list raises in `mcts.py`; the model returns no move there.
- QLearning.ChooseAction: requires an empty cell, since `max` and `randint` raise on an empty list.
- The tuning constants (`NUM_SIMULATIONS`, `EXPLORATION_CONSTANT`, `NUM_EPISODES`, learning rate, discount, exploration rate), the constructors and `__str__`.
