# Hex move selection: a verified model

This repository plays Hex on an 11×11 board with Monte Carlo tree search.
The engine comes in two C++ copies and a Python prototype:

- `src/HEX_new.cpp` is the current engine.
  - It has a grid board.
  - Its win test builds a union-find forest over the 121 cells and four border sentinels.
  - It plays random playouts.
  - Its search tree keeps a legal-move snapshot per node.
- `src/hex.cpp` is an older copy.
  - Its win test asks only whether a player joins the top row to the bottom row.
  - It grows its tree differently.
- `MOCTS.py` is a Python prototype.
  - It works on an immutable square board of any size.
  - Its win test is a breadth-first search.
  - It backpropagates a result that alternates from level to level.
- `InputTranslate.cpp` is a referee adapter.
  - It reads and writes cells as a letter followed by a number (`h8`).
  - It decides the swap rule on the opponent's opening.
  - It answers every opponent move with a random free cell.

The model follows that structure, one Dafny module per concern:

| module | file | models |
|---|---|---|
| `HexGeometry` | geometry.dfy | cells, the six neighbour offsets, stone chains and what it means to connect two borders |
| `HexBoard` | board.dfy | `Point::isExceedRange` and `Board`, as a class over an 11×11 array |
| `DisjointSets` | disjoint_set.dfy | the `parent` vector with `find` (path compression) and `unite`, as a class over an array, with a ghost rank and a ghost edge set |
| `WinOracle` | win_oracle.dfy | `isWin` of `src/HEX_new.cpp` |
| `LegacyWin` | legacy_win.dfy | `isWin(board, player)` of `src/hex.cpp`, as written and corrected |
| `Playouts` | playout.dfy | who moves at each ply, playouts, and the board a tree node stands for |
| `SearchTrees` | search_tree.dfy | the search tree, shared by all three engines, as a class over an arena of nodes linked by index |
| `HexEngine` | hex_engine.dfy | `simulate`, `Node` and `HexBot` of `src/HEX_new.cpp` |
| `LegacyEngine` | legacy_engine.dfy | `simulate`, `Node` and `HexBot` of `src/hex.cpp` |
| `PlayHexState` | play_hex.dfy | Python `PlayHex`: its moves and its breadth-first `is_win` |
| `Mocts` | mcts.dfy | Python `select`, `best_uct`, `expand`, `simulate`, `backpropagate` and `mcts_decision` |
| `InputTranslate` | input_translate.dfy | the coordinate text, the swap rule and the `GomokuAI` board updates |

The method bodies follow the source's loops and branches.

- **Code that changes state is modelled as state.**
  - Board writes, forest updates, tree growth and backpropagation are methods with `modifies` clauses and loop invariants.
  - Each method is proved against a specification function or predicate.
- **Code that is pure is modelled as functions.**
  - The Python `perform_move`.
  - The move lists.
  - The coordinate codec.
- **What the model cannot see becomes a parameter or a free choice.**
  - *Randomness.* `shuffle`, `rand()` and `random.choice` become nondeterministic choices among the candidates the code draws from.
    - `find_valid_move` takes the value of `rand()` as a parameter.
  - *Time.* The wall-clock budget of `HexBot` and the count of `mcts_decision` become an iteration count.
  - *UCB values.* The floating-point UCB value of a visited child is a function the caller supplies.
    - Around that function, the model keeps what the code decides for itself: which child is unvisited, the starting best score, strict comparison, and so the first-best tie-breaking.

How the model treats the code in these places (the last two depart from it on purpose):

- **The root's mover in either `HexBot`.**
  - The root node carries the player to move, and every child gets `3 - node->player`.
  - So the children of the root are moves of the opponent of `player`.
  - The model keeps this: `HexBot`'s answer is the move of a child whose mover is `3 - player`.
- **Unvisited children in the `selectChild` of `src/hex.cpp`.**
  - This copy divides by the child's visit count without a guard.
  - The model writes out the `double` results of that division: infinity, or a NaN that never compares above -1.
  - The square-root term is an unknown non-negative value (`Explores`).
- **The column sentinels of `src/hex.cpp`.**
  - They are not harmless: see finding 2 below.
- **Declaration order in `src/hex.cpp`.**
  - `HexBot` calls `simulate`, and `simulate` calls `isWin`, before either is declared.
  - The model reads the file as if they had been declared first.
- **Input the adapter does not check.**
  - `stoi` throws on text that is not a number, and `parse_coord` indexes `s[0]` of the empty string.
  - The model answers both with `None` (`BadInput`).
  - Writing an opponent move that lies off the board is undefined behaviour, modelled as the reply `OffBoard` with the board unchanged.
- **Exceptions of the prototype.**
  - `random.choice` of an empty move list raises; the playout answers `None` there (a stalemate).
  - `max` of an empty child list raises; `mcts_decision` answers `NoChildren`.
- **The prototype's rounds use the corrected `simulate`.**
  - `Mocts.Iterate` plays out with `Mocts.Simulate` (finding 3).
- **The older engine's playout uses the corrected `isWin`.**
  - `LegacyEngine.LegacySimulate` stops on `LegacyWin.LegacyIsWin` (findings 1 and 2).

## Model

| member | source | states |
|---|---|---|
| HexBoard.IsExceedRange | src/HEX_new.cpp:25-27 | a point exceeds the range exactly when it is not a cell of the 11×11 board |
| HexBoard.PlaceWritesOneCell | src/HEX_new.cpp:51-53 | placing a stone on p sets cell p to the player and leaves every other cell as it was |
| HexBoard.Board.View | src/HEX_new.cpp:30-31 | the array's contents, read as an 11×11 grid, cell by cell |
| HexBoard.Board.constructor | src/HEX_new.cpp:32-34 | a new board has every cell 0 |
| HexBoard.Board.Copy | src/HEX_new.cpp:199 | the copy of a board is a fresh array with the same cells |
| HexBoard.Board.IsFull | src/HEX_new.cpp:36-45 | the answer is true exactly when no cell holds 0 |
| HexBoard.Board.IsLegalMove | src/HEX_new.cpp:47-49 | legal exactly when p is on the board and its cell holds 0 |
| HexBoard.Board.MakeMove | src/HEX_new.cpp:51-53 | the new board is the old one with cell p set to the player |
| HexBoard.LegalMoves | src/HEX_new.cpp:201-208 | the list holds exactly the legal cells, each once, in row-major order |
| HexBoard.FullIffNoEmpty | src/HEX_new.cpp:36-45 | a board is full exactly when its count of empty cells is 0 |
| HexBoard.PlaceShrinksEmpty | src/HEX_new.cpp:184-185 | a legal move with a non-zero player takes exactly one empty cell |
| HexBoard.SameCells | src/HEX_new.cpp:30-31 | two boards that agree on every cell are equal |
| HexGeometry.NeighbourIsAdjacent | src/HEX_new.cpp:15-16 | every one of the six offsets leads to an adjacent cell |
| HexGeometry.AdjacentIsNeighbour | src/HEX_new.cpp:15-16 | every adjacent cell is reached by one of the six offsets |
| HexGeometry.OffsetsClosedUnderNegation | src/HEX_new.cpp:15-16 | offset k+3 is the negation of offset k |
| HexGeometry.AdjacentSymmetric | src/HEX_new.cpp:15-16 | the neighbour relation is symmetric |
| HexGeometry.ChainExtend | src/HEX_new.cpp:141-146 | a chain of a player's stones extended by an adjacent stone of that player is still a chain |
| DisjointSets.ReachSym | src/HEX_new.cpp:125-131 | the relation the unions build is symmetric |
| DisjointSets.ReachTrans | src/HEX_new.cpp:125-131 | the relation the unions build is transitive |
| DisjointSets.ReachMono | src/HEX_new.cpp:125-131 | further unions never separate what was joined |
| DisjointSets.ReachEmpty | src/HEX_new.cpp:124 | before any union, each element is joined only to itself |
| DisjointSets.MergeLabels | src/HEX_new.cpp:125-131 | relabelling x's class as y's class yields exactly the classes of the edges with (x, y) added |
| DisjointSets.Root | src/HEX_new.cpp:120-122 | following the parent links from x ends at an element without a parent; ranks rise strictly along the way, so `find` terminates |
| DisjointSets.CompressKeepsRoots | src/HEX_new.cpp:121 | linking x straight to its root keeps the forest acyclic and changes no element's root: path compression merges nothing |
| DisjointSets.LinkRedirectsAll | src/HEX_new.cpp:128-130 | linking root x under root y keeps the forest acyclic; the elements rooted at x move to y and all others keep their root |
| DisjointSets.DisjointSet.constructor | src/HEX_new.cpp:124 | a fresh forest of n elements, each its own root, with no union recorded |
| DisjointSets.DisjointSet.Find | src/HEX_new.cpp:120-122 | `find` returns x's root in the forest it was given and leaves every element's root unchanged |
| DisjointSets.DisjointSet.Unite | src/HEX_new.cpp:125-131 | `unite(x, y)` records the union, keeps the forest's roots equal to the classes of the recorded unions, and afterwards x and y have one root |
| WinOracle.IndexRoundTrip | src/HEX_new.cpp:136 | `i * 11 + j` numbers the cells 0..120, and the cell can be read back from the number |
| WinOracle.CellOfRoundTrip | src/HEX_new.cpp:136 | every number 0..120 is the number of exactly one cell |
| WinOracle.ReachIffConnects | src/HEX_new.cpp:132-165 | with all of a player's unions done and only such unions made, the two sentinels are joined exactly when a chain of the player's stones links the two borders |
| WinOracle.SentinelsDecide | src/HEX_new.cpp:166-168 | after the whole scan, 121 and 122 share a root exactly when 1-stones link row 0 to row 10, and 123 and 124 share a root exactly when 2-stones link column 0 to column 10 |
| WinOracle.LinkStone | src/HEX_new.cpp:134-147 | a stone gets its border unions and its same-owner neighbour unions, and no other union |
| WinOracle.LinkBorders | src/HEX_new.cpp:135-140 | a stone on the first line is joined to the first sentinel, one on the last line to the last sentinel |
| WinOracle.LinkNeighbours | src/HEX_new.cpp:141-147 | the stone is joined to each of its six neighbours that is on the board and holds the same player |
| WinOracle.LinkCell | src/HEX_new.cpp:134-163 | a 1-stone gets the row unions, a 2-stone the column unions, an empty cell none |
| WinOracle.LinkRow | src/HEX_new.cpp:133-164 | after row i, every cell of rows 0..i has all its unions |
| WinOracle.CompareSentinels | src/HEX_new.cpp:166-168 | 1 when 121 and 122 share a root, else 2 when 123 and 124 do, else 0 |
| WinOracle.IsWin | src/HEX_new.cpp:123-169 | `isWin` is 1 when 1-stones link row 0 to row 10; otherwise 2 when 2-stones link column 0 to column 10; otherwise 0 |
| LegacyWin.CheckedFind | src/hex.cpp:186-188 | `find` with a bounds check: its first index outside the vector, or the root |
| LegacyWin.CheckedUnite | src/hex.cpp:191-197 | `unite` with a bounds check: its first index outside the vector, or the union recorded |
| LegacyWin.CheckedEqual | src/hex.cpp:223 | the comparison of two checked roots fails at the first index outside the vector |
| LegacyWin.LegacyIsWinAsWritten | src/hex.cpp:185-223 | over the 121-entry vector, `isWin` always indexes a sentinel 121..124 outside the vector |
| LegacyWin.LinkStoneSized | src/hex.cpp:200-219 | a stone gets all four sentinel unions and its neighbour unions, and no other union |
| LegacyWin.LinkRowSized | src/hex.cpp:199-221 | after row i, every stone of rows 0..i has all those unions |
| LegacyWin.LegacyIsWinSized | src/hex.cpp:189-223 | with room for the sentinels, `isWin` answers whether its unions, column unions included, join 121 to 122 |
| LegacyWin.LeakBoard | src/hex.cpp:207-212 | a board whose only stones are player 1's at (0, 0) and (10, 0) |
| LegacyWin.LegacyColumnLeak | src/hex.cpp:201-223 | on that board the unions join 121 to 122 through 123, yet no chain links row 0 to row 10 |
| LegacyWin.LinkRowCorrected | src/hex.cpp:199-221 | the corrected scan: after row i, every stone of rows 0..i has its row-sentinel and neighbour unions |
| LegacyWin.LegacyIsWin | src/hex.cpp:189-223 | the corrected `isWin(board, player)`: true exactly when the player's stones link row 0 to row 10 |
| Playouts.MoverAt | src/HEX_new.cpp:171-188 | the mover of ply k is the first player for even k and the other one for odd k |
| Playouts.MoverAlternates | src/HEX_new.cpp:188 | `player = 3 - player` between plies |
| Playouts.LegalPlayoutExtend | src/HEX_new.cpp:184-185 | a legal move extends a legal playout; the new board is the old one with that cell set to the mover |
| Playouts.PathBoardFrame | src/HEX_new.cpp:199-216 | the board a node stands for depends only on the moves from the root to it |
| SearchTrees.Bump | src/HEX_new.cpp:99-103 | `update(result)`: one more visit and `result` more score, nothing else changed |
| SearchTrees.Alternate | MOCTS.py:128 | the result at distance d from the leaf: r for even d, 1 - r for odd d |
| SearchTrees.AlternateStep | MOCTS.py:128 | one level further up, the result becomes 1 minus the previous one |
| SearchTrees.AlternateStaysBinary | MOCTS.py:128 | a result in {0, 1} stays in {0, 1} |
| SearchTrees.Ancestors | src/HEX_new.cpp:242-245 | the nodes a walk along the parent links from x passes, each no later than x |
| SearchTrees.RootIsAncestor | src/HEX_new.cpp:242-245 | the walk from any node reaches the root |
| SearchTrees.AncestorsClosed | src/HEX_new.cpp:242-245 | the walk from an ancestor stays within the walk from x |
| SearchTrees.OneChildOnPath | src/HEX_new.cpp:242-245 | the walk passes at most one child of any node |
| SearchTrees.ChildOnPath | src/HEX_new.cpp:242-245 | the walk passes, for every ancestor above x, one of its children |
| SearchTrees.VisitsKeepCounted | src/HEX_new.cpp:242-245 | a visit added to every node on a leaf-to-root walk keeps each node's visits at least the sum of its children's |
| SearchTrees.GrownCounted | src/HEX_new.cpp:93-97 | adding an unvisited child keeps that visit invariant |
| SearchTrees.SameVisitsCounted | src/HEX_new.cpp:210-212 | changing only payloads keeps that visit invariant |
| SearchTrees.SameLinksShaped | src/HEX_new.cpp:210-212 | changing only payloads and statistics keeps the parent and child links consistent |
| SearchTrees.ChildrenIn | src/HEX_new.cpp:93-97 | every listed child is a later node that names i as its parent |
| SearchTrees.AboveOrder | src/HEX_new.cpp:85 | the strict comparison of scores, infinities included, is a strict total order |
| SearchTrees.FirstBestUnique | src/HEX_new.cpp:74-91 | the first best position is unique |
| SearchTrees.InfiniteFirst | src/HEX_new.cpp:79-80 | when some score is +infinity, the first best is the first +infinity |
| SearchTrees.TiesGoFirst | src/HEX_new.cpp:85 | of equal scores the earlier position wins |
| SearchTrees.Tree.constructor | src/HEX_new.cpp:65-68 | a tree with only the root: no visits, score 0, no parent and no children |
| SearchTrees.Tree.AddChild | src/HEX_new.cpp:93-97 | `addChild`: a new last node with no visits, parent i, added at the end of i's children |
| SearchTrees.Tree.SetData | src/HEX_new.cpp:211 | one node's payload replaced, every statistic and link kept |
| SearchTrees.Tree.Update | src/HEX_new.cpp:99-103 | `update(result)` on node i and no other |
| SearchTrees.Tree.Backpropagate | src/HEX_new.cpp:242-245 | every node from the leaf up to the root gets one visit and the same result; every other node is unchanged |
| SearchTrees.Tree.BackpropagateAlternating | MOCTS.py:123-128 | every node from the leaf up to the root gets one visit and the result alternated for its distance from the leaf; every other node is unchanged |
| SearchTrees.Tree.BestBy | src/HEX_new.cpp:74-91 | the scan keeping the first strict improvement over a starting score: nothing exactly when no score beats the start, otherwise the first best child |
| SearchTrees.BestChild | src/HEX_new.cpp:105-116 | `bestChild`: null exactly when there are no children, otherwise the first most visited child |
| HexEngine.Simulate | src/HEX_new.cpp:171-191 | a legal alternating playout from `player`, at most one move per empty cell, stopping at the first board with a winner; the result is that winner, or 0 on a board filled without one; always 0, 1 or 2 |
| HexEngine.RandomMove | src/HEX_new.cpp:172-184 | no move exactly when the board is full, otherwise a legal cell |
| HexEngine.PlayStep | src/HEX_new.cpp:172-189 | one pass of the playout loop: it stops with the winner or a full board, or the playout goes on with one empty cell fewer and the other mover |
| HexEngine.PlayMove | src/HEX_new.cpp:184-185 | the stone extends the legal playout and takes one empty cell |
| HexEngine.AfterMove | src/HEX_new.cpp:186-187 | a board with a winner finishes the playout, one without lets it go on |
| HexEngine.NoEarlyWinnerExtend | src/HEX_new.cpp:186-188 | a playout that goes on had no winner on any earlier board |
| HexEngine.ChildMove | src/HEX_new.cpp:229-230 | a child's move was legal on its parent's board, and the child's board is the parent's with that stone added |
| HexEngine.StatisticsKeepSearchTree | src/HEX_new.cpp:242-245 | changing visits and scores keeps the tree invariant |
| HexEngine.SnapshotKeepsSearchTree | src/HEX_new.cpp:210-212 | a snapshot of legal moves keeps the tree invariant and the node's board |
| HexEngine.GrowKeepsSearchTree | src/HEX_new.cpp:228-231 | a child for a snapshot move not yet among the children keeps the tree invariant; its board is its parent's plus the stone of `3 - node->player` |
| HexEngine.IsFullyExpanded | src/HEX_new.cpp:70-72 | a node is fully expanded when it has as many children as snapshot moves |
| HexEngine.FullyExpandedCovers | src/HEX_new.cpp:70-72 | a node never has more children than snapshot moves; with a snapshot that lists each move once, fully expanded exactly when every snapshot move has a child |
| HexEngine.SelectChild | src/HEX_new.cpp:74-91 | `selectChild`: null exactly when no score exceeds -1; otherwise the first best child; an unvisited child beats every visited one, and the first unvisited child is chosen |
| HexEngine.HasChildMove | src/HEX_new.cpp:221-227 | found exactly when the move is the move of one of the children |
| HexEngine.FillSnapshot | src/HEX_new.cpp:210-212 | the snapshot is taken only while empty, and the node's board is unchanged |
| HexEngine.ShuffleSnapshot | src/HEX_new.cpp:218-219 | the snapshot becomes a permutation of itself and nothing else changes |
| HexEngine.AddUnexpanded | src/HEX_new.cpp:228-232 | a new child for that move with mover `3 - node->player`, played on the board |
| HexEngine.Expand | src/HEX_new.cpp:217-235 | after the shuffle, the first snapshot move without a child gets a new child, which the descent moves to; with no such move the descent stays; the whole new arena is the old one with i's snapshot permuted, plus that child when there is one |
| HexEngine.Follow | src/HEX_new.cpp:213-216 | `selectChild`'s answer: nothing exactly when no child's key exceeds -1, otherwise the first child of the largest key, a later child whose move is then on the board; null leaves the board untouched |
| HexEngine.DescendStep | src/HEX_new.cpp:200-236 | one pass of the descent loop (`Stepped`): it goes on only from a fully expanded node or a full board, to `selectChild`'s pick among its children; a crash is exactly a null selection at a node with children; a node is added only as a child of a node that had fewer children than snapshot moves on a board that was not full, and that ends the descent there; only the current node changes among the old nodes, and every old node keeps its statistics, parent, move and children |
| HexEngine.Descend | src/HEX_new.cpp:198-237 | the descent follows a selection walk from the root, every step `selectChild`'s pick at a fully expanded node or on a full board (`DescentBy`); it ends at the walk's last node, or at the one child it added there, or crashes on a null selection there; every old node keeps its statistics, parent, move and children apart from that one new child; a full root board ends it at the root at once |
| HexEngine.WalkKept | src/HEX_new.cpp:198-237 | a pass at the walk's last node keeps the selection walk that led there: the nodes before it and the statistics of the children they chose among are kept |
| HexEngine.StepKeepsDescent | src/HEX_new.cpp:198-237 | one pass of the loop carries `DescentBy` on, the walk growing by the pass's pick when the descent goes on |
| HexEngine.FollowPass | src/HEX_new.cpp:213-216 | the selection branch: a childless node stops there, a null `selectChild` is a crash at a node with children, and otherwise the pass goes on to the pick, a child of the node |
| HexEngine.ExpandPass | src/HEX_new.cpp:217-236 | the expansion branch at a node that has fewer children than snapshot moves on a board that is not full: it stops, at the one child it added or at the node itself |
| HexEngine.MoverInRange | src/HEX_new.cpp:229 | every mover in the tree is 1 or 2 |
| HexEngine.Iterate | src/HEX_new.cpp:198-245 | the descent is the selection walk of `Descend` (`DescentBy`), and its arena is kept by a crash; otherwise the winner is that of a finished playout from the reached node's board with `3 - node->player` to move, and exactly the nodes from the reached one up to the root get a visit and +1, -1 or 0 for that winner |
| HexEngine.PlayAndUpdate | src/HEX_new.cpp:238-245 | `simulate` from the reached board with the node's opponent to move, then a visit and the winner's result for every node from it up to the root and for no other |
| HexEngine.ResultOf | src/HEX_new.cpp:238-241 | +1 exactly for winner 1, -1 exactly for winner 2, 0 otherwise |
| HexEngine.HexBot | src/HEX_new.cpp:193-251 | a returned move is legal: the move of the root's first most visited child after `iterations` visits of the root; no iteration, or a full board, makes `bestChild` null |
| LegacyEngine.FullBoardDraws | src/hex.cpp:160-181 | on a full board `simulate` makes no move and returns 0 |
| LegacyEngine.LegacySimulate | src/hex.cpp:160-182 | a legal alternating playout that stops as soon as the mover joins row 0 to row 10 and returns that mover; 0 on a board filled with no such win; the win test is the corrected `isWin` |
| LegacyEngine.LegacyPlayStep | src/hex.cpp:161-179 | one pass of the loop: it stops with a winning mover or a full board, or goes on with one empty cell fewer and the other mover |
| LegacyEngine.LegacyAfterMove | src/hex.cpp:175-178 | a row win of the mover finishes the playout, otherwise it goes on |
| LegacyEngine.NoEarlyExtend | src/hex.cpp:176-179 | a playout that goes on had no earlier row win |
| LegacyEngine.ChainNeverFullyExpanded | src/hex.cpp:70-72 | in this tree a node has at most one child, so never the 121 that count as fully expanded |
| LegacyEngine.ChainAncestors | src/hex.cpp:149-152 | in the chain, backpropagation from x passes exactly nodes 0..x |
| LegacyEngine.LegacyChildMove | src/hex.cpp:136-137 | a child's mover is `3 - node->player`, its move was legal on its parent's board, and its board is the parent's plus that stone |
| LegacyEngine.LegacyStatistics | src/hex.cpp:149-152 | adding visits with score 0 keeps the chain invariant |
| LegacyEngine.LegacyGrow | src/hex.cpp:121-140 | only the chain's last node is childless; a child for a legal move keeps the chain invariant |
| LegacyEngine.LegacyFullyExpanded | src/hex.cpp:70-72 | a node is fully expanded when it has 121 children, whatever the number of empty cells |
| LegacyEngine.LegacyUcbKey | src/hex.cpp:78 | the `double` value of the unguarded UCB: an unvisited child compares above -1 exactly when its score is positive and its parent was visited more than once; a parent never visited gives no child above -1 |
| LegacyEngine.LegacySelectChild | src/hex.cpp:74-85 | `selectChild` with its unguarded division: null exactly when no score exceeds -1, otherwise the first best child |
| LegacyEngine.AverageKey | src/hex.cpp:102 | the `double` average of a child: an unvisited child compares above -1 exactly when its score is positive; a visited child with a score of at least 0 always does |
| LegacyEngine.LegacyBestChild | src/hex.cpp:98-109 | `bestChild` by average score: null exactly when no average exceeds -1, otherwise the first best child |
| LegacyEngine.LegacyExpand | src/hex.cpp:121-140 | a childless node on a board that is not full gets a child for a legal move, played on the board |
| LegacyEngine.LegacyAddChild | src/hex.cpp:136-137 | the child for move m gets mover `3 - node->player` and its stone is played |
| LegacyEngine.FullAtLeaf | src/hex.cpp:120 | the descent meets a full board only at the end of the chain |
| LegacyEngine.StartAtRoot | src/hex.cpp:118-119 | the descent starts at the root with a copy of the board |
| LegacyEngine.LegacyStart | src/hex.cpp:118-120 | the descent starts from a fresh copy of the board and tests whether it is full |
| LegacyEngine.LegacyDescendStep | src/hex.cpp:120-144 | one pass of the descent loop: one empty cell fewer, and the chain grows only in the first iteration |
| LegacyEngine.LegacyGrowStep | src/hex.cpp:121-140 | a pass that adds a child happens only in the first iteration |
| LegacyEngine.LegacyFollowStep | src/hex.cpp:141-144 | a pass that follows `selectChild` always finds a child: its first-best pick, which is the next node of the chain (`node + 1`) |
| LegacyEngine.LegacyPick | src/hex.cpp:142 | `selectChild` at a node with its child never answers null: its first-best pick is node + 1 |
| LegacyEngine.LegacyMoveTo | src/hex.cpp:143 | the child's move on the board: the descent stands at the child, with one empty cell fewer |
| LegacyEngine.LegacyWalk | src/hex.cpp:120-145 | the descent ends at the last node of the chain, on a full board; the chain is grown only in the first iteration |
| LegacyEngine.LegacyDescend | src/hex.cpp:118-145 | the same from the root: the descent always reaches a full board |
| LegacyEngine.MoverInRange | src/hex.cpp:136 | every mover in the tree is 1 or 2 |
| LegacyEngine.BumpedBetween | src/hex.cpp:149-152 | a visit with result 0 on every node keeps the invariant between iterations |
| LegacyEngine.LegacyPlayAndUpdate | src/hex.cpp:146-152 | the playout from a full board returns 0, so every node gets a visit and score 0 |
| LegacyEngine.LegacyIterate | src/hex.cpp:118-154 | one iteration keeps the chain invariant with one more visit everywhere; after the first, the tree does not grow |
| LegacyEngine.LegacyHexBot | src/hex.cpp:112-158 | a move is returned exactly when there is an iteration and the board is not full; it is legal, and it is the move of the root's only child, whose mover is `3 - player` |
| PlayHexState.Initial | MOCTS.py:6-9 | a state without a board has n rows of n empty cells |
| PlayHexState.PerformMove | MOCTS.py:12-15 | cell m holds the mover, every other cell and the size are as before, and the mover is negated |
| PlayHexState.InCells | MOCTS.py:17-18 | every cell of the board is among the cells the comprehension ranges over |
| PlayHexState.MoveTakesCell | MOCTS.py:12-15 | the move takes exactly cell m from the empty cells |
| PlayHexState.RowMoves | MOCTS.py:18 | the free cells of row i from column j0 on, in order |
| PlayHexState.MovesFrom | MOCTS.py:18 | the free cells of rows i0 on, in row-major order |
| PlayHexState.AvailableMoves | MOCTS.py:17-18 | exactly the cells that hold 0, in row-major order |
| PlayHexState.AvailableDistinct | MOCTS.py:17-18 | no cell is listed twice |
| PlayHexState.AvailableAfterMove | MOCTS.py:12-18 | after a move the available moves are the old ones without m, and there are fewer empty cells |
| PlayHexState.IsWinning | MOCTS.py:34-38 | a dequeued cell wins exactly when it lies on the player's far border, the border a crossing chain must end on |
| PlayHexState.BorderFrom | MOCTS.py:31-38 | the player's stones on its first border (column 0 for 1, row 0 for -1) |
| PlayHexState.StepIsAdjacent | MOCTS.py:25 | each of the six directions leads to an adjacent cell |
| PlayHexState.AdjacentIsStep | MOCTS.py:25 | each adjacent cell is one of the six directions away |
| PlayHexState.NoCrossing | MOCTS.py:47-62 | when the queue empties without a cell on the far border, the player has no crossing chain |
| PlayHexState.IsWin | MOCTS.py:23-62 | `is_win(v)` is true exactly when v's stones link v's two borders; the visited cells are v's own stones, each enqueued once |
| PlayHexState.FrontierVisits | MOCTS.py:41-60 | between passes, visited and enqueued are the same cells, all of the player's, none twice |
| PlayHexState.Seed | MOCTS.py:31-44 | the queue starts with the stones on the first border, each once |
| PlayHexState.Dequeue | MOCTS.py:48-60 | a cell on the far border proves a win; otherwise its unseen same-player neighbours are enqueued, and fewer cells remain unseen or the queue is shorter |
| PlayHexState.Explore | MOCTS.py:55-60 | every one of the six neighbours on the board that holds the player is seen after the pass; new ones are enqueued once |
| PlayHexState.IsTerminal | MOCTS.py:20-21 | over exactly when either player has won |
| PlayHexState.MoveKeepsOtherWins | MOCTS.py:12-15 | a move never makes the other player win |
| Mocts.PyGrow | MOCTS.py:110-111 | a child for a free cell, with state `perform_move(move)` and that move, keeps the tree invariant |
| Mocts.PyTreeStatistics | MOCTS.py:125-126 | changing visits and win counts keeps the tree invariant |
| Mocts.Expand | MOCTS.py:108-111 | one child per available move, in order, each with that move, the node as parent and state `perform_move(move)` |
| Mocts.BestUct | MOCTS.py:93-106 | nothing exactly when there are no children; otherwise the first best child from -infinity, where an unvisited child comes first and the first unvisited one is chosen |
| Mocts.Select | MOCTS.py:88-91 | following `best_uct` from the root ends at a childless node |
| Mocts.RandomPlayout | MOCTS.py:114-117 | random moves from the state until one player has won; a state with neither a win nor a move stops the playout |
| Mocts.TrailExtend | MOCTS.py:116-117 | a move on a free cell of an unfinished state extends the playout |
| Mocts.LastMoverWon | MOCTS.py:115-117 | at the end of a playout of at least one move, the last mover has won and the player to move has not |
| Mocts.SimulateAsWritten | MOCTS.py:113-121 | `simulate` as written: from a state that is not over the result is always 0 |
| Mocts.Simulate | MOCTS.py:113-121 | the corrected `simulate`: from a state that is not over, 1 exactly when player 1 won the playout and 0 exactly when player -1 did; from a state already over, 1 exactly when player 1 has won with player -1 to move |
| Mocts.NoStoneNoWin | MOCTS.py:23-62 | nobody wins on an empty board |
| Mocts.OneCellPlayout | MOCTS.py:113-119 | on a 1×1 board with player 1 to move, the only move wins for player 1 |
| Mocts.Backpropagate | MOCTS.py:123-128 | the alternating backpropagation from the node; the root gets one more visit |
| Mocts.Backpropagated | MOCTS.py:123-128 | the backpropagation keeps the tree invariant, and the root gets its alternated result |
| Mocts.Grow | MOCTS.py:77-80 | `select` ends at a childless leaf reached by `best_uct`; a leaf whose state is over leaves the tree unchanged and is the answer; otherwise the leaf gets exactly `expand`'s children and the answer is one of them, or the leaf when it got none |
| Mocts.Iterate | MOCTS.py:77-82 | one simulation: the tree grows as `Grow` states; a playout that cannot go on leaves it there; otherwise the corrected `simulate` scores a playout from the answered node, and every node from that node up to the root gets a visit and the score, alternated with its distance from the node |
| Mocts.MctsDecision | MOCTS.py:74-86 | the answer is an available move: the move of the root's first most visited child after all simulations; a root without children exactly when there are no simulations or the state is over |
| InputTranslate.IntToString | InputTranslate.cpp:30 | `to_string`: a minus sign exactly for a negative number, otherwise only digits |
| InputTranslate.Digits | InputTranslate.cpp:30 | the decimal digits of a natural number |
| InputTranslate.ValueOfDigits | InputTranslate.cpp:30 | reading the digits of n gives n back |
| InputTranslate.SkipSpaces | InputTranslate.cpp:24 | `stoi` skips leading white space |
| InputTranslate.DigitRun | InputTranslate.cpp:24 | the length of the leading run of digits |
| InputTranslate.Stoi | InputTranslate.cpp:24 | `stoi`: a value within the 32-bit range, or nothing where the call throws |
| InputTranslate.StoiOfDigits | InputTranslate.cpp:24 | a run of digits within range reads as its value |
| InputTranslate.StoiOfNegatedDigits | InputTranslate.cpp:24 | a minus sign and digits within range read as the negated value |
| InputTranslate.StoiOfIntToString | InputTranslate.cpp:24-30 | `stoi(to_string(n)) == n` for every 32-bit n |
| InputTranslate.ToLower | InputTranslate.cpp:22 | upper-case ASCII letters become lower case, and every other character is kept |
| InputTranslate.ParseCoord | InputTranslate.cpp:21-26 | `y` is the lower-cased letter minus 'a' and `x + 1` the number after it; nothing when the string is empty or the number does not parse |
| InputTranslate.FormatCoord | InputTranslate.cpp:28-31 | the column letter followed by the decimal text of `x + 1` |
| InputTranslate.ParseOfFormat | InputTranslate.cpp:21-31 | `parse_coord(format_coord(c)) == c` for every column 0..25 and every row whose `x + 1` fits in 32 bits |
| InputTranslate.FormatOfParse | InputTranslate.cpp:21-31 | `format_coord(parse_coord(s)) == s` for a lower-case letter followed by the text of a number |
| InputTranslate.ParseExamples | InputTranslate.cpp:21-26 | "h8" and "H8" are (7, 7), "k11" is (10, 10); " a 3", "", "h" and "hx" do not parse |
| InputTranslate.Symmetric | InputTranslate.cpp:33-35 | x and y are exchanged |
| InputTranslate.SymmetricInvolution | InputTranslate.cpp:33-35 | mirroring twice gives the cell back, and the mirror of a board cell is a board cell |
| InputTranslate.ShouldSwap | InputTranslate.cpp:106-110 | swap exactly when both coordinates lie in 3..7, within 2 of the centre 5 |
| InputTranslate.ShouldSwapExamples | InputTranslate.cpp:106-110 | (5, 5) and (3, 7) are swapped; (0, 0) and (2, 5) are not |
| InputTranslate.Put | InputTranslate.cpp:119 | one cell set, all others kept |
| InputTranslate.EmptyBoard | InputTranslate.cpp:60 | a new board has every cell 0 |
| InputTranslate.RowFree | InputTranslate.cpp:47-51 | the free cells of row i before column j, in order |
| InputTranslate.FreeBefore | InputTranslate.cpp:46-52 | the free cells of the rows before i, in row-major order |
| InputTranslate.FreeCells | InputTranslate.cpp:45-52 | exactly the free cells of the board, in row-major order |
| InputTranslate.Choice | InputTranslate.cpp:53-56 | (-1, -1) exactly when no cell is free, otherwise a free board cell |
| InputTranslate.Respond | InputTranslate.cpp:118-124 | the opponent's cell is set to 2 without a validity check; the reply is a free cell other than it, set to 1; no other cell changes; a full board ends the game |
| InputTranslate.Turn | InputTranslate.cpp:115-124 | "finish" ends the loop; a line that does not parse is refused; any other line is answered |
| InputTranslate.TurnKeepsStones | InputTranslate.cpp:115-124 | every cell still holds 0, 1 or 2 after a round |
| InputTranslate.OpponentOverwrites | InputTranslate.cpp:118-119 | an opponent move onto the program's own stone overwrites it with 2 |
| InputTranslate.Replay | InputTranslate.cpp:112-127 | `game_loop` over a list of lines: answered until one line does not place a stone; every reply but the last placed one |
| InputTranslate.ReplayAdvance | InputTranslate.cpp:114-126 | one more round of the loop either goes on or ends with the replay's result |
| InputTranslate.ReplayKeepsStones | InputTranslate.cpp:112-127 | every cell still holds 0, 1 or 2 after the loop |
| InputTranslate.OpeningReplyAsWritten | InputTranslate.cpp:99-102 | the reply to an opening that is not swapped, as written: a free cell set to 1, the opening not recorded |
| InputTranslate.SecondAsWritten | InputTranslate.cpp:88-104 | `play_second` as written: refused when the opening does not parse, the mirrored cell set to 1 when swapped, otherwise the reply above |
| InputTranslate.SecondRepliesOnOpening | InputTranslate.cpp:99-100 | the opening "a1" with `rand()` at 0 is answered on a1 itself |
| InputTranslate.CornerFirst | InputTranslate.cpp:46-54 | a free corner (0, 0) is the first free cell |
| InputTranslate.Second | InputTranslate.cpp:88-104 | the corrected `play_second`: a reply that is not a swap records the opening as 2 and is played on another cell |
| InputTranslate.GomokuAI.constructor | InputTranslate.cpp:60-63 | an empty board and both flags false |
| InputTranslate.GomokuAI.IsValid | InputTranslate.cpp:37-41 | valid exactly when the cell is one of the free cells |
| InputTranslate.GomokuAI.FindValidMove | InputTranslate.cpp:43-57 | entry `rand() % n` of the free cells in row-major order, or (-1, -1) on a full board |
| InputTranslate.GomokuAI.Answer | InputTranslate.cpp:118-125 | the board updates of one answered move |
| InputTranslate.GomokuAI.Round | InputTranslate.cpp:115-125 | one round of `game_loop` on one line |
| InputTranslate.GomokuAI.GameLoop | InputTranslate.cpp:112-127 | the board and the replies are those of replaying the lines; the flags are kept |
| InputTranslate.GomokuAI.PlaySecondAsWritten | InputTranslate.cpp:88-104 | `play_second` as written, setting `is_swapped` when it swaps |
| InputTranslate.GomokuAI.PlaySecond | InputTranslate.cpp:88-104 | the corrected `play_second`, setting `is_swapped` when it swaps |

## Left out

- Console I/O: `main` of both C++ engines, `play_game`, and `run`/`play_first` with their `getline`, printing and `fflush`.
- The wall-clock budgets of both `HexBot`s: replaced by an iteration count.
- How random numbers are generated and seeded (`mt19937`, `random_device`, `srand`/`rand`, `random`): only the choice among candidates is modelled.
  - `find_valid_move` takes `rand()` as a parameter.
- The floating-point UCB formulas (`log`, `sqrt`, the 1.414 factor): the value of a visited child is a function the caller supplies.
  - Consequently, `HexEngine.SelectChild`, `Mocts.BestUct` and `LegacyEngine.LegacySelectChild` prove only the selection structure, not the UCB value.
- `HexEngine.SelectChild` does not say when a null selection actually happens.
  - That depends on the supplied UCB values: an all-visited child list whose values are all at most -1.
  - `HexEngine.Iterate` and `HexEngine.HexBot` carry the crash as an outcome instead.
- Rounding of `double` scores: scores are sums of small integers and are kept exact.
  - `LegacyEngine.LegacyBestChild` and `LegacyEngine.LegacySelectChild` compare exact quotients.
- The theorem that exactly one colour connects on a full Hex board: the code only orders its checks.
- Memory management: the tree is an arena that is never freed, as the code never frees it.
- Integer widths of the engines: board indices and counts stay far below the 32-bit limits.
  - In the adapter, the 32-bit range is modelled where it matters: in `stoi` and in `to_string(c.x + 1)`.
- `tolower` outside ASCII: the model lower-cases only 'A'..'Z', as the "C" locale does.
- `Mocts.Iterate`: scores its rounds with the corrected `Mocts.Simulate` (finding 3), not with `simulate` as MOCTS.py:113-122 writes it, which returns 0 from every state that is not already over; so the statistics that `Mocts.MctsDecision` ranks children by come from the corrected code. The playout is a nondeterministic choice, so the score is tied to the playout it returns, not fixed as a number.
- `LegacyEngine.LegacySimulate`: plays out over the corrected `isWin`, not over `src/hex.cpp`'s, which reads past its 121-entry `parent` vector (finding 1) and lets the column sentinels join the row sentinels (finding 2).
  - In `LegacyEngine.LegacyHexBot` that call is never reached: every playout starts on a full board, so it makes no move and returns 0 (`LegacyEngine.FullBoardDraws`).
- `InputTranslate.FormatOfParse`: rows are unbounded integers, so the round trip also covers the text of `INT_MIN`, where `stoi(...) - 1` in `parse_coord` overflows `int` (undefined behaviour).
  - `InputTranslate.ParseCoord` likewise computes the row without 32-bit wrap-around.

## Findings

| source | as written | input that shows it | evidently intended | confidence | as-written member | corrected member |
|---|---|---|---|---|---|---|
| src/hex.cpp:185-223 | `parent` holds 121 entries, yet `unite` and `find` are called on the sentinels 121..124 | any board: a border stone's union, or the final `find(121)`, indexes past the end of the vector | a forest with room for the four sentinels, as in src/HEX_new.cpp:124 | not executed | LegacyWin.LegacyIsWinAsWritten | LegacyWin.LegacyIsWin |
| src/hex.cpp:207-212 | with room for the sentinels, the column unions still run for the player whose rows are asked about | player 1 stones at (0, 0) and (10, 0) only: both join sentinel 123, which joins 121 to 122, so `isWin` is true with no chain | only the row sentinels 121 and 122 are united | not executed | LegacyWin.LegacyIsWinSized, LegacyWin.LegacyColumnLeak | LegacyWin.LegacyIsWin |
| MOCTS.py:118-119 | `simulate` asks `is_win(current_player)`, which asks about the player who did not make the last move | a 1×1 board with player 1 to move: the only move wins for player 1, yet the result is 0 | ask whether the previous player won, as the comment on line 119 says | not executed | Mocts.SimulateAsWritten, Mocts.OneCellPlayout | Mocts.Simulate |
| InputTranslate.cpp:99-100 | `play_second` answers an opening it does not swap without recording the opponent's stone | opening "a1" on a new board with `rand()` at 0: the program answers "a1", on the opponent's own stone | record the opening as 2 before answering, as `game_loop` does on line 119 | not executed | InputTranslate.SecondAsWritten, InputTranslate.SecondRepliesOnOpening | InputTranslate.Second |
