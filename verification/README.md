# Four AI-lab exercises in Dafny

This project models the algorithmic core of four small exercises and proves
properties of the model:

- **8-puzzle breadth-first search** (`lab2/8puzzle.py`). A board is a 3×3
  grid (`GridPuzzle.Grid`). `find_blank` returns the first blank in
  row-major order. `is_valid` is the predicate `Directions.InGrid`.
  `get_neighbors` swaps the blank with each in-grid neighbour, in the order
  Up, Down, Left, Right. `bfs` is a FIFO search. It tests for the goal before
  it tests the visited set.
- **8-puzzle A\*** (`lab6/astar.py`). A board is a flat sequence of nine
  tiles (`FlatBoard.Board`). A `PuzzleState` is a `SearchTree.Node`. Nodes
  live in an arena (a sequence), and a parent link is an arena index.
  `expand` and `build_path` are modelled on these nodes, and so are the two
  heuristics (misplaced tiles and Manhattan distance). `a_star` keeps a
  frontier of arena indices, pops any node of least cost, keeps a closed set
  of boards, and counts the pops. `AStarClosure` holds the invariant that
  shows an empty frontier means the goal is unreachable.
- **Propositional model checking** (`prepositinallogic.py`). There are the
  connectives, the eight-row truth table over (Q, P, R) in `itertools.product`
  order, and `check_entailment` with Python's indexing semantics (negative
  indices, `IndexError`).
- **Tic-tac-toe minimax** (`tictactoe.py`). There are `available_moves`,
  `check_winner` over the eight lines, `minimax` and `get_computer_move`.

Both searches share the move type and the direction table in
`Directions`. `GridPuzzle.ApplyMoveAgrees` proves that a move on the 3×3
grid and the same move on the flat board agree.

Where the raw source raises an exception, the model returns an error value
instead:

- a board without a blank (`bfs` unpacks `None`, `blank_pos` calls
  `list.index`);
- a tile the goal lacks (`goal.index` in the Manhattan heuristic);
- a column index outside the row (`check_entailment`).

Both search loops terminate in the source. Every board they meet holds the
start's nine tiles, so there are finitely many boards. `bfs` expands each
board once, and `a_star` pushes only boards it has not closed. The model
does not prove this termination. Instead it bounds each loop with a `fuel`
parameter and reports `OutOfFuel` when the fuel runs out.

The docstring of `minimax` says that X is the minimising player and that
the algorithm uses alpha-beta pruning. The code does neither: X (`'X'`,
the computer) maximises, and there is no pruning. The model follows the
code.

Modules and files:

| file | module | models |
|---|---|---|
| wrappers.dfy | Wrappers | `Option` |
| directions.dfy | Directions | the four moves, their order and displacements, the swap of two cells |
| grid_puzzle.dfy | GridPuzzle | `find_blank`, `get_neighbors`, and paths of moves on the 3×3 grid |
| bfs_queue.dfy | BfsQueue | the queue and visited-set invariant of `bfs` |
| puzzle_bfs.dfy | PuzzleBfs | `bfs` |
| flat_board.dfy | FlatBoard | `blank_pos`, the swap in `expand`, and both heuristics |
| search_tree.dfy | SearchTree | `PuzzleState`, `expand` and `build_path` |
| astar.dfy | AStar | `a_star` |
| astar_closure.dfy | AStarClosure | the closed-set invariant of `a_star` |
| truth_table.dfy | TruthTable | `prepositinallogic.py` |
| tictactoe.dfy | TicTacToe | `tictactoe.py` |

## Model

| member | source | states |
|---|---|---|
| Directions.InGrid | lab2/8puzzle.py:23-24 | `is_valid`: row and column both lie in 0..2. It has no contract of its own; MovesInGridComplete, NeighbourOfCell and MoveAtAgrees state what it decides. |
| Directions.MovesInGridComplete | lab2/8puzzle.py:30-32 | A direction is offered from a cell exactly when its target cell lies inside the 3×3 grid. |
| Directions.MovesInGridOrdered | lab2/8puzzle.py:10-15 | The offered directions keep the order Up, Down, Left, Right. |
| Directions.InGridMoveCount | lab2/8puzzle.py:30-36 | From any cell of the grid between two and four directions are offered, and four exactly from the centre. |
| Directions.SwapAt | lab2/8puzzle.py:35 | Exchanging two cells puts each cell's old content in the other and leaves every other cell alone. |
| Directions.SwapIsPermutation | lab6/astar.py:30-31 | A swap rearranges the tiles without adding or losing any (multiset equality). |
| Directions.SwapTwiceRestores | lab6/astar.py:31 | Swapping the same two cells back restores the board. |
| GridPuzzle.FindBlankFrom | lab2/8puzzle.py:18-21 | Scanning from a position yields the first blank at or after it in row-major order, or nothing exactly when no later cell is blank. |
| GridPuzzle.FindBlank | lab2/8puzzle.py:17-21 | The result is a blank cell with no blank before it in row-major order, and it is absent exactly when the grid has no blank. |
| GridPuzzle.BlankAgrees | lab6/astar.py:14-15 | The grid's first blank, read in row-major order, is the flat board's first blank: absent together, and at index row·3+col otherwise. |
| GridPuzzle.Swap | lab2/8puzzle.py:33-35 | The copy exchanges the blank's cell with the target cell and keeps every other cell. |
| GridPuzzle.FlattenSwap | lab2/8puzzle.py:35 | A swap on the grid is the swap of the matching indices on the flat board. |
| GridPuzzle.ApplyMoveAgrees | lab2/8puzzle.py:30-35 | A move is legal on the grid exactly when it is legal on the flat board, and both give the same board. |
| GridPuzzle.ApplyMovePermutes | lab2/8puzzle.py:33-35 | A neighbour holds the same tiles as the board it came from. |
| GridPuzzle.ApplyMoveRoundTrip | lab2/8puzzle.py:30-35 | On a board with one blank, the opposite move undoes a move. |
| GridPuzzle.MovedHasBlank | lab2/8puzzle.py:35 | A board produced by a move still has a blank. |
| GridPuzzle.ApplyMove | lab2/8puzzle.py:30-36 | One iteration of the loop of `get_neighbors`. It has no contract of its own; ApplyMoveAgrees, ApplyMovePermutes, ApplyMoveRoundTrip and MovedHasBlank state its properties. |
| GridPuzzle.Neighbors | lab2/8puzzle.py:26-37 | The neighbour list fails (`None`, where unpacking the result of `find_blank` raises) exactly when the board has no blank. Otherwise every entry pairs a direction with the board that direction produces. |
| GridPuzzle.NeighborsComplete | lab2/8puzzle.py:30-36 | Every legal move appears among the neighbours. |
| GridPuzzle.NeighborsOrdered | lab2/8puzzle.py:30-36 | The neighbours come in the order Up, Down, Left, Right. |
| GridPuzzle.NeighborsCount | lab2/8puzzle.py:26-37 | A board with a blank has between two and four neighbours, and four exactly when the blank is in the centre. |
| GridPuzzle.ApplyPathSnoc | lab2/8puzzle.py:54-55 | Extending a path by one move applies that move to where the path led. |
| GridPuzzle.ReachedHasBlank | lab2/8puzzle.py:54-55 | A board reached by at least one move has a blank, so only the start can lack one. |
| BfsQueue.Enqueue | lab2/8puzzle.py:54-55 | One queue entry per neighbour, in neighbour order. Each entry holds the neighbour's board and the current path extended by its move. |
| BfsQueue.EnqueueCovers | lab2/8puzzle.py:54-55 | Every board one legal move away from the expanded board is appended to the queue. |
| BfsQueue.InitialInvariant | lab2/8puzzle.py:40-41 | The initial queue and the empty visited set satisfy the search invariant. |
| BfsQueue.HeadReached | lab2/8puzzle.py:44 | The path stored with the dequeued board leads from the start to that board. |
| BfsQueue.SkipKeeps | lab2/8puzzle.py:50-51 | Dropping an entry whose board was already visited keeps the invariant. |
| BfsQueue.ExpandKeeps | lab2/8puzzle.py:52-55 | Visiting a board that is neither the goal nor visited, and appending its neighbours, keeps the invariant. |
| BfsQueue.ClosedContainsReachable | lab2/8puzzle.py:43-55 | Once the queue is empty, every board reachable from the start has been visited. |
| BfsQueue.ExhaustedUnreachable | lab2/8puzzle.py:43-55 | If the queue runs empty, no sequence of moves leads from the start to the goal. |
| PuzzleBfs.Bfs | lab2/8puzzle.py:39-55 | A returned path leads from the start to the goal, and a start equal to the goal gives the empty path. An exhausted queue means the goal is unreachable. A missing blank is reported exactly when the start is not the goal and has no blank. No board is expanded twice, and the goal is never expanded. The number of dequeues is returned. It never exceeds the fuel, and running out of fuel is reported only once it equals the fuel. |
| FlatBoard.IndexOf | lab6/astar.py:50 | `list.index`: the first position holding the value, and absent exactly when the value does not occur. |
| FlatBoard.BlankPos | lab6/astar.py:14-15 | The first index that holds 0, and absent exactly when the board has no 0. |
| FlatBoard.Neighbour | lab6/astar.py:19-29 | A move's target index exists only inside the board and differs from the blank's index. |
| FlatBoard.NeighbourOpposite | lab6/astar.py:19-29 | Moving back in the opposite direction returns to the original index. |
| FlatBoard.ApplyMove | lab6/astar.py:18-32 | One iteration of the loop of `expand`. It has no contract of its own; ApplyMovePermutes, ApplyMoveRoundTrip and GridPuzzle.ApplyMoveAgrees state its properties. |
| FlatBoard.ApplyMovePermutes | lab6/astar.py:28-31 | A successor board holds the same tiles as its parent. |
| FlatBoard.ApplyMoveRoundTrip | lab6/astar.py:17-33 | On a board with one blank, the opposite move restores the parent board. |
| FlatBoard.MisplacedTiles | lab6/astar.py:42-43 | The count is at most 9, and at most 8 on a board with a blank, because the blank is never counted. It is 0 on the goal. |
| FlatBoard.MisplacedCountsSet | lab6/astar.py:42-43 | The count equals the number of indices whose tile is neither the blank nor the goal's tile there. |
| FlatBoard.TileDistance | lab6/astar.py:49-51 | Two different indices of the board are at grid distance at least 1. |
| FlatBoard.ManhattanDistance | lab6/astar.py:45-52 | The distance is defined exactly when every non-blank tile occurs in the goal (otherwise `goal.index` raises). |
| FlatBoard.ManhattanDominatesMisplaced | lab6/astar.py:42-52 | Whenever the Manhattan distance is defined, it is at least the misplaced-tile count. |
| FlatBoard.ManhattanZeroAtGoal | lab6/astar.py:45-52 | On a goal with distinct tiles, the goal's own Manhattan distance is 0. |
| FlatBoard.Estimate | lab6/astar.py:42-52 | The estimate fails exactly where the source raises: under the Manhattan distance, on a board holding a tile the goal lacks. Where it is defined it is at least the misplaced-tile count. On a goal with distinct tiles, the goal itself is estimated at 0. |
| SearchTree.Successors | lab6/astar.py:27-32 | Every generated successor is a child of the node: one legal move away, linked to it, one level deeper, and with cost 0. |
| SearchTree.Expand | lab6/astar.py:17-33 | Expansion fails (`None`, where `list.index` raises) exactly when the board has no blank. Otherwise each successor is a child of the node, and the moves come in Up, Down, Left, Right order. |
| SearchTree.ExpandComplete | lab6/astar.py:27-32 | Every legal move of the blank yields a successor. |
| SearchTree.ExpandCount | lab6/astar.py:17-33 | A board with a blank has between two and four successors. |
| SearchTree.ExpandPermutes | lab6/astar.py:30-31 | Every successor holds the same tiles as its parent. |
| SearchTree.Chain | lab6/astar.py:36-39 | The walk up the parent links starts at the node itself. |
| SearchTree.BuildPath | lab6/astar.py:35-40 | The path has one entry per node of the parent chain and ends at the node itself. |
| SearchTree.BuildPathIsValid | lab6/astar.py:35-40 | In an arena built by expansion, the path starts at the root with depth 0. Each later entry is one legal move after the one before it, with depth one more. The length is the node's depth plus one. |
| SearchTree.ValidPathExtends | lab6/astar.py:32 | Appending a legal move at the next depth keeps a path valid. |
| SearchTree.ArenaPermutes | lab6/astar.py:30-32 | Every board in an arena built from the start holds exactly the start's tiles. |
| AStar.MalformedAtStart | lab6/astar.py:71-74 | If some arena board lacks a blank or holds a tile the goal lacks, then so does the start. |
| FlatBoard.ForeignTilePermutes | lab6/astar.py:50 | Boards holding the same tiles both do, or both do not, hold a tile the goal lacks. |
| AStar.CheapestIndex | lab6/astar.py:11-12 | The chosen frontier position holds a node whose cost is no more than any other's. |
| AStar.PopCheapest | lab6/astar.py:63 | The popped node is on the frontier and costs no more than any node on it. The remaining frontier is the old one with exactly that one entry taken out (multiset equality). |
| AStar.Unclosed | lab6/astar.py:71-73 | Every kept node is a successor whose board is not closed, and every such successor is kept. |
| AStar.UnclosedCounts | lab6/astar.py:71-73 | Each successor whose board is not closed is kept exactly as many times as it occurs, and no other node is kept. |
| AStar.UnclosedInMoveOrder | lab6/astar.py:71-73 | Skipping closed successors keeps the rest in their move order. |
| AStar.PriceAll | lab6/astar.py:74 | Pricing succeeds exactly when the heuristic is defined on every board. Each node's cost becomes its depth plus its estimate. |
| AStar.PushSuccessors | lab6/astar.py:71-75 | The arena only grows. Every pushed node is a successor whose board is not closed, with cost depth plus estimate. Every such successor is pushed, in the successors' move order, so none is pushed twice. It fails exactly when the heuristic is undefined on one of them. |
| AStar.PushKeepsWellFormed | lab6/astar.py:71-75 | Appending children of an arena node keeps the arena well formed. |
| AStar.ExpandStep | lab6/astar.py:69-75 | Expansion fails only on a board without a blank, or under the Manhattan distance on a board holding a tile the goal lacks. Under the misplaced-tile heuristic it succeeds exactly when there is a blank. On success the arena keeps its old nodes and stays well formed. The new nodes are exactly the unclosed successors priced at depth plus estimate, each once and in move order, and they are appended to the frontier. |
| AStar.EstimateFailsOnParent | lab6/astar.py:71-74 | An estimate fails on a successor only under the Manhattan distance, when the parent already holds a tile the goal lacks. |
| AStar.Solution | lab6/astar.py:66-67 | The path rebuilt for a node leads by legal moves from the start to that node's board. For the root it is the single root step. |
| AStar.Round | lab6/astar.py:63-75 | One pop takes a cheapest node. It stops with a path to the goal exactly when that node's board is the goal. It stops with an error when the board has no blank, and otherwise only on a tile the goal lacks. Else it closes the board and pushes exactly the unclosed successors, priced, each once and in move order, keeping the arena well formed. Every board one move from the popped board that is not closed is stored in a new node. The frontier loses the popped entry and gains the new nodes. |
| AStar.PushedStores | lab6/astar.py:71-75 | After a push, every board one legal move from the expanded board that is not closed is held by a newly stored node. |
| AStar.RoundFrontier | lab6/astar.py:63-75 | After a round the frontier still holds every old entry except the popped one, and holds every newly stored index. |
| AStarClosure.InitialInvariant | lab6/astar.py:55-60 | The root alone on the frontier with nothing closed satisfies the invariant: every board one move from a closed board is closed or on the frontier, the start is closed or on the frontier, and the goal is not closed. |
| AStarClosure.RoundKeeps | lab6/astar.py:62-75 | A round that pops a non-goal node, closes its board and stores every successor whose board is not closed keeps that invariant. |
| AStarClosure.PathClosed | lab6/astar.py:62-77 | With an empty frontier every board on a path of legal moves from the start is closed. |
| AStarClosure.ExhaustedUnreachable | lab6/astar.py:62-77 | With an empty frontier no path of legal moves leads from the start to the goal. |
| AStar.Run | lab6/astar.py:62-77 | The pop count never exceeds the fuel. A returned path leads by legal moves from the start to the goal. No solution is reported only once every node created has been popped, meaning the frontier is empty, and then no path of legal moves leads from the start to the goal. An error is reported only if the start lacks a blank or holds a tile the goal lacks, and a start without a blank that is not the goal does give the error. |
| AStar.Search | lab6/astar.py:54-77 | A returned path leads from the start to the goal. No solution means every node created was popped and no path of legal moves leads from the start to the goal. When the start is the goal the answer is the one-step root path after exactly one pop. The error is returned exactly where the source raises. That is either the start estimate failing on a tile the goal lacks, or the expansion of a start without a blank that is not the goal. |
| TruthTable.Implies | prepositinallogic.py:4-5 | Material implication, false exactly when the premise holds and the conclusion fails. |
| TruthTable.Or | prepositinallogic.py:7-8 | Disjunction, false exactly when both operands are false. |
| TruthTable.Not | prepositinallogic.py:10-11 | Negation flips its operand. |
| TruthTable.Product | prepositinallogic.py:19 | `itertools.product(vals, repeat=n)` has \|vals\|^n tuples. |
| TruthTable.ProductContents | prepositinallogic.py:19 | A tuple occurs in the product exactly when it has length n and every entry is one of the values. |
| TruthTable.MakeRow | prepositinallogic.py:20-41 | A row has ten entries. It opens with the assignment (Q, P, R), and each later column is that column's formula evaluated on the assignment. |
| TruthTable.ConstructTruthTable | prepositinallogic.py:14-42 | The table has eight rows of ten entries. Row k opens with the k-th assignment of the product, and every column agrees with its formula on that row's assignment. |
| TruthTable.TableOrder | prepositinallogic.py:15-20 | Rows follow product order with True first: Q is true in rows 0–3, P in rows 0, 1, 4 and 5, and R in the even rows. |
| TruthTable.AssignmentsOrder | prepositinallogic.py:19 | The k-th assignment of the product has three entries, in the same order as in TableOrder. |
| TruthTable.TableCovers | prepositinallogic.py:19-20 | Every assignment of (Q, P, R) labels exactly one row of the table. |
| TruthTable.PyIndex | prepositinallogic.py:69 | Python indexing succeeds exactly for indices from -len to len-1. |
| TruthTable.CheckEntailment | prepositinallogic.py:66-72 | If every row can be read, the answer is whether no row has the KB true and the query false. False means such a row exists, true means none does, and an error means some row cannot be read at that index. |
| TruthTable.RowMeaning | prepositinallogic.py:66-70 | Every row of the table can be read at any index from -10 to 9. The row's KB entry and query entry are the formulas of its assignment. |
| TruthTable.NoCounterModelIffEntails | prepositinallogic.py:66-72 | No row of the table has the KB true and the query false exactly when every assignment that satisfies the KB satisfies the query. |
| TruthTable.CheckIsModelChecking | prepositinallogic.py:66-72 | On the constructed table, `check_entailment` answers whether the KB entails the chosen column's formula, over all eight assignments. |
| TruthTable.CheckOutOfRange | prepositinallogic.py:69 | An index outside -10..9 makes `check_entailment` fail with an indexing error. |
| TruthTable.KnownEntailments | prepositinallogic.py:75-77 | The KB entails R and Q → R but not R → P. |
| TicTacToe.AvailableFrom | tictactoe.py:10 | The free squares from an index on, strictly ascending, and all of them. |
| TicTacToe.AvailableMoves | tictactoe.py:8-10 | A square is listed exactly when it is blank, and the list is strictly ascending. |
| TicTacToe.FillCountsDown | tictactoe.py:55-57 | Marking a blank square leaves one blank fewer, which is why the recursion ends. |
| TicTacToe.AllAre | tictactoe.py:16 | `all(...)` holds exactly when every cell is the player's mark. |
| TicTacToe.RowsFrom | tictactoe.py:15-17 | The row scan succeeds exactly when the player owns one of the remaining rows. |
| TicTacToe.ColumnsFrom | tictactoe.py:20-22 | The column scan succeeds exactly when the player owns one of the remaining columns. |
| TicTacToe.CheckWinner | tictactoe.py:12-30 | A player has won exactly when the player owns one of the 3 rows, the 3 columns or the 2 diagonals. |
| TicTacToe.Minimax | tictactoe.py:32-76 | The board is the same afterwards, and the score is -1, 0 or 1. An X win gives (1, None) and is checked first. Then an O win gives (-1, None) and a full board (0, None). Otherwise the move is a blank square. |
| TicTacToe.BestOf | tictactoe.py:55-62 | The loop over the moves restores the board. Once a move has been tried it returns a score and a move, and that move is the running best or one of the moves tried. |
| TicTacToe.GetComputerMove | tictactoe.py:78-82 | There is no move exactly when the game is over. Otherwise the move is a free square. |
| TicTacToe.BestOfStep | tictactoe.py:60-62 | One loop iteration replaces the running best exactly when the new score is strictly better. |
| TicTacToe.BestOfBound | tictactoe.py:55-76 | The loop's result is at least as good as the running best and as good as the score of every move tried. |
| TicTacToe.BestOfChoice | tictactoe.py:55-76 | The loop either keeps the running best, or it returns the value of the first remaining move that strictly beats the running best and every move before it. Because the comparison is strict, ties keep the earliest move. |
| TicTacToe.FirstBestShift | tictactoe.py:60-62 | Suppose the first score strictly beat the running best and became it, or did not beat it. Then the first strict best among the later scores is also the first strict best among all the scores. |
| TicTacToe.ValuesTail | tictactoe.py:55 | The scores of the remaining moves are the tail of the scores of all moves. |
| TicTacToe.MinimaxChoice | tictactoe.py:51-76 | In a game still in progress, the chosen move is one of the free squares. Its score is the result, no free square scores better, and every earlier free square scores strictly worse. |
| TicTacToe.MinimaxOptimal | tictactoe.py:51-76 | In a game still in progress, the returned move is a free square whose minimax value is the returned score. No free square has a better value, and every smaller free square has a strictly worse one. |

## Left out

- Console I/O and printing are left out because they have no logic to verify. This covers `print_board`, `get_player_move`, `play_game`, `print_solution`, `print_truth_table` and the module-level demo code.
- Heap internals and the heap's tie order are left out. `PuzzleState.__lt__` compares costs only, so the model's frontier pops any entry of least cost and leaves the order among equal costs open.
- PuzzleBfs.Bfs: the number of dequeues is bounded by `fuel`, in place of a termination proof. The source's loop does end: each of the finitely many permutations of the start is expanded at most once. Termination, and the claim that the returned path is a shortest one, are not proved.
- AStar.Search: the number of pops is bounded by `fuel`, in place of a termination proof. The source's loop does end, because only boards not yet closed are pushed. Termination and optimality of the returned path (admissibility of the heuristics) are not proved.
- TicTacToe.Minimax: the scores `-math.inf` and `math.inf` that start the loops are replaced by -2 and 2, which lie outside every real score.
- TicTacToe.Minimax: the in-place move and undo on the list is replaced by passing the board by value. The model proves that the board the loop leaves is the board it was given.
- `copy.deepcopy` and the slice copy in `expand` need no modelling, since sequences are values in Dafny.
- The exceptions the source raises become results. A board without a blank gives `NoBlank` or `Malformed`, and `None` from `GridPuzzle.Neighbors` and `SearchTree.Expand`. A tile missing from the goal gives `Malformed`. An index outside the row gives `None` from `check_entailment`. The exception types are not modelled.
- The `move` strings `"Up"`, `"Down"`, `"Left"`, `"Right"` and `""` are the datatype constructors `Directions.Move` and `SearchTree.Label.Start`.
