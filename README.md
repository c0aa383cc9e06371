# Grid path finding: Greedy Best-First Search and A*

A Dafny model of the search engine in `main.py`. The engine finds a path
between two cells of a 2-D grid in which 0 marks a walkable cell. It moves
only orthogonally and uses the Manhattan distance as its heuristic. Two
strategies share one loop:

- **Greedy Best-First Search** keys the open set by the estimate alone.
- **A\*** keys it by cost so far plus estimate, and charges one per step.

Both strategies pop a node of minimum key and stop when they pop the goal.
Otherwise they create a node for each walkable neighbour not yet visited,
mark that neighbour visited at once, and put it in the open set. A found path
is rebuilt by following back-links from the goal node.

Files:

- `wrappers.dfy`: `Option`.
- `grid.dfy`, module `Grid`. It holds:
  - the maze and its cells;
  - `calculate_manhattan_distance` and its metric facts;
  - `find_walkable_neighbors`, as a loop over the four moves;
  - walks and paths over the maze.
- `nodes.dfy`, module `Nodes`. It holds:
  - `PathNode` with `total_distance` and `__lt__`;
  - the back-link chain;
  - `build_path`, as a loop that follows back-links and then reverses.
- `frontier.dfy`, module `Frontier`. It holds the open set: a class
  `PriorityQueue` whose entries are (key, node) pairs. `Get` removes any entry
  of minimum key.
- `search.dfy`, module `Search`. It holds:
  - the shared search loop, `Search`, parameterised by `Strategy`;
  - its inner loop over neighbours, `EnqueueUnvisited`;
  - the two entry points `GreedyBestFirstSearch` and `AStarSearch`;
  - the invariants of the loop and the lemmas about them.
- `scenarios.dfy`, module `Scenarios`. It holds what the contracts imply for:
  - a walled-in goal;
  - the five-by-five demonstration maze;
  - a start equal to the goal.

Python object references (`previous`) are modelled as indices into an arena:
the sequence of all nodes a search has created, in creation order. Each node's
back-link points to an earlier index, so the chain ends at the start node.

What is proved about the searches, for every rectangular non-empty maze and
every start and goal:

- **A returned path is a real path.** It is non-empty, starts at `start` and
  ends at `goal`. Each cell is one orthogonal step from the one before. Every
  cell after the first is in bounds and walkable. No cell repeats.
- **`None` is returned exactly when no walk from `start` to `goal` exists.**
  The search is complete.
- **`start == goal` returns `[start]`.**
- **Each search terminates.** The measure is the number of unvisited in-bounds
  cells plus the size of the open set.
- **Costs and keys.** Under A* a node's `distance_from_start` equals the
  number of back-links behind it. Its key is that cost plus its Manhattan
  distance to the goal. Under Greedy the cost stays 0. Under both, the key
  equals `total_distance`, the value `__lt__` compares.

## Model

| member | source | states |
|---|---|---|
| Grid.Abs | main.py:23 | the result is non-negative and is `x` or `-x` |
| Grid.Manhattan | main.py:22-23 | the distance is a natural number, and it is zero exactly when the two points are equal |
| Grid.ManhattanMetric | main.py:22-23 | the distance is symmetric and satisfies the triangle inequality |
| Grid.HeuristicStep | main.py:22-23 | one orthogonal step changes the distance to any fixed cell by exactly +1 or -1 |
| Grid.OneMoveIsAdjacent | main.py:29-32 | the four moves right, down, left and up reach exactly the cells at Manhattan distance 1 |
| Grid.WalkableStepsMembers | main.py:31-37 | filtering the moves keeps at most one cell per move, and keeps exactly the targets that are in bounds and hold 0 |
| Grid.WalkableSteps | main.py:29-37 | specification of `find_walkable_neighbors`: the targets of the moves, in move order, kept when walkable. `Grid.WalkableStepsMembers` proves what it contains |
| Grid.FindWalkableNeighbors | main.py:26-38 | the loop returns the walkable targets in the order right, down, left, up. There are at most 4 of them, and a cell is listed exactly when it is in bounds, holds 0 and is one step from `position` |
| Grid.Admissible | main.py:22-23 | no walk from `a` to `b` has fewer than Manhattan(a, b) steps, so the heuristic never overestimates |
| Grid.WalksStayInClosedSet | main.py:66-74 | a set that contains `a` and every walkable neighbour of each of its cells contains every cell a walk from `a` reaches |
| Nodes.PathNode.TotalDistance | main.py:14-16 | definition: cost so far plus estimate. `Search.CostIsDepth` proves that on search nodes it is the queue key |
| Nodes.PathNode.Less | main.py:18-19 | definition: comparison by `total_distance` alone. `Search.LessMatchesPriority` proves it orders search nodes exactly as their keys do |
| Nodes.Chain | main.py:41-47 | specification of `build_path`: the positions along the back-links, oldest first. `Nodes.ChainShape` and `Search.ChainIsPath` prove what it contains |
| Nodes.Reversed | main.py:47 | definition of `path[::-1]`. `Nodes.ReversedAt` proves its length and elements |
| Nodes.Root | main.py:44-46 | following back-links from a node ends at a node with no `previous` that was created no later |
| Nodes.ReversedAt | main.py:47 | `path[::-1]` keeps the length, and element `k` of the result is element `len-1-k` of the input |
| Nodes.ChainShape | main.py:41-47 | the chain of a node is non-empty and has one cell per node on it. It begins at the root's position and ends at the node's own position |
| Nodes.NotInChain | main.py:41-47 | a position held by no node created up to `p` does not appear in `p`'s chain |
| Nodes.BuildPath | main.py:41-47 | the loop that collects positions along the back-links and then reverses them returns exactly the chain, oldest first |
| Frontier.MinimumExists | main.py:61 | a non-empty open set has an entry of minimum key |
| Frontier.PriorityQueue.constructor | main.py:56 | a new open set is empty |
| Frontier.PriorityQueue.Put | main.py:57 | `put` appends the (key, node) entry and keeps every other entry |
| Frontier.PriorityQueue.Empty | main.py:60 | `empty()` is true exactly when there are no entries |
| Frontier.PriorityQueue.Get | main.py:61 | `get` returns an entry that was present and has a key no larger than any other. It removes exactly that one entry |
| Search.StepCost | main.py:101 | definition of the cost rule: A* sets a new node's cost to its parent's cost plus one; under Greedy it keeps the default 0 (main.py:10). `Search.CostIsDepth` proves its meaning |
| Search.Priority | main.py:57 | definition of the queue key: the estimate for Greedy (main.py:57, 73) and `total_distance` for A* (main.py:86, 103). `Search.CostIsDepth` proves its meaning |
| Search.AllExpanded | main.py:60 | when the open set is empty (the exit test before `return None`), every created node has been expanded |
| Search.PositionsAppend | main.py:74 | creating a node adds its cell to the set of created cells |
| Search.PositionsExact | main.py:58 | a cell is visited exactly when some created node holds it |
| Search.PositionOf | main.py:66-74 | the cell of every created node is visited |
| Search.UnvisitedShrinks | main.py:67-74 | marking an unvisited in-bounds cell visited lowers the number of unvisited cells by one |
| Search.PopKeepsInvariants | main.py:61 | after `get`, every remaining entry still names a created node under its key. Every other node is either expanded or still queued |
| Search.PushKeepsInvariants | main.py:66-74 | a new node for an unvisited walkable neighbour keeps the invariants: it is reached from its parent by one step, its cost and estimate are the prescribed ones, no cell is created twice, and the open set accounts for every unexpanded node |
| Search.EnqueueKeepsSearchState | main.py:67-74 | enqueueing one neighbour keeps the search state and trades one unvisited cell for one queue entry |
| Search.ChainIsPath | main.py:63-64 | the back-link chain of every created node is a path from `start` to that node's cell: connected, walkable after the first cell, with no repeats |
| Search.CostIsDepth | main.py:101-103 | under A* a node's cost is its number of back-links and its key is cost plus Manhattan distance to the goal. Under Greedy the cost is 0. In both the key is `total_distance` |
| Search.LessMatchesPriority | main.py:18-19 | on search nodes `__lt__` holds exactly when the key is smaller, so entries with equal keys are left unordered |
| Search.CloseKeepsInvariants | main.py:66-74 | once all neighbours of the popped node are visited, the node joins the expanded set, and the expanded set stays closed under walkable neighbours within `visited` |
| Search.WalksStayInClosedSetEverywhere | main.py:76 | if the expanded set holds `start` but not `goal` and is closed under walkable neighbours, then no walk from `start` to `goal` exists |
| Search.GrewByStep | main.py:67-74 | skipping a visited neighbour, or appending one node linked to `cur` together with its entry, keeps the old nodes and entries and adds new entries only for new nodes, in order |
| Search.EnqueueIfUnvisited | main.py:67-74 | one pass of the inner loop. The neighbour ends up visited. If it was visited already, the arena and the open set are unchanged. Otherwise exactly one node is appended: at the neighbour's cell, linked to `cur`, with the strategy's cost and the Manhattan estimate. Exactly one entry is appended too: that node's key and index. The search state is kept and the termination measure is unchanged |
| Search.EnqueueUnvisited | main.py:66-74 | after the inner loop `visited` is the old set plus every listed neighbour. The old nodes and entries are unchanged. Every new node is linked to `cur` and sits at one of the neighbours. The new entries are exactly the new nodes, in creation order, each under its key, so each cell is put in the open set at most once. The popped node is unchanged, the search state is kept and the termination measure is preserved |
| Search.Search | main.py:50-106 | the shared loop returns a path from `start` to `goal` with no repeated cell, or `None` only when no walk exists. With `start == goal` it returns `[start]` |
| Search.GreedyBestFirstSearch | main.py:50-76 | Greedy returns a repeat-free path from `start` to `goal`, `None` exactly when no walk exists, and `[start]` when `start == goal` |
| Search.AStarSearch | main.py:79-106 | A* returns a repeat-free path from `start` to `goal`, `None` exactly when no walk exists, and `[start]` when `start == goal` |
| Scenarios.OnlyFirstCellTouchesEnclosedGoal | main.py:66-74 | a walk into a goal with no walkable neighbour has exactly two cells, the first of which is next to the goal |
| Scenarios.EnclosedGoalUnreachable | main.py:76 | no walk exists to a goal that has no walkable neighbour and is not next to `start` |
| Scenarios.SearchEnclosedGoal | main.py:76 | both searches return `None` for such a goal |
| Scenarios.DemoGridHasWalk | main.py:118-126 | the demonstration maze has a walk from (0, 0) to (4, 4) |
| Scenarios.SearchDemoGrid | main.py:118-126 | on the demonstration maze both searches find a path from (0, 0) to (4, 4) with at least 9 cells |
| Scenarios.SearchStartIsGoal | main.py:53-64 | with `start == goal` both searches return `[start]`, whatever the maze holds at `start` |

## Left out

- `measure_execution_time` (main.py:109-113) reads the wall clock. The demonstration block (main.py:117-145) only prints. Neither is modelled; only the demonstration maze itself appears, in `Scenarios`.
- `queue.PriorityQueue` is a locking wrapper over a binary heap. The model keeps an unordered list of entries and lets `Get` remove any entry of minimum key. This covers every order the heap can produce, but it does not model which one the heap picks.
- Frontier.PriorityQueue.Get: does not model the tie-break between equal keys. Python compares the nodes with `__lt__` (main.py:18-19), and `Search.LessMatchesPriority` shows that this never orders two search nodes with equal keys.
- Search.AStarSearch: does not claim a shortest path. Cells are marked visited when they are enqueued, and ties are open. So a cell can first be created from a parent with the same key but a larger cost, and the code does not guarantee optimality. A* is usually described as returning shortest paths; the model follows the code, which does not promise that.
- Grid.IsGrid: every search requires a non-empty rectangular maze. The code reads `len(maze[0])` and never checks row lengths, so an empty maze with `start == goal` would still return `[start]` in Python. There is no `InvalidGridError` in the code, so the model has no error path for it.
- `start` and `goal` are not validated, as in the code: a blocked or out-of-bounds start is accepted, and only the cells after the first must be walkable.
- Python integers are unbounded, so the model uses `int` with no wrap-around.
- `PathNode` field defaults and the assignments made after construction (main.py:68-72, 97-102) are modelled as construction followed by record updates. The back-link is an arena index instead of an object reference.
