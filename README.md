# Maze path finding, modelled in Dafny

This project models the core of a maze path-finding sandbox written in
Python (`Maze.py`, `SearchAlgo.py`). The sandbox has three parts:

- An N×N occupancy grid (0 = blocked) becomes a graph of cells. Each cell
  has left, right, up and down links.
- A path finder runs one of four search engines from (0, 0) to (n-1, n-1):
  - depth-first search with parent-chain backtracking;
  - breadth-first search with a queue that never holds a cell twice;
  - A* with `g = parent.g + 1` and in-place re-parenting;
  - a fire-aware depth-first search. It orders candidates by a key that
    involves the distance to a spreading fire, and it lets the fire spread
    (`_charizard`) after every pop.
- Once the search ends, the path is rebuilt from the destination's parent
  walk and three metrics are reported.

## How the model is organised

- `cells.dfy` (module `Cells`): positions, the node record, `get_children`,
  `get_heuristic` and `__lt__`.
- `grid_graph.dfy` (module `GridGraph`):
  - the finished graph as a value (`NodeAt`, `BuildGraph`) and its
    properties;
  - the `Graph` class, whose `CreateGraphFromMaze` fills a 2-D array in the
    source's five passes. Each pass is proved to compute the value model.
- `environment.dfy` (module `Environment`): the `Maze` class over its
  `array2<int>` grids. Its operations overwrite single entries in place,
  and each says exactly which entry changes.
- `search_tree.dfy` (module `SearchTree`): value-level invariants of a
  search in progress and the lemmas that each engine step preserves them.
  - `Tree`: parent links are well-founded and link adjacent cells, and
    nothing is expanded twice.
  - `Closed`: every expanded cell that has left the fringe had all its
    neighbours discovered.
  - It also holds what the invariants give at the end: the parent walk
    (`Chain`) reaches the root, and a dry fringe means every reachable cell
    was expanded.
- `astar.dfy` (module `AStarSearch`): A* bookkeeping as a value
  (`Frontier`) and the relaxation step as a function. The lemmas show that
  relaxation keeps the distances equal to the parent-walk lengths and, by
  grid parity, never lengthens a recorded distance.
- `path_finder.dfy` (module `PathFinding`): the `PathFinder` class.
  - Its fields are the lists and maps the engines update (`visited`,
    `fringe`, `path`, `maxFringeLength`, `parent`, and the three distance
    maps).
  - Each engine is a method whose loop carries the invariants above. Each
    loop body is a separate step method (`DfsStep`, `BfsStep`, `AStarStep`,
    `FireStep`, and `BacktrackPass` for the backtracking loop). Each step
    states the new fringe, expanded list and parent map. The `...Round`
    methods add the fringe-size bookkeeping at the loop head.
  - The ghost field `fringeSizes` records the fringe size at the head of
    every loop pass. `LargestFringe` ties `maxFringeLength` to it: the
    field is one of the recorded sizes and no smaller than any of them.
  - `RunPathFinderAlgorithm` is the dispatcher. It returns the code or
    names the exception the source would raise (`Outcome`).

Source facts the model represents explicitly:

- **Node identity.** Node equality on `__dict__` (`Maze.py:40-41`) compares
  `row` and `column` before any link, so cells are identified by position.
  Per-run scratch (parent, distances) lives in maps on the path finder.
- **Distances.** The Euclidean distances are abstract functions of the path
  finder (`destDistance`, `fireDistance`). The fire score needs at least one
  burning position: `min` of an empty list raises `ValueError`.
- **Random choices.** Each fire ignition is a free choice
  (`var ignite: bool :| true`). A* `PriorityQueue.get` removes some queued
  cell (`var i :| ...`).
- **Errors.** Every engine dereferences the corner cells, so a missing
  corner raises `AttributeError`. An empty grid raises `IndexError` at
  `graph_maze[0, 0]`. A burning mark without a cell makes `_charizard`
  raise `AttributeError`.
- **Other tags.** Any tag other than "dfs", "bfs" and "astar" (for example
  "thin_astar") runs the fire-aware search, as the dispatcher's `else`
  branch does. Its candidates are then not reordered.
- **Two tags.** The path finder's tag (`algorithm`) picks the engine, the
  child order of `get_children` and whether candidates are scored. The
  cells carry the tag the environment's graph was built with
  (`env.algorithm`, default None). `__lt__` and `get_heuristic` read the
  cells' tag. The two tags need not agree:
  - Under a cells' tag other than "firealgo", the fire-aware queue orders
    by distance from the source plus distance to the destination. Every
    cell that search queues still has the initial infinite distance from
    the source, so all keys tie.
  - A* over cells tagged "firealgo" adds the unset fire distance and
    raises TypeError. `RelaxChild` and `ExpandAStar` say exactly when.
  - The default tag None behaves like any string other than the four
    tags, so the model represents it by such a string.
- **Fire reach.** `_charizard` ignites only the immediate neighbours of
  each burning cell (`beta`, `SearchAlgo.py:284-298`). The list passed to
  `np.random.choice` is its positional `replace` argument, so each draw is
  a fair coin and the count `k` has no effect.
- **Link order.** The graph is wired in passes: left links, then right,
  up and down (`Maze.py:84-116`). Each pass sets only its own direction.

## Model

| member | source | states |
|---|---|---|
| Cells.GetChildren | Maze.py:61-67 | four entries, and a position is among them exactly when the node links to it |
| Cells.BfsOrderReversesDfsOrder | Maze.py:61-67 | "bfs" enumerates right, down, up, left: the exact reverse of the "dfs" order |
| Cells.OtherTagsEnumerateAsDfs | Maze.py:61-67 | every tag other than "bfs" enumerates left, up, down, right |
| Cells.LtIsHeuristicPreorder | Maze.py:46-59 | `__lt__` compares the `get_heuristic` values with `<=`: it is reflexive, total and transitive, so not strict |
| Cells.AStarKeyCancelsDestination | SearchAlgo.py:239 | the A* re-parenting test holds exactly when the child's distance from the source is at least the node's |
| GridGraph.BuildGraph | Maze.py:74-116 | the graph has the grid's shape and each slot is the finished slot `NodeAt` |
| GridGraph.NodeAtHoldsPassableCells | Maze.py:75-82 | a slot holds a cell exactly when the grid entry is not 0, and that cell carries the entry's value, row and column |
| GridGraph.LinksNameInGridNeighbours | Maze.py:84-116 | each link names the adjacent position in its direction exactly when that position is on the grid and passable; edge cells have no link off the grid (no wrap-around) |
| GridGraph.LinksAreSymmetric | Maze.py:84-116 | a.right is b exactly when b.left is a, and a.down is b exactly when b.up is a |
| GridGraph.BuiltCellsArePassable | Maze.py:75-82 | a position of the built graph is a cell exactly when it is in the grid and passable, and the cell is `NodeAt` |
| GridGraph.NodeAtLinksAreAdjacent | Maze.py:84-116 | every link of a finished slot leads to an adjacent passable position |
| GridGraph.BuiltLinkLeadsToAdjacentCell | Maze.py:84-116 | every link of the built graph leads to an adjacent cell |
| GridGraph.BuiltGraphIsWellLinked | Maze.py:74-116 | the built graph is square, its nodes sit at their own positions and its links join adjacent cells |
| GridGraph.PassesBuildNodeAt | Maze.py:74-116 | the first pass and the left, right, up and down passes together produce the finished slot |
| GridGraph.Graph.constructor | Maze.py:69-72 | an all-empty slot array shaped like the grid |
| GridGraph.Graph.CreateGraphFromMaze | Maze.py:74-116 | afterwards every slot of the array equals `NodeAt` of the grid |
| GridGraph.Graph.CreateCells | Maze.py:75-82 | afterwards every passable position holds a link-less cell with its value and position, and blocked ones stay empty |
| GridGraph.Graph.LinkPass | Maze.py:84-116 | one pass sets the link in its direction of every cell whose neighbour is on the grid, to that neighbour's cell or to none, and leaves every other slot as it was |
| Environment.CopyGrid | Maze.py:146-147 | a fresh array with the same entries |
| Environment.Maze.FromMaze | Maze.py:142-149 | the given grid is kept, the original and display grids are fresh copies of it, and the graph is built from the grid |
| Environment.Maze.CreateGraphFromMaze | Maze.py:167-169 | a fresh graph built from the current grid; the grids are unchanged |
| Environment.Maze.UpdateColorOfCell | Maze.py:189-192 | the display entry becomes -1 unless the grid holds 4 there; no other entry changes |
| Environment.Maze.ResetColorOfCell | Maze.py:194-197 | the display entry becomes 2 unless the grid holds 4 there; no other entry changes |
| Environment.Maze.WildFire | Maze.py:199-202 | the display entry becomes 3 except at (0, 0) and (n-1, n-1); no other entry changes |
| Environment.Maze.ResetEnvironment | Maze.py:204-207 | the grid and the display grid become fresh copies of the original, and the graph is rebuilt |
| Environment.Maze.ModifyEnvironment | Maze.py:209-223 | the entry flips in place (0 becomes 1, anything else 0) and no other entry changes; when the grid is the original grid itself, the original changes with it; the display grid equals the grid and the graph is rebuilt |
| Environment.Maze.ModifyEnvironmentWithMaze | Maze.py:209-223 | any grid of the right size is adopted as it is, even the original grid itself; the display grid equals it and the graph is rebuilt from it |
| SearchTree.Visit | SearchAlgo.py:120-121 | the expanded list gains u and nothing else |
| SearchTree.IndexOf | SearchAlgo.py:120-121 | the first index holding x, which is the rank `Rank` gives a cell in the order of expansion |
| SearchTree.Remove | SearchAlgo.py:160 | `pop(i)` shortens the list by one |
| SearchTree.RemoveKeepsNoDup | SearchAlgo.py:160 | popping keeps a list free of repeats |
| SearchTree.RemoveMembers | SearchAlgo.py:160 | popping entry i keeps every other entry |
| SearchTree.StartIsTree | SearchAlgo.py:102-103 | the root queued and expanded is a search tree and closed |
| SearchTree.RemoveKeepsTree | SearchAlgo.py:111 | taking a cell off the fringe keeps the search tree |
| SearchTree.VisitKeepsTree | SearchAlgo.py:120-121 | expanding the root or a cell with a parent keeps the search tree |
| SearchTree.PopKeepsSearch | SearchAlgo.py:111-121 | pop and expand: the cell is the root or has a parent, the tree survives, closure holds except at that cell, and the termination measure drops |
| SearchTree.PopKeepsClosure | SearchAlgo.py:111-121 | after pop and expand, closure holds except at the popped cell |
| SearchTree.GrowFringeKeepsClosure | SearchAlgo.py:137 | queueing a cell never undoes closure |
| SearchTree.ExpandedCloses | SearchAlgo.py:124-142 | once the cell being expanded has all its neighbours discovered, the search is closed |
| SearchTree.AdoptKeepsTree | SearchAlgo.py:233-241 | giving an unexpanded neighbour of an expanded cell that cell as parent keeps the tree |
| SearchTree.Adopt | SearchAlgo.py:135-137 | the parent map after the loop: each kid maps to node, other entries are unchanged |
| SearchTree.PushKeepsTree | SearchAlgo.py:135-137 | queueing the unexpanded neighbours of an expanded cell, with it as parent, keeps the tree |
| SearchTree.PushKeepsCount | SearchAlgo.py:135-137 | queueing unexpanded cells adds no expanded cell to the fringe |
| SearchTree.PushKeepsClosure | SearchAlgo.py:135-137 | queueing cells keeps every closure fact |
| SearchTree.PushSettles | SearchAlgo.py:129-138 | queueing the candidates of an expanded cell with it as parent (or nothing, when it has none) keeps the tree and the count of expanded cells on the fringe, leaves every neighbour of the cell expanded or queued, and keeps every closure fact |
| SearchTree.NewKids | SearchAlgo.py:168-173 | the cells breadth-first search queues: a kid exactly when it is not already queued |
| SearchTree.NewKidsKeepNoDup | SearchAlgo.py:168-173 | queueing only cells not yet queued keeps the fringe free of repeats |
| SearchTree.VisitShrinksUnexpanded | SearchAlgo.py:120-121 | expanding a new cell leaves strictly fewer passable cells unexpanded |
| SearchTree.CountBound | SearchAlgo.py:87-88 | a list of cells without repeats is no longer than the number of passable cells |
| SearchTree.Chain | SearchAlgo.py:54-58 | the parent walk starts at p, follows a parent link at each step and stops at the first cell without a parent |
| SearchTree.ChainDescends | SearchAlgo.py:54-58 | each step of the parent walk lands on a cell expanded earlier |
| SearchTree.ChainHasNoDup | SearchAlgo.py:54-58 | no cell repeats on the parent walk, so `_get_final_path` terminates |
| SearchTree.ChainEndsAtRoot | SearchAlgo.py:54-58 | in a search tree the parent walk from the root or a cell with a parent ends at the root |
| SearchTree.ChainStepsAreLinks | SearchAlgo.py:54-58 | each step of the parent walk goes from a cell to a cell that links to it |
| SearchTree.ChainWalksFromRoot | SearchAlgo.py:175-188 | read backwards, the parent walk runs from the root through cells by linked, grid-adjacent steps |
| SearchTree.WalkStepsAreAdjacent | SearchAlgo.py:375-379 | every walk of the graph moves between grid-adjacent positions |
| SearchTree.Reverse | SearchAlgo.py:378 | `[::-1]`: same length, entry i is entry len-1-i |
| SearchTree.ReverseReverse | SearchAlgo.py:378 | reversing twice gives the list back |
| SearchTree.ReverseKeepsNoDup | SearchAlgo.py:378 | reversing keeps a list free of repeats |
| SearchTree.ClosedContainsWalk | SearchAlgo.py:104 | with the fringe empty, a closed search contains every walk that starts at an expanded cell |
| SearchTree.ClosedContainsReachable | SearchAlgo.py:104 | a search whose fringe ran dry has expanded every cell reachable from the root |
| SearchTree.ParentWalkIsPath | SearchAlgo.py:375-379 | the reversed parent walk of a cell with a parent has two or more cells, runs from the root to it by adjacent linked steps, and repeats none |
| SearchTree.FinishedSearchFindsPath | SearchAlgo.py:54-58 | after a finished search the parent walk from the destination is longer than one exactly when the destination is reachable and is not the root; reversed, it is then a path from the root |
| SearchTree.ChainMeasuresDistance | SearchAlgo.py:233-241 | a recorded A* distance is the number of steps of the parent walk back to the root |
| SearchTree.RootParity | SearchAlgo.py:208 | the root at distance 0 has its own parity |
| SearchTree.ParityStep | SearchAlgo.py:236 | one step to an adjacent cell flips the parity |
| SearchTree.ParityForbidsTies | SearchAlgo.py:239-241 | adjacent cells never have equal recorded distances, so "child's distance at least node's" means at least node's plus one |
| SearchTree.Unvisited | SearchAlgo.py:34-44 | the present children not yet expanded, in `get_children` order |
| SearchTree.UnvisitedGrows | SearchAlgo.py:34-44 | one more child extends the result exactly when it is present and not expanded |
| SearchTree.UnvisitedPrefix | SearchAlgo.py:34-44 | an unvisited child found in a prefix stays unvisited in the whole list |
| SearchTree.UnvisitedPrefixLength | SearchAlgo.py:34-44 | a longer list of children never has fewer unvisited children |
| SearchTree.Insert | SearchAlgo.py:42 | `put` adds x to the queue and nothing else |
| SearchTree.InsertPermutes | SearchAlgo.py:42 | `put` adds exactly one copy of x |
| SearchTree.InsertKeepsAscending | SearchAlgo.py:42 | `put` keeps the queue in key order |
| SearchTree.SortByKey | SearchAlgo.py:42 | putting the candidates one by one keeps their number |
| SearchTree.SortByKeySnoc | SearchAlgo.py:42 | putting one more candidate inserts it by key |
| SearchTree.SortByKeyAscends | SearchAlgo.py:46-49 | the drained queue holds exactly the candidates put, keys ascending |
| SearchTree.AscendingStartsAtMinimum | SearchAlgo.py:46-49 | the head of a queue in key order has the lowest key |
| SearchTree.ReversedAscendingDescends | SearchAlgo.py:50 | reversed, keys descend |
| SearchTree.FireOrderPopsLowestKeyNext | SearchAlgo.py:46-50 | the reordered candidates are a permutation of the unvisited children with descending keys, so the lowest key is last and popped next |
| SearchTree.ReverseMultiset | SearchAlgo.py:50 | reversing is a permutation |
| AStarSearch.Relax | SearchAlgo.py:229-241 | examining one child keeps every unexpanded queued cell scored and never removes a parent link |
| AStarSearch.RelaxAll | SearchAlgo.py:229-241 | examining the children keeps the queue scored and the expanded node's own distance |
| AStarSearch.RelaxAllQueuesNewKids | SearchAlgo.py:229-237 | the queue grows by exactly the children neither expanded nor queued, each once, in order |
| AStarSearch.AdoptKeepsDistances | SearchAlgo.py:234-241 | giving c the parent node and node's distance plus one keeps every distance equal to its parent's plus one |
| AStarSearch.StepKeepsParity | SearchAlgo.py:236 | recording a distance one step beyond node for an adjacent cell keeps all parities |
| AStarSearch.QueueParity | SearchAlgo.py:233-237 | queueing a new child keeps all parities |
| AStarSearch.ReparentParity | SearchAlgo.py:238-241 | re-parenting keeps all parities and never lengthens a distance |
| AStarSearch.QueueKeepsConsistent | SearchAlgo.py:233-237 | queueing an unexpanded, unqueued neighbour keeps the A* invariant and shortens no distance |
| AStarSearch.QueueKeepsBookkeeping | SearchAlgo.py:233-237 | a queued child gets both distances, and every cell with a distance is expanded or queued |
| AStarSearch.ReparentKeepsConsistent | SearchAlgo.py:238-241 | re-parenting a queued neighbour whose distance is at least node's keeps the invariant, and the new distance is no longer |
| AStarSearch.RelaxKeepsConsistent | SearchAlgo.py:229-241 | examining one neighbour keeps the A* invariant and never lengthens a recorded distance |
| AStarSearch.RelaxAllKeepsConsistent | SearchAlgo.py:229-241 | examining all four neighbours keeps the invariant and never lengthens a recorded distance |
| AStarSearch.Popped | SearchAlgo.py:222 | `get` removes one entry and touches no map |
| AStarSearch.PopKeepsConsistent | SearchAlgo.py:222-225 | taking any entry off and expanding it keeps the invariant |
| AStarSearch.PassKeepsConsistent | SearchAlgo.py:214-241 | one pass keeps the invariant and closure, the expanded cell is the root or has a parent, and the termination measure drops |
| PathFinding.BurningCells | SearchAlgo.py:274-278 | a position is listed exactly when the display grid holds 3 there |
| PathFinding.ScanCovers | SearchAlgo.py:305-310 | after the row-major scan has passed (r, c), the cells before it hold their distance to the destination, and all other entries are as before |
| PathFinding.FinishedReports | SearchAlgo.py:370-379 | a finished search's parent walk reports code 0 when it is the destination alone, otherwise code 1 with the walk reversed |
| PathFinding.Title | SearchAlgo.py:22-25 | the window title: exactly "Algorithm: " and the tag for "dfs", "bfs" and "firealgo", otherwise exactly the tag and the heuristic; a missing heuristic then makes it fail, and only then |
| PathFinding.PathFinder.Create | SearchAlgo.py:12-25 | TypeError exactly when the title cannot be built; otherwise a fresh path finder over the environment's graph with nothing run yet |
| PathFinding.PathFinder.constructor | SearchAlgo.py:12-21 | for any consistent environment, whatever tag it carries: empty lists and maps, fringe maximum 0, and the environment's graph |
| PathFinding.PathFinder.CellIsPassable | Maze.py:75-82 | in the environment's graph, a position holds a cell exactly when the grid does not block it |
| PathFinding.PathFinder.MirrorsBlocksNonCells | SearchAlgo.py:306-310 | the grid blocks exactly the positions without a cell |
| PathFinding.PathFinder.GetNumberOfNodesExpanded | SearchAlgo.py:87-88 | the number of expanded cells, which is at most the number of passable cells |
| PathFinding.PathFinder.GetMaximumFringeLength | SearchAlgo.py:90-91 | the largest fringe size recorded at a loop head: no smaller than any recorded size and one of them, or 0 when none was recorded |
| PathFinding.PathFinder.TrackFringe | SearchAlgo.py:105-109 | the loop head records the current fringe size and raises the maximum to it when it is at least as large, keeping the maximum the largest recorded size |
| PathFinding.PathFinder.CreatePerformanceMetrics | SearchAlgo.py:84-97 | the metrics are the path length, the largest fringe size recorded and the number of cells expanded |
| PathFinding.PathFinder.ParentChain | SearchAlgo.py:55-58 | the loop collects the parent walk from the start cell |
| PathFinding.PathFinder.GetFinalPath | SearchAlgo.py:54-58 | the path gains the destination's parent walk, or nothing when the destination holds no cell |
| PathFinding.PathFinder.PaintPath | SearchAlgo.py:185-188 | exactly the cells of the walk that are not endpoints are coloured -1 |
| PathFinding.PathFinder.ReleasePath | SearchAlgo.py:195-199 | exactly the cells of the walk that are not endpoints are coloured 2 |
| PathFinding.PathFinder.GetUnvisitedChildren | SearchAlgo.py:27-52 | the result is exactly the present, unexpanded children. Any tag but "firealgo": in `get_children` order, no score written. "firealgo": each gets its fire score and they come in descending key order; with nothing burning the first score raises |
| PathFinding.PathFinder.CollectUnvisited | SearchAlgo.py:34-44 | the unvisited children in order |
| PathFinding.PathFinder.FireQueue | SearchAlgo.py:31-45 | the queue is the scored unvisited children in key order, or the failure when one must be scored with nothing burning |
| PathFinding.PathFinder.ScoreChild | SearchAlgo.py:41 | the recorded fire scores gain the child's score |
| PathFinding.PathFinder.Drain | SearchAlgo.py:47-49 | draining a queue kept in key order hands it out front first, and each cell handed out has a key no larger than any cell still queued |
| PathFinding.PathFinder.FireScores | SearchAlgo.py:41 | each scored cell maps to its fire score |
| PathFinding.PathFinder.FireScoresGrow | SearchAlgo.py:41 | scoring one more cell extends the score map by that cell |
| PathFinding.PathFinder.PushChildren | SearchAlgo.py:135-137 | the fringe gains the kids in order and each kid gets node as its parent |
| PathFinding.PathFinder.CandidatesAt | SearchAlgo.py:126-127 | the candidates of a cell: its unexpanded children in `get_children` order, or under "firealgo" in descending queue key, scored with the cells burning on the display at the call; empty exactly when the cell has no unexpanded child; None (ValueError) only under "firealgo" |
| PathFinding.PathFinder.BacktrackedKeepsParents | SearchAlgo.py:124-142 | after the backtracking loop every expanded cell keeps its parent |
| PathFinding.PathFinder.BacktrackAdvance | SearchAlgo.py:129-142 | one pass of the backtracking loop: a cell with candidates ends the walk with exactly them appended and parented to it; a cell without moves to its parent, or ends the walk at the root with nothing queued; the order of the queued cells is stated for the burning positions the display has after the pass, which are those they were scored with |
| PathFinding.PathFinder.BacktrackQueues | SearchAlgo.py:134-138 | the walk ends at the first cell of the parent walk with candidates; those are appended to the fringe with it as parent |
| PathFinding.PathFinder.BacktrackReachesRoot | SearchAlgo.py:140-142 | when no cell of the parent walk has candidates, the walk ends after the root and nothing is queued |
| PathFinding.PathFinder.Settle | SearchAlgo.py:129-138 | with candidates, the fringe gains exactly them in order, each with the cell as parent; without, only the cell's display entry is released (unless it holds 4); either way the tree is kept and every neighbour of the cell is expanded or queued |
| PathFinding.PathFinder.SettleAndMove | SearchAlgo.py:129-142 | settling the scored candidates of a cell and stepping to its parent: the walk advances as `BacktrackAdvance` says, over the burning positions the display is left with, continues only to a cell expanded earlier, leaves every neighbour of an expanded cell expanded or queued, keeps the tree and the count of expanded cells on the fringe, and releases only an exhausted cell's display entry |
| PathFinding.PathFinder.BacktrackPass | SearchAlgo.py:125-142 | one pass: ValueError only under "firealgo" with the parents untouched; otherwise the loop stays `Walking` (the walk advances as `BacktrackAdvance` says and continues only to a cell expanded earlier), and only an exhausted cell's display entry is released |
| PathFinding.PathFinder.Backtrack | SearchAlgo.py:124-142 | up the parent walk from the cell just expanded, the first cell with candidates gets exactly them appended to the fringe with it as parent, in `get_children` order or under "firealgo" in descending queue key for the burning cells the display is left with, and the cells before it have none; with no such cell nothing is queued; the old fringe is a prefix of the new, expanded cells keep their parents and the search ends closed; ValueError only under "firealgo" |
| PathFinding.PathFinder.DfsStep | SearchAlgo.py:107-142 | the newest fringe entry is popped; a pass finds the destination exactly when that entry is it, and then nothing else changes; otherwise the entry is expanded and the fringe and parents are what `Backtracked` says; the tree is kept and the measure drops |
| PathFinding.PathFinder.RunDfs | SearchAlgo.py:99-143 | ends with a search tree rooted at the root that reached the destination or ran dry closed; the fringe maximum is the largest recorded fringe size and at least 1 |
| PathFinding.PathFinder.ExpandBfs | SearchAlgo.py:168-173 | the fringe gains exactly the kids not queued yet, each with node as its parent |
| PathFinding.PathFinder.BfsPull | SearchAlgo.py:160-163 | the oldest fringe entry is taken off and expanded; the tree and a repeat-free fringe are kept and the measure drops |
| PathFinding.PathFinder.BfsExpand | SearchAlgo.py:165-173 | the fringe gains exactly the unexpanded children not yet queued, in `get_children` order, each with node as its parent; the tree is kept, the search closes and the fringe stays repeat-free |
| PathFinding.PathFinder.ShowPath | SearchAlgo.py:175-199 | found exactly when the cell is the destination; the cells of its parent walk, except where the grid holds 4, end coloured -1 when found and 2 otherwise, and no other display entry changes |
| PathFinding.PathFinder.BfsStep | SearchAlgo.py:159-199 | the oldest entry is expanded, found exactly when it is the destination; the fringe gains exactly its children neither expanded nor queued, each with it as parent; its parent walk is coloured as `ShowPath` says; tree, closure and a repeat-free fringe are kept |
| PathFinding.PathFinder.BfsRound | SearchAlgo.py:152-199 | a loop pass records the fringe size, keeps the maximum the largest recorded size, at least 1 and at most the passable cells, and does what `BfsStep` says |
| PathFinding.PathFinder.RunBfs | SearchAlgo.py:145-200 | ends finished, with a repeat-free fringe and the fringe maximum the largest recorded size and at most the number of passable cells |
| PathFinding.PathFinder.RelaxChild | SearchAlgo.py:230-241 | one child of the loop does what `AStarSearch.Relax` says; under the cells' tag "firealgo" it raises TypeError exactly when the child is present, unexpanded and the queue is not empty; a child not yet queued is then already written and appended as `AStarSearch.Queue` says, and a queued one is left as it was |
| PathFinding.PathFinder.ExpandAStar | SearchAlgo.py:227-241 | the child loop does what `AStarSearch.RelaxAll` says on the four children in order; it raises TypeError exactly when the cells' tag is "firealgo" and the node has two unexpanded children, or one while another cell is queued |
| PathFinding.PathFinder.AStarStep | SearchAlgo.py:221-269 | some queued entry, the i-th, is expanded; the raise condition is `ExpandAStar`'s after the pop; without a raise the A* state is `RelaxAll` over the state with entry i popped, its parent walk is coloured as `ShowPath` says, and the A* invariant and closure are kept; found exactly when the entry is the destination |
| PathFinding.PathFinder.AStarRound | SearchAlgo.py:214-269 | a loop pass records the fringe size, keeps the maximum the largest recorded size, at least 1 and at most the passable cells, and keeps the A* invariant unless it raised |
| PathFinding.PathFinder.AStarLoop | SearchAlgo.py:214-270 | the loop keeps the A* invariant and ends at the destination, with the queue empty or with TypeError under the cells' tag "firealgo"; the fringe maximum is the largest recorded size, between 1 and the number of passable cells |
| PathFinding.PathFinder.RunAStar | SearchAlgo.py:202-270 | TypeError only under the cells' tag "firealgo"; otherwise ends finished, with the root at distance 0 and every cell one further than its parent, and the destination's distance the length of its parent walk minus one |
| PathFinding.PathFinder.BurningSnapshot | SearchAlgo.py:274-278 | the burning positions, each once, in row-major order |
| PathFinding.PathFinder.SpreadFrom | SearchAlgo.py:282-298 | a display entry only changes by catching fire, and only at a non-corner neighbour of a burning cell |
| PathFinding.PathFinder.Charizard | SearchAlgo.py:272-298 | the spread succeeds exactly when every burning position holds a cell; only non-corner neighbours of cells burning at the start can ignite, and no entry changes otherwise |
| PathFinding.PathFinder.AssignDestDistances | SearchAlgo.py:305-310 | every passable cell gets its distance to the destination; other entries are kept |
| PathFinding.PathFinder.ColourAndSpread | SearchAlgo.py:324-325 | colouring and spreading keep the grids shaped |
| PathFinding.PathFinder.FireStep | SearchAlgo.py:321-355 | the newest fringe entry is popped, coloured and the fire spreads; found exactly when the spread succeeded and the entry is the destination, and then nothing else changes; a failed spread raises AttributeError; otherwise the entry is expanded and the fringe and parents are what `Backtracked` says, or ValueError under "firealgo" |
| PathFinding.PathFinder.FireRound | SearchAlgo.py:314-355 | a loop pass records the fringe size, keeps the maximum the largest recorded size and at least 1, and does what `FireStep` says about the tree and the errors |
| PathFinding.PathFinder.FireLoop | SearchAlgo.py:314-355 | ends finished or with one of those two errors; the fringe maximum is the largest recorded size |
| PathFinding.PathFinder.FireStart | SearchAlgo.py:302-313 | every cell gets its distance to the destination, the root is queued and expanded, and no fringe size is recorded yet |
| PathFinding.PathFinder.RunFromFire | SearchAlgo.py:300-355 | ends finished from (0, 0) towards (n-1, n-1), or with AttributeError, or with ValueError under "firealgo" |
| PathFinding.PathFinder.ReportChain | SearchAlgo.py:369-383 | along the parent walk from the destination: the metrics record the final path length, the fringe maximum and the number expanded, and the path and code are as `PathReport` says |
| PathFinding.PathFinder.Report | SearchAlgo.py:369-383 | after a finished search: the metrics are recorded, the fringe maximum is the largest recorded size and at least 1, the number expanded is at most the passable cells, and the path and code are as `PathReport` says |
| PathFinding.PathFinder.FinishPath | SearchAlgo.py:375-383 | code 0 for a path of one cell, otherwise the path reversed and code 1 |
| PathFinding.PathFinder.RunSearch | SearchAlgo.py:358-368 | the finder's tag picks the engine and the search ends finished; A* can raise only TypeError under the cells' tag "firealgo"; the fire-aware search raises AttributeError, or ValueError under "firealgo"; "dfs" and "bfs" never raise |
| PathFinding.PathFinder.RunPathFinderAlgorithm | SearchAlgo.py:357-383 | IndexError on an empty grid, AttributeError when a corner holds no cell, TypeError from A* only under the cells' tag "firealgo", otherwise the code with the path and metrics `Reported` describes: code 0 exactly when the destination is the start or unreachable, code 1 with a repeat-free adjacent walk from (0, 0) to (n-1, n-1) |

`PathReport` (in `path_finder.dfy`) is what a returned run promises:

- code 0: the path is the destination alone, and the destination is the
  start or cannot be reached from it;
- code 1: the path is a walk through linked, grid-adjacent cells from
  (0, 0) to (n-1, n-1) that repeats no cell.

The A* claim that the destination's distance is the length of its parent
walk is stated on `RunAStar`. That walk is what `GetFinalPath` appends.

## Left out

- Rendering: `render_maze`, the colour map, `rot90` and the plotting. Only the display-grid entry updates are modelled.
- The wall-clock budget (`time.time`, `elapse < self.time`): every loop runs without a time limit.
- Random maze generation (`generate_maze` without a grid, `np.random.binomial`), `set_original_maze` and the constructor's plotting fields: they involve randomness or only store values.
- Euclidean distances and the α = -0.5 factor: `destDistance` and `fireDistance` are abstract real-valued parameters, because `np.sqrt` is floating point.
- `_charizard`: the coin flip is a free choice per neighbour, and the count `k` is omitted because the draw ignores it.
- A* optimality and the heap order: `get` hands out an arbitrary queued cell, so only the bookkeeping is proved. On a grid, re-parenting never lengthens a distance (grid parity).
- Ties in the fire-aware queue: candidates with equal keys are kept in insertion order. The heap may hand them out in another order.
- Whole-run fire monotonicity: colouring a popped cell may overwrite a burning mark, so only a single spread is stated.
- Stale scratch: each run starts from empty maps (`Initial`). In the source, parents and distances stay on the graph's nodes and carry over into a later run on the same graph.
- Negative indices, which numpy wraps around, and indices past the grid are excluded by the requires of the single-cell grid operations.
- State after an exception: errors are returned as `Raised`, and the partial state left behind is described only by the shape invariants.
- `_charizard` reads the environment's current graph; the model reads the path finder's copy, taken when it is made. Nothing in the core rebuilds the graph during a run, so the two agree.
- PathFinding.PathFinder.ColourAndSpread: states only that the grids stay shaped. `UpdateColorOfCell` and `Charizard` state the colouring and the spread.
- Environment.Maze.FromMaze: requires the given grid to be n×n. The source keeps `n` (default 25) apart from the grid's shape, and a grid of another size would make `wild_fire` and the dispatcher index by the wrong `n`. That mismatch is not modelled.
- A path finder tag of None: `__init__` then concatenates None into the title and raises TypeError. `Title` takes the tag as a string, so that case is not represented. A cells' tag of None is represented, as any string other than the four tags.
- PathFinding.PathFinder.RunSearch: the fire-aware search requires the occupancy grid to block exactly the positions without a cell (`BlocksNonCells`). Its first loop walks the occupancy grid and dereferences the graph's cells, so a stale graph would raise AttributeError or score stale cells. That case is not modelled. The other engines read only the graph and need nothing of the grid.
- PathFinding.PathFinder.Backtrack: the display effect is stated per pass, on `BacktrackPass` (only an exhausted cell is released). The whole loop only states what it does to the fringe and the parents.
- PathFinding.PathFinder.DfsStep and PathFinding.PathFinder.FireStep: the colouring of the popped cell and the fire spread are stated on `UpdateColorOfCell`, `Charizard` and `BacktrackPass`, not repeated on the step.
- main.py: the minesweeper driver, which depends on modules that are not part of this model.
