# Breadth-first search on a grid, three ways

A Dafny model of the search engine shared by the three pygame demos of the
Pathfinding repository. Each demo holds a rectangular obstacle map of 0
(free) and 1 (wall) tiles. It builds, once, an adjacency dictionary from
every free cell to its free neighbours along a fixed direction list. It then
runs a breadth-first search with a FIFO queue and a `visited` dictionary from
each discovered cell to its parent (`None` for the start). It draws the
parent chain back to the start.

- `pathfinding_with_bfs.py` searches afresh every frame. The search starts
  from `start` and runs until it pops `goal` or empties the queue. A click on
  a free cell moves the goal (left button) or the start (right button).
- `bfs_visualization.py` advances the search by one pop per frame. Before the
  first click it holds the off-grid placeholder `(-1, -1)`. A left click on a
  free cell starts the search there, and a right click pauses and resumes it.
- `BFS.py` is the same step-by-step demo on a fixed 50 by 30 grid. It has a
  replaceable direction list (`set_ways`), indexes the dictionary without a
  default, and walks the parent chain without a membership test.

The project has six modules:

- `Grid` (grid.dfy): the map, the passability test, the neighbour lists, the
  adjacency dictionary and its two construction loops, the pixel-to-cell
  conversion, and the window.
- `Search` (search.dfy): the traversal state, one expansion, the
  run-to-completion search, its invariant, and the path walk.
- `Layers` (layers.dfy): the depth of a visited cell (its number of parent
  steps back to the start), the breadth-first invariant over depths, and the
  proof that the drawn parent chains are shortest walks.
- `Pathfinding`, `Visualization` and `BfsApp` each model one demo file as a
  class. The class fields are the ones the source updates in place.

Two constants of `Grid` stand for literals of the source: `Ways`, the
direction list, and `Sentinel`, the placeholder cell `(-1, -1)`. Each
stateful class also keeps a ghost sequence `order` of the discovered
cells in discovery order. The invariant `Search.Tree` holds over it:

- `order` starts at the root and repeats nothing.
- Its cells are exactly the keys of `visited`.
- The queue is its unexpanded tail.
- Every other cell has a parent that is earlier in `order` and lists the cell
  as a neighbour.

`Search.Settled` adds that every expanded cell has all its neighbours
visited. `Layers.Layered` adds the breadth-first order: depths never
decrease along `order`, the queue spans at most two consecutive depths, and
a visited neighbour of an expanded cell is at most one deeper than it. From
these invariants the model proves the main results:

- Every visited cell is reachable from the start.
- Once the queue is empty, the visited cells are exactly the reachable ones.
- The search stops within `Budget` pops, at most the number of free cells
  plus one. In the step-by-step demos, once `Budget` cells have been
  expanded the queue is empty.
- The path walk ends at the start and repeats no cell.
- Read from the start, the drawn path is a walk along the dictionary's
  lists, and no walk from the start to the same cell is shorter.

Two behaviours of the code are worth noting:

- The run-to-completion search is started even when `start` is a wall, for
  example the initial `(0, 0)`. It then pops the start, finds no dictionary
  entry (`graph.get` with an empty default) and stops. No error is signalled.
- A rejected click is ignored silently.

## Model

| member | source | states |
|---|---|---|
| Grid.Lookup | pathfinding_with_bfs.py:139 | Definition: the dictionary lookup with an empty default, `graph.get(c, [])`: the list of a key, and the empty list for any other cell. The same lookup is at bfs_visualization.py:144. |
| Grid.Passable | pathfinding_with_bfs.py:91-103 | A cell is passable exactly when it lies in the set of free tiles of the map. The same test is at bfs_visualization.py:83-95 and BFS.py:39-40. |
| Grid.SentinelOffGrid | bfs_visualization.py:62 | The placeholder `Sentinel`, the cell `(-1, -1)`, is off every board: it is not passable and not a free cell. The same placeholder is at BFS.py:25. |
| Grid.Candidate | pathfinding_with_bfs.py:115-116 | Definition: what one offset `(dx, dy)` contributes to the neighbour list: the shifted cell when it is passable, nothing otherwise. |
| Grid.NextNodes | pathfinding_with_bfs.py:105-116 | The neighbour list holds at most one cell per offset of the direction list. |
| Grid.NextNodesMembers | pathfinding_with_bfs.py:115-116 | A cell is listed exactly when it is passable and one offset of the direction list away from `(x, y)`. |
| Grid.NextNodesAppend | bfs_visualization.py:107-108 | The list follows the order of the direction list. The neighbours along `w1 + w2` are those along `w1`, then those along `w2`. |
| Grid.NextNodesOfFour | BFS.py:42-43 | A four-offset list yields the candidates of its four offsets in order. |
| Grid.NextNodesOfWays | pathfinding_with_bfs.py:37 | The constant `Grid.Ways` is the fixed direction list `(-1, 0), (0, -1), (1, 0), (0, 1)` of all three demos (also bfs_visualization.py:42 and BFS.py:11). With it, the neighbours come left, up, right, down. |
| Grid.WaysAreUnit | pathfinding_with_bfs.py:37 | Every fixed direction is one step along one axis. |
| Grid.NeighboursAreAdjacent | pathfinding_with_bfs.py:115-116 | Along unit directions, every listed neighbour is at Manhattan distance 1. |
| Grid.NextNodesDistinct | pathfinding_with_bfs.py:115-116 | Distinct directions give a neighbour list without repeats. |
| Grid.Adjacency | pathfinding_with_bfs.py:51-55 | Definition: the adjacency dictionary as a map comprehension: one entry per free cell, holding its neighbour list along the direction list. The two construction loops are proved equal to it. |
| Grid.AdjacencyShape | pathfinding_with_bfs.py:51-55 | The keys of the adjacency dictionary are exactly the free cells, and every listed neighbour is itself a key. |
| Grid.BuiltAll | bfs_visualization.py:55-59 | A dictionary that holds every free cell of every row, each with its neighbour list, is the adjacency dictionary. |
| Grid.BuildGraph | pathfinding_with_bfs.py:51-55 | The nested loops over rows and columns produce the adjacency dictionary. The same loop is at bfs_visualization.py:55-59. |
| Grid.BuildGraphAccumulating | BFS.py:19-23 | Appending to `graph.get(cell, [])` produces the same dictionary, because each cell is met once and the default is always taken. |
| Grid.CellAt | bfs_visualization.py:110-120 | The pixel lies inside the square of the returned tile on both axes. |
| Grid.CellAtUnique | BFS.py:45-49 | No other tile's square holds the pixel, so the conversion is floor division by the tile size. |
| Grid.InWindowInBounds | BFS.py:14 | A pixel inside the `columns * tile_size` by `rows * tile_size` window lies over a cell inside the grid. |
| Search.Begin | pathfinding_with_bfs.py:131-132 | Definition: the fresh search state, the queue `[start]` and `visited` `{start: None}`. The same reset is at bfs_visualization.py:176-177 and BFS.py:89-90. |
| Search.Discover | pathfinding_with_bfs.py:139-142 | Definition: the loop over the neighbours of the popped cell: each one not yet in `visited`, in list order, is appended to the queue and recorded with the popped cell as parent. |
| Search.DiscoverQueue | pathfinding_with_bfs.py:139-142 | One pass over the neighbours only appends to the queue, at most one cell per neighbour. |
| Search.DiscoverVisited | pathfinding_with_bfs.py:139-142 | The pass adds to `visited` exactly the neighbours it lacked, each with the popped cell as parent, and keeps every old entry. |
| Search.DiscoverAdded | pathfinding_with_bfs.py:139-142 | The appended cells are exactly the new keys of `visited`, none visited before and none twice. |
| Search.DiscoverFacts | pathfinding_with_bfs.py:139-142 | The three facts above, together. |
| Search.EnqueueUnseen | bfs_visualization.py:145-148 | The loop over the neighbours leaves the queue and `visited` as the specification of one pass says. |
| Search.Expand | bfs_visualization.py:143-148 | Definition: one expansion: pop the front of the queue and run `Discover` over `graph.get(cur, [])`. |
| Search.ExpandShape | pathfinding_with_bfs.py:134-142 | One expansion leaves the popped queue followed by the newly discovered cells. The new keys are the popped cell's unvisited neighbours, each with the popped cell as parent. |
| Search.ExpandOffGraph | bfs_visualization.py:144 | Popping a cell without a dictionary entry adds nothing, because of the empty default. |
| Search.BeginTree | pathfinding_with_bfs.py:131-132 | The fresh state `[start]`, `{start: None}` satisfies the tree invariant. |
| Search.BeginSettled | pathfinding_with_bfs.py:131-132 | In the fresh state no cell is expanded yet. |
| Search.SuffixDrop | pathfinding_with_bfs.py:135 | Proof helper, not itself a step of the source: the queue being a tail of `order` is the same as the queue being the slice after the expanded prefix. |
| Search.DistinctAppend | pathfinding_with_bfs.py:140-141 | Proof helper, not itself a step of the source: appending only unvisited cells keeps the discovery order free of repeats, so a cell is enqueued at most once. |
| Search.UnseenCons | pathfinding_with_bfs.py:140-141 | Proof helper, not itself a step of the source: a cell not yet visited, placed ahead of cells that are new after it was recorded, gives a list of new cells without repeats. |
| Search.ExpandQueueTail | bfs_visualization.py:143-148 | After an expansion the queue is still the tail of the grown discovery order. |
| Search.ExpandKeys | bfs_visualization.py:143-148 | After an expansion the keys of `visited` are still exactly the discovered cells. |
| Search.ExpandLinked | pathfinding_with_bfs.py:142 | After an expansion every cell but the root still has an earlier parent that lists it. |
| Search.ExpandKeepsTree | pathfinding_with_bfs.py:134-142 | One expansion preserves the tree invariant. |
| Search.ExpandKeepsSettled | pathfinding_with_bfs.py:134-142 | One expansion preserves the settled invariant, and the popped cell becomes expanded. |
| Search.ExpandKeeps | bfs_visualization.py:141-148 | One expansion preserves both invariants, and the popped cell is and stays visited. |
| Search.QueueVisited | pathfinding_with_bfs.py:139-142 | Every queued cell is visited, and the queue holds no cell twice. |
| Search.IndexOf | pathfinding_with_bfs.py:142 | Proof helper, not itself a step of the source: the position of a cell in the discovery order is an index that holds it. |
| Search.ParentOf | pathfinding_with_bfs.py:142 | Only the start lacks a parent. A parent is a visited cell, discovered earlier, that lists the cell as a neighbour. |
| Search.OrderReachable | pathfinding_with_bfs.py:139-142 | Every discovered cell is reachable from the start along the dictionary's lists. |
| Search.TreeSound | pathfinding_with_bfs.py:139-142 | Every key of `visited` is reachable from the start. |
| Search.WalkSnoc | pathfinding_with_bfs.py:139-142 | Proof helper, not itself a step of the source: a walk extended by a neighbour of its last cell is a walk from the same first cell. |
| Search.ClosedHoldsWalk | pathfinding_with_bfs.py:134 | A set of cells that holds the neighbours of each of its members holds every walk from one of them. |
| Search.ExhaustedIsComplete | pathfinding_with_bfs.py:134 | Once the queue is empty, the keys of `visited` are exactly the cells reachable from the start. |
| Search.StateSound | bfs_visualization.py:141-148 | Any state with both invariants visits only reachable cells. Once its queue is empty, it visits all of them. |
| Search.DistinctWithin | pathfinding_with_bfs.py:140-141 | Proof helper, not itself a step of the source: a repetition-free list drawn from a set is no longer than the set. |
| Search.TreeWithinBudget | pathfinding_with_bfs.py:134-137 | On a closed dictionary, a search never discovers more than `Budget` cells: the keys plus the start. |
| Search.BudgetOfBoard | pathfinding_with_bfs.py:51-55 | On the adjacency dictionary of a map, `Budget` is at most the number of free cells plus one. |
| Search.ExpandedWithinBudget | bfs_visualization.py:141-148 | On a closed dictionary at most `Budget` cells are ever expanded, and once `Budget` are the queue is empty. One expansion per frame therefore empties the queue within `Budget` search frames. |
| Search.VisitedInGraph | BFS.py:66 | When the start is a key of the dictionary, so is every visited cell. |
| Search.Run | pathfinding_with_bfs.py:134-142 | Definition: the early-exit loop: stop on an empty queue; pop the front; stop after removing it when it is the goal; otherwise expand it and go on. A pop allowance bounds the recursion. |
| Search.Solve | pathfinding_with_bfs.py:129-142 | Definition: the whole search: `Run` from the fresh state of `start`, with an allowance of `Budget` pops. |
| Search.RunStep | pathfinding_with_bfs.py:134-142 | A pop that is not the goal expands the cell and continues with one pop less. |
| Search.SearchStep | pathfinding_with_bfs.py:134-142 | A loop iteration that does not pop the goal preserves both invariants and the pop count, and does not change the search's result. |
| Search.SearchFound | pathfinding_with_bfs.py:136-137 | Popping the goal stops the search with the goal removed from the queue. |
| Search.RunStops | pathfinding_with_bfs.py:134-137 | When the search stops, the invariant still holds. It stopped either on the goal or on an empty queue, which never comes from running out of pops. |
| Search.RunKeeps | pathfinding_with_bfs.py:134-142 | The finished search satisfies the tree invariant. The goal is visited, or the queue is empty and every expanded cell's neighbours are visited. |
| Search.RunOutcome | pathfinding_with_bfs.py:134-142 | The finished search visits only reachable cells, and it visits the goal exactly when the goal is reachable. |
| Search.PopKeepsTree | pathfinding_with_bfs.py:135-137 | Popping without expanding keeps the tree invariant, and the popped cell stays visited. |
| Search.ExpandCount | pathfinding_with_bfs.py:135 | Each expansion moves exactly one cell out of the queue. |
| Search.SolveOutcome | pathfinding_with_bfs.py:129-142 | The search from a fresh state finds the goal exactly when it is reachable, and never visits an unreachable cell. |
| Search.RunSaturates | pathfinding_with_bfs.py:134-137 | Once the allowance covers `Budget` pops, one more pop changes nothing: the search has already stopped. |
| Search.SolveWithinBudget | pathfinding_with_bfs.py:134-137 | From a fresh state, `Budget` pops (at most the free cells plus one) are enough for the search to finish. |
| Search.Reverse | pathfinding_with_bfs.py:168-173 | Proof helper, not itself a step of the source: the reversed sequence holds the same cells in the opposite order. |
| Search.ChainIsWalk | pathfinding_with_bfs.py:168-173 | The drawn path read backwards is a walk from the start along the dictionary's lists. |
| Search.TreeParents | BFS.py:74-77 | Under the invariant, every parent stored in `visited` is itself a key and comes earlier in the discovery order. |
| Search.Walk | pathfinding_with_bfs.py:168-173 | Definition: the parent walk: from a cell that is a key of `visited`, the cell followed by the walk from its parent; from no cell or a non-key, nothing. |
| Search.WalkStep | pathfinding_with_bfs.py:169-173 | One step of the walk draws the cell and moves on to its parent, which is an earlier key. |
| Search.WalkRoot | bfs_visualization.py:151-156 | The walk from the start is the start alone. |
| Search.WalkChain | pathfinding_with_bfs.py:168-173 | The walk from any key follows parents to the start, which has none. It repeats no cell and never moves later in the discovery order. |
| Search.ChainCons | pathfinding_with_bfs.py:169-173 | Proof helper, not itself a step of the source: a key whose parent is the first cell of a chain extends the chain by one step. |
| Search.DistinctCons | pathfinding_with_bfs.py:169-173 | Proof helper, not itself a step of the source: a cell absent from a repetition-free sequence can be placed ahead of it without creating a repeat. |
| Search.TracePath | pathfinding_with_bfs.py:168-173 | The guarded loop draws exactly the walk from the target. It draws nothing when the target is not a key. The same loop is at bfs_visualization.py:151-156. |
| Search.TracePathUnguarded | BFS.py:73-77 | The loop that stops only at a missing parent draws exactly the walk from the target. Every parent it indexes is a key. |
| Layers.HopsWalk | pathfinding_with_bfs.py:168-173 | Proof helper, not itself a step of the source: with enough fuel, counting parent steps gives the length of the path walk less one. |
| Layers.DepthIsWalk | pathfinding_with_bfs.py:168-173 | The depth of a key is the length of the drawn path from it, less one. |
| Layers.DepthStep | pathfinding_with_bfs.py:142 | The start has depth zero, and a cell recorded with a parent is one deeper than that parent. |
| Layers.WalkExtend | pathfinding_with_bfs.py:139-142 | Adding new keys to `visited` leaves the parent walk and the depth of every old key unchanged. |
| Layers.ExpandIsExpansion | pathfinding_with_bfs.py:134-142 | Proof helper, not itself a step of the source: one expansion has the shape of `Expansion`: popped queue plus the new cells, old entries kept, new entries parented by the popped cell. |
| Layers.StepOldDepth | pathfinding_with_bfs.py:139-142 | An expansion does not change the depth of an already visited cell. |
| Layers.StepNewDepth | pathfinding_with_bfs.py:139-142 | A cell discovered by an expansion is one deeper than the popped cell. |
| Layers.StepDepths | pathfinding_with_bfs.py:139-142 | The two facts above, for every old key and every new cell together. |
| Layers.QueueDepths | pathfinding_with_bfs.py:134-135 | Under the breadth-first invariant, the front of the queue is no deeper than any queued cell, and no discovered cell is more than one deeper than it. |
| Layers.StepMonotone | pathfinding_with_bfs.py:134-142 | An expansion keeps depths non-decreasing along the discovery order. |
| Layers.StepLast | pathfinding_with_bfs.py:139-142 | Proof helper, not itself a step of the source: after an expansion the last discovered cell is at most one deeper than the popped cell. |
| Layers.StepFront | pathfinding_with_bfs.py:135 | Proof helper, not itself a step of the source: after an expansion the new front of the queue is no shallower than the popped cell. |
| Layers.StepSpan | pathfinding_with_bfs.py:134-142 | An expansion keeps the queue within two consecutive depths: the last discovered cell is at most one deeper than the front. |
| Layers.StepNear | pathfinding_with_bfs.py:139-142 | After an expansion every visited neighbour of an expanded cell is at most one deeper than that cell. |
| Layers.StepLayered | pathfinding_with_bfs.py:134-142 | An expansion of the expansion shape keeps the breadth-first invariant. |
| Layers.ExpandKeepsLayered | pathfinding_with_bfs.py:134-142 | One expansion keeps the breadth-first invariant. |
| Layers.BeginLayered | pathfinding_with_bfs.py:131-132 | The fresh search state satisfies the breadth-first invariant. |
| Layers.ExpandKeepsInvariant | bfs_visualization.py:141-148 | One expansion keeps the tree, settled and breadth-first invariants together, the popped cell was and stays visited, and one more cell is expanded. |
| Layers.WalkDepths | pathfinding_with_bfs.py:134-142 | Proof helper, not itself a step of the source: along a walk from the start whose first `m` cells are expanded, the cell at position `m` is visited at depth at most `m`. |
| Layers.WalkBound | pathfinding_with_bfs.py:134-142 | Proof helper, not itself a step of the source: a visited cell at the end of a walk from the start is no deeper than the walk is long. |
| Layers.LayeredShortest | pathfinding_with_bfs.py:134-142 | Under the three invariants, every walk from the start to a visited cell has at least as many steps as that cell's depth. This holds in every state, finished or not. |
| Layers.ShortestPath | pathfinding_with_bfs.py:168-173 | With shortest depths, the parent chain from a visited cell, read from the start, is a walk to it, and no walk from the start to it is shorter. |
| Pathfinding.App.constructor | pathfinding_with_bfs.py:25-61 | The dictionary is the adjacency dictionary of the map. Start and goal are `(0, 0)`, and the search state is fresh. |
| Pathfinding.App.Bfs | pathfinding_with_bfs.py:129-142 | The loop discards the previous state and leaves the result of the search from `start` to `goal`. It visits only reachable cells, and it visits the goal exactly when the goal is reachable. Its loop keeps the breadth-first invariant, so every visited cell's depth is its shortest walk length. |
| Pathfinding.App.PathCells | pathfinding_with_bfs.py:167-173 | The drawn path is empty when the goal is not visited. Otherwise it is a repetition-free parent chain from the goal to the start, and just the goal when the goal is the start. Read from the start it is a walk to the goal, and no walk from the start to the goal is shorter. |
| Pathfinding.App.Click | pathfinding_with_bfs.py:189-198 | On a free cell, button 1 sets the goal and button 3 the start. A wall, a click outside the map or another button changes nothing, and the search state is untouched. |
| Visualization.App.constructor | bfs_visualization.py:30-68 | The dictionary is the adjacency dictionary. The search holds the placeholder `(-1, -1)` as start, current cell, queue and visited key. The counter is at 0, the search is not started and it is not paused. |
| Visualization.App.Step | bfs_visualization.py:141-148 | A search frame of a started, running search with a non-empty queue performs exactly one expansion and expands one more cell. Any other frame changes nothing but the counter. At most `Budget` cells are expanded, and when `Budget` are the queue is empty. Afterwards only reachable cells are visited, and all of them once the queue is empty. |
| Visualization.App.Advance | bfs_visualization.py:142-148 | The popped front becomes the current cell, the state becomes the expansion of the old one, and one more cell is expanded. The tree, settled and breadth-first invariants are kept. |
| Visualization.App.PathCells | bfs_visualization.py:150-156 | The drawn path is a repetition-free parent chain from the current cell to the start. Read from the start it is a walk to the current cell, and no walk between them is shorter. Before the first click it is the placeholder alone. |
| Visualization.App.Click | bfs_visualization.py:171-180 | Before starting, button 1 over a key of the dictionary restarts the search there. After starting, button 3 toggles pausing. Anything else changes nothing. |
| BfsApp.App.constructor | BFS.py:8-31 | The grid is 50 by 30 with 15-pixel tiles and the four fixed directions. The dictionary, built by appending, is the adjacency dictionary. The search holds the placeholder state, not started and not paused. |
| BfsApp.App.SetWays | BFS.py:36-37 | Only the direction list changes. The dictionary and the search state stay as they were. |
| BfsApp.App.GetNextNodes | BFS.py:42-43 | The neighbours along the current direction list are exactly its passable cells one offset away. |
| BfsApp.App.Step | BFS.py:62-70 | A search frame of a started, running search with a non-empty queue performs exactly one expansion and expands one more cell. Any other frame changes nothing but the counter. The budget, soundness and completeness facts are as for the visualisation demo. |
| BfsApp.App.Advance | BFS.py:64-70 | The popped cell is free, so the dictionary lookup without a default is defined. The state becomes the expansion of the old one, one more cell is expanded, and the three invariants are kept. |
| BfsApp.App.PathCells | BFS.py:72-77 | The unguarded walk from the current cell ends at the start and never leaves `visited`. It repeats no cell. Read from the start it is a walk to the current cell, and no walk between them is shorter. |
| BfsApp.App.Click | BFS.py:84-94 | Before starting, button 1 over a free cell restarts the search there and sets `started`. After starting, button 3 toggles pausing. Anything else changes nothing. |

## Left out

- Drawing, the window, the frame clock and event polling (every `pygame` call), and the quit handling are left out. The events are the parameters of `Click`.
- The random map generation is left out. The map is a constructor parameter, as for the grid size and tile size of the two configurable demos.
- The pixel geometry of the drawing helpers (`__get_rect`, `__get_center`, `get_rect`) is pure drawing and is not modelled.
- `floor(x / tile_size)` is computed in floating point in the source and modelled as integer floor division. The two agree on pixel coordinates. Only quotients too large for a float to hold exactly would differ.
- The caught `IndexError` around the click of `pathfinding_with_bfs.py` is modelled as an explicit bounds check. Pixel positions are non-negative there, so no negative index is modelled.
- BfsApp.App.Click requires a start click to lie inside the window. The source indexes the map without a check, and mouse events only arrive for pixels inside the window.
- Search.Run bounds the number of pops by a fuel argument set to `Budget`. `RunSaturates` and `SolveWithinBudget` show that no larger allowance changes the result, so the bound leaves nothing unmodelled.
- The search loop of `Pathfinding.App.Bfs` updates the `queue` and `visited` fields directly, as the source does. The inner loop over the neighbours (`EnqueueUnseen`) works on local copies that are written back after it.
- `time` is incremented at the end of the search logic in Step. The source increments it at the end of the frame, after the path walk and the events. Neither of those reads it, so the state at the end of a frame is the same.
- "Pathfinding with BFS.py" is not part of this model. It is another version of the run-to-completion demo, with a fixed 35 by 20 grid.
