# Maze-Puzzle core, modelled and verified in Dafny

This project models the logic at the heart of the Maze-Puzzle Unity game and
proves what that logic promises:

- **MazeGenerator.** The `MazeGenerator` component keeps a `width × height`
  grid of four-wall cells (0 = up, 1 = right, 2 = down, 3 = left) with
  `visited` and `parent` arrays. The model is a class over `array2`s, and it
  covers the following steps.
  - `InitGrid` closes every wall.
  - One of two carvers cuts the maze in place. `CarveMazeDFS` is an
    explicit-stack depth-first backtracker. `CarveMazePrim` is a
    randomized-Prim frontier list.
  - `OpenEntrances` opens the entrance below (0, 0) and the exit above the
    far corner.
  - `BuildGraph` and `TryConnect` turn the walls into a navigation graph of
    intersection nodes.
  - `HighlightPath` and `BuildParentPath` follow parent links from the exit
    back to the entrance. When the far corner has no link they first run a
    breadth-first search.
- **Carver randomness.** `System.Random` is an arbitrary stream of draws, so
  every property of a carver holds for every sequence of random choices.
- **The player's A\*.** `MazePlayerController.AStar` uses a binary min-heap
  as its open list (`MinHeap` with push, pop, sift-up, sift-down and the
  linear decrease-key `UpdateIfBetter`). It also keeps a hash set of open
  nodes and `gScore`/`came` dictionaries. `Reconstruct`, `PathCost` and
  `BuildWaypointsFromPath` are modelled too.
- **The ghost's A\*.** `EnemyGhostController.AStar` keeps a list of node
  records that it sorts by `f` before every pop. A dictionary holds one
  record per node. Records are updated in place, and the path is read back
  along `parent` references.
- **Specification and main results.** Both searches are checked against one
  path specification: walks in the graph, integer edge costs and the grid
  heuristic.
  - A returned path is a shortest path from the start to the goal.
  - No path is returned exactly when the goal is unreachable.
- **The wall pools.** `WallPool` and `WallPooler` each keep a list of wall
  objects split by `activeCount` into handed-out and free slots. A Unity
  object is modelled as a reference with `active` and `destroyed` flags, and
  Unity's `== null` holds for a null slot or a destroyed object.

Module layout:

| module | models |
|---|---|
| Grid | coordinates, directions, the cell's wall flags (`DirVector`, `InBounds`, `GetDirectionIndex`) |
| Tree | the carving invariant and the perfect-maze facts: connectivity, passage count, entrances |
| Rng | `System.Random` |
| MazeGen | the `MazeGenerator` class: carvers, entrances, graph builder, parent search and walk, `Generate` |
| Graph | the corridor walk of `TryConnect` and the shape of the edges it makes |
| ParentPath | the breadth-first search's bookkeeping and the walk along parent links |
| Paths | neighbours, edge cost, heuristic, walks, shortest paths |
| Search | the A\* correctness argument shared by both searches |
| MinHeaps | the player's `MinHeap` |
| PlayerSearch | the player's `AStar`, `Reconstruct`, `PathCost`, `BuildWaypointsFromPath` |
| GhostSearch | the ghost's `NodeRecord`, `AStar`, `Reconstruct` |
| Scene | the part of Unity's `GameObject` the pools rely on |
| WallPools, WallPoolers | `WallPool` and `WallPooler` |

## Model

| member | source | states |
|---|---|---|
| Grid.DirVector | Assets/Scripts/MazeGenerator.cs:265-275 | Indices 0..3 give a unit step to an adjacent cell: vertical for 0 and 2, horizontal for 1 and 3. Any other index gives the zero vector. |
| Grid.Opposite | Assets/Scripts/MazeGenerator.cs:209 | `(d + 2) % 4` is a different direction whose step is the negated step of `d`, so it names the other side of the same wall; applying it twice gives `d` back. |
| Grid.GetDirectionIndex | Assets/Scripts/MazeGenerator.cs:365-373 | The result lies in -1..3, and it is -1 exactly when the two cells are not neighbours. |
| Grid.DirectionStep | Assets/Scripts/MazeGenerator.cs:365-373 | For neighbours `a` and `b`, stepping from `a` in the returned direction reaches `b`. |
| Grid.DirectionOfStep | Assets/Scripts/MazeGenerator.cs:365-373 | `GetDirectionIndex(a, a + DirVector(d)) == d` for each of the four directions, so the two functions are inverses. |
| Grid.StepInjective | Assets/Scripts/MazeGenerator.cs:265-275 | Two different directions from one cell lead to different cells. |
| Grid.AllCells | Assets/Scripts/MazeGenerator.cs:277 | A cell belongs to the grid's cell set exactly when `InBounds` holds of it. |
| Grid.Cell.Clear | Assets/Scripts/MazeGenerator.cs:208 | `wall[d] = false` clears wall `d` and leaves the other three flags as they were. |
| MazeGen.ShouldCreatePoint | Assets/Scripts/MazeGenerator.cs:417-438 | A cell becomes a node exactly when the graph is dense, or the cell is the start or the end, or the cell is not a straight-through corridor. Dead ends, corners and junctions all qualify. |
| MazeGen.MazeGenerator.constructor | Assets/Scripts/MazeGenerator.cs:11-37 | The inspector defaults: a 10 × 10 grid, nodes only at intersections, the depth-first carver, no grid yet and an empty graph. |
| MazeGen.MazeGenerator.InitGrid | Assets/Scripts/MazeGenerator.cs:163-179 | Allocates new arrays of the grid's size. Every wall is standing, no cell is visited, and every parent is the sentinel (-1, -1). |
| MazeGen.MazeGenerator.OpenWall | Assets/Scripts/MazeGenerator.cs:208-209 | Knocks down the wall between two neighbours on both sides at once; no other flag changes. |
| MazeGen.MazeGenerator.Attach | Assets/Scripts/MazeGenerator.cs:212-213 | Marks the new cell visited and records its parent; nothing else changes. |
| MazeGen.MazeGenerator.CarvePassage | Assets/Scripts/MazeGenerator.cs:205-213 | Carving into an unvisited neighbour opens the wall on both sides, visits the neighbour and links it to `from`. The carving invariant (walls follow the parent links, links point to earlier visits, outer walls closed) is kept. |
| MazeGen.MazeGenerator.UnvisitedNeighbors | Assets/Scripts/MazeGenerator.cs:190-199 | The list holds only in-bounds, unvisited neighbours of the cell, and it holds every one of them. |
| MazeGen.MazeGenerator.VisitStart | Assets/Scripts/MazeGenerator.cs:184-185 | Visiting the start on the closed grid establishes the carving invariant with only the start in the maze. |
| MazeGen.MazeGenerator.CarveInto | Assets/Scripts/MazeGenerator.cs:201-214 | Carving into the chosen neighbour and pushing it keeps the carving invariant and the stack invariant, and it visits one more cell. |
| MazeGen.MazeGenerator.BacktrackStep | Assets/Scripts/MazeGenerator.cs:187-219 | One pass of the backtracker keeps both invariants. Either more cells are visited, or the top of the stack is popped and the walls, the parent links and the visit order are unchanged. |
| MazeGen.MazeGenerator.Finished | Assets/Scripts/MazeGenerator.cs:187-220 | Once no visited cell has an unvisited neighbour, every cell is visited. The links form a spanning tree whose walls follow it, and exactly `w·h − 1` interior walls are open. |
| MazeGen.MazeGenerator.CarveMazeDFS | Assets/Scripts/MazeGenerator.cs:181-221 | For every sequence of random choices, the result is a perfect maze: every cell visited, a spanning tree rooted at the start, outer walls closed, and exactly `w·h − 1` open interior walls. |
| MazeGen.PushFrontier | Assets/Scripts/MazeGenerator.cs:212-214 | Pushing a newly visited cell keeps the stack invariant: every visited cell that left the stack has no unvisited neighbour. |
| MazeGen.PopFrontier | Assets/Scripts/MazeGenerator.cs:216-218 | Popping a cell with no unvisited neighbour keeps the stack invariant. |
| MazeGen.FrontierNext | Assets/Scripts/MazeGenerator.cs:255-262 | Examining direction `d` appends `(cell, d)` exactly when that neighbour is in bounds and unvisited. |
| MazeGen.MazeGenerator.AddFrontierWalls | Assets/Scripts/MazeGenerator.cs:253-263 | Appends one entry per in-bounds unvisited neighbour of the cell, in direction order, and nothing else. |
| MazeGen.FrontierStart | Assets/Scripts/MazeGenerator.cs:226-228 | With only the start visited, its outward walls list every wall between the maze and an unvisited cell. |
| MazeGen.MazeGenerator.PrimStart | Assets/Scripts/MazeGenerator.cs:226-228 | Prim's set-up establishes the carving invariant together with a complete frontier list. |
| MazeGen.MazeGenerator.PrimOrient | Assets/Scripts/MazeGenerator.cs:234-243 | An entry is skipped only when it no longer joins the maze to a new cell. Otherwise it is carved from the visited side into the unvisited side, with the direction reversed by `(dir + 2) % 4` when the entry's own cell is the new one. |
| MazeGen.DropEntry | Assets/Scripts/MazeGenerator.cs:233-238 | Removing an entry that is no longer needed keeps the frontier list complete. |
| MazeGen.CarveFrontier | Assets/Scripts/MazeGenerator.cs:245-249 | After a carve, the list without the taken entry plus the new cell's outward walls is complete again. |
| MazeGen.FrontierEmpty | Assets/Scripts/MazeGenerator.cs:229 | An empty complete frontier means no visited cell has an unvisited in-bounds neighbour. |
| MazeGen.MazeGenerator.PrimCarve | Assets/Scripts/MazeGenerator.cs:245-249 | Joins the new cell through its wall on both sides, links and visits it, and appends exactly its outward walls to the frontier. |
| MazeGen.MazeGenerator.PrimJoin | Assets/Scripts/MazeGenerator.cs:231-249 | Taking the entry out and carving keeps the carving invariant and a complete frontier, and it visits exactly one more cell. |
| MazeGen.MazeGenerator.PrimStep | Assets/Scripts/MazeGenerator.cs:229-250 | One pass of Prim's loop keeps both invariants. Either more cells are visited, or exactly one entry is removed from the frontier list and the walls, the parent links and the visit order are unchanged. |
| MazeGen.MazeGenerator.CarveMazePrim | Assets/Scripts/MazeGenerator.cs:224-251 | For every sequence of random choices, the same perfect-maze guarantee as the backtracker. |
| Tree.StartGrowing | Assets/Scripts/MazeGenerator.cs:184-185 | The closed grid with only the root visited satisfies the carving invariant. |
| Tree.CarveStep | Assets/Scripts/MazeGenerator.cs:205-213 | Opening the wall on both sides, linking the new cell to `from` and numbering it next keeps the carving invariant. |
| Tree.ClosedIsAll | Assets/Scripts/MazeGenerator.cs:187 | A visited region that contains the root and is closed under in-bounds steps is the whole grid. |
| Tree.PassageSymmetric | Assets/Scripts/MazeGenerator.cs:208-209 | In a carved grid every open passage is open from both sides. |
| Tree.RouteToRoot | Assets/Scripts/MazeGenerator.cs:626-631 | Following parent links from any cell of a carved maze is a walk through open walls that ends at the root. |
| Tree.ReverseRoute | Assets/Scripts/MazeGenerator.cs:208-209 | A walk through open walls of a carved grid can be followed backwards. |
| Tree.Connected | Assets/Scripts/MazeGenerator.cs:614-618 | In a carved maze every cell reaches every other cell through open walls. |
| Tree.PassageCount | Assets/Scripts/MazeGenerator.cs:181-251 | A carved maze has exactly `w·h − 1` open interior walls, one per non-root cell, so it has no loop. |
| Tree.CarveFollows | Assets/Scripts/MazeGenerator.cs:205-213 | After a carving step every wall is down exactly when a parent link joins its two cells. |
| Tree.CarveBoundary | Assets/Scripts/MazeGenerator.cs:205-210 | Carving between two in-grid cells leaves every outer wall standing. |
| Tree.CarveWall | Assets/Scripts/MazeGenerator.cs:205-213 | For any single wall after a carving step, it is down exactly when a parent link joins its two cells. |
| Tree.PassagesAreLinks | Assets/Scripts/MazeGenerator.cs:181-251 | Every open interior wall of a carved maze is the parent link of one of its cells. |
| Tree.LinksArePassages | Assets/Scripts/MazeGenerator.cs:181-251 | Every parent link of a carved maze is an open interior wall. |
| Tree.CardEdges | Assets/Scripts/MazeGenerator.cs:212-213 | Distinct non-root cells give distinct parent links, so there are as many links as cells. |
| Tree.CardAllCells | Assets/Scripts/MazeGenerator.cs:169-178 | A `w × h` grid has `w·h` cells. |
| Tree.EntrancesOnlyBoundary | Assets/Scripts/MazeGenerator.cs:572-584 | After opening the entrances, the entrance and the exit are open and every interior wall is as it was. |
| Tree.OuterWallAfterEntrances | Assets/Scripts/MazeGenerator.cs:576-577 | A standing outer wall goes down exactly when it is the down wall of (0, 0) or the up wall of the far corner. |
| Tree.InnerWallAfterEntrances | Assets/Scripts/MazeGenerator.cs:576-577 | Opening the entrances changes no wall other than the down wall of (0, 0) and the up wall of the far corner. |
| Tree.EntrancesOpenBoundary | Assets/Scripts/MazeGenerator.cs:572-584 | On a grid closed all round, the entrance and the exit are then the only open outer walls. |
| Tree.EntrancesKeepSpanning | Assets/Scripts/MazeGenerator.cs:572-584 | Opening the entrances keeps a carved maze a carved maze. |
| MazeGen.MazeGenerator.OpenEntrances | Assets/Scripts/MazeGenerator.cs:572-584 | With a grid, the walls become the old walls with exactly the entrance and the exit opened; a 1 × 1 grid is covered because both walls belong to its one cell. Without a grid nothing changes. |
| Graph.CursorStart | Assets/Scripts/MazeGenerator.cs:470-472 | The cursor starts one cell past the node in the walk's direction. |
| Graph.CursorBack | Assets/Scripts/MazeGenerator.cs:477-478 | With the cursor in the grid, the cell behind it is in the grid too. |
| Graph.CursorLeaves | Assets/Scripts/MazeGenerator.cs:474 | The walk ends with nothing once the cursor leaves the grid. |
| Graph.CursorBlocked | Assets/Scripts/MazeGenerator.cs:479 | A standing wall behind the cursor ends the walk with nothing. |
| Graph.CursorFound | Assets/Scripts/MazeGenerator.cs:480-485 | Through an open wall, a node under the cursor ends the walk there. |
| Graph.CursorNext | Assets/Scripts/MazeGenerator.cs:487-489 | Through an open wall onto a cell that is no node, the cursor moves on one cell. |
| Graph.WalkFindsRun | Assets/Scripts/MazeGenerator.cs:474-490 | The corridor walk finds `b` exactly when `b` is a node at the end of a straight run of open walls with no node in between. |
| Graph.LinkIsOpenRun | Assets/Scripts/MazeGenerator.cs:465-491 | `TryConnect`'s search finds `b` exactly when the direction is up or right and `b` is the first node along open walls. Down and left find nothing. |
| Graph.EdgeShape | Assets/Scripts/MazeGenerator.cs:465-491 | Every edge joins two distinct nodes in one row or column through a straight run of open walls. |
| Graph.EdgeEndsAreNodes | Assets/Scripts/MazeGenerator.cs:480-484 | Both ends of an edge are nodes, and they differ. |
| Graph.Connect | Assets/Scripts/MazeGenerator.cs:482-483 | Linking `a` and `b` adds each to the other's list. The node set stays the same, and nothing else is added. |
| Graph.ConnectNoDuplicates | Assets/Scripts/MazeGenerator.cs:482-483 | Linking never puts a node twice into a neighbour list. |
| Graph.AddLink | Assets/Scripts/MazeGenerator.cs:465-491 | `TryConnect`'s effect keeps the node set, and the node it links to is another node. |
| Graph.AddLinkHas | Assets/Scripts/MazeGenerator.cs:465-491 | After `TryConnect`, `q` is listed under `p` exactly when it was before or the new edge joins them, in either direction. |
| Graph.ConnectNode | Assets/Scripts/MazeGenerator.cs:457-461 | Trying all four directions from a node gives exactly the edges from that node that the edge relation calls for, without duplicates. |
| MazeGen.MazeGenerator.Join | Assets/Scripts/MazeGenerator.cs:482-483 | The in-place update of the two neighbour lists is `Connect`. |
| MazeGen.MazeGenerator.CursorTurn | Assets/Scripts/MazeGenerator.cs:477-489 | One turn of the cursor loop either stops with the corridor walk's result or advances the cursor one cell. |
| MazeGen.MazeGenerator.Corridor | Assets/Scripts/MazeGenerator.cs:474-490 | The cursor loop over the arrays returns what the corridor walk over the walls returns. |
| MazeGen.MazeGenerator.FindLink | Assets/Scripts/MazeGenerator.cs:467-490 | `TryConnect`'s search over the arrays finds the node `Link` specifies. |
| MazeGen.MazeGenerator.TryConnect | Assets/Scripts/MazeGenerator.cs:465-491 | The graph becomes the old graph with the specified edge added, if there is one. |
| MazeGen.MazeGenerator.AddColumn | Assets/Scripts/MazeGenerator.cs:446-452 | After a column, the nodes are exactly the selected cells scanned so far, each with an empty neighbour list. |
| MazeGen.MazeGenerator.AddPoints | Assets/Scripts/MazeGenerator.cs:442-453 | The nodes are exactly the cells `ShouldCreatePoint` selects, each with an empty neighbour list. |
| MazeGen.MazeGenerator.ConnectFrom | Assets/Scripts/MazeGenerator.cs:457-461 | Connecting one more node keeps the edge invariant, with that node now done. |
| MazeGen.MazeGenerator.BuildGraph | Assets/Scripts/MazeGenerator.cs:440-463 | The nodes are exactly the selected cells. No list repeats a node. `q` is listed under `p` exactly when one of the two links to the other along a corridor, so edges are symmetric. Nodes and neighbour sets are thus fixed by the walls alone. |
| MazeGen.MazeGenerator.RebuildGraphOnly | Assets/Scripts/MazeGenerator.cs:690-694 | Before a maze exists the graph is left as it is. Otherwise the graph is `BuildGraph`'s, from the current walls. |
| ParentPath.Exit | Assets/Scripts/MazeGenerator.cs:611 | The far corner of a non-empty grid lies in the grid. |
| ParentPath.SpanningOrdered | Assets/Scripts/MazeGenerator.cs:212-213 | The links a carver leaves can be followed without cycling: each leads to an earlier-visited cell or to the sentinel. |
| MazeGen.MazeGenerator.Discover | Assets/Scripts/MazeGenerator.cs:669-670 | Marks the cell seen and records its parent; nothing else changes. |
| MazeGen.MazeGenerator.Enqueue | Assets/Scripts/MazeGenerator.cs:669-671 | Discovering a neighbour through an open wall appends it to the queue and keeps the search's bookkeeping. |
| MazeGen.MazeGenerator.ExploreDir | Assets/Scripts/MazeGenerator.cs:663-672 | Handling one direction keeps the bookkeeping of the neighbour loop. |
| MazeGen.MazeGenerator.ExploreFrom | Assets/Scripts/MazeGenerator.cs:662-673 | Every unseen neighbour behind an open wall of the dequeued cell is seen, linked back to it and appended to the queue. The cells newly seen are exactly the appended ones. |
| ParentPath.SearchDiscover | Assets/Scripts/MazeGenerator.cs:667-671 | Discovering a cell through an open wall from a seen cell keeps the search's bookkeeping. |
| ParentPath.ExploredNext | Assets/Scripts/MazeGenerator.cs:660-673 | Dequeuing and exploring a cell keeps every dequeued cell's open walls leading to seen cells. Either more cells are seen or the queue is shorter. |
| MazeGen.MazeGenerator.BfsStep | Assets/Scripts/MazeGenerator.cs:660-673 | One dequeue-and-explore keeps the loop invariant and makes progress. |
| MazeGen.MazeGenerator.SearchInit | Assets/Scripts/MazeGenerator.cs:652-656 | The queue holds only (0, 0), which is the only seen cell. |
| MazeGen.MazeGenerator.SearchLoop | Assets/Scripts/MazeGenerator.cs:658-674 | The loop ends with the far corner seen or the queue empty. |
| ParentPath.RouteStaysSeen | Assets/Scripts/MazeGenerator.cs:667 | Once the queue is empty, a walk through open walls from a seen cell ends at a seen cell. |
| ParentPath.ExhaustedSeesExit | Assets/Scripts/MazeGenerator.cs:658-674 | A search that ran out of queue has seen the far corner whenever the far corner is reachable. |
| ParentPath.SearchOrdered | Assets/Scripts/MazeGenerator.cs:669-670 | Whatever the search has done, following the links still cannot cycle. |
| ParentPath.SearchResult | Assets/Scripts/MazeGenerator.cs:650-675 | After the search the links stay ordered, and every changed link points back through an open wall. A reachable far corner other than (0, 0) ends up linked. |
| MazeGen.MazeGenerator.SearchFinish | Assets/Scripts/MazeGenerator.cs:650-675 | From the finished search: the links stay ordered, every changed link points back through an open wall, and a reachable far corner other than (0, 0) is linked. |
| MazeGen.MazeGenerator.BuildParentPath | Assets/Scripts/MazeGenerator.cs:650-675 | The search from (0, 0) through open walls keeps the links ordered. Every changed link is a cell's parent through an open wall, and (0, 0) never gets one. The far corner, when reachable, ends up linked. |
| ParentPath.SpanningLinked | Assets/Scripts/MazeGenerator.cs:612 | In a maze carved from (0, 0), every other cell has a link. |
| ParentPath.ChainIsRoute | Assets/Scripts/MazeGenerator.cs:626-631 | In such a maze, a walk along links that reaches (0, 0) is the route through the tree. |
| ParentPath.SpanningWalk | Assets/Scripts/MazeGenerator.cs:623-631 | In such a maze, the walk from the far corner reaches (0, 0) along the tree. |
| MazeGen.MazeGenerator.WalkParents | Assets/Scripts/MazeGenerator.cs:623-631 | The walk starts at the far corner, follows the links, and stops at (0, 0) or at the sentinel. On a carved maze it is the route through the tree. |
| MazeGen.MazeGenerator.SearchExit | Assets/Scripts/MazeGenerator.cs:615-620 | After the search, the corner is linked exactly when the result says so, and an unlinked corner is unreachable. |
| MazeGen.MazeGenerator.LinkExit | Assets/Scripts/MazeGenerator.cs:611-621 | Reports whether the far corner is (0, 0) or has a link. An unlinked corner is unreachable. A freshly carved maze is left untouched. |
| MazeGen.MazeGenerator.HighlightPath | Assets/Scripts/MazeGenerator.cs:608-631 | A path that is returned follows the links from the far corner. No path means the far corner cannot be reached. On a freshly carved maze nothing changes and the path is the route from the exit to the entrance. |
| MazeGen.MazeGenerator.Carve | Assets/Scripts/MazeGenerator.cs:108-119 | The carver the `algorithm` field selects, run from (0, 0), leaves a perfect maze with its outer walls closed. |
| MazeGen.MazeGenerator.CarveFromOrigin | Assets/Scripts/MazeGenerator.cs:105-119 | New arrays holding a perfect maze carved from (0, 0). |
| MazeGen.MazeGenerator.OpenMaze | Assets/Scripts/MazeGenerator.cs:120 | Opening the entrances of the carved maze gives a perfect maze whose only open outer walls are the entrance and the exit. |
| MazeGen.MazeGenerator.KeepMazeHighlight | Assets/Scripts/MazeGenerator.cs:123 | On a perfect maze, the path highlight changes nothing and yields the exit route. |
| MazeGen.MazeGenerator.GraphAndPath | Assets/Scripts/MazeGenerator.cs:122-123 | Building the graph and the path leaves the maze perfect. The graph is the one the walls determine, and the path is the exit route. |
| MazeGen.MazeGenerator.Derive | Assets/Scripts/MazeGenerator.cs:120-123 | Everything after carving: a perfect maze, the matching graph, and the exit route. |
| MazeGen.MazeGenerator.Generate | Assets/Scripts/MazeGenerator.cs:96-125 | A non-positive width or height changes no array and no node and gives no path. Otherwise the result is new arrays holding a perfect maze: every cell visited, the walls following a spanning tree rooted at (0, 0) (so, by `Tree.Connected` and `Tree.PassageCount`, fully connected with `w·h − 1` open interior walls), and only the entrance and the exit open outside. The graph is the one `BuildGraph` derives from the walls, and the path is the route from the exit back to (0, 0). The class invariant (arrays sized `width × height` once they exist) holds afterwards whenever it held before. |
| Rng.Random.constructor | Assets/Scripts/MazeGenerator.cs:107 | A generator over a fixed but arbitrary stream of draws, with nothing drawn yet. |
| Rng.Random.Next | Assets/Scripts/MazeGenerator.cs:203 | `Next(n)` for `n > 0` lies in `[0, n)` and is the next draw reduced into range. `Next(0)` is 0. Exactly one draw is consumed. |
| Paths.Heuristic | Assets/Scripts/MazePlayerController.cs:397-398 | The Manhattan distance in grid units, which is 0 exactly when the two cells coincide. The ghost's copy is `EnemyGhostController.cs:113`. |
| Paths.CostIsDistance | Assets/Scripts/MazePlayerController.cs:376 | On an edge along one row or column, the integer cost squared is the squared Euclidean distance of the scaled positions, so it is `Vector3.Distance`. It is 0 exactly for equal ends. |
| Paths.CostAtLeastGrid | Assets/Scripts/MazePlayerController.cs:376 | With a cell size of at least 1, an edge costs at least its grid distance, and at least 1 between distinct cells. |
| Paths.HeuristicConsistent | Assets/Scripts/MazePlayerController.cs:381 | With a cell size of at least 1, the heuristic drops by no more than one edge's cost. |
| Paths.HeuristicAdmissible | Assets/Scripts/MazePlayerController.cs:397-398 | With a cell size of at least 1, along any walk the heuristic drops by at most the walk's length, so it never overestimates. |
| Paths.LengthAppend | Assets/Scripts/MazePlayerController.cs:316-317 | Extending a walk by a cell adds that edge's cost to its length. |
| Paths.LengthSplit | Assets/Scripts/MazePlayerController.cs:316-317 | A walk's length is the sum of the lengths of its two halves at any cell. |
| Paths.PathAppend | Assets/Scripts/MazePlayerController.cs:374-379 | A walk from the start followed by an edge is a walk from the start. |
| Search.ChainIsPath | Assets/Scripts/MazePlayerController.cs:400-406 | Following `came` links back from a discovered node gives a walk from the start that is no longer than the node's `gScore`. |
| Search.ChainExists | Assets/Scripts/MazePlayerController.cs:403 | Every discovered node ends a finite chain of links. |
| Search.Frontier | Assets/Scripts/MazePlayerController.cs:368-393 | Every walk from the start has an open cell whose cost is within the walk's length up to it, or it ends at a discovered cell within its length. |
| Search.PoppedOptimal | Assets/Scripts/MazePlayerController.cs:370-372 | The open node with the smallest `g + h` has its final cost: no walk from the start reaches it more cheaply. |
| Search.GoalShortest | Assets/Scripts/MazePlayerController.cs:372 | When the goal is popped, the chain of links ending at it is a shortest path. |
| Search.Exhausted | Assets/Scripts/MazePlayerController.cs:394 | With nothing open and the goal undiscovered, the goal is unreachable. |
| Search.StartRelaxing | Assets/Scripts/MazePlayerController.cs:373 | Popping a node other than the goal closes it and starts its relaxation. |
| Search.EndRelaxing | Assets/Scripts/MazePlayerController.cs:374-392 | Once every neighbour is relaxed, the search invariant holds again. |
| Search.RelaxImproves | Assets/Scripts/MazePlayerController.cs:377-386 | Improving a neighbour gives it a new cost, link and open status, and the invariant holds with it relaxed. |
| Search.RelaxKeeps | Assets/Scripts/MazePlayerController.cs:377 | A neighbour that is not improved is relaxed without any change. |
| Search.ImproveConsistent | Assets/Scripts/MazePlayerController.cs:379-380 | Replacing a cost by a strictly smaller one reached through a discovered neighbour keeps the links consistent. |
| Search.ImproveSettled | Assets/Scripts/MazePlayerController.cs:379-385 | Lowering a cost and opening the node keeps every other closed node settled. |
| Search.ConsistentDescends | Assets/Scripts/MazePlayerController.cs:403 | Costs strictly drop along `came` links, so `Reconstruct`'s loop ends. |
| Search.NoImprovement | Assets/Scripts/EnemyGhostController.cs:112 | No edge from a discovered node improves a node that already has its final cost. |
| Search.ImprovedStep | Assets/Scripts/MazePlayerController.cs:377-380 | Each improvement discovers a cell or strictly lowers a cost, which bounds how often it can happen. |
| MinHeaps.RootIsMin | Assets/Scripts/MazePlayerController.cs:426 | In a heap-ordered list, the root's `f` is no larger than that of any slot. |
| MinHeaps.RootIsSmallest | Assets/Scripts/MazePlayerController.cs:426 | The root's `f` is no larger than any record's `f`. |
| MinHeaps.PopMoves | Assets/Scripts/MazePlayerController.cs:426 | Moving the last record to the root loses exactly the root. Only the new root can be out of order with its children. |
| MinHeaps.Swap | Assets/Scripts/MazePlayerController.cs:438 | The tuple swap exchanges two slots and keeps the multiset. |
| MinHeaps.SwapUp | Assets/Scripts/MazePlayerController.cs:438 | After a sift-up swap, the order is broken only at the parent. |
| MinHeaps.UpSettled | Assets/Scripts/MazePlayerController.cs:438 | Stopping at the root, or below a parent that is no larger, leaves a heap. |
| MinHeaps.SwapDown | Assets/Scripts/MazePlayerController.cs:446 | After swapping with the smaller child, the order is broken only below that child. |
| MinHeaps.DownSettled | Assets/Scripts/MazePlayerController.cs:446 | Stopping where no child is smaller leaves a heap. |
| MinHeaps.ReplaceOrders | Assets/Scripts/MazePlayerController.cs:431 | Replacing one record breaks the order only above it (smaller `f`) or only below it (larger `f`). |
| MinHeaps.FirstMatch | Assets/Scripts/MazePlayerController.cs:429-430 | The index of the first record satisfying the predicate, or the length when none does. |
| MinHeaps.FirstMatchIs | Assets/Scripts/MazePlayerController.cs:429-430 | The first match is unique: it is the index before which nothing matches and at which something does. |
| MinHeaps.MinHeap.constructor | Assets/Scripts/MazePlayerController.cs:423 | A new heap is empty. |
| MinHeaps.MinHeap.SiftUp | Assets/Scripts/MazePlayerController.cs:434-440 | Keeps the multiset and restores the heap when only the slot and its parent were out of order. A slot already ordered below is left as it is. |
| MinHeaps.MinHeap.SiftDown | Assets/Scripts/MazePlayerController.cs:441-448 | Keeps the multiset and restores the heap when only the slot and its children were out of order. |
| MinHeaps.MinHeap.Push | Assets/Scripts/MazePlayerController.cs:425 | The heap stays ordered, gains exactly the pushed record, and `Count` grows by one. |
| MinHeaps.MinHeap.Pop | Assets/Scripts/MazePlayerController.cs:426 | On a non-empty heap, returns a stored record with the smallest `f`. The heap stays ordered, loses exactly that record, and `Count` drops by one. |
| MinHeaps.MinHeap.ReplaceAt | Assets/Scripts/MazePlayerController.cs:431 | Replacing slot `i` and sifting up then down keeps the heap ordered and trades exactly the old record for the new one. |
| MinHeaps.MinHeap.UpdateIfBetter | Assets/Scripts/MazePlayerController.cs:427-433 | Changes only the first matching record and keeps the heap ordered and its size. With no match, the heap is unchanged. |
| PlayerSearch.HeapPopMin | Assets/Scripts/MazePlayerController.cs:370-373 | The record popped belongs to an open node with the smallest `g + h`. Without it, the heap mirrors the open set less that node. |
| PlayerSearch.HeapPushNew | Assets/Scripts/MazePlayerController.cs:384-385 | Pushing a newly opened node's record keeps the heap mirroring the open set. |
| PlayerSearch.HeapLower | Assets/Scripts/MazePlayerController.cs:389 | Lowering an open node's record to its new `g + h` keeps the heap mirroring the open set. |
| PlayerSearch.MatchIsRecord | Assets/Scripts/MazePlayerController.cs:389 | The record `UpdateIfBetter` finds is exactly that node's record. |
| PlayerSearch.PopOpen | Assets/Scripts/MazePlayerController.cs:370-373 | The popped node is open with the smallest `g + h`. It leaves the open set, and the heap still mirrors it. |
| PlayerSearch.PushRecord | Assets/Scripts/MazePlayerController.cs:384-385 | The heap gains the new node's record and mirrors the enlarged open set. |
| PlayerSearch.LowerRecord | Assets/Scripts/MazePlayerController.cs:389 | The heap mirrors the lowered cost. |
| PlayerSearch.OpenNeighbor | Assets/Scripts/MazePlayerController.cs:377-386 | An improved neighbour that is not open gets its link and cost and is opened, and its record is pushed. |
| PlayerSearch.LowerNeighbor | Assets/Scripts/MazePlayerController.cs:377-390 | An improved open neighbour gets its link and cost, and its record is lowered. |
| PlayerSearch.RelaxNeighbor | Assets/Scripts/MazePlayerController.cs:376-391 | Relaxing one neighbour keeps the search invariant and the heap mirroring the open set. Costs only fall. |
| PlayerSearch.Expand | Assets/Scripts/MazePlayerController.cs:374-392 | After every neighbour is relaxed the search invariant holds. Either costs improved, or they stayed and the heap is no longer. |
| PlayerSearch.GoalPath | Assets/Scripts/MazePlayerController.cs:372 | The path read back from the goal is a shortest path. |
| PlayerSearch.Reconstruct | Assets/Scripts/MazePlayerController.cs:400-406 | The result is the chain of `came` links ending at `current`, read from its first node. It is finite because costs descend along links. |
| PlayerSearch.AStar | Assets/Scripts/MazePlayerController.cs:359-395 | A null start or goal gives null. Otherwise a path is returned exactly when the goal is reachable, and it is a shortest path from the start to the goal. |
| PlayerSearch.PathCost | Assets/Scripts/MazePlayerController.cs:312-319 | A null path costs 0. Otherwise the cost is the path's length, the sum of its edge costs. |
| PlayerSearch.MazePlayerController.constructor | Assets/Scripts/MazePlayerController.cs:51 | The waypoint queue starts empty. |
| PlayerSearch.MazePlayerController.BuildWaypointsFromPath | Assets/Scripts/MazePlayerController.cs:305-310 | A null path adds nothing. Otherwise one target per path node is appended, in path order. |
| GhostSearch.NodeRecord.constructor | Assets/Scripts/EnemyGhostController.cs:103 | A record holds the node, cost, `f` and parent it was given. |
| GhostSearch.StartRec | Assets/Scripts/EnemyGhostController.cs:110 | A new record is appended to the open list and filed under its node. |
| GhostSearch.FiledApart | Assets/Scripts/EnemyGhostController.cs:109 | Different nodes have different record objects, so an in-place update touches one node only. |
| GhostSearch.MirrorAdd | Assets/Scripts/EnemyGhostController.cs:110 | Filing a new record for an undiscovered node keeps the records mirroring the costs and links. |
| GhostSearch.ListedAdd | Assets/Scripts/EnemyGhostController.cs:110 | The open list stays made of filed records without repeats, and it gains the new node. |
| GhostSearch.StartSearch | Assets/Scripts/EnemyGhostController.cs:108-111 | The start's record has cost 0 and no parent, and it is the only record and the only open one. |
| GhostSearch.InsertSorted | Assets/Scripts/EnemyGhostController.cs:112 | Inserting a record after exactly the records with no larger `f` keeps the list sorted. |
| GhostSearch.InsertByF | Assets/Scripts/EnemyGhostController.cs:112 | One insertion keeps the list sorted by `f` and adds exactly that record. |
| GhostSearch.SortByF | Assets/Scripts/EnemyGhostController.cs:112 | `open.Sort` by `f` yields the same records (as a multiset) in non-decreasing `f`. |
| GhostSearch.FirstIsLeast | Assets/Scripts/EnemyGhostController.cs:112 | After sorting, the first record's node has the smallest `g + h` among open nodes. |
| GhostSearch.RestListed | Assets/Scripts/EnemyGhostController.cs:112 | After `RemoveAt(0)`, the remaining records hold every other open node. |
| GhostSearch.PopMin | Assets/Scripts/EnemyGhostController.cs:112 | The record popped is filed under an open node with the smallest `g + h`. The rest of the list holds exactly the other open nodes and is one shorter. |
| GhostSearch.PopCloses | Assets/Scripts/EnemyGhostController.cs:112 | The popped node has its final cost, so every closed node does. |
| GhostSearch.ClosedStays | Assets/Scripts/EnemyGhostController.cs:112 | Updating an open or new node leaves every closed node's final cost alone. |
| GhostSearch.ImprovedIsOpen | Assets/Scripts/EnemyGhostController.cs:112 | A discovered node that an edge improves is open. So the in-place update without re-adding to `open` never loses a node. |
| GhostSearch.Improve | Assets/Scripts/EnemyGhostController.cs:112 | The in-place update `nr.g`, `nr.f`, `nr.parent` keeps the records mirroring the lowered cost and the new link. |
| GhostSearch.NewRecord | Assets/Scripts/EnemyGhostController.cs:112 | A neighbour without a record gets one, reached from the current node, and is opened. |
| GhostSearch.LowerRecord | Assets/Scripts/EnemyGhostController.cs:112 | A neighbour whose record is beaten takes the cheaper route in place. |
| GhostSearch.RelaxNeighbor | Assets/Scripts/EnemyGhostController.cs:112 | Relaxing one neighbour keeps the records mirroring the search state. Costs only fall. |
| GhostSearch.Expand | Assets/Scripts/EnemyGhostController.cs:112 | After every neighbour is relaxed the search invariant holds and closed nodes keep their final costs. Either costs improved, or they stayed and the open list is no longer. |
| GhostSearch.ImprovedDecreases | Assets/Scripts/EnemyGhostController.cs:112 | Each round discovers cells, lowers costs, or shortens the open list, so the loop ends. |
| GhostSearch.GoalPath | Assets/Scripts/EnemyGhostController.cs:112 | The path read back from the goal's record is a shortest path. |
| GhostSearch.Round | Assets/Scripts/EnemyGhostController.cs:112 | One pass either returns a shortest path (the goal was popped), or keeps the loop invariant and makes progress. |
| GhostSearch.NothingOpen | Assets/Scripts/EnemyGhostController.cs:112 | With the open list empty, the goal is unreachable. |
| GhostSearch.Explore | Assets/Scripts/EnemyGhostController.cs:112 | The loop returns a shortest path, or nothing exactly when the goal is unreachable. |
| GhostSearch.Reconstruct | Assets/Scripts/EnemyGhostController.cs:114 | Following parent references from the end record and reversing gives the chain of links ending at its node. |
| GhostSearch.AStar | Assets/Scripts/EnemyGhostController.cs:105-112 | The same contract as the player's search: a null start or goal gives null, and otherwise a shortest path exactly when the goal is reachable. |
| Scene.GameObject.constructor | Assets/Scripts/WallPool.cs:39-51 | A newly created object is active and alive. |
| Scene.Present | Assets/Scripts/WallPool.cs:75-88 | The slots that are not Unity-null, in order: every survivor comes from the list and is alive, and every live slot survives. |
| Scene.Keep | Assets/Scripts/WallPool.cs:77-86 | Filtering by a live set keeps only non-null slots of that set that come from the list. |
| Scene.PresentIsKeep | Assets/Scripts/WallPool.cs:77-86 | Filtering by the list's own live set is the same as dropping Unity-null slots. |
| Scene.PresentAppend | Assets/Scripts/WallPool.cs:77-86 | Dropping Unity-null slots distributes over concatenation, so the survivors keep their order. |
| Scene.PresentKeepsLive | Assets/Scripts/WallPool.cs:75-88 | A list without Unity-null slots is left as it is. |
| Scene.KeepAt | Assets/Scripts/WallPool.cs:79-85 | Filtering from slot `i` keeps that slot when its object is live, then filters the rest. |
| Scene.SplitSlot | Assets/Scripts/WallPool.cs:82 | `RemoveAt(i)` on a list whose tail is already filtered leaves the prefix followed by that tail. |
| WallPools.WallPool.constructor | Assets/Scripts/WallPool.cs:10-13 | An empty pool with nothing handed out and no prefab. |
| WallPools.WallPool.ActiveCount | Assets/Scripts/WallPool.cs:15-16 | `0 ≤ ActiveCount ≤ TotalCount`, where `TotalCount` is the number of slots, null ones included: the handed-out slots never outnumber the list. |
| WallPools.WallPool.Initialize | Assets/Scripts/WallPool.cs:18-26 | Remembers the prefab. Prewarms exactly `prewarm` new inactive objects only when `prewarm > 0` and the pool is empty; otherwise the list is unchanged. |
| WallPools.WallPool.Prewarm | Assets/Scripts/WallPool.cs:28-37 | Appends exactly `count` (none when `count ≤ 0`) new, distinct, inactive objects after the old slots, leaving `activeCount` alone. |
| WallPools.WallPool.Get | Assets/Scripts/WallPool.cs:53-73 | With a free slot: returns the object in it, or a new one replacing a Unity-null slot in place, and the length is unchanged. With no free slot: appends and returns a new object. Either way the object is active, sits at the old `activeCount`, and `activeCount` grows by one. |
| WallPools.WallPool.SweepSlot | Assets/Scripts/WallPool.cs:79-85 | One pass of the backward loop: a Unity-null slot is removed, otherwise its object is deactivated. |
| WallPools.WallPool.Sweep | Assets/Scripts/WallPool.cs:77-86 | The backward loop leaves the list filtered to its live objects, all inactive. |
| WallPools.WallPool.DeactivateAll | Assets/Scripts/WallPool.cs:75-88 | Removes every Unity-null slot, keeps the others in their order, deactivates them, and sets `activeCount` to 0. |
| WallPools.WallPool.DestroyAll | Assets/Scripts/WallPool.cs:90-99 | Every pooled object is destroyed, the list is empty and `activeCount` is 0. |
| WallPoolers.WallPooler.constructor | Assets/Scripts/WallPooler.cs:10-19 | Inspector defaults: no prefab, no prewarm, auto-initialize, an empty pool, not initialized. |
| WallPoolers.WallPooler.ActiveCount | Assets/Scripts/WallPooler.cs:21-22 | `0 ≤ ActiveCount ≤ TotalCount`, where `TotalCount` is the number of slots, null ones included: the handed-out slots never outnumber the list. |
| WallPoolers.WallPooler.Awake | Assets/Scripts/WallPooler.cs:24-27 | With `autoInitialize` set, the pooler ends up initialized. On the first initialization, with `prewarm > 0` and an empty pool, the pool then holds exactly `prewarm` new, distinct, inactive objects; in every other case the pool is unchanged. Without `autoInitialize`, nothing changes. |
| WallPoolers.WallPooler.Initialize | Assets/Scripts/WallPooler.cs:29-37 | Runs once. The first call prewarms `prewarm` objects only when that is positive and the pool is empty. Later calls leave the pool as it is. |
| WallPoolers.WallPooler.SetWallPrefab | Assets/Scripts/WallPooler.cs:39-42 | Changes `wallPrefab` and nothing else. |
| WallPoolers.WallPooler.Prewarm | Assets/Scripts/WallPooler.cs:44-53 | Appends exactly `count` (none when `count ≤ 0`) new, distinct, inactive objects after the old slots. |
| WallPoolers.WallPooler.Get | Assets/Scripts/WallPooler.cs:69-90 | Initializes when needed. Then it reuses the first free slot (the length is unchanged) or appends a new object. The object returned is active and alive, sits at the old `activeCount`, and `activeCount` grows by exactly one. |
| WallPoolers.WallPooler.SweepSlot | Assets/Scripts/WallPooler.cs:96-102 | One pass of the backward loop: a Unity-null slot is removed, otherwise its object is deactivated. |
| WallPoolers.WallPooler.Sweep | Assets/Scripts/WallPooler.cs:94-103 | The backward loop leaves the list filtered to its live objects, all inactive. |
| WallPoolers.WallPooler.DeactivateAll | Assets/Scripts/WallPooler.cs:92-105 | Removes every Unity-null slot, keeps the others in their order, deactivates them, and sets `activeCount` to 0. |
| WallPoolers.WallPooler.DestroyAll | Assets/Scripts/WallPooler.cs:107-115 | Every pooled object is destroyed, the list is empty and `activeCount` is 0. |

## Left out

- **Rendering:** `BuildVisuals`, `BuildMergedWalls`, `CreateWall`, the floor object, `originOffset`, world positions and gizmo drawing. These are Unity scene calls and float geometry. A node is its cell `(x, y)`.
- **Float distances:** `Vector3.Distance` is replaced by an integer cell size `cs` times the grid distance. This is exact because every edge runs along one row or column (`Graph.EdgeShape`, `Paths.CostIsDistance`). The heuristic is in grid units and the cost in world units.
- PlayerSearch.AStar: requires a whole-number cell size `cs ≥ 1`. Below 1 the grid heuristic can exceed the true remaining cost, so the search need not return a shortest path; a fractional cell size is not modelled.
- GhostSearch.AStar: requires a whole-number cell size `cs ≥ 1`, for the same reason.
- **`ClearChildren`:** not modelled. Its work on the pool (`SetWallPrefab`, `DeactivateAll`, `Initialize`) is modelled on `WallPooler` itself, and the rest is scene-hierarchy clean-up. `Generate` therefore does not model the wall objects.
- **`CarveMazeEller`:** not modelled. It is never called (its case in `Generate` is commented out), and it draws with `NextDouble`.
- **`System.Random`:** seeding and the generator's actual sequence are not modelled. `Rng.Random` stands for any stream of draws.
- **Unity lifecycle:** `Start`, `OnValidate` (which clamps the size to at least 1 and calls `RebuildGraphOnly` at run time when `pointsOnlyAtIntersections` changes) and the `onMazeGenerated` event are not modelled.
- MazeGen.MazeGenerator.RebuildGraphOnly: assumes the arrays still have the current `width × height`, which is the class invariant `Valid`. In the source, `width` and `height` can be edited in the inspector after `Generate` without reallocating `cells`. A rebuild then either indexes past the arrays (a larger size throws) or builds the graph of a sub-grid (a smaller size). The model has no size edit outside `Generate` and does not cover that state.
- **Edge order:** `TryConnect` computes a `straight` flag that it never uses; the model does not compute it. The graph's neighbour lists are compared as sets of neighbours. The order in which `BuildGraph` visits the dictionary is not modelled.
- **Tie order:** `List.Sort` in the ghost's search is not stable, while the model's insertion sort is. The contracts speak only of the smallest `f`, which holds for either order.
- **The player's heap:** `MinHeap` is modelled on values (`Entry(node, f)`). Nothing outside the heap holds a reference to a record, so changing a record in place is the same as replacing its slot.
- **`MazePlayerController` interaction:** mouse and raycast input, movement, stuck handling, line-of-sight, corridor projection, the goal marker and particles are not modelled. `BuildWaypointsFromPath` queues each node's cell without the world position and the 0.1 height offset.
- **`EnemyGhostController` runtime:** `Update`, `MoveTick`, `Retarget` and the float `FindClosestNode` are not modelled.
- **Other components:** `MazeEnemySpawner`, `TopDownCameraFollow` and the editor inspector are not part of this model.
- **Unity object operations in the pools:** `Instantiate` and `CreatePrimitive` become a new active object, `SetActive` toggles a flag, and `DestroyImmediate` sets a destroyed flag. Names, transforms and parents are not modelled.
- WallPoolers.WallPooler.Get: on a call that first initializes the pool, the contract does not state the list after the prewarm. It states only the returned object, its slot and the count. On a later call it does not say whether a reused slot was refilled.
- MazeGen.MazeGenerator.HighlightPath: the source computes the path only to place markers, which are commented out; the model returns the path so that its contract can be stated.
