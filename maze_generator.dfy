/**
 * The MazeGenerator component: a `width × height` grid of four-wall cells
 * with `visited` and `parent` arrays, carved into a perfect maze by a
 * depth-first backtracker or by randomized Prim, opened at the entrance and
 * the exit, turned into a navigation graph of intersection nodes, and
 * checked by following parent links from the exit back to the start.
 */
module MazeGen {
  import opened Wrappers
  import opened Grid
  import opened Tree
  import opened Graph
  import opened Rng
  import opened ParentPath

  /** The carving algorithm chosen in the inspector. */
  datatype GenerationAlgorithm = DepthFirstSearch | RandomizedPrim

  /**
   * Whether cell (x, y) with walls `c` becomes a graph node: every cell in
   * dense mode; otherwise the start, the end, and every cell that is not a
   * straight corridor (dead ends, corners and junctions).
   */
  function ShouldCreatePoint(pointsOnlyAtIntersections: bool, width: int, height: int, x: int, y: int, c: Cell): (b: bool)
    ensures !pointsOnlyAtIntersections ==> b
    ensures Pos(x, y) == Origin || Pos(x, y) == Pos(width - 1, height - 1) ==> b
    ensures b <==> !pointsOnlyAtIntersections || Pos(x, y) == Origin || Pos(x, y) == Pos(width - 1, height - 1)
                   || !StraightCorridor(c)
  {
    if !pointsOnlyAtIntersections then true
    else if (x == 0 && y == 0) || (x == width - 1 && y == height - 1) then true
    else
      var openUp := !c.Wall(0);
      var openRight := !c.Wall(1);
      var openDown := !c.Wall(2);
      var openLeft := !c.Wall(3);
      var openCount := (if openUp then 1 else 0) + (if openRight then 1 else 0)
                       + (if openDown then 1 else 0) + (if openLeft then 1 else 0);
      if openCount != 2 then true
      else
        var straight := (openUp && openDown) || (openLeft && openRight);
        !straight
  }

  /**
   * The entries AddFrontierWalls has appended for `cell` once directions
   * below `n` are examined: one per in-bounds unvisited neighbour among
   * them, in increasing direction order.
   */
  ghost predicate FrontierUpTo(w: int, h: int, vis: set<Pos>, cell: Pos, added: seq<(Pos, Dir)>, n: int)
  {
    && (forall k :: 0 <= k < |added| ==>
          added[k].0 == cell && added[k].1 < n && InBounds(w, h, Step(cell, added[k].1)) && Step(cell, added[k].1) !in vis)
    && (forall d: Dir :: d < n && InBounds(w, h, Step(cell, d)) && Step(cell, d) !in vis ==> (cell, d) in added)
    && (forall i, j :: 0 <= i < j < |added| ==> added[i].1 < added[j].1)
  }

  /** The entries AddFrontierWalls appends for `cell`: one per in-bounds unvisited neighbour. */
  ghost predicate FrontierFor(w: int, h: int, vis: set<Pos>, cell: Pos, added: seq<(Pos, Dir)>)
  {
    FrontierUpTo(w, h, vis, cell, added, 4)
  }

  /** Examining direction `d` appends `(cell, d)` exactly when that neighbour is on the grid and unvisited. */
  lemma FrontierNext(w: int, h: int, vis: set<Pos>, cell: Pos, added: seq<(Pos, Dir)>, d: Dir)
    requires FrontierUpTo(w, h, vis, cell, added, d)
    ensures InBounds(w, h, Step(cell, d)) && Step(cell, d) !in vis ==> FrontierUpTo(w, h, vis, cell, added + [(cell, d)], d + 1)
    ensures !(InBounds(w, h, Step(cell, d)) && Step(cell, d) !in vis) ==> FrontierUpTo(w, h, vis, cell, added, d + 1)
  {
  }

  /**
   * The depth-first stack holds visited cells, and every visited cell that
   * has left the stack has no unvisited neighbour.
   */
  ghost predicate StackFrontier(w: int, h: int, V: set<Pos>, stack: seq<Pos>)
  {
    && (forall k :: 0 <= k < |stack| ==> stack[k] in V)
    && (forall p, d: Dir {:trigger Step(p, d) in V} ::
          p in V && p !in stack && InBounds(w, h, Step(p, d)) ==> Step(p, d) in V)
  }

  /** Pushing a newly visited cell keeps the stack invariant. */
  lemma PushFrontier(w: int, h: int, V: set<Pos>, stack: seq<Pos>, next: Pos)
    requires StackFrontier(w, h, V, stack)
    ensures StackFrontier(w, h, V + {next}, stack + [next])
  {
  }

  /** Popping a cell whose neighbours are all visited keeps the stack invariant. */
  lemma PopFrontier(w: int, h: int, V: set<Pos>, stack: seq<Pos>, top: Pos)
    requires StackFrontier(w, h, V, stack) && |stack| > 0 && stack[|stack| - 1] == top
    requires forall d: Dir :: InBounds(w, h, Step(top, d)) ==> Step(top, d) in V
    ensures StackFrontier(w, h, V, stack[..|stack| - 1])
  {
  }

  /** A frontier entry `(cell, d)` still joins a visited cell to an unvisited cell on the grid. */
  ghost predicate Needed(w: int, h: int, V: set<Pos>, cell: Pos, d: Dir)
  {
    cell in V && InBounds(w, h, Step(cell, d)) && Step(cell, d) !in V
  }

  /**
   * Prim's frontier list: every entry's cell is on the grid, and every wall
   * between a visited cell and an unvisited neighbour on the grid is listed.
   */
  ghost predicate FrontierCovers(w: int, h: int, V: set<Pos>, frontier: seq<(Pos, Dir)>)
  {
    && (forall k :: 0 <= k < |frontier| ==> InBounds(w, h, frontier[k].0))
    && (forall p, d: Dir {:trigger Step(p, d) in V} :: Needed(w, h, V, p, d) ==> (p, d) in frontier)
  }

  /** An empty complete frontier means no visited cell has an unvisited neighbour on the grid. */
  lemma FrontierEmpty(w: int, h: int, V: set<Pos>)
    requires FrontierCovers(w, h, V, [])
    ensures forall p, d: Dir {:trigger Step(p, d) in V} :: p in V && InBounds(w, h, Step(p, d)) ==> Step(p, d) in V
  {
    forall p, d: Dir | p in V && InBounds(w, h, Step(p, d))
      ensures Step(p, d) in V
    {
      assert !Needed(w, h, V, p, d);
    }
  }

  /** Removing an entry that is no longer needed keeps the frontier complete. */
  lemma DropEntry(w: int, h: int, V: set<Pos>, frontier: seq<(Pos, Dir)>, idx: int)
    requires FrontierCovers(w, h, V, frontier) && 0 <= idx < |frontier|
    requires !Needed(w, h, V, frontier[idx].0, frontier[idx].1)
    ensures FrontierCovers(w, h, V, frontier[..idx] + frontier[idx + 1..])
  {
    var rest := frontier[..idx] + frontier[idx + 1..];
    forall p, d: Dir | Needed(w, h, V, p, d)
      ensures (p, d) in rest
    {
      var k :| 0 <= k < |frontier| && frontier[k] == (p, d);
      if k < idx {
        assert rest[k] == (p, d);
      } else {
        assert rest[k - 1] == (p, d);
      }
    }
  }

  /** With only `start` in the maze, its own outward walls make a complete frontier. */
  lemma FrontierStart(w: int, h: int, start: Pos, added: seq<(Pos, Dir)>)
    requires InBounds(w, h, start) && FrontierFor(w, h, {start}, start, added)
    ensures FrontierCovers(w, h, {start}, added)
  {
    forall p, d: Dir | Needed(w, h, {start}, p, d)
      ensures (p, d) in added
    {
      assert p == start;
    }
  }

  /**
   * After `to` joins the maze, the frontier with the taken entry removed and
   * `to`'s own outward walls appended is complete again.
   */
  lemma CarveFrontier(w: int, h: int, V: set<Pos>, frontier: seq<(Pos, Dir)>, idx: int, to: Pos, added: seq<(Pos, Dir)>)
    requires FrontierCovers(w, h, V, frontier) && 0 <= idx < |frontier| && InBounds(w, h, to)
    requires !Needed(w, h, V + {to}, frontier[idx].0, frontier[idx].1)
    requires FrontierFor(w, h, V + {to}, to, added)
    ensures FrontierCovers(w, h, V + {to}, frontier[..idx] + frontier[idx + 1..] + added)
  {
    var rest := frontier[..idx] + frontier[idx + 1..];
    forall p, d: Dir | Needed(w, h, V + {to}, p, d)
      ensures (p, d) in rest + added
    {
      if p == to {
        assert (p, d) in added;
      } else {
        assert Needed(w, h, V, p, d);
        var k :| 0 <= k < |frontier| && frontier[k] == (p, d);
        if k < idx {
          assert (rest + added)[k] == (p, d);
        } else {
          assert (rest + added)[k - 1] == (p, d);
        }
      }
    }
  }

  /** The first `i` entries of `keys`, as a set. */
  ghost function Listed(keys: seq<Pos>, i: int): set<Pos>
  {
    set j | 0 <= j < i && j < |keys| :: keys[j]
  }

  lemma ListedNext(keys: seq<Pos>, i: int)
    requires 0 <= i < |keys|
    ensures Listed(keys, i + 1) == Listed(keys, i) + {keys[i]}
  {
  }

  lemma ListedAll(keys: seq<Pos>, K: set<Pos>)
    requires forall p :: p in K ==> p in keys
    requires forall k :: 0 <= k < |keys| ==> keys[k] in K
    ensures Listed(keys, |keys|) == K
  {
  }

  /** The breadth-first search's `seen` array holds exactly the set `S`. */
  ghost predicate Marks(seen: array2<bool>, S: set<Pos>)
    reads seen
  {
    forall x, y {:trigger seen[x, y]} :: 0 <= x < seen.Length0 && 0 <= y < seen.Length1 ==> (seen[x, y] <==> Pos(x, y) in S)
  }

  class MazeGenerator {
    var width: int
    var height: int
    var pointsOnlyAtIntersections: bool
    var algorithm: GenerationAlgorithm
    var cells: array2?<Cell>
    var visited: array2?<bool>
    var parent: array2?<Pos>
    var nodes: Nodes
    /** The order in which cells received their parent; parent chains strictly descend in it. */
    ghost var order: map<Pos, nat>

    /** A fresh component with the inspector defaults and no maze yet. */
    constructor()
      ensures width == 10 && height == 10 && pointsOnlyAtIntersections
      ensures algorithm == DepthFirstSearch && cells == null && nodes == map[]
      ensures Valid()
    {
      width := 10;
      height := 10;
      pointsOnlyAtIntersections := true;
      algorithm := DepthFirstSearch;
      cells := null;
      visited := null;
      parent := null;
      nodes := map[];
      order := map[];
    }

    /** The three arrays exist and have the grid's dimensions. */
    ghost predicate GridMatches()
      reads this`width, this`height, this`cells, this`visited, this`parent
    {
      && cells != null && visited != null && parent != null
      && cells.Length0 == width && cells.Length1 == height
      && visited.Length0 == width && visited.Length1 == height
      && parent.Length0 == width && parent.Length1 == height
    }

    /** Once a maze exists, its arrays match a non-empty grid. */
    ghost predicate Valid()
      reads this`width, this`height, this`cells, this`visited, this`parent
    {
      cells != null ==> GridMatches() && width >= 1 && height >= 1
    }

    /** The wall flags of every cell. */
    ghost function Walls(): (W: Walls)
      reads this`width, this`height, this`cells, this`visited, this`parent, cells
      requires GridMatches()
      ensures W.Keys == AllCells(width, height)
    {
      map p | p in AllCells(width, height) :: cells[p.x, p.y]
    }

    /** The parent of every cell. */
    ghost function Parents(): (P: Parents)
      reads this`width, this`height, this`cells, this`visited, this`parent, parent
      requires GridMatches()
      ensures P.Keys == AllCells(width, height)
    {
      map p | p in AllCells(width, height) :: parent[p.x, p.y]
    }

    /** The visited cells. */
    ghost function Visited(): set<Pos>
      reads this`width, this`height, this`cells, this`visited, this`parent, visited
      requires GridMatches()
    {
      set p | p in AllCells(width, height) && visited[p.x, p.y]
    }

    /** The grid as InitGrid leaves it: every wall standing, nothing visited, no parents. */
    ghost predicate Untouched()
      reads this`width, this`height, this`cells, this`visited, this`parent, cells, visited, parent
      requires GridMatches()
    {
      forall x, y :: 0 <= x < width && 0 <= y < height ==>
        cells[x, y] == Closed && !visited[x, y] && parent[x, y] == NoParent
    }

    /** The arrays hold exactly the wall map `W`, the parent map `P` and the visited set `V`. */
    ghost predicate Coupled(W: Walls, P: Parents, V: set<Pos>)
      reads this`width, this`height, this`cells, this`visited, this`parent, cells, visited, parent
      requires GridMatches()
    {
      && W.Keys == AllCells(width, height) && P.Keys == AllCells(width, height) && V <= AllCells(width, height)
      && (forall x, y {:trigger cells[x, y]} :: 0 <= x < width && 0 <= y < height ==> cells[x, y] == W[Pos(x, y)])
      && (forall x, y {:trigger parent[x, y]} :: 0 <= x < width && 0 <= y < height ==> parent[x, y] == P[Pos(x, y)])
      && VisitedIs(V)
    }

    /** The `visited` array holds exactly the set `V`. */
    ghost predicate VisitedIs(V: set<Pos>)
      reads this`width, this`height, this`cells, this`visited, this`parent, visited
      requires GridMatches()
    {
      forall x, y {:trigger visited[x, y]} :: 0 <= x < width && 0 <= y < height ==> (visited[x, y] <==> Pos(x, y) in V)
    }

    lemma CoupledSnapshots(W: Walls, P: Parents, V: set<Pos>)
      requires GridMatches() && Coupled(W, P, V)
      ensures Walls() == W && Parents() == P && Visited() == V
    {
      assert forall p :: p in AllCells(width, height) ==> p == Pos(p.x, p.y);
    }

    /** A wall map that agrees with `cells` at every coordinate is the snapshot. */
    lemma WallsAre(m: Walls)
      requires GridMatches() && m.Keys == AllCells(width, height)
      requires forall x, y {:trigger cells[x, y]} :: 0 <= x < width && 0 <= y < height ==> cells[x, y] == m[Pos(x, y)]
      ensures Walls() == m
    {
      assert forall p :: p in AllCells(width, height) ==> p == Pos(p.x, p.y);
    }

    /** Allocates the arrays and closes every wall, clears `visited`, and resets every parent. */
    method InitGrid()
      requires width >= 0 && height >= 0
      modifies this`cells, this`visited, this`parent
      ensures fresh(cells) && fresh(visited) && fresh(parent)
      ensures GridMatches() && Untouched()
    {
      var c := new Cell[width, height];
      var v := new bool[width, height];
      var par := new Pos[width, height];
      for x := 0 to width
        invariant forall i, j :: 0 <= i < x && 0 <= j < height ==> c[i, j] == Closed && !v[i, j] && par[i, j] == NoParent
      {
        for y := 0 to height
          invariant forall i, j :: 0 <= i < x && 0 <= j < height ==> c[i, j] == Closed && !v[i, j] && par[i, j] == NoParent
          invariant forall j :: 0 <= j < y ==> c[x, j] == Closed && !v[x, j] && par[x, j] == NoParent
        {
          c[x, y] := Closed;
          v[x, y] := false;
          par[x, y] := NoParent;
        }
      }
      cells, visited, parent := c, v, par;
    }

    /**
     * The writes both carvers make to join unvisited `Step(from, d)` to the
     * maze: the wall is knocked down on both sides, the new cell is marked
     * visited and `from` becomes its parent.
     */
    method CarvePassage(from: Pos, d: Dir, ghost W: Walls, ghost P: Parents, ghost order: map<Pos, nat>,
                        ghost V: set<Pos>, ghost root: Pos)
      returns (ghost W': Walls, ghost P': Parents, ghost order': map<Pos, nat>, ghost V': set<Pos>)
      requires GridMatches() && Coupled(W, P, V) && Growing(width, height, W, P, order, V, root)
      requires from in V && InBounds(width, height, Step(from, d)) && Step(from, d) !in V
      modifies cells, visited, parent
      ensures W' == Carved(W, from, d) && P' == P[Step(from, d) := from]
      ensures order' == order[Step(from, d) := |V|] && V' == V + {Step(from, d)}
      ensures Coupled(W', P', V') && Growing(width, height, W', P', order', V', root)
    {
      W', P', order', V' := Carved(W, from, d), P[Step(from, d) := from], order[Step(from, d) := |V|], V + {Step(from, d)};
      OpenWall(from, d, W, P, V);
      Attach(Step(from, d), from, W', P, V);
      CarveStep(width, height, W, P, order, V, root, from, d);
    }

    /** Knocks down the wall between `a` and its neighbour in direction `d`, on both sides. */
    method OpenWall(a: Pos, d: Dir, ghost W: Walls, ghost P: Parents, ghost V: set<Pos>)
      requires GridMatches() && Coupled(W, P, V)
      requires InBounds(width, height, a) && InBounds(width, height, Step(a, d))
      modifies cells
      ensures Coupled(Carved(W, a, d), P, V)
    {
      var b := Step(a, d);
      cells[a.x, a.y] := cells[a.x, a.y].Clear(d);
      cells[b.x, b.y] := cells[b.x, b.y].Clear(Opposite(d));
    }

    /** Marks `child` visited and records `from` as its parent. */
    method Attach(child: Pos, from: Pos, ghost W: Walls, ghost P: Parents, ghost V: set<Pos>)
      requires GridMatches() && Coupled(W, P, V) && InBounds(width, height, child)
      modifies visited, parent
      ensures Coupled(W, P[child := from], V + {child})
    {
      visited[child.x, child.y] := true;
      parent[child.x, child.y] := from;
    }

    /** The in-bounds, unvisited neighbours of `cur`, in direction order. */
    method UnvisitedNeighbors(cur: Pos, ghost V: set<Pos>) returns (neighbors: seq<Pos>)
      requires GridMatches() && VisitedIs(V)
      ensures forall k :: 0 <= k < |neighbors| ==>
                InBounds(width, height, neighbors[k]) && neighbors[k] !in V && Adjacent(cur, neighbors[k])
      ensures forall d: Dir :: InBounds(width, height, Step(cur, d)) && Step(cur, d) !in V ==>
                Step(cur, d) in neighbors
    {
      neighbors := [];
      for i := 0 to 4
        invariant forall k :: 0 <= k < |neighbors| ==>
                    InBounds(width, height, neighbors[k]) && neighbors[k] !in V && Adjacent(cur, neighbors[k])
        invariant forall d: Dir :: d < i && InBounds(width, height, Step(cur, d)) && Step(cur, d) !in V ==>
                    Step(cur, d) in neighbors
      {
        var n := Step(cur, i);
        if InBounds(width, height, n) && !visited[n.x, n.y] {
          neighbors := neighbors + [n];
        }
      }
    }

    /** Marks `start` visited on the untouched grid: the carving invariant holds with only `start` in the maze. */
    method VisitStart(start: Pos) returns (ghost W: Walls, ghost P: Parents)
      requires GridMatches() && Untouched() && InBounds(width, height, start)
      modifies visited
      ensures Coupled(W, P, {start})
      ensures Growing(width, height, W, P, map[start := 0], {start}, start)
    {
      W := map p | p in AllCells(width, height) :: Closed;
      P := map p | p in AllCells(width, height) :: NoParent;
      visited[start.x, start.y] := true;
      StartGrowing(width, height, W, P, start);
    }

    /**
     * Once the visited region is closed under in-bounds steps, the carving
     * has visited every cell and the arrays hold a perfect maze rooted at
     * `root` with exactly `width * height - 1` open interior walls.
     */
    lemma Finished(W: Walls, P: Parents, order: map<Pos, nat>, V: set<Pos>, root: Pos)
      requires GridMatches() && Coupled(W, P, V) && Growing(width, height, W, P, order, V, root)
      requires forall p, d: Dir {:trigger Step(p, d) in V} ::
                 p in V && InBounds(width, height, Step(p, d)) ==> Step(p, d) in V
      ensures Visited() == AllCells(width, height)
      ensures Spanning(width, height, Walls(), Parents(), order, root)
      ensures BoundaryClosed(width, height, Walls())
      ensures |OpenPassages(width, height, Walls())| == width * height - 1
    {
      ClosedIsAll(width, height, V, root);
      PassageCount(width, height, W, P, order, root);
      CoupledSnapshots(W, P, V);
    }

    method BacktrackStep(stack: seq<Pos>, rnd: Random, ghost W: Walls, ghost P: Parents, ghost order: map<Pos, nat>,
                         ghost V: set<Pos>, ghost root: Pos)
      returns (stack': seq<Pos>, ghost W': Walls, ghost P': Parents, ghost order': map<Pos, nat>, ghost V': set<Pos>)
      requires GridMatches() && |stack| > 0
      requires Coupled(W, P, V) && Growing(width, height, W, P, order, V, root) && StackFrontier(width, height, V, stack)
      modifies cells, visited, parent, rnd
      ensures Coupled(W', P', V') && Growing(width, height, W', P', order', V', root) && StackFrontier(width, height, V', stack')
      ensures AllCells(width, height) - V' < AllCells(width, height) - V || (V' == V && |stack'| < |stack|)
      ensures V' == V ==> W' == W && P' == P && order' == order && stack' == stack[..|stack| - 1]
    {
      var cur := stack[|stack| - 1];
      var neighbors := UnvisitedNeighbors(cur, V);
      if |neighbors| > 0 {
        var k := rnd.Next(|neighbors|);
        CoupledKept(W, P, V);
        stack', W', P', order', V' := CarveInto(stack, neighbors[k], W, P, order, V, root);
      } else {
        PopFrontier(width, height, V, stack, cur);
        stack' := stack[..|stack| - 1];
        W', P', order', V' := W, P, order, V;
      }
    }

    /** BacktrackStep's carving branch: open the wall to the chosen unvisited neighbour `next` and push it. */
    method CarveInto(stack: seq<Pos>, next: Pos, ghost W: Walls, ghost P: Parents, ghost order: map<Pos, nat>,
                     ghost V: set<Pos>, ghost root: Pos)
      returns (stack': seq<Pos>, ghost W': Walls, ghost P': Parents, ghost order': map<Pos, nat>, ghost V': set<Pos>)
      requires GridMatches() && |stack| > 0
      requires Coupled(W, P, V) && Growing(width, height, W, P, order, V, root) && StackFrontier(width, height, V, stack)
      requires InBounds(width, height, next) && next !in V && Adjacent(stack[|stack| - 1], next)
      modifies cells, visited, parent
      ensures Coupled(W', P', V') && Growing(width, height, W', P', order', V', root) && StackFrontier(width, height, V', stack')
      ensures AllCells(width, height) - V' < AllCells(width, height) - V
    {
      var cur := stack[|stack| - 1];
      var dirIndex := GetDirectionIndex(cur, next);
      // `next` is a neighbour of `cur`, so the source's `dirIndex >= 0` guard always holds
      assert Step(cur, dirIndex) == next;
      PushFrontier(width, height, V, stack, next);
      W', P', order', V' := CarvePassage(cur, dirIndex, W, P, order, V, root);
      stack' := stack + [next];
    }

    /**
     * The depth-first backtracker: from `start`, repeatedly carves into a
     * randomly chosen unvisited neighbour of the cell on top of the stack,
     * and pops the cell when it has none. It leaves a perfect maze.
     */
    method CarveMazeDFS(start: Pos, rnd: Random) returns (ghost vorder: map<Pos, nat>)
      requires GridMatches() && Untouched() && InBounds(width, height, start)
      modifies cells, visited, parent, rnd
      ensures Visited() == AllCells(width, height)
      ensures Spanning(width, height, Walls(), Parents(), vorder, start)
      ensures BoundaryClosed(width, height, Walls())
      ensures |OpenPassages(width, height, Walls())| == width * height - 1
    {
      ghost var W, P := VisitStart(start);
      ghost var V := {start};
      var stack := [start];
      vorder := map[start := 0];
      while |stack| > 0
        invariant Coupled(W, P, V)
        invariant Growing(width, height, W, P, vorder, V, start)
        invariant StackFrontier(width, height, V, stack)
        decreases AllCells(width, height) - V, |stack|
      {
        stack, W, P, vorder, V := BacktrackStep(stack, rnd, W, P, vorder, V, start);
      }
      Finished(W, P, vorder, V, start);
    }

    /** Appends `(cell, d)` for every direction `d` whose neighbour is on the grid and unvisited. */
    method AddFrontierWalls(cell: Pos, list: seq<(Pos, Dir)>, ghost V: set<Pos>) returns (list': seq<(Pos, Dir)>)
      requires GridMatches() && VisitedIs(V)
      ensures |list| <= |list'| && list'[..|list|] == list && FrontierFor(width, height, V, cell, list'[|list|..])
    {
      list' := list;
      ghost var added := [];
      for d := 0 to 4
        invariant list' == list + added
        invariant FrontierUpTo(width, height, V, cell, added, d)
      {
        var n := Step(cell, d);
        FrontierNext(width, height, V, cell, added, d);
        if InBounds(width, height, n) && !visited[n.x, n.y] {
          list' := list' + [(cell, d)];
          added := added + [(cell, d)];
        }
      }
      assert list'[|list|..] == added;
    }

    /**
     * One pass of Prim's loop: take a random frontier entry out of the list
     * and, when it joins a visited cell to an unvisited one, carve that
     * passage and add the new cell's outward walls.
     */
    method PrimStep(frontier: seq<(Pos, Dir)>, rnd: Random, ghost W: Walls, ghost P: Parents, ghost order: map<Pos, nat>,
                    ghost V: set<Pos>, ghost root: Pos)
      returns (frontier': seq<(Pos, Dir)>, ghost W': Walls, ghost P': Parents, ghost order': map<Pos, nat>, ghost V': set<Pos>)
      requires GridMatches() && |frontier| > 0
      requires Coupled(W, P, V) && Growing(width, height, W, P, order, V, root) && FrontierCovers(width, height, V, frontier)
      modifies cells, visited, parent, rnd
      ensures Coupled(W', P', V') && Growing(width, height, W', P', order', V', root) && FrontierCovers(width, height, V', frontier')
      ensures AllCells(width, height) - V' < AllCells(width, height) - V || (V' == V && |frontier'| < |frontier|)
      ensures V' == V ==> W' == W && P' == P && order' == order
                          && exists i :: 0 <= i < |frontier| && frontier' == frontier[..i] + frontier[i + 1..]
    {
      var idx := rnd.Next(|frontier|);
      var carve, from, to, d := PrimOrient(frontier[idx].0, frontier[idx].1, V);
      CoupledKept(W, P, V);
      if carve {
        frontier', W', P', order', V' := PrimJoin(frontier, idx, from, to, d, W, P, order, V, root);
      } else {
        DropEntry(width, height, V, frontier, idx);
        frontier' := frontier[..idx] + frontier[idx + 1..];
        W', P', order', V' := W, P, order, V;
        assert 0 <= idx < |frontier| && frontier' == frontier[..idx] + frontier[idx + 1..];
      }
    }

    /** PrimStep's carving branch: take entry `idx` out of the list and carve from `from` into `to`. */
    method PrimJoin(frontier: seq<(Pos, Dir)>, idx: int, from: Pos, to: Pos, d: Dir, ghost W: Walls, ghost P: Parents,
                    ghost order: map<Pos, nat>, ghost V: set<Pos>, ghost root: Pos)
      returns (frontier': seq<(Pos, Dir)>, ghost W': Walls, ghost P': Parents, ghost order': map<Pos, nat>, ghost V': set<Pos>)
      requires GridMatches() && 0 <= idx < |frontier|
      requires Coupled(W, P, V) && Growing(width, height, W, P, order, V, root) && FrontierCovers(width, height, V, frontier)
      requires from in V && to == Step(from, d) && InBounds(width, height, to) && to !in V
      requires !Needed(width, height, V + {to}, frontier[idx].0, frontier[idx].1)
      modifies cells, visited, parent
      ensures Coupled(W', P', V') && Growing(width, height, W', P', order', V', root) && FrontierCovers(width, height, V', frontier')
      ensures V' == V + {to}
    {
      ghost var added;
      frontier', added, W', P', order', V' := PrimCarve(from, d, frontier[..idx] + frontier[idx + 1..], W, P, order, V, root);
      CarveFrontier(width, height, V, frontier, idx, to, added);
    }

    /**
     * How Prim treats the frontier entry `(cell, dir)`: skip it when the
     * neighbour is off the grid or both sides are visited (or, should it
     * happen, neither is); otherwise carve from the visited side `from` in
     * direction `d` into the unvisited side `to`.
     */
    method PrimOrient(cell: Pos, dir: Dir, ghost V: set<Pos>) returns (carve: bool, from: Pos, to: Pos, d: Dir)
      requires GridMatches() && VisitedIs(V) && InBounds(width, height, cell)
      ensures carve ==> from in V && to == Step(from, d) && InBounds(width, height, to) && to !in V
      ensures carve ==> (from, to) == (cell, Step(cell, dir)) || (from, to) == (Step(cell, dir), cell)
      ensures carve ==> !Needed(width, height, V + {to}, cell, dir)
      ensures !carve ==> !Needed(width, height, V, cell, dir)
    {
      from, to, d := cell, cell, dir;
      var next := Step(cell, dir);
      if !InBounds(width, height, next) {
        return false, from, to, d;
      }
      assert visited[cell.x, cell.y] <==> cell in V;
      assert visited[next.x, next.y] <==> next in V;
      if visited[next.x, next.y] && visited[cell.x, cell.y] {
        return false, from, to, d;
      }
      if visited[cell.x, cell.y] && !visited[next.x, next.y] {
        carve, from, to, d := true, cell, next, dir;
      } else if !visited[cell.x, cell.y] && visited[next.x, next.y] {
        // the source's `(dir + 2) % 4`
        carve, from, to, d := true, next, cell, Opposite(dir);
        assert Step(next, d) == cell;
      } else {
        carve := false;
      }
    }

    /** Prim's carve: joins `Step(from, d)` to the maze and appends its outward walls to the frontier. */
    method PrimCarve(from: Pos, d: Dir, frontier: seq<(Pos, Dir)>, ghost W: Walls, ghost P: Parents,
                     ghost order: map<Pos, nat>, ghost V: set<Pos>, ghost root: Pos)
      returns (frontier': seq<(Pos, Dir)>, ghost added: seq<(Pos, Dir)>,
               ghost W': Walls, ghost P': Parents, ghost order': map<Pos, nat>, ghost V': set<Pos>)
      requires GridMatches() && Coupled(W, P, V) && Growing(width, height, W, P, order, V, root)
      requires from in V && InBounds(width, height, Step(from, d)) && Step(from, d) !in V
      modifies cells, visited, parent
      ensures Coupled(W', P', V') && Growing(width, height, W', P', order', V', root)
      ensures V' == V + {Step(from, d)}
      ensures frontier' == frontier + added && FrontierFor(width, height, V', Step(from, d), added)
    {
      W', P', order', V' := CarvePassage(from, d, W, P, order, V, root);
      label carved:
      frontier' := AddFrontierWalls(Step(from, d), frontier, V');
      added := frontier'[|frontier|..];
      assert frontier' == frontier + added;
      CoupledKept@carved(W', P', V');
    }

    /**
     * Randomized Prim: from `start`, repeatedly removes a random wall from
     * the frontier list and carves through it when exactly one side is in
     * the maze. It leaves a perfect maze.
     */
    method CarveMazePrim(start: Pos, rnd: Random) returns (ghost vorder: map<Pos, nat>)
      requires GridMatches() && Untouched() && InBounds(width, height, start)
      modifies cells, visited, parent, rnd
      ensures Visited() == AllCells(width, height)
      ensures Spanning(width, height, Walls(), Parents(), vorder, start)
      ensures BoundaryClosed(width, height, Walls())
      ensures |OpenPassages(width, height, Walls())| == width * height - 1
    {
      var frontier;
      ghost var W, P, V;
      frontier, W, P, vorder, V := PrimStart(start);
      while |frontier| > 0
        invariant Coupled(W, P, V)
        invariant Growing(width, height, W, P, vorder, V, start)
        invariant FrontierCovers(width, height, V, frontier)
        decreases AllCells(width, height) - V, |frontier|
      {
        frontier, W, P, vorder, V := PrimStep(frontier, rnd, W, P, vorder, V, start);
      }
      FrontierEmpty(width, height, V);
      Finished(W, P, vorder, V, start);
    }

    /** Prim's set-up: only `start` visited, and its outward walls make up the frontier list. */
    method PrimStart(start: Pos)
      returns (frontier: seq<(Pos, Dir)>, ghost W: Walls, ghost P: Parents, ghost vorder: map<Pos, nat>, ghost V: set<Pos>)
      requires GridMatches() && Untouched() && InBounds(width, height, start)
      modifies visited
      ensures Coupled(W, P, V) && Growing(width, height, W, P, vorder, V, start) && FrontierCovers(width, height, V, frontier)
    {
      W, P := VisitStart(start);
      V := {start};
      vorder := map[start := 0];
      label started:
      frontier := AddFrontierWalls(start, [], V);
      ghost var added := frontier[0..];
      CoupledKept@started(W, P, V);
      FrontierStart(width, height, start, added);
      assert frontier == added;
    }

    /**
     * Opens the entrance (the down wall of (0, 0)) and the exit (the up wall
     * of the far corner); on a 1 × 1 grid both belong to the one cell. Does
     * nothing before a maze exists.
     */
    method OpenEntrances()
      requires Valid()
      modifies cells
      ensures cells != null ==> Walls() == Entrances(width, height, old(Walls()))
    {
      if cells == null {
        return;
      }
      ghost var before := Walls();
      cells[0, 0] := cells[0, 0].Clear(2);
      cells[width - 1, height - 1] := cells[width - 1, height - 1].Clear(0);
      if width == 1 && height == 1 {
        cells[0, 0] := cells[0, 0].Clear(0);
        cells[0, 0] := cells[0, 0].Clear(2);
      }
      WallsAre(Entrances(width, height, before));
    }

    /** The cells that BuildGraph turns into nodes. */
    ghost function Points(): set<Pos>
      reads this`width, this`height, this`cells, this`visited, this`parent, this`pointsOnlyAtIntersections, cells
      requires GridMatches()
    {
      set p | p in AllCells(width, height) && ShouldCreatePoint(pointsOnlyAtIntersections, width, height, p.x, p.y, cells[p.x, p.y])
    }

    /**
     * Walks from node `a` in direction `dir` (up and right only) through
     * open walls to the first node, and links the two nodes both ways
     * unless already linked.
     */
    method TryConnect(a: Pos, dir: Dir)
      requires GridMatches() && nodes.Keys <= AllCells(width, height) && a in nodes
      modifies this`nodes
      ensures nodes == AddLink(width, height, old(Walls()), old(nodes), a, dir)
    {
      var found := FindLink(a, dir);
      if found.Some? {
        LinkIsOpenRun(width, height, Walls(), nodes.Keys, a, dir, found.value);
        Join(a, found.value);
      }
    }

    /**
     * TryConnect's search without the update: nothing down or left, nothing
     * past a standing wall, otherwise the first node along the open corridor.
     */
    method FindLink(a: Pos, dir: Dir) returns (found: Option<Pos>)
      requires GridMatches() && InBounds(width, height, a)
      ensures found == Link(width, height, Walls(), nodes.Keys, a, dir)
    {
      if dir == 2 || dir == 3 {
        return None;
      }
      WallAt(a);
      if cells[a.x, a.y].Wall(dir) {
        return None;
      }
      found := Corridor(a, dir);
    }

    /** TryConnect's cursor loop: walk on from `a` while the cursor is inside the grid. */
    method Corridor(a: Pos, dir: Dir) returns (found: Option<Pos>)
      requires GridMatches() && InBounds(width, height, a) && dir < 2
      ensures found == Walk(width, height, Walls(), nodes.Keys, a, dir, 1)
    {
      ghost var walls := Walls();
      ghost var result := Walk(width, height, walls, nodes.Keys, a, dir, 1);
      CursorStart(width, height, walls, nodes.Keys, a, dir);
      var delta := DirVector(dir);
      var cx := a.x + delta.x;
      var cy := a.y + delta.y;
      ghost var i := 1;
      while 0 <= cx < width && 0 <= cy < height
        invariant Cursor(width, height, walls, nodes.Keys, a, dir, i, cx, cy, result)
        decreases if dir == 0 then height - cy else width - cx
      {
        WallsKept();
        var stop;
        stop, found := CursorTurn(a, dir, delta, cx, cy, walls, i, result);
        if stop {
          WallsKept();
          return;
        }
        cx, cy := cx + delta.x, cy + delta.y;
        i := i + 1;
      }
      CursorLeaves(width, height, walls, nodes.Keys, a, dir, i, cx, cy, result);
      WallsKept();
      return None;
    }

    /**
     * One turn of TryConnect's cursor loop at `(cx, cy)`: stop with nothing
     * at a standing wall behind the cursor, stop with the node under the
     * cursor, or go on.
     */
    method CursorTurn(a: Pos, dir: Dir, delta: Pos, cx: int, cy: int, ghost walls: Walls, ghost i: int, ghost result: Option<Pos>)
      returns (stop: bool, found: Option<Pos>)
      requires GridMatches() && walls == Walls() && dir < 2 && delta == DirVector(dir)
      requires Cursor(width, height, walls, nodes.Keys, a, dir, i, cx, cy, result) && InBounds(width, height, Pos(cx, cy))
      ensures stop ==> found == result
      ensures !stop ==> Cursor(width, height, walls, nodes.Keys, a, dir, i + 1, cx + delta.x, cy + delta.y, result)
    {
      CursorBack(width, height, walls, nodes.Keys, a, dir, i, cx, cy, result, delta);
      var back := Pos(cx - delta.x, cy - delta.y);
      WallAt(back);
      if cells[back.x, back.y].Wall(dir) {
        CursorBlocked(width, height, walls, nodes.Keys, a, dir, i, cx, cy, result, delta);
        return true, None;
      }
      var b := Pos(cx, cy);
      if b in nodes {
        CursorFound(width, height, walls, nodes.Keys, a, dir, i, cx, cy, result, delta);
        return true, Some(b);
      }
      CursorNext(width, height, walls, nodes.Keys, a, dir, i, cx, cy, result, delta);
      return false, None;
    }

    /** An in-grid cell's entry of Walls is the array's flags. */
    lemma WallAt(p: Pos)
      requires GridMatches() && InBounds(width, height, p)
      ensures Walls()[p] == cells[p.x, p.y]
    {
    }

    /** An in-grid cell's entry of Parents is the array's link. */
    lemma ParentAt(p: Pos)
      requires GridMatches() && InBounds(width, height, p)
      ensures Parents()[p] == parent[p.x, p.y]
    {
    }

    /** Adds each of `a` and `b` to the other's neighbour list unless already there. */
    method Join(a: Pos, b: Pos)
      requires a in nodes && b in nodes
      modifies this`nodes
      ensures nodes == Connect(old(nodes), a, b)
    {
      if b !in nodes[a] {
        nodes := nodes[a := nodes[a] + [b]];
      }
      if a !in nodes[b] {
        nodes := nodes[b := nodes[b] + [a]];
      }
    }

    /**
     * Rebuilds the navigation graph from the current walls: one node per
     * cell ShouldCreatePoint selects, then each node is connected up and to
     * the right. The result depends only on the walls, never on the old graph.
     */
    method BuildGraph()
      requires GridMatches()
      modifies this`nodes
      ensures nodes.Keys == Points() && NoDuplicates(nodes)
      ensures forall p, q :: p in nodes ==> (q in nodes[p] <==> q in nodes && Linked(width, height, Walls(), nodes.Keys, p, q))
    {
      nodes := map[];
      var keys := AddPoints();
      WallsKept();
      ghost var K := nodes.Keys;
      ghost var walls := Walls();
      for i := 0 to |keys|
        invariant Walls() == walls && Listed(keys, i) <= K
        invariant EdgesFrom(width, height, walls, K, nodes, Listed(keys, i))
      {
        ConnectFrom(keys[i], walls, K, Listed(keys, i));
        WallsKept();
        ListedNext(keys, i);
      }
      ListedAll(keys, K);
    }

    /** The navigation graph is the one BuildGraph derives from the current walls. */
    ghost predicate GraphMatches()
      reads this`width, this`height, this`cells, this`visited, this`parent, this`pointsOnlyAtIntersections, this`nodes, cells
      requires GridMatches()
    {
      && nodes.Keys == Points() && NoDuplicates(nodes)
      && forall p, q :: p in nodes ==> (q in nodes[p] <==> q in nodes && Linked(width, height, Walls(), nodes.Keys, p, q))
    }

    /** BuildGraph's first pass: a node with no neighbours for every selected cell, listed in creation order. */
    method AddPoints() returns (keys: seq<Pos>)
      requires GridMatches() && nodes == map[]
      modifies this`nodes
      ensures nodes.Keys == Points()
      ensures forall p :: p in nodes ==> nodes[p] == [] && p in keys
      ensures forall k :: 0 <= k < |keys| ==> keys[k] in nodes
    {
      keys := [];
      for x := 0 to width
        invariant forall p :: p in nodes <==> PickedBefore(p, x, 0)
        invariant forall p :: p in nodes ==> nodes[p] == [] && p in keys
        invariant forall k :: 0 <= k < |keys| ==> keys[k] in nodes
      {
        keys := AddColumn(x, keys);
      }
    }

    /** A cell BuildGraph selects that comes before (x, y) in the column-by-column scan. */
    ghost predicate PickedBefore(p: Pos, x: int, y: int)
      reads this`width, this`height, this`cells, this`visited, this`parent, this`pointsOnlyAtIntersections, cells
      requires GridMatches()
    {
      InBounds(width, height, p) && (p.x < x || (p.x == x && p.y < y)) &&
      ShouldCreatePoint(pointsOnlyAtIntersections, width, height, p.x, p.y, cells[p.x, p.y])
    }

    /** AddPoints' inner loop: the selected cells of column `x`, bottom to top. */
    method AddColumn(x: int, keys: seq<Pos>) returns (keys': seq<Pos>)
      requires GridMatches() && 0 <= x < width
      requires forall p :: p in nodes <==> PickedBefore(p, x, 0)
      requires forall p :: p in nodes ==> nodes[p] == [] && p in keys
      requires forall k :: 0 <= k < |keys| ==> keys[k] in nodes
      modifies this`nodes
      ensures forall p :: p in nodes <==> PickedBefore(p, x + 1, 0)
      ensures forall p :: p in nodes ==> nodes[p] == [] && p in keys'
      ensures forall k :: 0 <= k < |keys'| ==> keys'[k] in nodes
    {
      keys' := keys;
      for y := 0 to height
        invariant forall p :: p in nodes <==> PickedBefore(p, x, y)
        invariant forall p :: p in nodes ==> nodes[p] == [] && p in keys'
        invariant forall k :: 0 <= k < |keys'| ==> keys'[k] in nodes
      {
        if ShouldCreatePoint(pointsOnlyAtIntersections, width, height, x, y, cells[x, y]) {
          nodes := nodes[Pos(x, y) := []];
          keys' := keys' + [Pos(x, y)];
        }
      }
    }

    /** BuildGraph's second pass for one node: TryConnect in all four directions. */
    method ConnectFrom(a: Pos, ghost walls: Walls, ghost K: set<Pos>, ghost done: set<Pos>)
      requires GridMatches() && walls == Walls() && K <= AllCells(width, height) && a in K
      requires EdgesFrom(width, height, walls, K, nodes, done)
      modifies this`nodes
      ensures EdgesFrom(width, height, walls, K, nodes, done + {a})
    {
      ConnectNode(width, height, walls, K, nodes, done, a);
      TryConnect(a, 0);
      TryConnect(a, 1);
      TryConnect(a, 2);
      TryConnect(a, 3);
    }

    /** Parent chains descend in the ghost `order` (see Ordered), so following them ends. */
    ghost predicate ParentsOrdered()
      reads this`width, this`height, this`cells, this`visited, this`parent, parent, this`order
      requires GridMatches()
    {
      Ordered(width, height, Parents(), order)
    }

    /** The `parent` array holds exactly the map `P`. */
    ghost predicate ParentIs(P: Parents)
      reads this`width, this`height, this`cells, this`visited, this`parent, parent
      requires GridMatches()
    {
      && P.Keys == AllCells(width, height)
      && forall x, y {:trigger parent[x, y]} :: 0 <= x < width && 0 <= y < height ==> parent[x, y] == P[Pos(x, y)]
    }

    lemma ParentsAre(P: Parents)
      requires GridMatches() && ParentIs(P)
      ensures Parents() == P
    {
      assert forall p :: p in AllCells(width, height) ==> p == Pos(p.x, p.y);
    }

    /** Marks `n` seen and records `cur` as its parent. */
    method Discover(cur: Pos, n: Pos, seen: array2<bool>, ghost P: Parents, ghost S: set<Pos>)
      requires GridMatches() && InBounds(width, height, n) && seen.Length0 == width && seen.Length1 == height
      requires ParentIs(P) && Marks(seen, S)
      modifies seen, parent
      ensures ParentIs(P[n := cur]) && Marks(seen, S + {n})
    {
      seen[n.x, n.y] := true;
      parent[n.x, n.y] := cur;
    }

    /**
     * One dequeued cell of BuildParentPath: every unseen neighbour behind an
     * open wall of `cur` is marked seen, linked to `cur` and enqueued, in
     * direction order.
     */
    method ExploreFrom(cur: Pos, seen: array2<bool>, q: seq<Pos>, ghost W: Walls, ghost P0: Parents, ghost O0: map<Pos, nat>,
                       ghost P: Parents, ghost O: map<Pos, nat>, ghost S: set<Pos>)
      returns (q': seq<Pos>, ghost added: seq<Pos>, ghost P': Parents, ghost O': map<Pos, nat>, ghost S': set<Pos>)
      requires GridMatches() && W == Walls() && seen.Length0 == width && seen.Length1 == height
      requires ParentIs(P) && Marks(seen, S) && Searching(width, height, W, P0, O0, P, O, S) && cur in S
      modifies seen, parent
      ensures ParentIs(P') && Marks(seen, S') && Searching(width, height, W, P0, O0, P', O', S')
      ensures q' == q + added && Gathered(S, S', added) && OpenSeen(width, height, W, cur, S', 4)
    {
      q', added, P', O', S' := q, [], P, O, S;
      assert W[cur] == cells[cur.x, cur.y];
      ScanStart(width, height, W, P0, O0, cur, q, P, O, S);
      for d := 0 to 4
        invariant Exploring(cur, seen, q, q', added, W, P0, O0, S, P', O', S', d)
      {
        q', added, P', O', S' := ExploreDir(cur, d, seen, q, q', added, W, P0, O0, S, P', O', S');
      }
      ScanDone(width, height, W, P0, O0, cur, q, q', added, S, P', O', S');
    }

    /**
     * ExploreFrom's loop state once directions below `d` are done: the
     * search bookkeeping holds, and the cells seen since `S0` are exactly
     * the ones appended to the queue.
     */
    ghost predicate Exploring(cur: Pos, seen: array2<bool>, q0: seq<Pos>, q: seq<Pos>, added: seq<Pos>,
                              W: Walls, P0: Parents, O0: map<Pos, nat>, S0: set<Pos>,
                              P: Parents, O: map<Pos, nat>, S: set<Pos>, d: int)
      reads this`width, this`height, this`cells, this`visited, this`parent, cells, parent, seen
      requires GridMatches()
    {
      && InBounds(width, height, cur) && cur in W && W[cur] == cells[cur.x, cur.y]
      && seen.Length0 == width && seen.Length1 == height && ParentIs(P) && Marks(seen, S)
      && Scanning(width, height, W, P0, O0, cur, q0, q, added, S0, P, O, S, d)
    }

    /** The body of ExploreFrom's loop for direction `d`. */
    method ExploreDir(cur: Pos, d: Dir, seen: array2<bool>, q0: seq<Pos>, q: seq<Pos>, ghost added: seq<Pos>,
                      ghost W: Walls, ghost P0: Parents, ghost O0: map<Pos, nat>, ghost S0: set<Pos>,
                      ghost P: Parents, ghost O: map<Pos, nat>, ghost S: set<Pos>)
      returns (q': seq<Pos>, ghost added': seq<Pos>, ghost P': Parents, ghost O': map<Pos, nat>, ghost S': set<Pos>)
      requires GridMatches() && Exploring(cur, seen, q0, q, added, W, P0, O0, S0, P, O, S, d)
      modifies seen, parent
      ensures Exploring(cur, seen, q0, q', added', W, P0, O0, S0, P', O', S', d + 1)
    {
      var n := Step(cur, d);
      DirectionOfStep(cur, d);
      if InBounds(width, height, n) && !cells[cur.x, cur.y].Wall(d) && !seen[n.x, n.y] {
        q', added', P', O', S' := Enqueue(cur, d, seen, q0, q, added, W, P0, O0, S0, P, O, S);
      } else {
        q', added', P', O', S' := q, added, P, O, S;
        ScanSkip(width, height, W, P0, O0, cur, q0, q, added, S0, P, O, S, d);
      }
    }

    /** Marks the neighbour of `cur` in direction `d` seen, links it to `cur` and appends it to the queue. */
    method Enqueue(cur: Pos, d: Dir, seen: array2<bool>, q0: seq<Pos>, q: seq<Pos>, ghost added: seq<Pos>,
                   ghost W: Walls, ghost P0: Parents, ghost O0: map<Pos, nat>, ghost S0: set<Pos>,
                   ghost P: Parents, ghost O: map<Pos, nat>, ghost S: set<Pos>)
      returns (q': seq<Pos>, ghost added': seq<Pos>, ghost P': Parents, ghost O': map<Pos, nat>, ghost S': set<Pos>)
      requires GridMatches() && Exploring(cur, seen, q0, q, added, W, P0, O0, S0, P, O, S, d)
      requires InBounds(width, height, Step(cur, d)) && Step(cur, d) !in S
      requires Passage(width, height, W, cur, Step(cur, d))
      modifies seen, parent
      ensures q' == q + [Step(cur, d)]
      ensures Exploring(cur, seen, q0, q', added', W, P0, O0, S0, P', O', S', d + 1)
    {
      var n := Step(cur, d);
      ScanAdd(width, height, W, P0, O0, cur, q0, q, added, S0, P, O, S, d);
      Discover(cur, n, seen, P, S);
      P', O', S' := P[n := cur], O[n := |S|], S + {n};
      added' := added + [n];
      q' := q + [n];
    }

    /**
     * BuildParentPath's loop state: the search bookkeeping holds, the queue
     * holds seen cells, and every seen cell off the queue has been explored.
     */
    ghost predicate Bfs(seen: array2<bool>, q: seq<Pos>, W: Walls, P0: Parents, O0: map<Pos, nat>,
                        P: Parents, O: map<Pos, nat>, S: set<Pos>)
      reads this`width, this`height, this`cells, this`visited, this`parent, cells, parent, seen
      requires GridMatches()
    {
      var holds := && W == Walls() && seen.Length0 == width && seen.Length1 == height
                   && ParentIs(P) && Marks(seen, S) && Searching(width, height, W, P0, O0, P, O, S)
                   && Queued(S, q) && Explored(width, height, W, S, q);
      holds
    }

    /** One turn of BuildParentPath's loop once the dequeued cell is not the far corner: explore it. */
    method BfsStep(seen: array2<bool>, q: seq<Pos>, ghost W: Walls, ghost P0: Parents, ghost O0: map<Pos, nat>,
                   ghost P: Parents, ghost O: map<Pos, nat>, ghost S: set<Pos>)
      returns (q': seq<Pos>, ghost P': Parents, ghost O': map<Pos, nat>, ghost S': set<Pos>)
      requires GridMatches() && Bfs(seen, q, W, P0, O0, P, O, S) && |q| > 0
      modifies seen, parent
      ensures Bfs(seen, q', W, P0, O0, P', O', S')
      ensures AllCells(width, height) - S' < AllCells(width, height) - S || (S' == S && |q'| < |q|)
    {
      var cur := q[0];
      ghost var added;
      q', added, P', O', S' := ExploreFrom(cur, seen, q[1..], W, P0, O0, P, O, S);
      ExploredNext(width, height, W, S, q, S', added);
      WallsKept();
      BfsIntro(seen, q', W, P0, O0, P', O', S');
    }

    /** The wall map depends on the grid fields and the `cells` array alone. */
    twostate lemma WallsKept()
      requires old(GridMatches()) && unchanged(this`width, this`height, this`cells, this`visited, this`parent)
      requires unchanged(cells)
      ensures GridMatches() && Walls() == old(Walls())
    {
    }

    /** The link map depends on the grid fields and the `parent` array alone. */
    twostate lemma ParentsKept()
      requires old(GridMatches()) && unchanged(this`width, this`height, this`cells, this`visited, this`parent)
      requires unchanged(parent)
      ensures GridMatches() && Parents() == old(Parents())
    {
    }

    /** The `parent` array holds the link map. */
    lemma ParentIsParents()
      requires GridMatches()
      ensures ParentIs(Parents())
    {
    }

    /** The arrays still hold `W`, `P` and `V` when none of them changed. */
    twostate lemma CoupledKept(new W: Walls, new P: Parents, new V: set<Pos>)
      requires old(GridMatches()) && old(Coupled(W, P, V))
      requires unchanged(this`width, this`height, this`cells, this`visited, this`parent)
      requires unchanged(cells, visited, parent)
      ensures GridMatches() && Coupled(W, P, V)
    {
    }

    /** A carved maze stays carved while its walls, links and numbering are left alone. */
    twostate lemma CarvedKept()
      requires old(GridMatches()) && old(IsCarvedMaze())
      requires unchanged(this`width, this`height, this`cells, this`visited, this`parent, this`order)
      requires unchanged(cells, parent)
      ensures GridMatches() && IsCarvedMaze() && ExitRoute() == old(ExitRoute())
    {
    }

    /** The graph still matches the walls when neither they nor the nodes changed. */
    twostate lemma GraphKept()
      requires old(GridMatches()) && old(GraphMatches())
      requires unchanged(this`width, this`height, this`cells, this`visited, this`parent, this`pointsOnlyAtIntersections, this`nodes)
      requires unchanged(cells)
      ensures GridMatches() && GraphMatches()
    {
    }

    /** Bfs from its parts. */
    lemma BfsIntro(seen: array2<bool>, q: seq<Pos>, W: Walls, P0: Parents, O0: map<Pos, nat>,
                   P: Parents, O: map<Pos, nat>, S: set<Pos>)
      requires GridMatches() && W == Walls() && seen.Length0 == width && seen.Length1 == height
      requires ParentIs(P) && Marks(seen, S) && Searching(width, height, W, P0, O0, P, O, S)
      requires Queued(S, q) && Explored(width, height, W, S, q)
      ensures Bfs(seen, q, W, P0, O0, P, O, S)
    {
    }

    /** Sets up BuildParentPath's queue and `seen` array with only (0, 0) seen. */
    method SearchInit(ghost W: Walls, ghost P0: Parents, ghost O0: map<Pos, nat>)
      returns (seen: array2<bool>, q: seq<Pos>, ghost O: map<Pos, nat>)
      requires GridMatches() && width >= 1 && height >= 1
      requires W == Walls() && P0 == Parents() && AllCells(width, height) <= O0.Keys
      ensures fresh(seen) && q == [Origin] && Bfs(seen, q, W, P0, O0, P0, O, {Origin})
    {
      seen := new bool[width, height]((i, j) => false);
      q := [Origin];
      seen[0, 0] := true;
      O := StartOrder(width, height, O0);
      SearchStart(width, height, W, P0, O0);
      WallsKept();
      ParentsKept();
      ParentIsParents();
      BfsIntro(seen, q, W, P0, O0, P0, O, {Origin});
    }

    /** The far corner at the head of the queue has been seen. */
    lemma QueuedHead(seen: array2<bool>, q: seq<Pos>, W: Walls, P0: Parents, O0: map<Pos, nat>,
                     P: Parents, O: map<Pos, nat>, S: set<Pos>)
      requires GridMatches() && Bfs(seen, q, W, P0, O0, P, O, S) && |q| > 0
      requires q[0].x == width - 1 && q[0].y == height - 1
      ensures Exit(width, height) in S
    {
      assert q[0] == Exit(width, height) && q[0] in S;
    }

    /** Ends BuildParentPath: the search's numbering becomes the ghost `order`. */
    method SearchFinish(seen: array2<bool>, q: seq<Pos>, ghost W: Walls, ghost P0: Parents, ghost O0: map<Pos, nat>,
                        ghost P: Parents, ghost O: map<Pos, nat>, ghost S: set<Pos>)
      requires GridMatches() && width >= 1 && height >= 1 && Ordered(width, height, P0, O0)
      requires Bfs(seen, q, W, P0, O0, P, O, S) && (Exit(width, height) in S || q == [])
      modifies this`order
      ensures ParentsOrdered()
      ensures forall p :: p in Parents() && Parents()[p] != P0[p] ==>
                p != Origin && Passage(width, height, Walls(), Parents()[p], p)
      ensures Exit(width, height) != Origin && ExitReachable(width, height, Walls()) ==>
                InBounds(width, height, Parents()[Exit(width, height)])
    {
      order := O;
      SearchResult(width, height, W, P0, O0, P, O, S);
      ParentsAre(P);
    }

    /**
     * Breadth-first search from (0, 0) through open walls, recording for
     * each newly reached cell the cell it was reached from; stops as soon as
     * the far corner is dequeued. Links stay ordered, every changed link
     * points back through an open wall, and the far corner, when reachable
     * at all, ends up linked.
     */
    method BuildParentPath()
      requires GridMatches() && width >= 1 && height >= 1 && ParentsOrdered()
      modifies parent, this`order
      ensures ParentsOrdered()
      ensures forall p :: p in Parents() && Parents()[p] != old(Parents())[p] ==>
                p != Origin && Passage(width, height, Walls(), Parents()[p], p)
      ensures Exit(width, height) != Origin && ExitReachable(width, height, Walls()) ==>
                InBounds(width, height, Parents()[Exit(width, height)])
    {
      ghost var W, P0, O0 := Walls(), Parents(), order;
      var seen, q;
      ghost var O;
      seen, q, O := SearchInit(W, P0, O0);
      ghost var P, S;
      q, P, O, S := SearchLoop(seen, q, W, P0, O0, O);
      SearchFinish(seen, q, W, P0, O0, P, O, S);
    }

    /** BuildParentPath's loop: explore dequeued cells until the queue runs dry or the far corner is dequeued. */
    method SearchLoop(seen: array2<bool>, q: seq<Pos>, ghost W: Walls, ghost P0: Parents, ghost O0: map<Pos, nat>,
                      ghost O: map<Pos, nat>)
      returns (q': seq<Pos>, ghost P: Parents, ghost O': map<Pos, nat>, ghost S: set<Pos>)
      requires GridMatches() && Bfs(seen, q, W, P0, O0, P0, O, {Origin})
      modifies seen, parent
      ensures Bfs(seen, q', W, P0, O0, P, O', S) && (Exit(width, height) in S || q' == [])
    {
      q', P, O', S := q, P0, O, {Origin};
      while |q'| > 0
        invariant Bfs(seen, q', W, P0, O0, P, O', S)
        decreases AllCells(width, height) - S, |q'|
      {
        var cur := q'[0];
        if cur.x == width - 1 && cur.y == height - 1 {
          QueuedHead(seen, q', W, P0, O0, P, O', S);
          return;
        }
        q', P, O', S := BfsStep(seen, q', W, P0, O0, P, O', S);
      }
    }

    /**
     * HighlightPath's walk: from the far corner, follow parent links until
     * (0, 0) or a cell without a link.
     */
    method WalkParents() returns (path: seq<Pos>)
      requires GridMatches() && width >= 1 && height >= 1 && ParentsOrdered()
      ensures Walked(width, height, Parents(), path)
      ensures IsCarvedMaze() ==> path == ExitRoute()
    {
      ghost var P := Parents();
      var cur := Exit(width, height);
      path := [cur];
      while !(cur.x == 0 && cur.y == 0)
        invariant InBounds(width, height, cur) && Chain(P, path, Exit(width, height)) && path[|path| - 1] == cur
        decreases order[cur]
      {
        assert P[cur] == parent[cur.x, cur.y];
        var next := parent[cur.x, cur.y];
        if next.x == -1 {
          break;
        }
        path := path + [next];
        cur := next;
      }
      if IsCarvedMaze() {
        SpanningWalk(width, height, Walls(), P, order, path);
      }
    }

    /** The arrays hold a maze carved from (0, 0), as both carvers leave it (outer walls may be open). */
    ghost predicate IsCarvedMaze()
      reads this`width, this`height, this`cells, this`visited, this`parent, cells, parent, this`order
      requires GridMatches()
    {
      width >= 1 && height >= 1 && Spanning(width, height, Walls(), Parents(), order, Origin)
    }

    /** The route through the carved tree from the far corner to (0, 0). */
    ghost function ExitRoute(): seq<Pos>
      reads this`width, this`height, this`cells, this`visited, this`parent, cells, parent, this`order
      requires GridMatches() && IsCarvedMaze()
    {
      RouteToRoot(width, height, Walls(), Parents(), order, Origin, Exit(width, height))
    }

    /**
     * HighlightPath's first half: when the far corner has no link (and is
     * not (0, 0) itself), run BuildParentPath; `linked` tells whether the
     * far corner now has one. A freshly carved maze is left as it is.
     */
    method LinkExit() returns (linked: bool)
      requires GridMatches() && width >= 1 && height >= 1 && ParentsOrdered()
      modifies parent, this`order
      ensures ParentsOrdered()
      ensures linked <==> Exit(width, height) == Origin || Parents()[Exit(width, height)].x != -1
      ensures !linked ==> Exit(width, height) != Origin && !ExitReachable(width, height, Walls())
      ensures old(IsCarvedMaze()) ==> unchanged(parent) && order == old(order)
    {
      var end := Exit(width, height);
      ParentAt(end);
      if parent[end.x, end.y].x != -1 || (end.x == 0 && end.y == 0) {
        return true;
      }
      if IsCarvedMaze() {
        SpanningLinked(width, height, Walls(), Parents(), order, end);
      }
      linked := SearchExit();
    }

    /** LinkExit once the far corner is unlinked: run BuildParentPath and report whether it linked the corner. */
    method SearchExit() returns (linked: bool)
      requires GridMatches() && width >= 1 && height >= 1 && ParentsOrdered()
      modifies parent, this`order
      ensures ParentsOrdered()
      ensures linked <==> Parents()[Exit(width, height)].x != -1
      ensures Exit(width, height) != Origin && !linked ==> !ExitReachable(width, height, Walls())
    {
      BuildParentPath();
      var end := Exit(width, height);
      ParentAt(end);
      linked := parent[end.x, end.y].x != -1;
    }

    /**
     * Reconstructs the path from the far corner back to (0, 0) along parent
     * links, first running BuildParentPath when the far corner has no link;
     * gives up (None) when it still has none. On a freshly carved maze the
     * links already span the grid, nothing changes, and the path is the
     * route through the tree from the exit to the entrance.
     */
    method HighlightPath() returns (path: Option<seq<Pos>>)
      requires GridMatches() && width >= 1 && height >= 1 && ParentsOrdered()
      modifies parent, this`order
      ensures ParentsOrdered()
      ensures path.Some? ==> Walked(width, height, Parents(), path.value)
      ensures path.None? ==> Exit(width, height) != Origin && !ExitReachable(width, height, Walls())
      ensures old(IsCarvedMaze()) ==> unchanged(parent) && order == old(order) && path == Some(ExitRoute())
    {
      var linked := LinkExit();
      if !linked {
        return None;
      }
      var p := WalkParents();
      if old(IsCarvedMaze()) {
        CarvedKept();
      }
      path := Some(p);
    }

    /** The arrays hold a perfect maze carved from (0, 0) whose visit numbering is `vorder`, outer walls all standing. */
    ghost predicate CarvedFrom(vorder: map<Pos, nat>)
      reads this`width, this`height, this`cells, this`visited, this`parent, cells, visited, parent
      requires GridMatches()
    {
      && width >= 1 && height >= 1 && Visited() == AllCells(width, height)
      && Spanning(width, height, Walls(), Parents(), vorder, Origin) && BoundaryClosed(width, height, Walls())
    }

    /** Runs the carver the `algorithm` field selects, from (0, 0), on the untouched grid. */
    method Carve(rnd: Random) returns (ghost vorder: map<Pos, nat>)
      requires GridMatches() && Untouched() && width >= 1 && height >= 1
      modifies cells, visited, parent, rnd
      ensures CarvedFrom(vorder)
    {
      match algorithm {
        case DepthFirstSearch =>
          vorder := CarveMazeDFS(Origin, rnd);
        case RandomizedPrim =>
          vorder := CarveMazePrim(Origin, rnd);
      }
    }

    /**
     * Generate's carving: fresh arrays with every wall up, then the chosen
     * carver from (0, 0). Its visit numbering becomes the ghost `order`.
     */
    method CarveFromOrigin(rnd: Random)
      requires width >= 1 && height >= 1
      modifies this`cells, this`visited, this`parent, this`order, rnd
      ensures GridMatches() && fresh(cells) && fresh(visited) && fresh(parent) && CarvedFrom(order)
    {
      InitGrid();
      ghost var vorder := Carve(rnd);
      label carved:
      order := vorder;
      CarvedFromKept@carved(vorder);
    }

    /** The carving facts do not depend on the ghost `order`. */
    twostate lemma CarvedFromKept(new vorder: map<Pos, nat>)
      requires old(GridMatches()) && old(CarvedFrom(vorder))
      requires unchanged(this`width, this`height, this`cells, this`visited, this`parent)
      requires unchanged(cells, visited, parent)
      ensures GridMatches() && CarvedFrom(vorder)
    {
    }

    /**
     * Builds a new maze and everything derived from it: a perfect maze
     * carved from (0, 0) by the chosen algorithm, with the entrance and the
     * exit opened, the navigation graph over its walls, and the path from
     * the exit back to the entrance. Does nothing unless both dimensions are
     * positive.
     */
    method Generate(rnd: Random) returns (path: Option<seq<Pos>>)
      modifies this`cells, this`visited, this`parent, this`nodes, this`order, rnd
      ensures width <= 0 || height <= 0 ==>
                cells == old(cells) && visited == old(visited) && parent == old(parent) && nodes == old(nodes) && path == None
      ensures width >= 1 && height >= 1 ==>
                && GridMatches() && fresh(cells) && fresh(visited) && fresh(parent)
                && PerfectMaze() && GraphMatches() && path == Some(ExitRoute())
      ensures old(Valid()) || (width >= 1 && height >= 1) ==> Valid()
    {
      if width <= 0 || height <= 0 {
        return None;
      }
      CarveFromOrigin(rnd);
      label carved:
      path := Derive();
      GridKept@carved();
    }

    /** The arrays keep their dimensions while the fields that name them are left alone. */
    twostate lemma GridKept()
      requires old(GridMatches()) && unchanged(this`width, this`height, this`cells, this`visited, this`parent)
      ensures GridMatches()
    {
    }

    /** Generate's steps after carving: OpenEntrances, BuildGraph, HighlightPath. */
    method Derive() returns (path: Option<seq<Pos>>)
      requires GridMatches() && CarvedFrom(order)
      modifies cells, parent, this`nodes, this`order
      ensures PerfectMaze() && GraphMatches() && path == Some(ExitRoute())
    {
      OpenMaze();
      path := GraphAndPath();
    }

    /** BuildGraph then HighlightPath on a perfect maze, which both leave as it is. */
    method GraphAndPath() returns (path: Option<seq<Pos>>)
      requires GridMatches() && PerfectMaze() && ParentsOrdered()
      modifies parent, this`nodes, this`order
      ensures PerfectMaze() && GraphMatches() && path == Some(ExitRoute())
    {
      BuildGraph();
      assert GraphMatches();
      label built:
      path := KeepMazeHighlight();
      GraphKept@built();
    }

    /** HighlightPath on a perfect maze: the maze stays as it is and the path is its exit route. */
    method KeepMazeHighlight() returns (path: Option<seq<Pos>>)
      requires GridMatches() && PerfectMaze() && ParentsOrdered()
      modifies parent, this`order
      ensures PerfectMaze() && unchanged(parent) && path == Some(ExitRoute())
    {
      path := HighlightPath();
      PerfectKept();
    }

    /** A perfect maze stays perfect while none of its arrays and not its numbering change. */
    twostate lemma PerfectKept()
      requires old(GridMatches()) && old(PerfectMaze())
      requires unchanged(this`width, this`height, this`cells, this`visited, this`parent, this`order)
      requires unchanged(cells, visited, parent)
      ensures GridMatches() && PerfectMaze()
    {
    }

    /**
     * What Generate leaves: every cell visited, a spanning tree of open walls
     * carved from (0, 0) (so, by PassageCount, exactly `width * height - 1`
     * open interior walls), and of the outer walls only the entrance and the
     * exit open.
     */
    ghost predicate PerfectMaze()
      reads this`width, this`height, this`cells, this`visited, this`parent, cells, visited, parent, this`order
      requires GridMatches()
    {
      && Visited() == AllCells(width, height) && IsCarvedMaze()
      && OnlyEntrancesOpen(width, height, Walls())
    }

    /** Generate's second step: OpenEntrances on the freshly carved maze. */
    method OpenMaze()
      requires GridMatches() && CarvedFrom(order)
      modifies cells
      ensures PerfectMaze() && ParentsOrdered()
    {
      ghost var carved := Walls();
      OpenEntrances();
      EntrancesKeepSpanning(width, height, carved, Parents(), order, Origin);
      EntrancesOpenBoundary(width, height, carved);
      SpanningOrdered(width, height, Walls(), Parents(), order);
    }

    /** Rebuilds only the navigation graph from the current walls; does nothing before a maze exists. */
    method RebuildGraphOnly()
      requires Valid()
      modifies this`nodes
      ensures cells == null ==> nodes == old(nodes)
      ensures cells != null ==> nodes.Keys == Points() && NoDuplicates(nodes)
      ensures cells != null ==> forall p, q :: p in nodes ==> (q in nodes[p] <==> q in nodes && Linked(width, height, Walls(), nodes.Keys, p, q))
    {
      if cells == null {
        return;
      }
      BuildGraph();
    }
  }
}
