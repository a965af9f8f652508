/**
 * The navigation graph built over a carved maze, stated on values: the
 * corridor walk of TryConnect, the node that walk reaches, and the facts
 * about the resulting edges (both ends know each other, no self-edge, every
 * edge runs along one row or column through open walls).
 */
module Graph {
  import opened Wrappers
  import opened Grid
  import opened Tree

  /** The graph: each node's cell to the cells of its neighbour nodes, in insertion order. */
  type Nodes = map<Pos, seq<Pos>>

  /** The cell `i` steps away from `a` in direction `dir`. */
  function Along(a: Pos, dir: Dir, i: int): Pos
  {
    if dir == 0 then Pos(a.x, a.y + i)
    else if dir == 1 then Pos(a.x + i, a.y)
    else if dir == 2 then Pos(a.x, a.y - i)
    else Pos(a.x - i, a.y)
  }

  /**
   * TryConnect's cursor loop with the cursor `i` cells from `a`: stop with
   * nothing when the cursor leaves the grid or the wall behind it is
   * standing, stop at the first node, otherwise advance.
   */
  function Walk(w: int, h: int, walls: Walls, keys: set<Pos>, a: Pos, dir: Dir, i: int): Option<Pos>
    requires walls.Keys == AllCells(w, h) && InBounds(w, h, a) && i >= 1
    decreases if dir == 0 then h - a.y - i else if dir == 1 then w - a.x - i else if dir == 2 then a.y - i else a.x - i
  {
    var c := Along(a, dir, i);
    if !InBounds(w, h, c) then None
    else if walls[Along(a, dir, i - 1)].Wall(dir) then None
    else if c in keys then Some(c)
    else Walk(w, h, walls, keys, a, dir, i + 1)
  }

  /**
   * TryConnect's cursor state: the cursor `(cx, cy)` is `i` cells from `a`
   * and the walk from there ends as the whole walk, `result`, does.
   */
  ghost predicate Cursor(w: int, h: int, walls: Walls, keys: set<Pos>, a: Pos, dir: Dir, i: int, cx: int, cy: int, result: Option<Pos>)
  {
    var holds := walls.Keys == AllCells(w, h) && InBounds(w, h, a) && i >= 1 && Pos(cx, cy) == Along(a, dir, i)
                 && Walk(w, h, walls, keys, a, dir, i) == result;
    holds
  }

  /** The cursor starts one cell past `a`. */
  lemma CursorStart(w: int, h: int, walls: Walls, keys: set<Pos>, a: Pos, dir: Dir)
    requires walls.Keys == AllCells(w, h) && InBounds(w, h, a)
    ensures Cursor(w, h, walls, keys, a, dir, 1, a.x + DirVector(dir).x, a.y + DirVector(dir).y, Walk(w, h, walls, keys, a, dir, 1))
  {
  }

  /** With the cursor inside the grid, the wall behind it is inside the grid too. */
  lemma CursorBack(w: int, h: int, walls: Walls, keys: set<Pos>, a: Pos, dir: Dir, i: int, cx: int, cy: int, result: Option<Pos>, d: Pos)
    requires dir < 2 && d == DirVector(dir)
    requires Cursor(w, h, walls, keys, a, dir, i, cx, cy, result) && InBounds(w, h, Pos(cx, cy))
    ensures InBounds(w, h, Pos(cx - d.x, cy - d.y)) && walls.Keys == AllCells(w, h)
  {
  }

  /** A standing wall behind the cursor ends the walk with nothing. */
  lemma CursorBlocked(w: int, h: int, walls: Walls, keys: set<Pos>, a: Pos, dir: Dir, i: int, cx: int, cy: int, result: Option<Pos>, d: Pos)
    requires dir < 2 && d == DirVector(dir)
    requires Cursor(w, h, walls, keys, a, dir, i, cx, cy, result) && InBounds(w, h, Pos(cx, cy))
    requires Pos(cx - d.x, cy - d.y) in walls && walls[Pos(cx - d.x, cy - d.y)].Wall(dir)
    ensures result == None
  {
    assert Along(a, dir, i - 1) == Pos(cx - d.x, cy - d.y);
  }

  /** Through an open wall, a node under the cursor ends the walk there. */
  lemma CursorFound(w: int, h: int, walls: Walls, keys: set<Pos>, a: Pos, dir: Dir, i: int, cx: int, cy: int, result: Option<Pos>, d: Pos)
    requires dir < 2 && d == DirVector(dir)
    requires Cursor(w, h, walls, keys, a, dir, i, cx, cy, result) && InBounds(w, h, Pos(cx, cy))
    requires Pos(cx - d.x, cy - d.y) in walls && !walls[Pos(cx - d.x, cy - d.y)].Wall(dir) && Pos(cx, cy) in keys
    ensures result == Some(Pos(cx, cy))
  {
    assert Along(a, dir, i - 1) == Pos(cx - d.x, cy - d.y);
  }

  /** Through an open wall onto a cell that is no node, the cursor moves on one cell. */
  lemma CursorNext(w: int, h: int, walls: Walls, keys: set<Pos>, a: Pos, dir: Dir, i: int, cx: int, cy: int, result: Option<Pos>, d: Pos)
    requires dir < 2 && d == DirVector(dir)
    requires Cursor(w, h, walls, keys, a, dir, i, cx, cy, result) && InBounds(w, h, Pos(cx, cy))
    requires Pos(cx - d.x, cy - d.y) in walls && !walls[Pos(cx - d.x, cy - d.y)].Wall(dir) && Pos(cx, cy) !in keys
    ensures Cursor(w, h, walls, keys, a, dir, i + 1, cx + d.x, cy + d.y, result)
  {
    assert Along(a, dir, i - 1) == Pos(cx - d.x, cy - d.y);
    assert Along(a, dir, i + 1) == Pos(cx + d.x, cy + d.y);
  }

  /** The walk ends with nothing once the cursor leaves the grid. */
  lemma CursorLeaves(w: int, h: int, walls: Walls, keys: set<Pos>, a: Pos, dir: Dir, i: int, cx: int, cy: int, result: Option<Pos>)
    requires Cursor(w, h, walls, keys, a, dir, i, cx, cy, result) && !InBounds(w, h, Pos(cx, cy))
    ensures result == None
  {
  }

  /**
   * The node TryConnect links `a` to in direction `dir`: none for down and
   * left (those edges are found from the other end), none when `a`'s own
   * wall is standing, otherwise the end of the corridor walk.
   */
  function Link(w: int, h: int, walls: Walls, keys: set<Pos>, a: Pos, dir: Dir): Option<Pos>
    requires walls.Keys == AllCells(w, h) && InBounds(w, h, a)
  {
    if dir == 2 || dir == 3 then None
    else if walls[a].Wall(dir) then None
    else Walk(w, h, walls, keys, a, dir, 1)
  }

  /**
   * `b` is a node `n >= 1` cells from `a` in direction `dir`, every wall
   * crossed on the way is open, and no cell strictly between is a node.
   */
  ghost predicate OpenRun(w: int, h: int, walls: Walls, keys: set<Pos>, a: Pos, dir: Dir, n: int, b: Pos)
    requires walls.Keys == AllCells(w, h)
  {
    && n >= 1 && b == Along(a, dir, n) && InBounds(w, h, a) && InBounds(w, h, b) && b in keys
    && (forall i :: 0 <= i < n ==> !walls[Along(a, dir, i)].Wall(dir))
    && (forall i :: 0 < i < n ==> Along(a, dir, i) !in keys)
  }

  /** The walk from cursor `i` finds `b` exactly when `b` ends an open run at least `i` long. */
  lemma {:induction false} WalkFindsRun(w: int, h: int, walls: Walls, keys: set<Pos>, a: Pos, dir: Dir, i: int, b: Pos)
    requires walls.Keys == AllCells(w, h) && InBounds(w, h, a) && i >= 1
    requires forall j :: 0 <= j < i - 1 ==> Along(a, dir, j) in walls && !walls[Along(a, dir, j)].Wall(dir)
    requires forall j :: 0 < j < i ==> Along(a, dir, j) !in keys
    ensures Walk(w, h, walls, keys, a, dir, i) == Some(b) <==>
            Manhattan(a, b) >= i && OpenRun(w, h, walls, keys, a, dir, Manhattan(a, b), b)
    decreases if dir == 0 then h - a.y - i else if dir == 1 then w - a.x - i else if dir == 2 then a.y - i else a.x - i
  {
    var c := Along(a, dir, i);
    if InBounds(w, h, c) && !walls[Along(a, dir, i - 1)].Wall(dir) && c !in keys {
      WalkFindsRun(w, h, walls, keys, a, dir, i + 1, b);
    }
  }

  /** Link finds `b` exactly when `b` is the first node up or to the right of `a` along open walls. */
  lemma LinkIsOpenRun(w: int, h: int, walls: Walls, keys: set<Pos>, a: Pos, dir: Dir, b: Pos)
    requires walls.Keys == AllCells(w, h) && InBounds(w, h, a)
    ensures Link(w, h, walls, keys, a, dir) == Some(b) <==>
            dir < 2 && OpenRun(w, h, walls, keys, a, dir, Manhattan(a, b), b)
  {
    if dir < 2 {
      WalkFindsRun(w, h, walls, keys, a, dir, 1, b);
    }
  }

  /** `a` links to `b` going up or right. */
  ghost predicate LinksTo(w: int, h: int, walls: Walls, keys: set<Pos>, a: Pos, b: Pos)
    requires walls.Keys == AllCells(w, h)
  {
    InBounds(w, h, a) &&
    (Link(w, h, walls, keys, a, 0) == Some(b) || Link(w, h, walls, keys, a, 1) == Some(b))
  }

  /** The edge relation BuildGraph produces: one end links to the other. */
  ghost predicate Linked(w: int, h: int, walls: Walls, keys: set<Pos>, a: Pos, b: Pos)
    requires walls.Keys == AllCells(w, h)
  {
    LinksTo(w, h, walls, keys, a, b) || LinksTo(w, h, walls, keys, b, a)
  }

  /**
   * Every edge joins two distinct nodes in one row or column through a
   * straight run of open walls with no node in between.
   */
  lemma EdgeShape(w: int, h: int, walls: Walls, keys: set<Pos>, a: Pos, b: Pos)
    requires walls.Keys == AllCells(w, h)
    requires Linked(w, h, walls, keys, a, b)
    ensures a != b
    ensures a.x == b.x || a.y == b.y
    ensures exists dir: Dir :: OpenRun(w, h, walls, keys, a, dir, Manhattan(a, b), b)
                            || OpenRun(w, h, walls, keys, b, dir, Manhattan(a, b), a)
  {
    if LinksTo(w, h, walls, keys, a, b) {
      var dir: Dir := if Link(w, h, walls, keys, a, 0) == Some(b) then 0 else 1;
      LinkIsOpenRun(w, h, walls, keys, a, dir, b);
    } else {
      var dir: Dir := if Link(w, h, walls, keys, b, 0) == Some(a) then 0 else 1;
      LinkIsOpenRun(w, h, walls, keys, b, dir, a);
      assert Manhattan(b, a) == Manhattan(a, b);
    }
  }

  /** Both ends of an edge are nodes. */
  lemma EdgeEndsAreNodes(w: int, h: int, walls: Walls, keys: set<Pos>, a: Pos, b: Pos)
    requires walls.Keys == AllCells(w, h) && a in keys
    requires LinksTo(w, h, walls, keys, a, b)
    ensures b in keys && b != a
  {
    var dir: Dir := if Link(w, h, walls, keys, a, 0) == Some(b) then 0 else 1;
    LinkIsOpenRun(w, h, walls, keys, a, dir, b);
  }

  /** TryConnect's update once it found `b`: each end gains the other unless already listed. */
  function Connect(nodes: Nodes, a: Pos, b: Pos): (r: Nodes)
    requires a in nodes && b in nodes
    ensures r.Keys == nodes.Keys
    ensures b in r[a] && a in r[b]
    ensures forall p, q :: p in nodes && q in r[p] <==> p in nodes && (q in nodes[p] || (p == a && q == b) || (p == b && q == a))
  {
    var m := nodes[a := if b in nodes[a] then nodes[a] else nodes[a] + [b]];
    m[b := if a in m[b] then m[b] else m[b] + [a]]
  }

  /** No neighbour list repeats a node. */
  ghost predicate NoDuplicates(nodes: Nodes)
  {
    forall p, i, j :: p in nodes && 0 <= i < j < |nodes[p]| ==> nodes[p][i] != nodes[p][j]
  }

  /** Connect never introduces a duplicate neighbour. */
  lemma ConnectNoDuplicates(nodes: Nodes, a: Pos, b: Pos)
    requires a in nodes && b in nodes && NoDuplicates(nodes)
    ensures NoDuplicates(Connect(nodes, a, b))
  {
    var m := nodes[a := if b in nodes[a] then nodes[a] else nodes[a] + [b]];
    assert NoDuplicates(m);
  }

  /** TryConnect's whole effect: `nodes` with the edge to the node Link finds, if any. */
  function AddLink(w: int, h: int, walls: Walls, nodes: Nodes, a: Pos, dir: Dir): (r: Nodes)
    requires walls.Keys == AllCells(w, h) && InBounds(w, h, a) && a in nodes
    ensures r.Keys == nodes.Keys
    ensures forall b :: Link(w, h, walls, nodes.Keys, a, dir) == Some(b) ==> b in nodes && b != a
  {
    match Link(w, h, walls, nodes.Keys, a, dir)
    case None => nodes
    case Some(b) =>
      assert b in nodes && b != a by { LinkIsOpenRun(w, h, walls, nodes.Keys, a, dir, b); }
      Connect(nodes, a, b)
  }

  /**
   * BuildGraph's connecting pass after the nodes in `done` were processed:
   * the node set is `keys`, no list repeats a node, and `q` is listed under
   * `p` exactly when one of them is done and links to the other.
   */
  ghost predicate EdgesFrom(w: int, h: int, walls: Walls, keys: set<Pos>, nodes: Nodes, done: set<Pos>)
    requires walls.Keys == AllCells(w, h)
  {
    && nodes.Keys == keys && NoDuplicates(nodes)
    && forall p, q :: p in keys ==>
         (q in nodes[p] <==> q in keys && ((p in done && LinksTo(w, h, walls, keys, p, q)) ||
                                           (q in done && LinksTo(w, h, walls, keys, q, p))))
  }

  /** Trying all four directions from node `a` marks `a` done. */
  lemma {:induction false} ConnectNode(w: int, h: int, walls: Walls, keys: set<Pos>, nodes: Nodes, done: set<Pos>, a: Pos)
    requires walls.Keys == AllCells(w, h) && keys <= AllCells(w, h) && a in keys
    requires EdgesFrom(w, h, walls, keys, nodes, done)
    ensures var n0 := AddLink(w, h, walls, nodes, a, 0);
            var n1 := AddLink(w, h, walls, n0, a, 1);
            var n2 := AddLink(w, h, walls, n1, a, 2);
            EdgesFrom(w, h, walls, keys, AddLink(w, h, walls, n2, a, 3), done + {a})
  {
    var n0 := AddLink(w, h, walls, nodes, a, 0);
    var n1 := AddLink(w, h, walls, n0, a, 1);
    if b :| Link(w, h, walls, keys, a, 0) == Some(b) {
      ConnectNoDuplicates(nodes, a, b);
    }
    if b :| Link(w, h, walls, keys, a, 1) == Some(b) {
      ConnectNoDuplicates(n0, a, b);
    }
    forall p, q | p in keys
      ensures q in n1[p] <==> q in keys && ((p in done + {a} && LinksTo(w, h, walls, keys, p, q)) ||
                                            (q in done + {a} && LinksTo(w, h, walls, keys, q, p)))
    {
      AddLinkHas(w, h, walls, nodes, a, 0, p, q);
      AddLinkHas(w, h, walls, n0, a, 1, p, q);
      if LinksTo(w, h, walls, keys, p, q) {
        EdgeEndsAreNodes(w, h, walls, keys, p, q);
      }
      if LinksTo(w, h, walls, keys, q, p) && q in keys {
        EdgeEndsAreNodes(w, h, walls, keys, q, p);
      }
    }
  }

  /** After AddLink, `q` is listed under `p` exactly when it was before or the new edge joins them. */
  lemma AddLinkHas(w: int, h: int, walls: Walls, nodes: Nodes, a: Pos, dir: Dir, p: Pos, q: Pos)
    requires walls.Keys == AllCells(w, h) && InBounds(w, h, a) && a in nodes && p in nodes
    ensures q in AddLink(w, h, walls, nodes, a, dir)[p] <==>
            q in nodes[p] || (p == a && Link(w, h, walls, nodes.Keys, a, dir) == Some(q))
                          || (q == a && Link(w, h, walls, nodes.Keys, a, dir) == Some(p))
  {
  }
}
