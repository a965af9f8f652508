/**
 * The shape both carvers leave behind, stated on values: the wall flags and
 * parent links of every cell, the invariant a carver keeps while it grows its
 * visited region, and the facts that make the finished grid a perfect maze
 * (every cell reaches every other through open walls, and there are exactly
 * `w * h - 1` open interior walls, so there is no loop).
 */
module Tree {
  import opened Grid

  /** The wall flags of every cell. */
  type Walls = map<Pos, Cell>

  /** The parent link of every cell (NoParent when it has none). */
  type Parents = map<Pos, Pos>

  /** Both maps hold exactly the cells of a `w × h` grid. */
  ghost predicate Covers(w: int, h: int, walls: Walls, par: Parents)
  {
    walls.Keys == AllCells(w, h) && par.Keys == AllCells(w, h)
  }

  /**
   * The wall between two neighbouring cells is down exactly when one of them
   * is the other's parent.
   */
  ghost predicate WallsFollowParents(w: int, h: int, walls: Walls, par: Parents)
    requires Covers(w, h, walls, par)
  {
    forall p, d: Dir {:trigger walls[p].Wall(d)} ::
      p in walls && InBounds(w, h, Step(p, d)) ==>
        (!walls[p].Wall(d) <==> par[p] == Step(p, d) || par[Step(p, d)] == p)
  }

  /** Every wall that faces out of the grid is standing. */
  ghost predicate BoundaryClosed(w: int, h: int, walls: Walls)
  {
    forall p, d: Dir {:trigger walls[p].Wall(d)} ::
      p in walls && !InBounds(w, h, Step(p, d)) ==> walls[p].Wall(d)
  }

  /**
   * Every cell of `vis` other than `root` links to a neighbouring cell of
   * `vis` that was visited before it (`order` numbers the visits); every
   * other cell, and the root, keeps the NoParent sentinel.
   */
  ghost predicate RootedIn(w: int, h: int, par: Parents, order: map<Pos, nat>, vis: set<Pos>, root: Pos)
    requires par.Keys == AllCells(w, h)
  {
    && root in vis && vis <= par.Keys && vis <= order.Keys
    && par[root] == NoParent
    && (forall p {:trigger par[p]} :: p in par && p !in vis ==> par[p] == NoParent)
    && (forall p {:trigger par[p]} :: p in vis && p != root ==>
          par[p] in vis && Adjacent(p, par[p]) && order[par[p]] < order[p])
  }

  /** What a carver keeps true while it grows the visited region `vis`. */
  ghost predicate Growing(w: int, h: int, walls: Walls, par: Parents, order: map<Pos, nat>, vis: set<Pos>, root: Pos)
  {
    var holds :=
      && Covers(w, h, walls, par)
      && RootedIn(w, h, par, order, vis, root)
      && WallsFollowParents(w, h, walls, par)
      && BoundaryClosed(w, h, walls)
      && (forall p :: p in vis ==> order[p] < |vis|);
    holds
  }

  /** A carved maze: the tree spans the whole grid (outer walls may be open). */
  ghost predicate Spanning(w: int, h: int, walls: Walls, par: Parents, order: map<Pos, nat>, root: Pos)
  {
    var holds :=
      && Covers(w, h, walls, par)
      && RootedIn(w, h, par, order, AllCells(w, h), root)
      && WallsFollowParents(w, h, walls, par);
    holds
  }

  /** The fully walled grid with only `root` visited satisfies the carving invariant. */
  lemma StartGrowing(w: int, h: int, walls: Walls, par: Parents, root: Pos)
    requires Covers(w, h, walls, par) && root in walls
    requires forall p :: p in walls ==> walls[p] == Closed && par[p] == NoParent
    ensures Growing(w, h, walls, par, map[root := 0], {root}, root)
  {
  }

  /** The walls after knocking down the wall between `from` and its neighbour in direction `d`, on both sides. */
  function Carved(walls: Walls, from: Pos, d: Dir): Walls
    requires from in walls && Step(from, d) in walls
  {
    walls[from := walls[from].Clear(d)][Step(from, d) := walls[Step(from, d)].Clear(Opposite(d))]
  }

  /**
   * Carving the wall from visited `from` towards an unvisited neighbour (both
   * sides of the wall), linking the neighbour to `from` and visiting it
   * keeps the carving invariant.
   */
  lemma CarveStep(w: int, h: int, walls: Walls, par: Parents, order: map<Pos, nat>, vis: set<Pos>, root: Pos,
                  from: Pos, d: Dir)
    requires Growing(w, h, walls, par, order, vis, root)
    requires from in vis && InBounds(w, h, Step(from, d)) && Step(from, d) !in vis
    ensures var to := Step(from, d);
            Growing(w, h, Carved(walls, from, d), par[to := from], order[to := |vis|], vis + {to}, root)
  {
    var to := Step(from, d);
    CarveFollows(w, h, walls, par, order, vis, root, from, d);
    CarveBoundary(w, h, walls, from, d);
    CarveLinks(w, h, par, order, vis, root, from, d);
    GrowingIntro(w, h, Carved(walls, from, d), par[to := from], order[to := |vis|], vis + {to}, root);
  }

  /** Growing from its parts. */
  lemma GrowingIntro(w: int, h: int, walls: Walls, par: Parents, order: map<Pos, nat>, vis: set<Pos>, root: Pos)
    requires Covers(w, h, walls, par) && RootedIn(w, h, par, order, vis, root)
    requires WallsFollowParents(w, h, walls, par) && BoundaryClosed(w, h, walls)
    requires forall p :: p in vis ==> order[p] < |vis|
    ensures Growing(w, h, walls, par, order, vis, root)
  {
  }

  /** After a carving step the walls still follow the parent links. */
  lemma CarveFollows(w: int, h: int, walls: Walls, par: Parents, order: map<Pos, nat>, vis: set<Pos>, root: Pos,
                     from: Pos, d: Dir)
    requires Growing(w, h, walls, par, order, vis, root)
    requires from in vis && InBounds(w, h, Step(from, d)) && Step(from, d) !in vis
    ensures Covers(w, h, Carved(walls, from, d), par[Step(from, d) := from])
    ensures WallsFollowParents(w, h, Carved(walls, from, d), par[Step(from, d) := from])
  {
    var to := Step(from, d);
    var walls' := walls[from := walls[from].Clear(d)][to := walls[to].Clear(Opposite(d))];
    var par' := par[to := from];
    forall p, e: Dir | p in walls' && InBounds(w, h, Step(p, e))
      ensures !walls'[p].Wall(e) <==> par'[p] == Step(p, e) || par'[Step(p, e)] == p
    {
      CarveWall(w, h, walls, par, order, vis, root, from, d, p, e);
    }
  }

  /** A carving step opens no wall that faces out of the grid. */
  lemma CarveBoundary(w: int, h: int, walls: Walls, from: Pos, d: Dir)
    requires BoundaryClosed(w, h, walls) && from in walls && Step(from, d) in walls
    requires InBounds(w, h, from) && InBounds(w, h, Step(from, d))
    ensures var to := Step(from, d);
            BoundaryClosed(w, h, walls[from := walls[from].Clear(d)][to := walls[to].Clear(Opposite(d))])
  {
    var to := Step(from, d);
    var walls' := walls[from := walls[from].Clear(d)][to := walls[to].Clear(Opposite(d))];
    assert Step(to, Opposite(d)) == from;
    forall p, e: Dir | p in walls' && !InBounds(w, h, Step(p, e))
      ensures walls'[p].Wall(e)
    {
      if p == to {
        assert e != Opposite(d);
        assert walls'[p] == walls[to].Clear(Opposite(d));
        assert walls[to].Wall(e);
      } else if p == from {
        assert e != d;
        assert walls'[p] == walls[from].Clear(d);
        assert walls[from].Wall(e);
      } else {
        assert walls'[p] == walls[p];
      }
    }
  }

  /** A cell outside the visited region is linked to no cell of the grid, and none is linked to it. */
  lemma Unlinked(w: int, h: int, par: Parents, order: map<Pos, nat>, vis: set<Pos>, root: Pos, u: Pos, q: Pos)
    requires par.Keys == AllCells(w, h) && RootedIn(w, h, par, order, vis, root)
    requires InBounds(w, h, u) && u !in vis && InBounds(w, h, q)
    ensures par[u] != q && par[q] != u
  {
    assert par[u] == NoParent;
    if q in vis && q != root {
      assert par[q] in vis;
    } else {
      assert par[q] == NoParent;
    }
  }

  /** One wall after a carving step still agrees with the parent links. */
  lemma CarveWall(w: int, h: int, walls: Walls, par: Parents, order: map<Pos, nat>, vis: set<Pos>, root: Pos,
                  from: Pos, d: Dir, p: Pos, e: Dir)
    requires Growing(w, h, walls, par, order, vis, root)
    requires from in vis && InBounds(w, h, Step(from, d)) && Step(from, d) !in vis
    requires p in walls && InBounds(w, h, Step(p, e))
    ensures var to := Step(from, d);
            var walls' := walls[from := walls[from].Clear(d)][to := walls[to].Clear(Opposite(d))];
            var par' := par[to := from];
            !walls'[p].Wall(e) <==> par'[p] == Step(p, e) || par'[Step(p, e)] == p
  {
    var to := Step(from, d);
    assert Step(to, Opposite(d)) == from;
    if !(p == from && e == d) && !(p == to && e == Opposite(d)) {
      WallUntouched(walls, from, d, p, e);
      LinkUntouched(w, h, par, order, vis, root, from, d, p, e);
    }
  }

  /** A carving step leaves every other wall as it was. */
  lemma WallUntouched(walls: Walls, from: Pos, d: Dir, p: Pos, e: Dir)
    requires from in walls && Step(from, d) in walls && p in walls
    requires Step(Step(from, d), Opposite(d)) == from
    requires !(p == from && e == d) && !(p == Step(from, d) && e == Opposite(d))
    ensures var to := Step(from, d);
            walls[from := walls[from].Clear(d)][to := walls[to].Clear(Opposite(d))][p].Wall(e) == walls[p].Wall(e)
  {
  }

  /**
   * Away from the carved wall, linking the new cell to `from` links no other
   * pair of neighbours and unlinks none.
   */
  lemma LinkUntouched(w: int, h: int, par: Parents, order: map<Pos, nat>, vis: set<Pos>, root: Pos,
                      from: Pos, d: Dir, p: Pos, e: Dir)
    requires par.Keys == AllCells(w, h) && RootedIn(w, h, par, order, vis, root)
    requires from in vis && InBounds(w, h, Step(from, d)) && Step(from, d) !in vis
    requires InBounds(w, h, p) && InBounds(w, h, Step(p, e)) && Step(Step(from, d), Opposite(d)) == from
    requires !(p == from && e == d) && !(p == Step(from, d) && e == Opposite(d))
    ensures var par' := par[Step(from, d) := from];
            (par'[p] == Step(p, e) || par'[Step(p, e)] == p) <==> (par[p] == Step(p, e) || par[Step(p, e)] == p)
  {
    var to := Step(from, d);
    var q := Step(p, e);
    if p == to {
      if q == from { StepInjective(to, e, Opposite(d)); }
      Unlinked(w, h, par, order, vis, root, to, q);
    } else if q == to {
      if p == from { StepInjective(from, e, d); }
      Unlinked(w, h, par, order, vis, root, to, p);
    }
  }

  /** The parent links after a carving step still form a tree rooted at `root`. */
  lemma CarveLinks(w: int, h: int, par: Parents, order: map<Pos, nat>, vis: set<Pos>, root: Pos,
                   from: Pos, d: Dir)
    requires par.Keys == AllCells(w, h) && RootedIn(w, h, par, order, vis, root)
    requires forall p :: p in vis ==> order[p] < |vis|
    requires from in vis && InBounds(w, h, Step(from, d)) && Step(from, d) !in vis
    ensures var to := Step(from, d);
            && RootedIn(w, h, par[to := from], order[to := |vis|], vis + {to}, root)
            && forall p :: p in vis + {to} ==> order[to := |vis|][p] < |vis + {to}|
  {
    var to := Step(from, d);
    CarveRooted(w, h, par, order, vis, root, from, d);
    NumberNext(order, vis, to);
  }

  /** Linking the new cell to `from` keeps the visited region a tree rooted at `root`. */
  lemma CarveRooted(w: int, h: int, par: Parents, order: map<Pos, nat>, vis: set<Pos>, root: Pos,
                    from: Pos, d: Dir)
    requires par.Keys == AllCells(w, h) && RootedIn(w, h, par, order, vis, root)
    requires forall p :: p in vis ==> order[p] < |vis|
    requires from in vis && InBounds(w, h, Step(from, d)) && Step(from, d) !in vis
    ensures RootedIn(w, h, par[Step(from, d) := from], order[Step(from, d) := |vis|], vis + {Step(from, d)}, root)
  {
    var to := Step(from, d);
    var par' := par[to := from];
    var order' := order[to := |vis|];
    var vis' := vis + {to};
    assert Adjacent(to, from);
    forall p | p in vis' && p != root
      ensures par'[p] in vis' && Adjacent(p, par'[p]) && order'[par'[p]] < order'[p]
    {
      if p != to {
        assert par[p] != to;
      }
    }
  }

  /** Numbering a new cell `n` with the count so far keeps every number below the count. */
  lemma NumberNext(order: map<Pos, nat>, vis: set<Pos>, n: Pos)
    requires n !in vis && vis <= order.Keys
    requires forall p :: p in vis ==> order[p] < |vis|
    ensures forall p :: p in vis + {n} ==> order[n := |vis|][p] < |vis + {n}|
  {
    assert |vis + {n}| == |vis| + 1;
  }

  /** The carved region is the whole grid once no visited cell has an unvisited neighbour. */
  lemma {:induction false} ClosedIsAll(w: int, h: int, vis: set<Pos>, root: Pos)
    requires root in vis && vis <= AllCells(w, h)
    requires forall p, d: Dir {:trigger Step(p, d) in vis} ::
               p in vis && InBounds(w, h, Step(p, d)) ==> Step(p, d) in vis
    ensures vis == AllCells(w, h)
  {
    forall t | t in AllCells(w, h)
      ensures t in vis
    {
      Spread(w, h, vis, root, t);
    }
  }

  /** Walking one in-bounds step at a time towards `t` from a cell of a closed region stays in it. */
  lemma {:induction false} Spread(w: int, h: int, vis: set<Pos>, c: Pos, t: Pos)
    requires c in vis && vis <= AllCells(w, h) && InBounds(w, h, t)
    requires forall p, d: Dir {:trigger Step(p, d) in vis} ::
               p in vis && InBounds(w, h, Step(p, d)) ==> Step(p, d) in vis
    ensures t in vis
    decreases Manhattan(c, t)
  {
    if c != t {
      var d: Dir := if c.x < t.x then 1 else if c.x > t.x then 3 else if c.y < t.y then 0 else 2;
      Spread(w, h, vis, Step(c, d), t);
    }
  }

  /** Opening the entrance (down wall of the origin) and the exit (up wall of the far corner). */
  function Entrances(w: int, h: int, walls: Walls): (r: Walls)
    requires InBounds(w, h, Origin) && Pos(w - 1, h - 1) in walls && Origin in walls
    ensures r.Keys == walls.Keys
  {
    var corner := Pos(w - 1, h - 1);
    var entered := walls[Origin := walls[Origin].Clear(2)];
    entered[corner := entered[corner].Clear(0)]
  }

  /**
   * Opening the entrances only touches walls that face out of the grid: the
   * entrance and exit are open and every interior wall is unchanged.
   */
  lemma EntrancesOnlyBoundary(w: int, h: int, walls: Walls)
    requires InBounds(w, h, Origin) && walls.Keys == AllCells(w, h)
    ensures var r := Entrances(w, h, walls);
            && !r[Origin].Wall(2) && !r[Pos(w - 1, h - 1)].Wall(0)
            && (forall p, d: Dir {:trigger r[p].Wall(d)} ::
                  p in walls && InBounds(w, h, Step(p, d)) ==> r[p].Wall(d) == walls[p].Wall(d))
  {
    var r := Entrances(w, h, walls);
    forall p, d: Dir | p in walls && InBounds(w, h, Step(p, d))
      ensures r[p].Wall(d) == walls[p].Wall(d)
    {
      StepStaysIn(w, h, p, d);
      InnerWallAfterEntrances(w, h, walls, p, d);
    }
  }

  /** A step that stays in the grid is neither down from the origin nor up from the far corner. */
  lemma StepStaysIn(w: int, h: int, p: Pos, d: Dir)
    requires InBounds(w, h, Step(p, d))
    ensures !(p == Origin && d == 2) && !(p == Pos(w - 1, h - 1) && d == 0)
  {
  }

  /** Opening the entrances changes no wall but those two. */
  lemma InnerWallAfterEntrances(w: int, h: int, walls: Walls, p: Pos, d: Dir)
    requires InBounds(w, h, Origin) && walls.Keys == AllCells(w, h) && p in walls
    requires !(p == Origin && d == 2) && !(p == Pos(w - 1, h - 1) && d == 0)
    ensures Entrances(w, h, walls)[p].Wall(d) == walls[p].Wall(d)
  {
    var corner := Pos(w - 1, h - 1);
    var c := walls[p];
    var cleared := if p == Origin then c.Clear(2) else c;
    assert Entrances(w, h, walls)[p] == (if p == corner then cleared.Clear(0) else cleared);
  }

  /**
   * The only walls facing out of the grid that are down are the entrance,
   * below (0, 0), and the exit, above the far corner.
   */
  ghost predicate OnlyEntrancesOpen(w: int, h: int, walls: Walls)
  {
    forall p, d: Dir {:trigger walls[p].Wall(d)} ::
      p in walls && !InBounds(w, h, Step(p, d)) ==>
        (!walls[p].Wall(d) <==> (p == Origin && d == 2) || (p == Pos(w - 1, h - 1) && d == 0))
  }

  /** Opening the entrances of a grid closed all round leaves exactly those two outer walls down. */
  lemma EntrancesOpenBoundary(w: int, h: int, walls: Walls)
    requires InBounds(w, h, Origin) && walls.Keys == AllCells(w, h) && BoundaryClosed(w, h, walls)
    ensures OnlyEntrancesOpen(w, h, Entrances(w, h, walls))
  {
    var r := Entrances(w, h, walls);
    forall p, d: Dir | p in r && !InBounds(w, h, Step(p, d))
      ensures !r[p].Wall(d) <==> (p == Origin && d == 2) || (p == Pos(w - 1, h - 1) && d == 0)
    {
      OuterWallAfterEntrances(w, h, walls, p, d);
    }
  }

  /** One outer wall after opening the entrances. */
  lemma OuterWallAfterEntrances(w: int, h: int, walls: Walls, p: Pos, d: Dir)
    requires InBounds(w, h, Origin) && walls.Keys == AllCells(w, h) && p in walls
    requires walls[p].Wall(d)
    ensures var r := Entrances(w, h, walls);
            !r[p].Wall(d) <==> (p == Origin && d == 2) || (p == Pos(w - 1, h - 1) && d == 0)
  {
    var corner := Pos(w - 1, h - 1);
    var c := walls[p];
    var cleared := if p == Origin then c.Clear(2) else c;
    assert Entrances(w, h, walls)[p] == (if p == corner then cleared.Clear(0) else cleared);
  }

  /** Opening the entrances keeps a carved maze a carved maze. */
  lemma EntrancesKeepSpanning(w: int, h: int, walls: Walls, par: Parents, order: map<Pos, nat>, root: Pos)
    requires Spanning(w, h, walls, par, order, root) && InBounds(w, h, Origin)
    ensures Spanning(w, h, Entrances(w, h, walls), par, order, root)
  {
    var r := Entrances(w, h, walls);
    forall p, d: Dir | p in r && InBounds(w, h, Step(p, d))
      ensures !r[p].Wall(d) <==> par[p] == Step(p, d) || par[Step(p, d)] == p
    {
      StepStaysIn(w, h, p, d);
      InnerWallAfterEntrances(w, h, walls, p, d);
    }
    assert WallsFollowParents(w, h, r, par);
  }

  /** `a`'s wall towards its neighbour `b` is down. */
  ghost predicate Passage(w: int, h: int, walls: Walls, a: Pos, b: Pos)
  {
    a in walls && InBounds(w, h, b) && Adjacent(a, b) && !walls[a].Wall(GetDirectionIndex(a, b))
  }

  /** A walk through open walls, starting inside the grid. */
  ghost predicate Route(w: int, h: int, walls: Walls, r: seq<Pos>)
  {
    && |r| >= 1 && r[0] in walls
    && forall i :: 0 <= i < |r| - 1 ==> Passage(w, h, walls, r[i], r[i + 1])
  }

  /** In a carved maze passages are two-way. */
  lemma PassageSymmetric(w: int, h: int, walls: Walls, par: Parents, a: Pos, b: Pos)
    requires Covers(w, h, walls, par) && WallsFollowParents(w, h, walls, par)
    requires Passage(w, h, walls, a, b)
    ensures Passage(w, h, walls, b, a)
  {
    var d := GetDirectionIndex(a, b);
    var e := GetDirectionIndex(b, a);
    DirectionStep(a, b);
    assert e == Opposite(d) by { DirectionOfStep(b, Opposite(d)); }
    assert Step(b, e) == a;
  }

  /** Following parent links from `p` walks through open walls down to the root. */
  ghost function RouteToRoot(w: int, h: int, walls: Walls, par: Parents, order: map<Pos, nat>, root: Pos, p: Pos): (r: seq<Pos>)
    requires Spanning(w, h, walls, par, order, root) && p in AllCells(w, h)
    ensures Route(w, h, walls, r) && r[0] == p && r[|r| - 1] == root
    decreases order[p]
  {
    if p == root then [p]
    else
      var q := par[p];
      var d := GetDirectionIndex(p, q);
      assert Step(p, d) == q && !walls[p].Wall(d);
      var rest := RouteToRoot(w, h, walls, par, order, root, q);
      assert Passage(w, h, walls, p, q);
      [p] + rest
  }

  function Reverse<T>(s: seq<T>): (r: seq<T>)
    ensures |r| == |s| && forall i :: 0 <= i < |s| ==> r[i] == s[|s| - 1 - i]
  {
    if s == [] then [] else Reverse(s[1..]) + [s[0]]
  }

  /** In a carved maze a walk can be followed backwards. */
  lemma ReverseRoute(w: int, h: int, walls: Walls, par: Parents, r: seq<Pos>)
    requires Covers(w, h, walls, par) && WallsFollowParents(w, h, walls, par)
    requires Route(w, h, walls, r) && InBounds(w, h, r[|r| - 1])
    ensures Route(w, h, walls, Reverse(r))
  {
    var v := Reverse(r);
    forall i | 0 <= i < |v| - 1
      ensures Passage(w, h, walls, v[i], v[i + 1])
    {
      var j := |r| - 2 - i;
      assert v[i] == r[j + 1] && v[i + 1] == r[j];
      PassageSymmetric(w, h, walls, par, r[j], r[j + 1]);
    }
  }

  /** In a carved maze every cell reaches every other through open walls. */
  lemma Connected(w: int, h: int, walls: Walls, par: Parents, order: map<Pos, nat>, root: Pos, a: Pos, b: Pos)
    requires Spanning(w, h, walls, par, order, root)
    requires a in AllCells(w, h) && b in AllCells(w, h)
    ensures exists r :: Route(w, h, walls, r) && r[0] == a && r[|r| - 1] == b
  {
    var ra := RouteToRoot(w, h, walls, par, order, root, a);
    var rb := RouteToRoot(w, h, walls, par, order, root, b);
    ReverseRoute(w, h, walls, par, rb);
    var back := Reverse(rb);
    var r := ra + back[1..];
    assert back[0] == root;
    forall i | 0 <= i < |r| - 1
      ensures Passage(w, h, walls, r[i], r[i + 1])
    {
      if i < |ra| - 1 {
      } else {
        assert r[i] == back[i - |ra| + 1] && r[i + 1] == back[i - |ra| + 2];
      }
    }
    assert Route(w, h, walls, r) && r[0] == a && r[|r| - 1] == b;
  }

  /** The open interior walls, each as the pair of cells it joins. */
  ghost function OpenPassages(w: int, h: int, walls: Walls): set<set<Pos>>
  {
    set p, d | p in walls && 0 <= d < 4 && InBounds(w, h, Step(p, d)) && !walls[p].Wall(d) :: {p, Step(p, d)}
  }

  /** The parent links, each as the pair of cells it joins. */
  ghost function TreeEdges(par: Parents, cells: set<Pos>): set<set<Pos>>
    requires cells <= par.Keys
  {
    set c | c in cells :: {c, par[c]}
  }

  /** A carved maze has exactly `w * h - 1` open interior walls: one per non-root cell. */
  lemma PassageCount(w: int, h: int, walls: Walls, par: Parents, order: map<Pos, nat>, root: Pos)
    requires Spanning(w, h, walls, par, order, root)
    ensures |OpenPassages(w, h, walls)| == w * h - 1
  {
    var inner := AllCells(w, h) - {root};
    PassagesAreLinks(w, h, walls, par, order, root);
    LinksArePassages(w, h, walls, par, order, root);
    assert OpenPassages(w, h, walls) == TreeEdges(par, inner);
    CardEdges(par, order, inner);
    CardAllCells(w, h);
  }

  /** Every open interior wall of a carved maze is a parent link. */
  lemma PassagesAreLinks(w: int, h: int, walls: Walls, par: Parents, order: map<Pos, nat>, root: Pos)
    requires Spanning(w, h, walls, par, order, root)
    ensures OpenPassages(w, h, walls) <= TreeEdges(par, AllCells(w, h) - {root})
  {
    forall e | e in OpenPassages(w, h, walls)
      ensures e in TreeEdges(par, AllCells(w, h) - {root})
    {
      var p, d :| p in walls && 0 <= d < 4 && InBounds(w, h, Step(p, d)) && !walls[p].Wall(d)
                  && e == {p, Step(p, d)};
      PassageIsLink(w, h, walls, par, order, root, p, d);
    }
  }

  /** One open interior wall of a carved maze is the parent link of one of its two cells. */
  lemma PassageIsLink(w: int, h: int, walls: Walls, par: Parents, order: map<Pos, nat>, root: Pos, p: Pos, d: Dir)
    requires Spanning(w, h, walls, par, order, root)
    requires p in walls && InBounds(w, h, Step(p, d)) && !walls[p].Wall(d)
    ensures {p, Step(p, d)} in TreeEdges(par, AllCells(w, h) - {root})
  {
    var inner := AllCells(w, h) - {root};
    var q := Step(p, d);
    if par[p] == q {
      assert p in inner && {p, Step(p, d)} == {p, par[p]};
    } else {
      assert par[q] == p;
      assert q in inner && {p, Step(p, d)} == {q, par[q]};
    }
  }

  /** Every parent link of a carved maze is an open interior wall. */
  lemma LinksArePassages(w: int, h: int, walls: Walls, par: Parents, order: map<Pos, nat>, root: Pos)
    requires Spanning(w, h, walls, par, order, root)
    ensures TreeEdges(par, AllCells(w, h) - {root}) <= OpenPassages(w, h, walls)
  {
    var inner := AllCells(w, h) - {root};
    forall e | e in TreeEdges(par, inner)
      ensures e in OpenPassages(w, h, walls)
    {
      var c :| c in inner && e == {c, par[c]};
      var d := GetDirectionIndex(c, par[c]);
      assert Step(c, d) == par[c] && !walls[c].Wall(d);
    }
  }

  /** Distinct non-root cells give distinct parent links, so there are as many links as cells. */
  lemma {:induction false} CardEdges(par: Parents, order: map<Pos, nat>, cells: set<Pos>)
    requires cells <= par.Keys && cells <= order.Keys
    requires forall c :: c in cells ==> par[c] != c && (par[c] in cells ==> order[par[c]] < order[c])
    ensures |TreeEdges(par, cells)| == |cells|
  {
    if cells != {} {
      var c :| c in cells;
      var rest := cells - {c};
      CardEdges(par, order, rest);
      assert TreeEdges(par, cells) == TreeEdges(par, rest) + {{c, par[c]}};
      forall c' | c' in rest
        ensures {c', par[c']} != {c, par[c]}
      {
      }
    }
  }

  /** The cells of row `y` with `0 <= x < w`. */
  function Row(w: int, y: int): (r: set<Pos>)
    ensures forall p :: p in r <==> 0 <= p.x < w && p.y == y
  {
    var row := set x | 0 <= x < w :: Pos(x, y);
    assert forall p: Pos :: 0 <= p.x < w && p.y == y ==> p == Pos(p.x, y) && p in row;
    row
  }

  /** A row `w` cells wide has `w` cells. */
  lemma {:induction false} CardRow(w: nat, y: int)
    ensures |Row(w, y)| == w
  {
    if w > 0 {
      CardRow(w - 1, y);
      AddCell(w, y);
    } else {
      assert Row(w, y) == {};
    }
  }

  /** A row one cell wider has one cell more. */
  lemma AddCell(w: int, y: int)
    requires w > 0
    ensures |Row(w, y)| == |Row(w - 1, y)| + 1
  {
    assert Row(w, y) == Row(w - 1, y) + {Pos(w - 1, y)};
  }

  /** A `w × h` grid has `w * h` cells. */
  lemma {:induction false} CardAllCells(w: int, h: int)
    requires w >= 0 && h >= 0
    ensures |AllCells(w, h)| == w * h
  {
    if h > 0 {
      CardAllCells(w, h - 1);
      CardRow(w, h - 1);
      AddRow(w, h);
      assert w * h == w * (h - 1) + w;
    } else {
      assert AllCells(w, h) == {};
    }
  }

  /** A grid one row taller has the cells of the shorter grid and those of the new row. */
  lemma AddRow(w: int, h: int)
    requires h > 0
    ensures |AllCells(w, h)| == |AllCells(w, h - 1)| + |Row(w, h - 1)|
  {
    var a, b := AllCells(w, h - 1), Row(w, h - 1);
    assert AllCells(w, h) == a + b;
    assert a * b == {};
  }
}
