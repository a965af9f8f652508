/**
 * The parent links after carving or after the breadth-first search of
 * BuildParentPath, stated on values: links that can be followed without
 * cycling, the bookkeeping of the search, and what HighlightPath's walk
 * along the links produces.
 */
module ParentPath {
  import opened Grid
  import opened Tree

  /** The far corner, where HighlightPath's walk starts. */
  function Exit(w: int, h: int): (e: Pos)
    ensures w >= 1 && h >= 1 ==> InBounds(w, h, e) && e in AllCells(w, h)
  {
    Pos(w - 1, h - 1)
  }

  /**
   * Following a link from any cell other than the origin either meets the
   * sentinel (an x of -1) or moves to a cell of the grid that comes earlier
   * in `order`, so every walk along the links ends.
   */
  ghost predicate Ordered(w: int, h: int, par: Parents, order: map<Pos, nat>)
  {
    && par.Keys == AllCells(w, h) && AllCells(w, h) <= order.Keys
    && forall p {:trigger par[p]} :: p in par && p != Origin && par[p].x != -1 ==>
         InBounds(w, h, par[p]) && order[par[p]] < order[p]
  }

  /** A carved maze rooted at the origin has ordered links. */
  lemma SpanningOrdered(w: int, h: int, walls: Walls, par: Parents, order: map<Pos, nat>)
    requires Spanning(w, h, walls, par, order, Origin)
    ensures Ordered(w, h, par, order)
  {
  }

  /**
   * Every seen cell other than the origin links to a seen cell that opens
   * into it and was seen before it.
   */
  ghost predicate LinksBack(w: int, h: int, walls: Walls, par: Parents, order: map<Pos, nat>, seen: set<Pos>)
  {
    forall p {:trigger par[p]} :: p in par && p in seen && p != Origin ==>
      par[p] in seen && Passage(w, h, walls, par[p], p) && p in order && par[p] in order && order[par[p]] < order[p]
  }

  /**
   * The search's bookkeeping with `seen` discovered so far, starting from
   * links `par0` ordered by `order0`: the origin is seen; every other seen
   * cell links back (LinksBack); the origin and every unseen cell keep
   * their old link; seen cells are numbered below `|seen|`, unseen ones
   * above `w * h`.
   */
  ghost predicate Searching(w: int, h: int, walls: Walls, par0: Parents, order0: map<Pos, nat>,
                            par: Parents, order: map<Pos, nat>, seen: set<Pos>)
  {
    var holds :=
      && par.Keys == AllCells(w, h) && par0.Keys == AllCells(w, h)
      && AllCells(w, h) <= order.Keys && AllCells(w, h) <= order0.Keys
      && seen <= AllCells(w, h) && Origin in seen
      && LinksBack(w, h, walls, par, order, seen)
      && (forall p {:trigger par[p]} :: p in par && (p !in seen || p == Origin) ==> par[p] == par0[p])
      && (forall p :: p in seen ==> order[p] < |seen|)
      && (forall p :: p in AllCells(w, h) && p !in seen ==> order[p] == w * h + order0[p]);
    holds
  }

  /** The renumbering at the start of the search: the origin first, every other cell after all cells that can be seen. */
  ghost function StartOrder(w: int, h: int, order0: map<Pos, nat>): (r: map<Pos, nat>)
    requires AllCells(w, h) <= order0.Keys && w >= 0 && h >= 0
    ensures r.Keys == AllCells(w, h)
  {
    map p | p in AllCells(w, h) :: if p == Origin then 0 else w * h + order0[p]
  }

  /** Only the origin is seen when the search starts. */
  lemma SearchStart(w: int, h: int, walls: Walls, par0: Parents, order0: map<Pos, nat>)
    requires InBounds(w, h, Origin) && par0.Keys == AllCells(w, h) && AllCells(w, h) <= order0.Keys
    ensures Searching(w, h, walls, par0, order0, par0, StartOrder(w, h, order0), {Origin})
  {
  }

  /** Linking a newly seen `n` back to the seen `cur` that opens into it keeps every link pointing back. */
  lemma LinksBackDiscover(w: int, h: int, walls: Walls, par: Parents, order: map<Pos, nat>, seen: set<Pos>, cur: Pos, n: Pos)
    requires LinksBack(w, h, walls, par, order, seen)
    requires cur in seen && n !in seen && n != Origin && Passage(w, h, walls, cur, n)
    requires cur in order && order[cur] < |seen|
    ensures LinksBack(w, h, walls, par[n := cur], order[n := |seen|], seen + {n})
  {
    var par', order', seen' := par[n := cur], order[n := |seen|], seen + {n};
    forall p | p in par' && p in seen' && p != Origin
      ensures par'[p] in seen' && Passage(w, h, walls, par'[p], p) && p in order' && par'[p] in order' && order'[par'[p]] < order'[p]
    {
      if p == n {
        assert par'[p] == cur;
      } else {
        assert par'[p] == par[p] && par[p] != n;
      }
    }
  }

  /** Discovering `n` through the open wall from seen cell `cur` keeps the bookkeeping. */
  lemma SearchDiscover(w: int, h: int, walls: Walls, par0: Parents, order0: map<Pos, nat>,
                       par: Parents, order: map<Pos, nat>, seen: set<Pos>, cur: Pos, n: Pos)
    requires Searching(w, h, walls, par0, order0, par, order, seen)
    requires cur in seen && n !in seen && Passage(w, h, walls, cur, n)
    ensures Searching(w, h, walls, par0, order0, par[n := cur], order[n := |seen|], seen + {n})
  {
    LinksBackDiscover(w, h, walls, par, order, seen, cur, n);
    DiscoverNumbers(w, h, order0, order, seen, n);
    DiscoverKeepsLinks(par0, par, seen, cur, n);
    SearchingIntro(w, h, walls, par0, order0, par[n := cur], order[n := |seen|], seen + {n});
  }

  /** Searching from its parts. */
  lemma SearchingIntro(w: int, h: int, walls: Walls, par0: Parents, order0: map<Pos, nat>,
                       par: Parents, order: map<Pos, nat>, seen: set<Pos>)
    requires par.Keys == AllCells(w, h) && par0.Keys == AllCells(w, h)
    requires AllCells(w, h) <= order.Keys && AllCells(w, h) <= order0.Keys
    requires seen <= AllCells(w, h) && Origin in seen
    requires LinksBack(w, h, walls, par, order, seen)
    requires forall p {:trigger par[p]} :: p in par && (p !in seen || p == Origin) ==> par[p] == par0[p]
    requires forall p :: p in seen ==> order[p] < |seen|
    requires forall p :: p in AllCells(w, h) && p !in seen ==> order[p] == w * h + order0[p]
    ensures Searching(w, h, walls, par0, order0, par, order, seen)
  {
  }

  /** Numbering `n` next keeps seen cells below the count and leaves unseen ones alone. */
  lemma DiscoverNumbers(w: int, h: int, order0: map<Pos, nat>, order: map<Pos, nat>, seen: set<Pos>, n: Pos)
    requires n !in seen && seen <= order.Keys
    requires forall p :: p in seen ==> order[p] < |seen|
    requires forall p :: p in AllCells(w, h) && p !in seen ==> p in order && p in order0 && order[p] == w * h + order0[p]
    ensures forall p :: p in seen + {n} ==> order[n := |seen|][p] < |seen + {n}|
    ensures forall p :: p in AllCells(w, h) && p !in seen + {n} ==> order[n := |seen|][p] == w * h + order0[p]
  {
    NumberNext(order, seen, n);
  }

  /** Linking the unseen `n` leaves every other unseen cell, and the origin, linked as at the start. */
  lemma DiscoverKeepsLinks(par0: Parents, par: Parents, seen: set<Pos>, cur: Pos, n: Pos)
    requires n !in seen && Origin in seen && par.Keys == par0.Keys
    requires forall p {:trigger par[p]} :: p in par && (p !in seen || p == Origin) ==> par[p] == par0[p]
    ensures forall p {:trigger par[n := cur][p]} :: p in par[n := cur] && (p !in seen + {n} || p == Origin) ==> par[n := cur][p] == par0[p]
  {
  }

  lemma SubsetCard<T>(a: set<T>, b: set<T>)
    requires a <= b
    ensures |a| <= |b|
  {
    assert b == a + (b - a);
  }

  /** Whatever the search has done, the links stay ordered under its renumbering. */
  lemma SearchOrdered(w: int, h: int, walls: Walls, par0: Parents, order0: map<Pos, nat>,
                      par: Parents, order: map<Pos, nat>, seen: set<Pos>)
    requires w >= 0 && h >= 0
    requires Ordered(w, h, par0, order0) && Searching(w, h, walls, par0, order0, par, order, seen)
    ensures Ordered(w, h, par, order)
  {
    SubsetCard(seen, AllCells(w, h));
    CardAllCells(w, h);
    forall p | p in par && p != Origin && par[p].x != -1
      ensures InBounds(w, h, par[p]) && order[par[p]] < order[p]
    {
      if p !in seen {
        assert par[p] == par0[p] && InBounds(w, h, par0[p]);
      }
    }
  }

  /**
   * `seen` is closed under open walls out of every cell that has left the
   * queue.
   */
  ghost predicate Explored(w: int, h: int, walls: Walls, seen: set<Pos>, queue: seq<Pos>)
  {
    forall p, d: Dir {:trigger Step(p, d) in seen} ::
      p in seen && p !in queue && Passage(w, h, walls, p, Step(p, d)) ==> Step(p, d) in seen
  }

  /** Once the queue is empty, every walk through open walls from a seen cell stays among the seen cells. */
  lemma {:induction false} RouteStaysSeen(w: int, h: int, walls: Walls, seen: set<Pos>, r: seq<Pos>)
    requires walls.Keys == AllCells(w, h)
    requires Explored(w, h, walls, seen, []) && Route(w, h, walls, r) && r[0] in seen
    ensures r[|r| - 1] in seen
    decreases |r|
  {
    if |r| > 1 {
      var d := GetDirectionIndex(r[0], r[1]);
      assert Step(r[0], d) == r[1];
      assert Route(w, h, walls, r[1..]);
      RouteStaysSeen(w, h, walls, seen, r[1..]);
    }
  }

  /** A search that ran out of queue has seen the far corner whenever it is reachable at all. */
  lemma ExhaustedSeesExit(w: int, h: int, walls: Walls, seen: set<Pos>)
    requires walls.Keys == AllCells(w, h) && Origin in seen && Explored(w, h, walls, seen, [])
    ensures ExitReachable(w, h, walls) ==> Exit(w, h) in seen
  {
    if ExitReachable(w, h, walls) {
      var r :| Route(w, h, walls, r) && r[0] == Origin && r[|r| - 1] == Exit(w, h);
      RouteStaysSeen(w, h, walls, seen, r);
    }
  }

  /** Since `seen0`, the cells that became seen are exactly those listed in `added`. */
  ghost predicate Gathered(seen0: set<Pos>, seen: set<Pos>, added: seq<Pos>)
  {
    && seen0 <= seen
    && (forall k :: 0 <= k < |added| ==> added[k] in seen && added[k] !in seen0)
    && (forall p :: p in seen ==> p in seen0 || p in added)
  }

  /** Every open wall of `cur` in a direction below `n` leads to a seen cell. */
  ghost predicate OpenSeen(w: int, h: int, walls: Walls, cur: Pos, seen: set<Pos>, n: int)
  {
    forall d: Dir :: d < n && Passage(w, h, walls, cur, Step(cur, d)) ==> Step(cur, d) in seen
  }

  /** Listing a newly seen cell keeps the record of what was gathered. */
  lemma GatheredAdd(seen0: set<Pos>, seen: set<Pos>, added: seq<Pos>, n: Pos)
    requires Gathered(seen0, seen, added) && n !in seen
    ensures Gathered(seen0, seen + {n}, added + [n])
  {
  }

  /** Direction `d` is done once its open wall, if any, leads to a seen cell. */
  lemma OpenSeenNext(w: int, h: int, walls: Walls, cur: Pos, seen: set<Pos>, seen': set<Pos>, d: Dir)
    requires OpenSeen(w, h, walls, cur, seen, d) && seen <= seen'
    requires Passage(w, h, walls, cur, Step(cur, d)) ==> Step(cur, d) in seen'
    ensures OpenSeen(w, h, walls, cur, seen', d + 1)
  {
  }

  /**
   * The exploration of `cur`'s walls once directions below `d` are done:
   * the bookkeeping holds, and the cells seen since `seen0` are exactly the
   * ones appended to the queue `q0`.
   */
  ghost predicate Scanning(w: int, h: int, walls: Walls, par0: Parents, order0: map<Pos, nat>, cur: Pos,
                           q0: seq<Pos>, q: seq<Pos>, added: seq<Pos>, seen0: set<Pos>,
                           par: Parents, order: map<Pos, nat>, seen: set<Pos>, d: int)
  {
    && Searching(w, h, walls, par0, order0, par, order, seen) && cur in seen0
    && q == q0 + added && Gathered(seen0, seen, added) && OpenSeen(w, h, walls, cur, seen, d)
  }

  /** Nothing is explored yet. */
  lemma ScanStart(w: int, h: int, walls: Walls, par0: Parents, order0: map<Pos, nat>, cur: Pos,
                  q: seq<Pos>, par: Parents, order: map<Pos, nat>, seen: set<Pos>)
    requires Searching(w, h, walls, par0, order0, par, order, seen) && cur in seen
    ensures Scanning(w, h, walls, par0, order0, cur, q, q, [], seen, par, order, seen, 0)
  {
  }

  /** All four directions are explored. */
  lemma ScanDone(w: int, h: int, walls: Walls, par0: Parents, order0: map<Pos, nat>, cur: Pos,
                 q0: seq<Pos>, q: seq<Pos>, added: seq<Pos>, seen0: set<Pos>,
                 par: Parents, order: map<Pos, nat>, seen: set<Pos>)
    requires Scanning(w, h, walls, par0, order0, cur, q0, q, added, seen0, par, order, seen, 4)
    ensures Searching(w, h, walls, par0, order0, par, order, seen)
    ensures q == q0 + added && Gathered(seen0, seen, added) && OpenSeen(w, h, walls, cur, seen, 4)
  {
  }

  /** Direction `d` needs nothing when its wall is up or its neighbour already seen. */
  lemma ScanSkip(w: int, h: int, walls: Walls, par0: Parents, order0: map<Pos, nat>, cur: Pos,
                 q0: seq<Pos>, q: seq<Pos>, added: seq<Pos>, seen0: set<Pos>,
                 par: Parents, order: map<Pos, nat>, seen: set<Pos>, d: Dir)
    requires Scanning(w, h, walls, par0, order0, cur, q0, q, added, seen0, par, order, seen, d)
    requires Passage(w, h, walls, cur, Step(cur, d)) ==> Step(cur, d) in seen
    ensures Scanning(w, h, walls, par0, order0, cur, q0, q, added, seen0, par, order, seen, d + 1)
  {
    OpenSeenNext(w, h, walls, cur, seen, seen, d);
  }

  /** Discovering the neighbour in direction `d` through its open wall: seen, linked, numbered and queued. */
  lemma ScanAdd(w: int, h: int, walls: Walls, par0: Parents, order0: map<Pos, nat>, cur: Pos,
                q0: seq<Pos>, q: seq<Pos>, added: seq<Pos>, seen0: set<Pos>,
                par: Parents, order: map<Pos, nat>, seen: set<Pos>, d: Dir)
    requires Scanning(w, h, walls, par0, order0, cur, q0, q, added, seen0, par, order, seen, d)
    requires Passage(w, h, walls, cur, Step(cur, d)) && Step(cur, d) !in seen
    ensures var n := Step(cur, d);
            Scanning(w, h, walls, par0, order0, cur, q0, q + [n], added + [n], seen0,
                     par[n := cur], order[n := |seen|], seen + {n}, d + 1)
  {
    var n := Step(cur, d);
    assert cur in seen;
    SearchDiscover(w, h, walls, par0, order0, par, order, seen, cur, n);
    GatheredAdd(seen0, seen, added, n);
    OpenSeenNext(w, h, walls, cur, seen, seen + {n}, d);
  }

  /** Every queued cell has been seen. */
  ghost predicate Queued(seen: set<Pos>, queue: seq<Pos>)
  {
    forall k :: 0 <= k < |queue| ==> queue[k] in seen
  }

  /**
   * Dequeuing `queue[0]` and exploring all its open walls keeps `seen`
   * closed, since every cell that became seen was appended to the queue;
   * and either more cells are seen or the queue got shorter.
   */
  lemma ExploredNext(w: int, h: int, walls: Walls, seen: set<Pos>, queue: seq<Pos>,
                     seen': set<Pos>, added: seq<Pos>)
    requires Explored(w, h, walls, seen, queue) && Queued(seen, queue) && |queue| >= 1
    requires Gathered(seen, seen', added) && OpenSeen(w, h, walls, queue[0], seen', 4)
    ensures Explored(w, h, walls, seen', queue[1..] + added) && Queued(seen', queue[1..] + added)
    ensures AllCells(w, h) - seen' < AllCells(w, h) - seen || (seen' == seen && |queue[1..] + added| < |queue|)
    requires seen' <= AllCells(w, h)
  {
    var queue' := queue[1..] + added;
    forall p, d: Dir | p in seen' && p !in queue' && Passage(w, h, walls, p, Step(p, d))
      ensures Step(p, d) in seen'
    {
      if p != queue[0] {
        assert p !in queue[1..];
      }
    }
    forall k | 0 <= k < |queue'|
      ensures queue'[k] in seen'
    {
      if k >= |queue| - 1 {
        assert queue'[k] == added[k - (|queue| - 1)];
      }
    }
    if added != [] {
      assert added[0] in seen' - seen;
    }
  }

  /**
   * What the search leaves behind at any point: the links stay ordered, a
   * link that changed points back through an open wall, and a seen far
   * corner other than the origin links to a cell of the grid.
   */
  lemma SearchResult(w: int, h: int, walls: Walls, par0: Parents, order0: map<Pos, nat>,
                     par: Parents, order: map<Pos, nat>, seen: set<Pos>)
    requires w >= 0 && h >= 0
    requires Ordered(w, h, par0, order0) && Searching(w, h, walls, par0, order0, par, order, seen)
    ensures Ordered(w, h, par, order)
    ensures forall p :: p in par && par[p] != par0[p] ==> p != Origin && Passage(w, h, walls, par[p], p)
    ensures Exit(w, h) in seen && Exit(w, h) != Origin ==> InBounds(w, h, par[Exit(w, h)])
    ensures walls.Keys == AllCells(w, h) && Explored(w, h, walls, seen, []) ==>
              (Exit(w, h) != Origin && ExitReachable(w, h, walls) ==> InBounds(w, h, par[Exit(w, h)]))
  {
    SearchOrdered(w, h, walls, par0, order0, par, order, seen);
    if walls.Keys == AllCells(w, h) && Explored(w, h, walls, seen, []) {
      ExhaustedSeesExit(w, h, walls, seen);
    }
  }

  /** The far corner can be reached from the origin through open walls. */
  ghost predicate ExitReachable(w: int, h: int, walls: Walls)
  {
    exists r :: Route(w, h, walls, r) && r[0] == Origin && r[|r| - 1] == Exit(w, h)
  }

  /** HighlightPath's walk: it starts at `start` and each later cell is the link of the one before, which is not the origin. */
  ghost predicate Chain(par: Parents, path: seq<Pos>, start: Pos)
  {
    && |path| >= 1 && path[0] == start
    && forall i :: 0 <= i < |path| - 1 ==> path[i] in par && path[i] != Origin && path[i + 1] == par[path[i]]
  }

  /**
   * A finished walk of HighlightPath from the far corner: it follows the
   * links and stops at the origin or at a cell without a link.
   */
  ghost predicate Walked(w: int, h: int, par: Parents, path: seq<Pos>)
  {
    && Chain(par, path, Exit(w, h))
    && path[|path| - 1] in par
    && (path[|path| - 1] == Origin || par[path[|path| - 1]].x == -1)
  }

  /** In a carved maze rooted at the origin, the walk from `p` that ends at the origin is the route to the root. */
  lemma {:induction false} ChainIsRoute(w: int, h: int, walls: Walls, par: Parents, order: map<Pos, nat>, path: seq<Pos>, p: Pos)
    requires Spanning(w, h, walls, par, order, Origin) && p in AllCells(w, h)
    requires Chain(par, path, p) && path[|path| - 1] == Origin
    ensures path == RouteToRoot(w, h, walls, par, order, Origin, p)
    decreases |path|
  {
    if |path| > 1 {
      assert Chain(par, path[1..], par[p]);
      ChainIsRoute(w, h, walls, par, order, path[1..], par[p]);
    }
  }

  /** In a carved maze rooted at the origin every other cell has a link. */
  lemma SpanningLinked(w: int, h: int, walls: Walls, par: Parents, order: map<Pos, nat>, p: Pos)
    requires Spanning(w, h, walls, par, order, Origin) && p in AllCells(w, h) && p != Origin
    ensures InBounds(w, h, par[p])
  {
  }

  /**
   * In a carved maze rooted at the origin, HighlightPath's walk from the
   * far corner reaches the origin and is the route through the tree.
   */
  lemma SpanningWalk(w: int, h: int, walls: Walls, par: Parents, order: map<Pos, nat>, path: seq<Pos>)
    requires w >= 1 && h >= 1 && Spanning(w, h, walls, par, order, Origin) && Walked(w, h, par, path)
    ensures path == RouteToRoot(w, h, walls, par, order, Origin, Exit(w, h))
  {
    ChainIsRoute(w, h, walls, par, order, path, Exit(w, h));
  }
}
