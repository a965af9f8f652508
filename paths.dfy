/**
 * The path specification both A* searches are checked against: a node's
 * neighbours, the cost of an edge, the grid heuristic, walks and their
 * lengths, and what a shortest path from `start` to `goal` is.
 *
 * Edge costs are integers: every edge BuildGraph makes runs along one row
 * or column (Graph.EdgeShape), so the world distance between its ends is
 * the cell size times the grid distance, which CostIsDistance states.
 */
module Paths {
  import opened Grid
  import opened Graph

  /** A node's neighbour list (`node.neighbors`); a cell that is no node has none. */
  function Neighbors(g: Nodes, n: Pos): seq<Pos>
  {
    if n in g then g[n] else []
  }

  /** The length of the edge from `a` to `b` in world units, for a whole-number cell size `cs`. */
  function Cost(cs: nat, a: Pos, b: Pos): nat
  {
    cs * Manhattan(a, b)
  }

  /**
   * `Vector3.Distance` on an edge: along one row or column the cost squared
   * is the squared Euclidean distance of the scaled positions, and it is
   * zero exactly when the ends coincide.
   */
  lemma CostIsDistance(cs: nat, a: Pos, b: Pos)
    requires cs >= 1 && (a.x == b.x || a.y == b.y)
    ensures Cost(cs, a, b) * Cost(cs, a, b)
            == (cs * (a.x - b.x)) * (cs * (a.x - b.x)) + (cs * (a.y - b.y)) * (cs * (a.y - b.y))
    ensures Cost(cs, a, b) == 0 <==> a == b
  {
    var d := Manhattan(a, b);
    if a.x == b.x {
      assert d * d == (a.y - b.y) * (a.y - b.y);
    } else {
      assert d * d == (a.x - b.x) * (a.x - b.x);
    }
    assert Cost(cs, a, b) * Cost(cs, a, b) == cs * cs * (d * d);
    assert cs * d >= d;
  }

  /** A positive cell size makes every edge at least as long as its grid distance. */
  lemma CostAtLeastGrid(cs: nat, a: Pos, b: Pos)
    requires cs >= 1
    ensures Cost(cs, a, b) >= Manhattan(a, b)
    ensures a != b ==> Cost(cs, a, b) >= 1
  {
    var d := Manhattan(a, b);
    assert cs * d == d + (cs - 1) * d;
  }

  /** The A* heuristic: grid (Manhattan) distance between the two cells, in grid units. */
  function Heuristic(a: Pos, b: Pos): (h: nat)
    ensures h == 0 <==> a == b
  {
    Abs(a.x - b.x) + Abs(a.y - b.y)
  }

  /**
   * The heuristic is consistent when the cell size is at least 1: it never
   * drops by more than the cost of one edge.
   */
  lemma HeuristicConsistent(cs: nat, a: Pos, b: Pos, t: Pos)
    requires cs >= 1
    ensures Heuristic(a, t) <= Cost(cs, a, b) + Heuristic(b, t)
  {
    CostAtLeastGrid(cs, a, b);
  }

  /** Consecutive cells are graph neighbours. */
  ghost predicate IsWalk(g: Nodes, p: seq<Pos>)
  {
    forall i :: 0 <= i < |p| - 1 ==> p[i + 1] in Neighbors(g, p[i])
  }

  /** A walk from `start` to `goal`. */
  ghost predicate IsPath(g: Nodes, start: Pos, goal: Pos, p: seq<Pos>)
  {
    |p| > 0 && p[0] == start && p[|p| - 1] == goal && IsWalk(g, p)
  }

  /** The sum of the edge costs along `p`, added from the front as PathCost's loop does (0 below two cells). */
  function Length(cs: nat, p: seq<Pos>): nat
    decreases |p|
  {
    if |p| < 2 then 0 else Length(cs, p[..|p| - 1]) + Cost(cs, p[|p| - 2], p[|p| - 1])
  }

  /** `start` reaches `goal` in the graph. */
  ghost predicate Reachable(g: Nodes, start: Pos, goal: Pos)
  {
    exists p :: IsPath(g, start, goal, p)
  }

  /** `p` is a path from `start` to `goal` no longer than any other. */
  ghost predicate Shortest(g: Nodes, cs: nat, start: Pos, goal: Pos, p: seq<Pos>)
  {
    IsPath(g, start, goal, p) && forall q :: IsPath(g, start, goal, q) ==> Length(cs, p) <= Length(cs, q)
  }

  /** Extending a walk by one cell adds that edge's cost. */
  lemma LengthAppend(cs: nat, p: seq<Pos>, u: Pos)
    requires |p| > 0
    ensures Length(cs, p + [u]) == Length(cs, p) + Cost(cs, p[|p| - 1], u)
  {
    assert (p + [u])[..|p|] == p;
  }

  /** A walk's length splits at any of its cells. */
  lemma {:induction false} LengthSplit(cs: nat, p: seq<Pos>, i: int)
    requires 0 <= i < |p|
    ensures Length(cs, p) == Length(cs, p[..i + 1]) + Length(cs, p[i..])
    decreases |p|
  {
    if i == |p| - 1 {
      assert p[..i + 1] == p;
    } else {
      var q := p[..|p| - 1];
      LengthSplit(cs, q, i);
      assert q[..i + 1] == p[..i + 1];
      assert p[i..][..|p[i..]| - 1] == q[i..];
    }
  }

  /**
   * The heuristic is admissible when the cell size is at least 1: it never
   * exceeds the length of a walk to the goal, and in general it drops along
   * a walk by at most that walk's length.
   */
  lemma {:induction false} HeuristicAdmissible(cs: nat, p: seq<Pos>, t: Pos)
    requires cs >= 1 && |p| > 0
    ensures Heuristic(p[0], t) <= Length(cs, p) + Heuristic(p[|p| - 1], t)
    decreases |p|
  {
    if |p| >= 2 {
      var q := p[..|p| - 1];
      HeuristicAdmissible(cs, q, t);
      HeuristicConsistent(cs, p[|p| - 2], p[|p| - 1], t);
    }
  }

  /** A walk followed by an edge is a walk. */
  lemma PathAppend(g: Nodes, start: Pos, v: Pos, p: seq<Pos>, u: Pos)
    requires IsPath(g, start, v, p) && u in Neighbors(g, v)
    ensures IsPath(g, start, u, p + [u])
  {
    var q := p + [u];
    forall i | 0 <= i < |q| - 1
      ensures q[i + 1] in Neighbors(g, q[i])
    {
      if i < |p| - 1 {
        assert q[i] == p[i] && q[i + 1] == p[i + 1];
      }
    }
  }
}
