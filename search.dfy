/**
 * The state both A* searches keep, stated on values: the best known cost of
 * each discovered node (`G`, the source's gScore or the records' `g`), the
 * came-from link of each discovered node other than the start (`Came`, the
 * source's `came` dictionary or the records' `parent`), and the set of open
 * nodes. The lemmas here are the correctness argument of A* with the grid
 * heuristic: the frontier of every walk from the start is open or
 * discovered within its length, so the node popped with the smallest `f`
 * has its final cost, the goal popped ends a shortest path, and an empty
 * open set means the goal is unreachable.
 */
module Search {
  import opened Grid
  import opened Graph
  import opened Paths

  /**
   * The discovered nodes and their links: the start has cost 0 and no link,
   * every other discovered node links to a distinct discovered neighbour
   * whose cost plus the edge's is at most its own, and costs are never
   * negative.
   */
  ghost predicate Consistent(g: Nodes, cs: nat, s: Pos, G: map<Pos, int>, Came: map<Pos, Pos>)
  {
    && s in G && G[s] == 0 && s !in Came
    && (forall v :: v in G ==> G[v] >= 0)
    && (forall v :: v in G && v != s ==> v in Came)
    && (forall v {:trigger Came[v]} :: v in Came ==>
          && v in G && Came[v] in G && Came[v] != v && v in Neighbors(g, Came[v])
          && G[Came[v]] + Cost(cs, Came[v], v) <= G[v])
  }

  /** Every cell of `us` is discovered no further than one edge beyond `v`. */
  ghost predicate Relaxes(cs: nat, G: map<Pos, int>, v: Pos, us: seq<Pos>)
  {
    v in G && forall u :: u in us ==> u in G && G[u] <= G[v] + Cost(cs, v, u)
  }

  /** Every discovered node that is neither open nor in `except` has had all its edges relaxed. */
  ghost predicate Settled(g: Nodes, cs: nat, G: map<Pos, int>, Open: set<Pos>, except: set<Pos>)
  {
    forall v :: v in G && v !in Open && v !in except ==> Relaxes(cs, G, v, Neighbors(g, v))
  }

  /** The loop invariant shared by both searches between two pops. */
  ghost predicate Searching(g: Nodes, cs: nat, s: Pos, t: Pos, G: map<Pos, int>, Came: map<Pos, Pos>, Open: set<Pos>)
  {
    var holds :=
      && Consistent(g, cs, s, G, Came)
      && Open <= G.Keys
      && Settled(g, cs, G, Open, {})
      && (t in G ==> t in Open);
    holds
  }

  /** Every cell a search can discover: the start, the nodes and their neighbours. */
  ghost function Mentioned(g: Nodes, s: Pos): set<Pos>
  {
    {s} + g.Keys + set k, u | k in g && u in g[k] :: u
  }

  /** A neighbour is a mentioned cell. */
  lemma NeighborMentioned(g: Nodes, s: Pos, c: Pos, u: Pos)
    requires u in Neighbors(g, c)
    ensures u in Mentioned(g, s)
  {
    assert c in g && u in g[c];
  }

  /** The walk of came-from links ending at `p`'s last cell, read front to back. */
  ghost predicate CameChain(Came: map<Pos, Pos>, p: seq<Pos>)
  {
    && |p| > 0 && p[0] !in Came
    && forall i :: 1 <= i < |p| ==> p[i] in Came && Came[p[i]] == p[i - 1]
  }

  /** Following the links from a discovered node ends at the start along a walk no longer than its cost. */
  lemma {:induction false} ChainIsPath(g: Nodes, cs: nat, s: Pos, G: map<Pos, int>, Came: map<Pos, Pos>, p: seq<Pos>)
    requires Consistent(g, cs, s, G, Came) && CameChain(Came, p) && p[|p| - 1] in G
    ensures IsPath(g, s, p[|p| - 1], p) && Length(cs, p) <= G[p[|p| - 1]]
    decreases |p|
  {
    if |p| > 1 {
      var v, q := p[|p| - 1], p[..|p| - 1];
      ChainHead(Came, p);
      var u := q[|q| - 1];
      LinkFacts(g, cs, s, G, Came, v, u);
      ChainIsPath(g, cs, s, G, Came, q);
      PathAppend(g, s, u, q, v);
      assert q + [v] == p;
      LengthAppend(cs, q, v);
    }
  }

  /** Dropping the last cell of a chain leaves a chain that ends at that cell's link. */
  lemma ChainHead(Came: map<Pos, Pos>, p: seq<Pos>)
    requires CameChain(Came, p) && |p| > 1
    ensures CameChain(Came, p[..|p| - 1])
    ensures p[|p| - 1] in Came && Came[p[|p| - 1]] == p[..|p| - 1][|p| - 2]
  {
    var q := p[..|p| - 1];
    assert forall i :: 0 <= i < |q| ==> q[i] == p[i];
  }

  /** What consistency says about one link. */
  lemma LinkFacts(g: Nodes, cs: nat, s: Pos, G: map<Pos, int>, Came: map<Pos, Pos>, v: Pos, u: Pos)
    requires Consistent(g, cs, s, G, Came) && v in Came && Came[v] == u
    ensures v in G && u in G && u != v && v in Neighbors(g, u) && G[u] + Cost(cs, u, v) <= G[v]
  {
  }

  /** A chain extends by a cell whose link is the chain's last cell. */
  lemma ChainExtend(Came: map<Pos, Pos>, q: seq<Pos>, v: Pos)
    requires CameChain(Came, q) && v in Came && Came[v] == q[|q| - 1]
    ensures CameChain(Came, q + [v])
  {
    var p := q + [v];
    assert forall i :: 0 <= i < |q| ==> p[i] == q[i];
  }

  /** Every discovered node ends a chain of links. */
  lemma {:induction false} ChainExists(g: Nodes, cs: nat, s: Pos, G: map<Pos, int>, Came: map<Pos, Pos>, v: Pos)
    returns (p: seq<Pos>)
    requires cs >= 1 && Consistent(g, cs, s, G, Came) && v in G
    ensures CameChain(Came, p) && p[|p| - 1] == v
    decreases G[v]
  {
    if v !in Came {
      p := [v];
    } else {
      var u := Came[v];
      CostAtLeastGrid(cs, u, v);
      var q := ChainExists(g, cs, s, G, Came, u);
      ChainExtend(Came, q, v);
      p := q + [v];
    }
  }

  /**
   * The frontier of a walk from the start: either some cell of it is open
   * and discovered within the length of the walk up to it (`i >= 0`), or its
   * last cell is discovered within the walk's length (`i == -1`).
   */
  lemma {:induction false} Frontier(g: Nodes, cs: nat, s: Pos, G: map<Pos, int>, Came: map<Pos, Pos>, Open: set<Pos>, p: seq<Pos>)
    returns (i: int)
    requires Consistent(g, cs, s, G, Came) && Open <= G.Keys && Settled(g, cs, G, Open, {})
    requires |p| > 0 && p[0] == s && IsWalk(g, p)
    ensures -1 <= i < |p|
    ensures i >= 0 ==> p[i] in Open && G[p[i]] <= Length(cs, p[..i + 1])
    ensures i == -1 ==> p[|p| - 1] in G && G[p[|p| - 1]] <= Length(cs, p)
    decreases |p|
  {
    if |p| == 1 {
      return -1;
    }
    var q := p[..|p| - 1];
    assert IsWalk(g, q) by {
      forall k | 0 <= k < |q| - 1
        ensures q[k + 1] in Neighbors(g, q[k])
      {
        assert q[k] == p[k] && q[k + 1] == p[k + 1];
      }
    }
    var j := Frontier(g, cs, s, G, Came, Open, q);
    if j >= 0 {
      assert q[..j + 1] == p[..j + 1];
      return j;
    }
    var v, u := p[|p| - 2], p[|p| - 1];
    if v in Open {
      assert p[..|p| - 1] == q;
      return |p| - 2;
    }
    assert u in Neighbors(g, v);
    assert Relaxes(cs, G, v, Neighbors(g, v));
    return -1;
  }

  /**
   * A node with the smallest `f = G + Heuristic` among the open nodes has
   * its final cost: no walk from the start reaches it more cheaply.
   */
  lemma PoppedOptimal(g: Nodes, cs: nat, s: Pos, t: Pos, G: map<Pos, int>, Came: map<Pos, Pos>, Open: set<Pos>, c: Pos)
    requires cs >= 1 && Consistent(g, cs, s, G, Came) && Open <= G.Keys && Settled(g, cs, G, Open, {})
    requires c in Open && forall v :: v in Open ==> G[c] + Heuristic(c, t) <= G[v] + Heuristic(v, t)
    ensures forall p :: IsPath(g, s, c, p) ==> G[c] <= Length(cs, p)
  {
    forall p | IsPath(g, s, c, p)
      ensures G[c] <= Length(cs, p)
    {
      var i := Frontier(g, cs, s, G, Came, Open, p);
      if i >= 0 {
        HeuristicAdmissible(cs, p[i..], t);
        LengthSplit(cs, p, i);
      }
    }
  }

  /** The goal popped with the smallest `f`: the chain of links ending at it is a shortest path. */
  lemma GoalShortest(g: Nodes, cs: nat, s: Pos, t: Pos, G: map<Pos, int>, Came: map<Pos, Pos>, Open: set<Pos>, p: seq<Pos>)
    requires cs >= 1 && Consistent(g, cs, s, G, Came) && Open <= G.Keys && Settled(g, cs, G, Open, {})
    requires t in Open && forall v :: v in Open ==> G[t] + Heuristic(t, t) <= G[v] + Heuristic(v, t)
    requires CameChain(Came, p) && p[|p| - 1] == t
    ensures Shortest(g, cs, s, t, p)
  {
    PoppedOptimal(g, cs, s, t, G, Came, Open, t);
    ChainIsPath(g, cs, s, G, Came, p);
  }

  /** With nothing open and the goal undiscovered, no walk leads from the start to the goal. */
  lemma Exhausted(g: Nodes, cs: nat, s: Pos, t: Pos, G: map<Pos, int>, Came: map<Pos, Pos>)
    requires Consistent(g, cs, s, G, Came) && Settled(g, cs, G, {}, {}) && t !in G
    ensures !Reachable(g, s, t)
  {
    if Reachable(g, s, t) {
      var p :| IsPath(g, s, t, p);
      var i := Frontier(g, cs, s, G, Came, {}, p);
    }
  }

  /**
   * The inner loop's invariant while the neighbours of the popped node `c`
   * are relaxed: `c` is closed and has relaxed the cells of `done`, every
   * other closed node is settled.
   */
  ghost predicate Relaxing(g: Nodes, cs: nat, s: Pos, t: Pos, G: map<Pos, int>, Came: map<Pos, Pos>, Open: set<Pos>, c: Pos, done: seq<Pos>)
  {
    var holds :=
      && Consistent(g, cs, s, G, Came)
      && Open <= G.Keys
      && Settled(g, cs, G, Open, {c})
      && c !in Open && Relaxes(cs, G, c, done)
      && (t in G ==> t in Open);
    holds
  }

  /** Popping a node other than the goal starts its relaxation. */
  lemma StartRelaxing(g: Nodes, cs: nat, s: Pos, t: Pos, G: map<Pos, int>, Came: map<Pos, Pos>, Open: set<Pos>, c: Pos)
    requires Searching(g, cs, s, t, G, Came, Open) && c in Open && c != t
    ensures Relaxing(g, cs, s, t, G, Came, Open - {c}, c, [])
  {
  }

  /** Once every neighbour of `c` is relaxed, the search invariant holds again. */
  lemma EndRelaxing(g: Nodes, cs: nat, s: Pos, t: Pos, G: map<Pos, int>, Came: map<Pos, Pos>, Open: set<Pos>, c: Pos)
    requires Relaxing(g, cs, s, t, G, Came, Open, c, Neighbors(g, c))
    ensures Searching(g, cs, s, t, G, Came, Open)
  {
  }

  /**
   * Relaxing the edge from `c` to its neighbour `u` when `u` is new or the
   * edge improves it: `u` takes cost `x = G[c] + Cost(c, u)`, link `c` and
   * is open, and the invariant holds with `u` relaxed.
   */
  lemma RelaxImproves(g: Nodes, cs: nat, s: Pos, t: Pos, G: map<Pos, int>, Came: map<Pos, Pos>, Open: set<Pos>, c: Pos, done: seq<Pos>, u: Pos, x: int)
    requires cs >= 1 && Relaxing(g, cs, s, t, G, Came, Open, c, done) && u in Neighbors(g, c)
    requires x == G[c] + Cost(cs, c, u) && (u !in G || x < G[u])
    ensures u != c && x >= 0
    ensures Relaxing(g, cs, s, t, G[u := x], Came[u := c], Open + {u}, c, done + [u])
  {
    assert u != c && u != s;
    ImproveConsistent(g, cs, s, G, Came, c, u, x);
    ImproveSettled(g, cs, G, Open, c, u, x);
    assert Relaxes(cs, G[u := x], c, done + [u]);
  }

  /** Relaxing an edge that does not improve `u` changes nothing, and the invariant holds with `u` relaxed. */
  lemma RelaxKeeps(g: Nodes, cs: nat, s: Pos, t: Pos, G: map<Pos, int>, Came: map<Pos, Pos>, Open: set<Pos>, c: Pos, done: seq<Pos>, u: Pos)
    requires Relaxing(g, cs, s, t, G, Came, Open, c, done)
    requires u in G && G[u] <= G[c] + Cost(cs, c, u)
    ensures Relaxing(g, cs, s, t, G, Came, Open, c, done + [u])
  {
    assert Relaxes(cs, G, c, done + [u]);
  }

  /** Giving `u` the cost `x` through its neighbour `c` keeps the links consistent. */
  lemma ImproveConsistent(g: Nodes, cs: nat, s: Pos, G: map<Pos, int>, Came: map<Pos, Pos>, c: Pos, u: Pos, x: int)
    requires Consistent(g, cs, s, G, Came) && c in G && u in Neighbors(g, c) && u != c && u != s
    requires x == G[c] + Cost(cs, c, u) && (u !in G || x < G[u])
    ensures Consistent(g, cs, s, G[u := x], Came[u := c])
  {
    var G', Came' := G[u := x], Came[u := c];
    forall v | v in Came'
      ensures v in G' && Came'[v] in G' && Came'[v] != v && v in Neighbors(g, Came'[v])
      ensures G'[Came'[v]] + Cost(cs, Came'[v], v) <= G'[v]
    {
      if v == u {
        assert Came'[v] == c && G'[c] == G[c];
      } else {
        var p := Came[v];
        assert Came'[v] == p && G'[v] == G[v] && G'[p] <= G[p];
      }
    }
    assert forall v :: v in G' ==> G'[v] >= 0;
  }

  /** Lowering the cost of `u` and opening it keeps every other closed node settled. */
  lemma ImproveSettled(g: Nodes, cs: nat, G: map<Pos, int>, Open: set<Pos>, c: Pos, u: Pos, x: int)
    requires Settled(g, cs, G, Open, {c}) && (u !in G || x < G[u])
    ensures Settled(g, cs, G[u := x], Open + {u}, {c})
  {
    var G' := G[u := x];
    forall v | v in G' && v !in Open + {u} && v !in {c}
      ensures Relaxes(cs, G', v, Neighbors(g, v))
    {
      assert Relaxes(cs, G, v, Neighbors(g, v));
    }
  }

  /** Every discovered, closed node has its final cost. */
  ghost predicate ClosedOptimal(g: Nodes, cs: nat, s: Pos, G: map<Pos, int>, Open: set<Pos>)
  {
    forall v :: v in G && v !in Open ==> forall p :: IsPath(g, s, v, p) ==> G[v] <= Length(cs, p)
  }

  /** A node with its final cost cannot be improved through a discovered neighbour. */
  lemma NoImprovement(g: Nodes, cs: nat, s: Pos, G: map<Pos, int>, Came: map<Pos, Pos>, c: Pos, v: Pos)
    requires cs >= 1 && Consistent(g, cs, s, G, Came) && c in G && v in G && v in Neighbors(g, c)
    requires forall p :: IsPath(g, s, v, p) ==> G[v] <= Length(cs, p)
    ensures G[v] <= G[c] + Cost(cs, c, v)
  {
    var p := ChainExists(g, cs, s, G, Came, c);
    ChainIsPath(g, cs, s, G, Came, p);
    PathAppend(g, s, c, p, v);
    LengthAppend(cs, p, v);
  }

  /** Some cell of a non-empty set. */
  ghost function Pick(S: set<Pos>): Pos
    requires S != {}
  {
    var k :| k in S; k
  }

  /** A node's cost counted towards the potential (0 when undiscovered). */
  function Val(G: map<Pos, int>, k: Pos): nat
  {
    if k in G && G[k] > 0 then G[k] else 0
  }

  /** The sum of the costs of the cells of `S`: it drops whenever a cost drops, which bounds the number of improvements. */
  ghost function Pot(G: map<Pos, int>, S: set<Pos>): nat
    decreases S
  {
    if S == {} then 0 else var k := Pick(S); Val(G, k) + Pot(G, S - {k})
  }

  /** The potential depends only on the costs of the cells of `S`. */
  lemma {:induction false} PotAgree(G1: map<Pos, int>, G2: map<Pos, int>, S: set<Pos>)
    requires forall k :: k in S ==> Val(G1, k) == Val(G2, k)
    ensures Pot(G1, S) == Pot(G2, S)
    decreases S
  {
    if S != {} {
      PotAgree(G1, G2, S - {Pick(S)});
    }
  }

  /** Changing one cost of `S` changes the potential by the difference. */
  lemma {:induction false} PotUpdate(G: map<Pos, int>, S: set<Pos>, v: Pos, x: int)
    requires v in S && x >= 0
    ensures Pot(G[v := x], S) == Pot(G, S) - Val(G, v) + x
    decreases S
  {
    var k := Pick(S);
    if k == v {
      PotAgree(G[v := x], G, S - {k});
    } else {
      PotUpdate(G, S - {k}, v, x);
    }
  }

  /**
   * The progress one iteration makes: undiscovered cells of `K` were
   * discovered, or with the same cells discovered the costs dropped, or
   * nothing changed; costs never rise.
   */
  ghost predicate Improved(K: set<Pos>, G0: map<Pos, int>, G: map<Pos, int>)
  {
    var holds :=
      && G0.Keys <= G.Keys <= K
      && (forall v :: v in G0 ==> G[v] <= G0[v])
      && (G == G0 || K - G.Keys < K - G0.Keys || (G.Keys == G0.Keys && Pot(G, K) < Pot(G0, K)));
    holds
  }

  /** Improving one cell of `K` is progress. */
  lemma ImprovedStep(K: set<Pos>, G0: map<Pos, int>, G: map<Pos, int>, u: Pos, x: int)
    requires Improved(K, G0, G) && u in K && x >= 0 && (u !in G || x < G[u])
    requires forall v :: v in G ==> G[v] >= 0
    ensures Improved(K, G0, G[u := x]) && G[u := x] != G0
  {
    var G' := G[u := x];
    if u !in G {
      assert u in K - G0.Keys && u !in K - G'.Keys;
    } else {
      assert G'.Keys == G.Keys;
      if u in G0 {
        assert G'[u] < G0[u];
      } else {
        assert u in G'.Keys - G0.Keys;
      }
      PotUpdate(G, K, u, x);
      assert K - G'.Keys == K - G.Keys;
    }
  }

  /** Costs strictly drop along came links. */
  ghost predicate Descends(came: map<Pos, Pos>, G: map<Pos, int>)
  {
    forall v {:trigger came[v]} :: v in came ==> v in G && came[v] in G && 0 <= G[came[v]] < G[v]
  }

  /** With a positive cell size, consistent links descend in cost. */
  lemma ConsistentDescends(g: Nodes, cs: nat, s: Pos, G: map<Pos, int>, Came: map<Pos, Pos>)
    requires cs >= 1 && Consistent(g, cs, s, G, Came)
    ensures Descends(Came, G)
  {
    forall v | v in Came
      ensures v in G && Came[v] in G && 0 <= G[Came[v]] < G[v]
    {
      CostAtLeastGrid(cs, Came[v], v);
    }
  }

  /** The prefix one longer is the prefix followed by the next element. */
  lemma PrefixStep(ns: seq<Pos>, j: int)
    requires 0 <= j < |ns|
    ensures ns[..j + 1] == ns[..j] + [ns[j]]
  {
  }

  /** The whole prefix is the sequence. */
  lemma PrefixAll(ns: seq<Pos>)
    ensures ns[..|ns|] == ns
  {
  }

  /** Adding a member leaves a set as it is. */
  lemma AddMember(S: set<Pos>, u: Pos)
    requires u in S
    ensures S + {u} == S
  {
  }
}
