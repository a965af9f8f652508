/**
 * The ghost's path finding: A* whose open list is a list of node records
 * sorted by `f` before every pop, with one record per discovered node kept
 * in a dictionary. A record's cost, estimate and parent are updated in
 * place when a cheaper route to its node is found, and the path is read
 * back along the parent references.
 *
 * The records are checked against the same specification as the player's
 * search: ghost maps `G` (costs) and `C` (links) that the records mirror
 * field by field (Mirror), and the nodes of the open records (OpenNodes),
 * keep the Search invariants. The ghost's search does not reopen a record
 * it has popped; that it never needs to is ClosedOptimal: with the grid
 * heuristic a popped node already has its final cost, so no later edge
 * improves it.
 */
module GhostSearch {
  import opened Wrappers
  import opened Grid
  import opened Graph
  import opened Tree
  import opened Paths
  import opened Search

  /** `NodeRecord`: a discovered node with its cost so far, its `f = g + h` and the record it was reached from. */
  class NodeRecord {
    const node: Pos
    var g: int
    var f: int
    var parent: NodeRecord?

    constructor(node: Pos, g: int, f: int, parent: NodeRecord?)
      ensures this.node == node && this.g == g && this.f == f && this.parent == parent
    {
      this.node := node;
      this.g := g;
      this.f := f;
      this.parent := parent;
    }
  }


  /** The nodes whose records are on the open list. */
  ghost function OpenNodes(open: seq<NodeRecord>): set<Pos>
  {
    set r | r in open :: r.node
  }

  /**
   * The records mirror the costs `G` and the links `C`: one record per
   * discovered node, filed under that node, holding its cost and
   * `f = g + h`, with a parent exactly when the node has a link, and that
   * parent the record filed under the link.
   */
  ghost predicate Mirror(all: map<Pos, NodeRecord>, t: Pos, G: map<Pos, int>, C: map<Pos, Pos>)
    reads all.Values
  {
    && G.Keys == all.Keys
    && (forall n :: n in all ==>
          && all[n].node == n && all[n].g == G[n] && all[n].f == G[n] + Heuristic(n, t)
          && (all[n].parent != null <==> n in C))
    && (forall n :: n in C ==> n in all && C[n] in all && all[n].parent == all[C[n]])
  }

  /** Each open record is the filed record of its node, and none is listed twice. */
  ghost predicate Listed(all: map<Pos, NodeRecord>, open: seq<NodeRecord>)
  {
    && (forall r :: r in open ==> r.node in all && all[r.node] == r)
    && forall r :: r in open ==> multiset(open)[r] <= 1
  }

  /** Two nodes' records are different objects. */
  lemma FiledApart(all: map<Pos, NodeRecord>, t: Pos, G: map<Pos, int>, C: map<Pos, Pos>, a: Pos, b: Pos)
    requires Mirror(all, t, G, C) && a in all && b in all && a != b
    ensures all[a] != all[b]
  {
    assert all[a].node == a && all[b].node == b;
  }

  /** Filing a new record for a node without one, reached from the node `c`, mirrors the extended costs and links. */
  lemma MirrorAdd(all: map<Pos, NodeRecord>, t: Pos, G: map<Pos, int>, C: map<Pos, Pos>, u: Pos, r: NodeRecord, c: Pos)
    requires Mirror(all, t, G, C) && u !in all && c in all
    requires r.node == u && r.f == r.g + Heuristic(u, t) && r.parent == all[c]
    ensures Mirror(all[u := r], t, G[u := r.g], C[u := c])
  {
    var all', G', C' := all[u := r], G[u := r.g], C[u := c];
    forall n | n in C'
      ensures n in all' && C'[n] in all' && all'[n].parent == all'[C'[n]]
    {
      if n != u {
        assert n in C && C[n] != u;
      }
    }
  }

  /** The popped node is closed and has its final cost, so every closed node does. */
  lemma PopCloses(g: Nodes, cs: nat, s: Pos, t: Pos, G: map<Pos, int>, Came: map<Pos, Pos>, Open: set<Pos>, c: Pos)
    requires cs >= 1 && Searching(g, cs, s, t, G, Came, Open) && ClosedOptimal(g, cs, s, G, Open)
    requires c in Open && forall v :: v in Open ==> G[c] + Heuristic(c, t) <= G[v] + Heuristic(v, t)
    ensures ClosedOptimal(g, cs, s, G, Open - {c})
  {
    PoppedOptimal(g, cs, s, t, G, Came, Open, c);
  }

  /** Giving an open or new node `u` a cost leaves every closed node's cost, so they stay final. */
  lemma ClosedStays(g: Nodes, cs: nat, s: Pos, G: map<Pos, int>, Open: set<Pos>, u: Pos, x: int)
    requires ClosedOptimal(g, cs, s, G, Open)
    ensures ClosedOptimal(g, cs, s, G[u := x], Open + {u})
  {
    var G' := G[u := x];
    forall v | v in G' && v !in Open + {u}
      ensures forall p :: IsPath(g, s, v, p) ==> G'[v] <= Length(cs, p)
    {
      assert G'[v] == G[v];
    }
  }

  /**
   * A discovered node that an edge from `c` improves is open: a closed one
   * has its final cost already. This is why the search never needs to put
   * an improved record back on the open list.
   */
  lemma ImprovedIsOpen(g: Nodes, cs: nat, s: Pos, G: map<Pos, int>, Came: map<Pos, Pos>, Open: set<Pos>, c: Pos, u: Pos)
    requires cs >= 1 && Consistent(g, cs, s, G, Came) && ClosedOptimal(g, cs, s, G, Open)
    requires c in G && u in G && u in Neighbors(g, c) && G[c] + Cost(cs, c, u) < G[u]
    ensures u in Open
  {
    if u !in Open {
      NoImprovement(g, cs, s, G, Came, c, u);
    }
  }

  /** One round of the search makes progress: more cells discovered, lower costs, or a shorter open list. */
  lemma ImprovedDecreases(K: set<Pos>, G0: map<Pos, int>, G: map<Pos, int>, n0: int, n: int)
    requires Improved(K, G0, G) && (G == G0 ==> n < n0)
    ensures K - G.Keys < K - G0.Keys
            || (K - G.Keys == K - G0.Keys && (Pot(G, K) < Pot(G0, K) || (Pot(G, K) == Pot(G0, K) && n < n0)))
  {
  }

  /** `open.Sort` by `f`: the same records, in non-decreasing order of `f`. */
  method SortByF(open: seq<NodeRecord>) returns (sorted: seq<NodeRecord>)
    ensures multiset(sorted) == multiset(open)
    ensures forall i, j :: 0 <= i < j < |sorted| ==> sorted[i].f <= sorted[j].f
  {
    sorted := [];
    for k := 0 to |open|
      invariant multiset(sorted) == multiset(open[..k])
      invariant forall i, j :: 0 <= i < j < |sorted| ==> sorted[i].f <= sorted[j].f
    {
      assert open[..k + 1] == open[..k] + [open[k]];
      sorted := InsertByF(sorted, open[k]);
    }
    assert open[..|open|] == open;
  }

  /** One step of the sort: `r` goes after every record whose `f` is at most its own. */
  method InsertByF(s: seq<NodeRecord>, r: NodeRecord) returns (s': seq<NodeRecord>)
    requires forall i, j :: 0 <= i < j < |s| ==> s[i].f <= s[j].f
    ensures multiset(s') == multiset(s) + multiset{r}
    ensures forall i, j :: 0 <= i < j < |s'| ==> s'[i].f <= s'[j].f
  {
    var k := 0;
    while k < |s| && s[k].f <= r.f
      invariant 0 <= k <= |s| && forall i :: 0 <= i < k ==> s[i].f <= r.f
    {
      k := k + 1;
    }
    s' := s[..k] + [r] + s[k..];
    assert s == s[..k] + s[k..];
    assert multiset(s') == multiset(s[..k]) + multiset([r]) + multiset(s[k..]);
    InsertSorted(s, k, r);
  }

  /** Putting `r` at index `k` of a sorted list, after exactly the records whose `f` is at most its own, keeps the list sorted. */
  lemma InsertSorted(s: seq<NodeRecord>, k: int, r: NodeRecord)
    requires 0 <= k <= |s| && forall i, j :: 0 <= i < j < |s| ==> s[i].f <= s[j].f
    requires (forall i :: 0 <= i < k ==> s[i].f <= r.f) && (k < |s| ==> r.f < s[k].f)
    ensures forall i, j :: 0 <= i < j < |s[..k] + [r] + s[k..]| ==> (s[..k] + [r] + s[k..])[i].f <= (s[..k] + [r] + s[k..])[j].f
  {
    var s' := s[..k] + [r] + s[k..];
    forall i, j | 0 <= i < j < |s'|
      ensures s'[i].f <= s'[j].f
    {
      if j < k {
        assert s'[i] == s[i] && s'[j] == s[j];
      } else if j == k {
        assert s'[i] == s[i] && s'[j] == r;
      } else if i < k {
        assert s'[i] == s[i] && s'[j] == s[j - 1];
      } else if i == k {
        assert s'[i] == r && s'[j] == s[j - 1] && r.f < s[k].f;
      } else {
        assert s'[i] == s[i - 1] && s'[j] == s[j - 1];
      }
    }
  }

  /**
   * The pop: after sorting, the first record is one with the smallest `f`
   * over the open list, so its node has the smallest `g + h` among the open
   * nodes; the rest of the list holds every other open node.
   */
  method PopMin(open: seq<NodeRecord>, ghost all: map<Pos, NodeRecord>, t: Pos, ghost G: map<Pos, int>, ghost C: map<Pos, Pos>)
    returns (cur: NodeRecord, rest: seq<NodeRecord>)
    requires |open| > 0 && Mirror(all, t, G, C) && Listed(all, open)
    ensures cur.node in OpenNodes(open) && cur.node in all && all[cur.node] == cur
    ensures forall v :: v in OpenNodes(open) ==> v in G && G[cur.node] + Heuristic(cur.node, t) <= G[v] + Heuristic(v, t)
    ensures Listed(all, rest) && OpenNodes(rest) == OpenNodes(open) - {cur.node} && |rest| == |open| - 1
  {
    var sorted := SortByF(open);
    cur := sorted[0];
    rest := sorted[1..];
    assert cur in multiset(open);
    FirstIsLeast(open, sorted, all, t, G, C);
    RestListed(open, sorted, all);
  }

  /** After sorting by `f`, the first record's node has the smallest `g + h` among the open nodes. */
  lemma FirstIsLeast(open: seq<NodeRecord>, sorted: seq<NodeRecord>, all: map<Pos, NodeRecord>, t: Pos,
                     G: map<Pos, int>, C: map<Pos, Pos>)
    requires |sorted| > 0 && multiset(sorted) == multiset(open) && Mirror(all, t, G, C) && Listed(all, open)
    requires forall i, j :: 0 <= i < j < |sorted| ==> sorted[i].f <= sorted[j].f
    ensures sorted[0].node in G
    ensures forall v :: v in OpenNodes(open) ==> v in G && G[sorted[0].node] + Heuristic(sorted[0].node, t) <= G[v] + Heuristic(v, t)
  {
    assert sorted[0] in multiset(open);
    forall v | v in OpenNodes(open)
      ensures v in G && G[sorted[0].node] + Heuristic(sorted[0].node, t) <= G[v] + Heuristic(v, t)
    {
      var r :| r in open && r.node == v;
      assert r in multiset(sorted);
      var j :| 0 <= j < |sorted| && sorted[j] == r;
      if j > 0 {
        assert sorted[0].f <= sorted[j].f;
      }
    }
  }

  /** After sorting, the records behind the first are listed and hold every other open node. */
  lemma RestListed(open: seq<NodeRecord>, sorted: seq<NodeRecord>, all: map<Pos, NodeRecord>)
    requires |sorted| > 0 && multiset(sorted) == multiset(open) && Listed(all, open)
    ensures Listed(all, sorted[1..]) && OpenNodes(sorted[1..]) == OpenNodes(open) - {sorted[0].node}
  {
    var cur, rest := sorted[0], sorted[1..];
    assert sorted == [cur] + rest;
    assert cur in multiset(open);
    forall r | r in rest
      ensures r.node != cur.node && r in open
    {
      assert r in multiset(sorted);
    }
    forall r | r in open && r != cur
      ensures r in rest
    {
      assert r in multiset(sorted);
    }
    forall r | r in rest
      ensures multiset(rest)[r] <= 1
    {
      assert multiset(sorted)[r] == multiset([cur])[r] + multiset(rest)[r];
    }
  }

  /**
   * `Reconstruct`: follows the parent references from `end` until a record
   * without one and reverses the list, so the result is the chain of links
   * ending at `end`'s node, read from its first node.
   */
  method Reconstruct(end: NodeRecord, ghost all: map<Pos, NodeRecord>, ghost t: Pos, ghost G: map<Pos, int>, ghost C: map<Pos, Pos>)
    returns (list: seq<Pos>)
    requires Mirror(all, t, G, C) && end.node in all && all[end.node] == end && end.g >= 0 && Descends(C, G)
    ensures CameChain(C, list) && list[|list| - 1] == end.node
  {
    var rev: seq<Pos> := [];
    var c: NodeRecord? := end;
    while c != null
      invariant c != null ==> c.node in all && all[c.node] == c && c.g >= 0
      invariant rev == [] ==> c == end
      invariant rev != [] ==> rev[0] == end.node
      invariant rev != [] && c != null ==> rev[|rev| - 1] in C && C[rev[|rev| - 1]] == c.node
      invariant rev != [] && c == null ==> rev[|rev| - 1] !in C
      invariant forall i :: 0 <= i < |rev| - 1 ==> rev[i] in C && C[rev[i]] == rev[i + 1]
      decreases if c == null then 0 else c.g + 1
    {
      if c.parent != null {
        var m := C[c.node];
        assert c.parent == all[m] && c.parent.node == m && 0 <= c.parent.g < c.g;
      }
      rev := rev + [c.node];
      c := c.parent;
    }
    list := Reverse(rev);
    forall i | 1 <= i < |list|
      ensures list[i] in C && C[list[i]] == list[i - 1]
    {
      assert list[i] == rev[|rev| - 1 - i] && list[i - 1] == rev[(|rev| - 1 - i) + 1];
    }
  }

  /** `StartRec`: a new record for `n` goes on the open list and into the dictionary. */
  method StartRec(open: seq<NodeRecord>, all: map<Pos, NodeRecord>, n: Pos, g: int, f: int, p: NodeRecord?)
    returns (open': seq<NodeRecord>, all': map<Pos, NodeRecord>, r: NodeRecord)
    ensures fresh(r) && r.node == n && r.g == g && r.f == f && r.parent == p
    ensures open' == open + [r] && all' == all[n := r]
  {
    r := new NodeRecord(n, g, f, p);
    open' := open + [r];
    all' := all[n := r];
  }

  /**
   * `AStar`: with no start or goal the result is null; otherwise a path is
   * returned exactly when the goal is reachable, and it is a shortest path
   * from the start to the goal.
   */
  method AStar(g: Nodes, cs: nat, start: Option<Pos>, goal: Option<Pos>) returns (r: Option<seq<Pos>>)
    requires cs >= 1
    ensures start.None? || goal.None? ==> r.None?
    ensures r.Some? ==> start.Some? && goal.Some? && Shortest(g, cs, start.value, goal.value, r.value)
    ensures start.Some? && goal.Some? && r.None? ==> !Reachable(g, start.value, goal.value)
  {
    if start.None? || goal.None? {
      return None;
    }
    var s, t := start.value, goal.value;
    var open, all, G, C := StartSearch(g, cs, s, t);
    r := Explore(g, cs, s, t, all, open, G, C);
  }

  /** AStar's loop: records are popped and expanded until the goal's is popped or none is left open. */
  method Explore(g: Nodes, cs: nat, s: Pos, t: Pos, all0: map<Pos, NodeRecord>, open0: seq<NodeRecord>,
                ghost G0: map<Pos, int>, ghost C0: map<Pos, Pos>)
    returns (r: Option<seq<Pos>>)
    requires cs >= 1 && Between(g, cs, s, t, all0, open0, G0, C0, Mentioned(g, s))
    modifies all0.Values
    ensures r.Some? ==> Shortest(g, cs, s, t, r.value)
    ensures r.None? ==> !Reachable(g, s, t)
  {
    ghost var K := Mentioned(g, s);
    var all, open := all0, open0;
    ghost var G, C := G0, C0;
    while |open| > 0
      invariant forall x :: x in all.Values ==> x in all0.Values || fresh(x)
      invariant Between(g, cs, s, t, all, open, G, C, K)
      decreases K - G.Keys, Pot(G, K), |open|
    {
      var found;
      found, all, open, G, C := Round(g, cs, s, t, all, open, G, C, K);
      if found.Some? {
        return found;
      }
    }
    NothingOpen(g, cs, s, t, all, open, G, C, K);
    return None;
  }

  /** AStar's end: with the open list empty, the goal is unreachable. */
  lemma NothingOpen(g: Nodes, cs: nat, s: Pos, t: Pos, all: map<Pos, NodeRecord>, open: seq<NodeRecord>,
                    G: map<Pos, int>, C: map<Pos, Pos>, K: set<Pos>)
    requires Between(g, cs, s, t, all, open, G, C, K) && |open| == 0
    ensures !Reachable(g, s, t)
  {
    assert OpenNodes(open) == {};
    Exhausted(g, cs, s, t, G, C);
  }

  /** AStar's start: the start's record, with cost 0 and no parent, is the only record and is open. */
  method StartSearch(g: Nodes, cs: nat, s: Pos, t: Pos)
    returns (open: seq<NodeRecord>, all: map<Pos, NodeRecord>, ghost G: map<Pos, int>, ghost C: map<Pos, Pos>)
    ensures forall x :: x in all.Values ==> fresh(x)
    ensures Between(g, cs, s, t, all, open, G, C, Mentioned(g, s))
  {
    var r;
    open, all, r := StartRec([], map[], s, 0, Heuristic(s, t), null);
    G, C := map[s := 0], map[];
    assert OpenNodes(open) == {s};
    forall x | x in all.Values
      ensures x == r
    {
      var k :| k in all && all[k] == x;
    }
  }

  /** The state of AStar's loop between two pops. */
  ghost predicate Between(g: Nodes, cs: nat, s: Pos, t: Pos, all: map<Pos, NodeRecord>, open: seq<NodeRecord>,
                          G: map<Pos, int>, C: map<Pos, Pos>, K: set<Pos>)
    reads all.Values
  {
    var holds :=
      && Mirror(all, t, G, C) && Listed(all, open)
      && Searching(g, cs, s, t, G, C, OpenNodes(open)) && G.Keys <= K
      && ClosedOptimal(g, cs, s, G, OpenNodes(open));
    holds
  }

  /**
   * One pass of AStar's loop: the record with the smallest `f` is taken off
   * the open list; if it is the goal's, the path back from it is returned,
   * and otherwise its neighbours are relaxed.
   */
  method Round(g: Nodes, cs: nat, s: Pos, t: Pos, all: map<Pos, NodeRecord>, open: seq<NodeRecord>,
               ghost G: map<Pos, int>, ghost C: map<Pos, Pos>, ghost K: set<Pos>)
    returns (found: Option<seq<Pos>>, all': map<Pos, NodeRecord>, open': seq<NodeRecord>, ghost G': map<Pos, int>, ghost C': map<Pos, Pos>)
    requires cs >= 1 && K == Mentioned(g, s) && |open| > 0 && Between(g, cs, s, t, all, open, G, C, K)
    modifies all.Values
    ensures found.Some? ==> Shortest(g, cs, s, t, found.value)
    ensures found.None? ==> Between(g, cs, s, t, all', open', G', C', K)
    ensures found.None? ==>
              (K - G'.Keys < K - G.Keys
               || (K - G'.Keys == K - G.Keys && (Pot(G', K) < Pot(G, K) || (Pot(G', K) == Pot(G, K) && |open'| < |open|))))
    ensures forall x :: x in all'.Values ==> x in all.Values || fresh(x)
  {
    ghost var O := OpenNodes(open);
    var cur, rest := PopMin(open, all, t, G, C);
    if cur.node == t {
      var path := GoalPath(g, cs, s, t, cur, all, G, C, O);
      return Some(path), all, rest, G, C;
    }
    PopCloses(g, cs, s, t, G, C, O, cur.node);
    StartRelaxing(g, cs, s, t, G, C, O, cur.node);
    all', open', G', C' := Expand(g, cs, s, t, cur, all, rest, G, C, K);
    ImprovedDecreases(K, G, G', |open|, |open'|);
    found := None;
  }

  /** AStar's goal branch: the path read back along the parents from the goal's record is a shortest path. */
  method GoalPath(g: Nodes, cs: nat, s: Pos, t: Pos, cur: NodeRecord, ghost all: map<Pos, NodeRecord>,
                  ghost G: map<Pos, int>, ghost C: map<Pos, Pos>, ghost O: set<Pos>)
    returns (path: seq<Pos>)
    requires cs >= 1 && Mirror(all, t, G, C) && t in all && all[t] == cur
    requires Searching(g, cs, s, t, G, C, O) && t in O
    requires forall v :: v in O ==> v in G && G[t] + Heuristic(t, t) <= G[v] + Heuristic(v, t)
    ensures Shortest(g, cs, s, t, path)
  {
    ConsistentDescends(g, cs, s, G, C);
    path := Reconstruct(cur, all, t, G, C);
    GoalShortest(g, cs, s, t, G, C, O, path);
  }

  /** The state Expand's loop keeps while the neighbours of `cur` are relaxed. */
  ghost predicate Mirrors(g: Nodes, cs: nat, s: Pos, t: Pos, all: map<Pos, NodeRecord>, open: seq<NodeRecord>,
                          G: map<Pos, int>, C: map<Pos, Pos>, cur: NodeRecord, done: seq<Pos>, K: set<Pos>)
    reads all.Values
  {
    var holds :=
      && Mirror(all, t, G, C) && Listed(all, open) && cur.node in all && all[cur.node] == cur
      && Relaxing(g, cs, s, t, G, C, OpenNodes(open), cur.node, done)
      && ClosedOptimal(g, cs, s, G, OpenNodes(open))
      && G.Keys <= K;
    holds
  }

  /**
   * AStar's neighbour loop for the record just popped: every neighbour is
   * relaxed in list order, after which the search invariant holds again
   * and the costs have improved or stayed put with the open list no longer.
   */
  method Expand(g: Nodes, cs: nat, s: Pos, t: Pos, cur: NodeRecord, all: map<Pos, NodeRecord>, open: seq<NodeRecord>,
                ghost G: map<Pos, int>, ghost C: map<Pos, Pos>, ghost K: set<Pos>)
    returns (all': map<Pos, NodeRecord>, open': seq<NodeRecord>, ghost G': map<Pos, int>, ghost C': map<Pos, Pos>)
    requires cs >= 1 && K == Mentioned(g, s) && Mirrors(g, cs, s, t, all, open, G, C, cur, [], K)
    modifies all.Values
    ensures Mirror(all', t, G', C') && Listed(all', open') && G'.Keys <= K
    ensures Searching(g, cs, s, t, G', C', OpenNodes(open')) && ClosedOptimal(g, cs, s, G', OpenNodes(open'))
    ensures Improved(K, G, G') && (G' == G ==> |open'| == |open|)
    ensures forall x :: x in all'.Values ==> x in all.Values || fresh(x)
  {
    all', open', G', C' := all, open, G, C;
    var ns := Neighbors(g, cur.node);
    for j := 0 to |ns|
      invariant Mirrors(g, cs, s, t, all', open', G', C', cur, ns[..j], K)
      invariant Improved(K, G, G') && (G' == G ==> |open'| == |open|)
      invariant forall x :: x in all'.Values ==> x in all.Values || fresh(x)
    {
      PrefixStep(ns, j);
      all', open', G', C' := RelaxNeighbor(g, cs, s, t, cur, all', open', G', C', ns[..j], ns[j], K, G, |open|);
    }
    PrefixAll(ns);
    EndRelaxing(g, cs, s, t, G', C', OpenNodes(open'), cur.node);
  }

  /**
   * One pass of AStar's neighbour loop: a neighbour without a record, or
   * whose record is beaten by the route through `cur`, gets a new record or
   * has its record updated in place; any other neighbour is left alone.
   */
  method RelaxNeighbor(g: Nodes, cs: nat, s: Pos, t: Pos, cur: NodeRecord, all: map<Pos, NodeRecord>, open: seq<NodeRecord>,
                       ghost G: map<Pos, int>, ghost C: map<Pos, Pos>, ghost done: seq<Pos>, neigh: Pos,
                       ghost K: set<Pos>, ghost G0: map<Pos, int>, ghost n1: int)
    returns (all': map<Pos, NodeRecord>, open': seq<NodeRecord>, ghost G': map<Pos, int>, ghost C': map<Pos, Pos>)
    requires cs >= 1 && neigh in Neighbors(g, cur.node) && K == Mentioned(g, s)
    requires Mirrors(g, cs, s, t, all, open, G, C, cur, done, K)
    requires Improved(K, G0, G) && (G == G0 ==> |open| == n1)
    modifies all.Values
    ensures Mirrors(g, cs, s, t, all', open', G', C', cur, done + [neigh], K)
    ensures Improved(K, G0, G') && (G' == G0 ==> |open'| == n1)
    ensures forall x :: x in all'.Values ==> x in all.Values || fresh(x)
  {
    var gNew := cur.g + Cost(cs, cur.node, neigh);
    var nr: NodeRecord? := if neigh in all then all[neigh] else null;
    if nr == null || gNew < nr.g {
      var f := gNew + Heuristic(neigh, t);
      if nr == null {
        all', open', G', C' := NewRecord(g, cs, s, t, cur, all, open, G, C, done, neigh, K, G0, gNew, f);
      } else {
        all', open' := all, open;
        G', C' := LowerRecord(g, cs, s, t, cur, all, open, G, C, done, neigh, K, G0, nr, gNew, f);
      }
    } else {
      all', open', G', C' := all, open, G, C;
      RelaxKeeps(g, cs, s, t, G, C, OpenNodes(open), cur.node, done, neigh);
    }
  }

  /** RelaxNeighbor for a neighbour without a record: StartRec files one reached from `cur` and opens it. */
  method NewRecord(g: Nodes, cs: nat, s: Pos, t: Pos, cur: NodeRecord, all: map<Pos, NodeRecord>, open: seq<NodeRecord>,
                   ghost G: map<Pos, int>, ghost C: map<Pos, Pos>, ghost done: seq<Pos>, neigh: Pos,
                   ghost K: set<Pos>, ghost G0: map<Pos, int>, gNew: int, f: int)
    returns (all': map<Pos, NodeRecord>, open': seq<NodeRecord>, ghost G': map<Pos, int>, ghost C': map<Pos, Pos>)
    requires cs >= 1 && neigh in Neighbors(g, cur.node) && K == Mentioned(g, s)
    requires Mirrors(g, cs, s, t, all, open, G, C, cur, done, K) && Improved(K, G0, G)
    requires neigh !in all && gNew == cur.g + Cost(cs, cur.node, neigh) && f == gNew + Heuristic(neigh, t)
    ensures Mirrors(g, cs, s, t, all', open', G', C', cur, done + [neigh], K)
    ensures Improved(K, G0, G') && G' != G0
    ensures forall x :: x in all'.Values ==> x in all.Values || fresh(x)
  {
    ghost var O := OpenNodes(open);
    RelaxImproves(g, cs, s, t, G, C, O, cur.node, done, neigh, gNew);
    ClosedStays(g, cs, s, G, O, neigh, gNew);
    NeighborMentioned(g, s, cur.node, neigh);
    ImprovedStep(K, G0, G, neigh, gNew);
    G', C' := G[neigh := gNew], C[neigh := cur.node];
    var r;
    open', all', r := StartRec(open, all, neigh, gNew, f, cur);
    MirrorAdd(all, t, G, C, neigh, r, cur.node);
    ListedAdd(all, open, neigh, r);
  }

  /** Filing a record for a node without one and appending it to the open list keeps the list's records filed and distinct. */
  lemma ListedAdd(all: map<Pos, NodeRecord>, open: seq<NodeRecord>, u: Pos, r: NodeRecord)
    requires Listed(all, open) && u !in all && r.node == u
    ensures Listed(all[u := r], open + [r]) && OpenNodes(open + [r]) == OpenNodes(open) + {u}
  {
    var open' := open + [r];
    assert r !in open;
    forall x | x in open'
      ensures multiset(open')[x] <= 1
    {
      assert multiset(open')[x] == multiset(open)[x] + multiset([r])[x];
    }
  }

  /** RelaxNeighbor for a neighbour whose record is beaten: its record takes the cheaper route through `cur` in place. */
  method LowerRecord(g: Nodes, cs: nat, s: Pos, t: Pos, cur: NodeRecord, all: map<Pos, NodeRecord>, open: seq<NodeRecord>,
                     ghost G: map<Pos, int>, ghost C: map<Pos, Pos>, ghost done: seq<Pos>, neigh: Pos,
                     ghost K: set<Pos>, ghost G0: map<Pos, int>, nr: NodeRecord, gNew: int, f: int)
    returns (ghost G': map<Pos, int>, ghost C': map<Pos, Pos>)
    requires cs >= 1 && neigh in Neighbors(g, cur.node) && K == Mentioned(g, s)
    requires Mirrors(g, cs, s, t, all, open, G, C, cur, done, K) && Improved(K, G0, G)
    requires neigh in all && all[neigh] == nr && gNew < nr.g
    requires gNew == cur.g + Cost(cs, cur.node, neigh) && f == gNew + Heuristic(neigh, t)
    modifies nr
    ensures Mirrors(g, cs, s, t, all, open, G', C', cur, done + [neigh], K)
    ensures Improved(K, G0, G') && G' != G0
  {
    ghost var O := OpenNodes(open);
    ImprovedIsOpen(g, cs, s, G, C, O, cur.node, neigh);
    RelaxImproves(g, cs, s, t, G, C, O, cur.node, done, neigh, gNew);
    ClosedStays(g, cs, s, G, O, neigh, gNew);
    NeighborMentioned(g, s, cur.node, neigh);
    ImprovedStep(K, G0, G, neigh, gNew);
    AddMember(O, neigh);
    G', C' := G[neigh := gNew], C[neigh := cur.node];
    Improve(nr, gNew, f, cur, all, t, G, C, neigh, cur.node);
  }

  /** The in-place update `nr.g = g; nr.f = f; nr.parent = p` of the record filed under `u`, `p` being filed under `c`. */
  method Improve(nr: NodeRecord, g: int, f: int, p: NodeRecord, ghost all: map<Pos, NodeRecord>, ghost t: Pos,
                 ghost G: map<Pos, int>, ghost C: map<Pos, Pos>, ghost u: Pos, ghost c: Pos)
    requires Mirror(all, t, G, C) && u in all && all[u] == nr && c in all && all[c] == p && c != u
    requires f == g + Heuristic(u, t)
    modifies nr
    ensures Mirror(all, t, G[u := g], C[u := c])
  {
    forall n | n in all && n != u
      ensures all[n] != nr
    {
      FiledApart(all, t, G, C, n, u);
    }
    nr.g, nr.f, nr.parent := g, f, p;
  }
}
