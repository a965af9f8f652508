/**
 * The player's path finding: A* over the maze graph with a binary min-heap
 * as the open list, a hash set mirroring the open nodes, gScore and came
 * dictionaries, the reconstruction of the path from the came links, the
 * path cost, and the waypoint queue the path is turned into.
 */
module PlayerSearch {
  import opened Wrappers
  import opened Grid
  import opened Graph
  import opened Tree
  import opened Paths
  import opened Search
  import opened MinHeaps

  /** Each record belongs to an open node and carries that node's `g + h`. */
  ghost predicate RecordsOpen(m: multiset<Entry>, G: map<Pos, int>, Open: set<Pos>, t: Pos)
  {
    forall e :: e in m ==> e.node in Open && e.node in G && e.f == G[e.node] + Heuristic(e.node, t)
  }

  /** Each open node has its record. */
  ghost predicate OpenRecorded(m: multiset<Entry>, G: map<Pos, int>, Open: set<Pos>, t: Pos)
  {
    forall n :: n in Open ==> n in G && Entry(n, G[n] + Heuristic(n, t)) in m
  }

  /** No record is stored twice. */
  ghost predicate NoDuplicates(m: multiset<Entry>)
  {
    forall e :: m[e] <= 1
  }

  /** The heap mirrors the open set. */
  ghost predicate HeapMatches(m: multiset<Entry>, G: map<Pos, int>, Open: set<Pos>, t: Pos)
  {
    var holds := RecordsOpen(m, G, Open, t) && OpenRecorded(m, G, Open, t) && NoDuplicates(m);
    holds
  }

  /**
   * The record popped with the smallest `f` belongs to an open node whose
   * `g + h` is smallest among the open nodes; without it the heap mirrors
   * the open set less that node.
   */
  lemma HeapPopMin(m: multiset<Entry>, G: map<Pos, int>, Open: set<Pos>, t: Pos, root: Entry)
    requires HeapMatches(m, G, Open, t) && root in m && forall e :: e in m ==> root.f <= e.f
    ensures root.node in Open
    ensures forall v :: v in Open ==> G[root.node] + Heuristic(root.node, t) <= G[v] + Heuristic(v, t)
    ensures HeapMatches(m - multiset{root}, G, Open - {root.node}, t)
  {
    var m' := m - multiset{root};
    forall v | v in Open
      ensures G[root.node] + Heuristic(root.node, t) <= G[v] + Heuristic(v, t)
    {
      assert Entry(v, G[v] + Heuristic(v, t)) in m;
    }
    forall e | e in m'
      ensures e.node in Open - {root.node}
    {
      assert e != root;
    }
    forall n | n in Open - {root.node}
      ensures Entry(n, G[n] + Heuristic(n, t)) in m'
    {
      assert Entry(n, G[n] + Heuristic(n, t)) != root;
    }
  }

  /** Pushing the record of a node that was not open mirrors the open set with that node added. */
  lemma HeapPushNew(m: multiset<Entry>, G: map<Pos, int>, Open: set<Pos>, t: Pos, u: Pos, x: int)
    requires HeapMatches(m, G, Open, t) && u !in Open
    ensures HeapMatches(m + multiset{Entry(u, x + Heuristic(u, t))}, G[u := x], Open + {u}, t)
  {
    var e := Entry(u, x + Heuristic(u, t));
    assert e !in m;
    var m', G' := m + multiset{e}, G[u := x];
    forall r
      ensures m'[r] <= 1
    {
      assert m'[r] == m[r] + multiset{e}[r];
    }
    forall n | n in Open + {u}
      ensures n in G' && Entry(n, G'[n] + Heuristic(n, t)) in m'
    {
      if n != u {
        assert Entry(n, G[n] + Heuristic(n, t)) in m;
      }
    }
  }

  /** Lowering the record of an open node to its new `g + h` keeps the heap mirroring the open set. */
  lemma HeapLower(m: multiset<Entry>, G: map<Pos, int>, Open: set<Pos>, t: Pos, u: Pos, x: int)
    requires HeapMatches(m, G, Open, t) && u in Open && x < G[u]
    ensures HeapMatches(m - multiset{Entry(u, G[u] + Heuristic(u, t))} + multiset{Entry(u, x + Heuristic(u, t))},
                        G[u := x], Open, t)
  {
    var old_e, new_e := Entry(u, G[u] + Heuristic(u, t)), Entry(u, x + Heuristic(u, t));
    assert new_e !in m;
    LowerCounts(m, old_e, new_e);
    LowerRecords(m, G, Open, t, u, x);
    LowerOpen(m, G, Open, t, u, x);
  }

  /** Swapping one record for one the multiset lacks keeps every record single. */
  lemma LowerCounts(m: multiset<Entry>, old_e: Entry, new_e: Entry)
    requires NoDuplicates(m) && new_e !in m
    ensures NoDuplicates(m - multiset{old_e} + multiset{new_e})
  {
    var m' := m - multiset{old_e} + multiset{new_e};
    forall r
      ensures m'[r] <= 1
    {
      assert m'[r] == (m - multiset{old_e})[r] + multiset{new_e}[r];
    }
  }

  /** After lowering `u`, each record still belongs to an open node and carries its new `g + h`. */
  lemma LowerRecords(m: multiset<Entry>, G: map<Pos, int>, Open: set<Pos>, t: Pos, u: Pos, x: int)
    requires RecordsOpen(m, G, Open, t) && NoDuplicates(m) && u in Open && u in G && x < G[u]
    ensures RecordsOpen(m - multiset{Entry(u, G[u] + Heuristic(u, t))} + multiset{Entry(u, x + Heuristic(u, t))},
                        G[u := x], Open, t)
  {
    var old_e, new_e := Entry(u, G[u] + Heuristic(u, t)), Entry(u, x + Heuristic(u, t));
    var m', G' := m - multiset{old_e} + multiset{new_e}, G[u := x];
    forall e | e in m'
      ensures e.node in Open && e.node in G' && e.f == G'[e.node] + Heuristic(e.node, t)
    {
      if e != new_e {
        assert e in m && e != old_e;
      }
    }
  }

  /** After lowering `u`, each open node still has its record. */
  lemma LowerOpen(m: multiset<Entry>, G: map<Pos, int>, Open: set<Pos>, t: Pos, u: Pos, x: int)
    requires OpenRecorded(m, G, Open, t) && u in Open && x < G[u]
    ensures OpenRecorded(m - multiset{Entry(u, G[u] + Heuristic(u, t))} + multiset{Entry(u, x + Heuristic(u, t))},
                         G[u := x], Open, t)
  {
    var old_e, new_e := Entry(u, G[u] + Heuristic(u, t)), Entry(u, x + Heuristic(u, t));
    var m', G' := m - multiset{old_e} + multiset{new_e}, G[u := x];
    forall n | n in Open
      ensures Entry(n, G'[n] + Heuristic(n, t)) in m'
    {
      if n != u {
        assert Entry(n, G[n] + Heuristic(n, t)) in m;
      }
    }
  }

  /** The record UpdateIfBetter finds for an open node with a better `f` is that node's record. */
  lemma MatchIsRecord(data: seq<Entry>, G: map<Pos, int>, Open: set<Pos>, t: Pos, u: Pos, f: int, better: Entry -> bool)
    requires HeapMatches(multiset(data), G, Open, t) && u in Open && f < G[u] + Heuristic(u, t)
    requires forall r :: better(r) == (r.node == u && f < r.f)
    ensures FirstMatch(data, better) < |data| && data[FirstMatch(data, better)] == Entry(u, G[u] + Heuristic(u, t))
  {
    var e := Entry(u, G[u] + Heuristic(u, t));
    assert e in multiset(data);
    var k :| 0 <= k < |data| && data[k] == e;
    assert better(data[k]);
    var i := FirstMatch(data, better);
    assert data[i] in multiset(data);
  }

  /**
   * `AStar`: with no start or goal the result is null; otherwise a path is
   * returned exactly when the goal is reachable, and it is a shortest path
   * from the start to the goal.
   */
  method AStar(g: Nodes, cs: nat, start: Option<Pos>, goal: Option<Pos>) returns (r: Option<seq<Pos>>)
    requires cs >= 1
    ensures start.None? || goal.None? ==> r.None?
    ensures r.Some? ==> start.Some? && goal.Some? && Shortest(g, cs, start.value, goal.value, r.value)
    ensures start.Some? && goal.Some? && r.None? ==> !Reachable(g, start.value, goal.value)
  {
    if start.None? || goal.None? {
      return None;
    }
    var s, t := start.value, goal.value;
    var came: map<Pos, Pos> := map[];
    var gScore: map<Pos, int> := map[s := 0];
    var openHeap := new MinHeap();
    openHeap.Push(Entry(s, Heuristic(s, t)));
    var openSet: set<Pos> := {s};
    ghost var K := Mentioned(g, s);
    while openHeap.Count() > 0
      invariant Searching(g, cs, s, t, gScore, came, openSet) && gScore.Keys <= K
      invariant openHeap.Valid() && HeapMatches(multiset(openHeap.data), gScore, openSet, t)
      decreases K - gScore.Keys, Pot(gScore, K), |openHeap.data|
    {
      var current := PopOpen(openHeap, gScore, openSet, t);
      if current == t {
        var path := GoalPath(g, cs, s, t, came, gScore, openSet);
        return Some(path);
      }
      StartRelaxing(g, cs, s, t, gScore, came, openSet, current);
      openSet := openSet - {current};
      came, gScore, openSet := Expand(g, cs, s, t, came, gScore, openSet, openHeap, current, K);
    }
    Exhausted(g, cs, s, t, gScore, came);
    return None;
  }

  /** AStar's pop: the record taken off the heap is that of an open node with the smallest `g + h`. */
  method PopOpen(openHeap: MinHeap, ghost G: map<Pos, int>, ghost Open: set<Pos>, t: Pos) returns (current: Pos)
    requires openHeap.Valid() && HeapMatches(multiset(openHeap.data), G, Open, t) && |openHeap.data| > 0
    modifies openHeap
    ensures current in Open && current in G
    ensures forall v :: v in Open ==> v in G && G[current] + Heuristic(current, t) <= G[v] + Heuristic(v, t)
    ensures openHeap.Valid() && HeapMatches(multiset(openHeap.data), G, Open - {current}, t)
    ensures |openHeap.data| == old(|openHeap.data|) - 1
  {
    ghost var before := openHeap.data;
    var currentRec := openHeap.Pop();
    current := currentRec.node;
    HeapPopMin(multiset(before), G, Open, t, currentRec);
  }

  /** AStar's goal branch: the path read off the came links back from the goal is a shortest path. */
  method GoalPath(g: Nodes, cs: nat, s: Pos, t: Pos, came: map<Pos, Pos>, gScore: map<Pos, int>, openSet: set<Pos>)
    returns (path: seq<Pos>)
    requires cs >= 1 && Searching(g, cs, s, t, gScore, came, openSet) && t in openSet
    requires forall v :: v in openSet ==> v in gScore && gScore[t] + Heuristic(t, t) <= gScore[v] + Heuristic(v, t)
    ensures Shortest(g, cs, s, t, path)
  {
    ConsistentDescends(g, cs, s, gScore, came);
    path := Reconstruct(came, t, gScore);
    GoalShortest(g, cs, s, t, gScore, came, openSet, path);
  }

  /**
   * AStar's neighbour loop for the node just taken off the heap: every
   * neighbour is relaxed in list order, after which the search invariant
   * holds again and the costs have improved or stayed put with a shorter heap.
   */
  method Expand(g: Nodes, cs: nat, s: Pos, t: Pos, came: map<Pos, Pos>, gScore: map<Pos, int>, openSet: set<Pos>,
                openHeap: MinHeap, current: Pos, ghost K: set<Pos>)
    returns (came': map<Pos, Pos>, gScore': map<Pos, int>, openSet': set<Pos>)
    requires cs >= 1 && K == Mentioned(g, s) && gScore.Keys <= K
    requires Relaxing(g, cs, s, t, gScore, came, openSet, current, [])
    requires openHeap.Valid() && HeapMatches(multiset(openHeap.data), gScore, openSet, t)
    modifies openHeap
    ensures Searching(g, cs, s, t, gScore', came', openSet') && gScore'.Keys <= K
    ensures openHeap.Valid() && HeapMatches(multiset(openHeap.data), gScore', openSet', t)
    ensures Improved(K, gScore, gScore') && (gScore' == gScore ==> |openHeap.data| == old(|openHeap.data|))
  {
    came', gScore', openSet' := came, gScore, openSet;
    ghost var n1 := |openHeap.data|;
    var ns := Neighbors(g, current);
    for j := 0 to |ns|
      invariant Relaxing(g, cs, s, t, gScore', came', openSet', current, ns[..j]) && gScore'.Keys <= K
      invariant openHeap.Valid() && HeapMatches(multiset(openHeap.data), gScore', openSet', t)
      invariant Improved(K, gScore, gScore') && (gScore' == gScore ==> |openHeap.data| == n1)
    {
      PrefixStep(ns, j);
      came', gScore', openSet' := RelaxNeighbor(g, cs, s, t, came', gScore', openSet', openHeap, current, ns[..j], ns[j], K, gScore, n1);
    }
    PrefixAll(ns);
    EndRelaxing(g, cs, s, t, gScore', came', openSet', current);
  }

  /**
   * One pass of AStar's neighbour loop: a neighbour reached more cheaply
   * through `current` gets its came link and gScore; a node not yet open is
   * pushed, an open one has its heap record lowered.
   */
  method RelaxNeighbor(g: Nodes, cs: nat, s: Pos, t: Pos, came: map<Pos, Pos>, gScore: map<Pos, int>, openSet: set<Pos>,
                       openHeap: MinHeap, current: Pos, ghost done: seq<Pos>, neigh: Pos,
                       ghost K: set<Pos>, ghost G0: map<Pos, int>, ghost n1: int)
    returns (came': map<Pos, Pos>, gScore': map<Pos, int>, openSet': set<Pos>)
    requires cs >= 1 && neigh in Neighbors(g, current) && K == Mentioned(g, s)
    requires Relaxing(g, cs, s, t, gScore, came, openSet, current, done) && gScore.Keys <= K
    requires openHeap.Valid() && HeapMatches(multiset(openHeap.data), gScore, openSet, t)
    requires Improved(K, G0, gScore) && (gScore == G0 ==> |openHeap.data| == n1)
    modifies openHeap
    ensures Relaxing(g, cs, s, t, gScore', came', openSet', current, done + [neigh]) && gScore'.Keys <= K
    ensures openHeap.Valid() && HeapMatches(multiset(openHeap.data), gScore', openSet', t)
    ensures Improved(K, G0, gScore') && (gScore' == G0 ==> |openHeap.data| == n1)
  {
    var tentativeG := gScore[current] + Cost(cs, current, neigh);
    if neigh !in gScore || tentativeG < gScore[neigh] {
      if neigh !in openSet {
        came', gScore', openSet' := OpenNeighbor(g, cs, s, t, came, gScore, openSet, openHeap, current, done, neigh, K, G0, n1);
      } else {
        came', gScore', openSet' := LowerNeighbor(g, cs, s, t, came, gScore, openSet, openHeap, current, done, neigh, K, G0, n1);
      }
    } else {
      came', gScore', openSet' := came, gScore, openSet;
      RelaxKeeps(g, cs, s, t, gScore, came, openSet, current, done, neigh);
    }
  }

  /** RelaxNeighbor for a neighbour reached more cheaply that is not open: it is opened and its record pushed. */
  method OpenNeighbor(g: Nodes, cs: nat, s: Pos, t: Pos, came: map<Pos, Pos>, gScore: map<Pos, int>, openSet: set<Pos>,
                      openHeap: MinHeap, current: Pos, ghost done: seq<Pos>, neigh: Pos,
                      ghost K: set<Pos>, ghost G0: map<Pos, int>, ghost n1: int)
    returns (came': map<Pos, Pos>, gScore': map<Pos, int>, openSet': set<Pos>)
    requires cs >= 1 && neigh in Neighbors(g, current) && K == Mentioned(g, s)
    requires Relaxing(g, cs, s, t, gScore, came, openSet, current, done) && gScore.Keys <= K
    requires openHeap.Valid() && HeapMatches(multiset(openHeap.data), gScore, openSet, t)
    requires Improved(K, G0, gScore) && (gScore == G0 ==> |openHeap.data| == n1)
    requires neigh !in gScore || gScore[current] + Cost(cs, current, neigh) < gScore[neigh]
    requires neigh !in openSet
    modifies openHeap
    ensures Relaxing(g, cs, s, t, gScore', came', openSet', current, done + [neigh]) && gScore'.Keys <= K
    ensures openHeap.Valid() && HeapMatches(multiset(openHeap.data), gScore', openSet', t)
    ensures Improved(K, G0, gScore') && (gScore' == G0 ==> |openHeap.data| == n1)
  {
    var tentativeG := gScore[current] + Cost(cs, current, neigh);
    RelaxImproves(g, cs, s, t, gScore, came, openSet, current, done, neigh, tentativeG);
    NeighborMentioned(g, s, current, neigh);
    ImprovedStep(K, G0, gScore, neigh, tentativeG);
    came', gScore', openSet' := came[neigh := current], gScore[neigh := tentativeG], openSet + {neigh};
    PushRecord(openHeap, gScore, openSet, t, neigh, tentativeG, tentativeG + Heuristic(neigh, t));
  }

  /** RelaxNeighbor for an open neighbour reached more cheaply: its record is lowered. */
  method LowerNeighbor(g: Nodes, cs: nat, s: Pos, t: Pos, came: map<Pos, Pos>, gScore: map<Pos, int>, openSet: set<Pos>,
                       openHeap: MinHeap, current: Pos, ghost done: seq<Pos>, neigh: Pos,
                       ghost K: set<Pos>, ghost G0: map<Pos, int>, ghost n1: int)
    returns (came': map<Pos, Pos>, gScore': map<Pos, int>, openSet': set<Pos>)
    requires cs >= 1 && neigh in Neighbors(g, current) && K == Mentioned(g, s)
    requires Relaxing(g, cs, s, t, gScore, came, openSet, current, done) && gScore.Keys <= K
    requires openHeap.Valid() && HeapMatches(multiset(openHeap.data), gScore, openSet, t)
    requires Improved(K, G0, gScore) && (gScore == G0 ==> |openHeap.data| == n1)
    requires neigh !in gScore || gScore[current] + Cost(cs, current, neigh) < gScore[neigh]
    requires neigh in openSet
    modifies openHeap
    ensures Relaxing(g, cs, s, t, gScore', came', openSet', current, done + [neigh]) && gScore'.Keys <= K
    ensures openHeap.Valid() && HeapMatches(multiset(openHeap.data), gScore', openSet', t)
    ensures Improved(K, G0, gScore') && (gScore' == G0 ==> |openHeap.data| == n1)
  {
    var tentativeG := gScore[current] + Cost(cs, current, neigh);
    RelaxImproves(g, cs, s, t, gScore, came, openSet, current, done, neigh, tentativeG);
    NeighborMentioned(g, s, current, neigh);
    ImprovedStep(K, G0, gScore, neigh, tentativeG);
    AddMember(openSet, neigh);
    came', gScore', openSet' := came[neigh := current], gScore[neigh := tentativeG], openSet;
    LowerRecord(openHeap, gScore, openSet, t, neigh, tentativeG, tentativeG + Heuristic(neigh, t));
  }

  /** The push of a newly opened node's record: the heap then mirrors the open set with that node added. */
  method PushRecord(openHeap: MinHeap, ghost G: map<Pos, int>, ghost Open: set<Pos>, t: Pos, neigh: Pos, tentativeG: int, f: int)
    requires openHeap.Valid() && HeapMatches(multiset(openHeap.data), G, Open, t)
    requires neigh !in Open && f == tentativeG + Heuristic(neigh, t)
    modifies openHeap
    ensures openHeap.Valid() && HeapMatches(multiset(openHeap.data), G[neigh := tentativeG], Open + {neigh}, t)
    ensures |openHeap.data| == old(|openHeap.data|) + 1
  {
    HeapPushNew(multiset(openHeap.data), G, Open, t, neigh, tentativeG);
    openHeap.Push(Entry(neigh, f));
  }

  /** The lowering of an open node's record through UpdateIfBetter: the heap then mirrors its new `g + h`. */
  method LowerRecord(openHeap: MinHeap, ghost G: map<Pos, int>, ghost Open: set<Pos>, t: Pos, neigh: Pos, tentativeG: int, f: int)
    requires openHeap.Valid() && HeapMatches(multiset(openHeap.data), G, Open, t)
    requires neigh in Open && tentativeG < G[neigh] && f == tentativeG + Heuristic(neigh, t)
    modifies openHeap
    ensures openHeap.Valid() && HeapMatches(multiset(openHeap.data), G[neigh := tentativeG], Open, t)
  {
    var better := (r: Entry) => r.node == neigh && f < r.f;
    var lower := (rec: Entry) => rec.(f := f);
    ghost var m, e := multiset(openHeap.data), Entry(neigh, G[neigh] + Heuristic(neigh, t));
    MatchIsRecord(openHeap.data, G, Open, t, neigh, f, better);
    HeapLower(m, G, Open, t, neigh, tentativeG);
    assert lower(e) == Entry(neigh, tentativeG + Heuristic(neigh, t));
    openHeap.UpdateIfBetter(better, lower);
    assert multiset(openHeap.data) == m - multiset{e} + multiset{lower(e)};
  }

  /**
   * `Reconstruct`: follows the came links from `current` until a node
   * without one and reverses the list, so the result is the chain of links
   * ending at `current`, read from its first node.
   */
  method Reconstruct(came: map<Pos, Pos>, current: Pos, ghost G: map<Pos, int>) returns (list: seq<Pos>)
    requires current in G && Descends(came, G)
    ensures CameChain(came, list) && list[|list| - 1] == current
  {
    var cur := current;
    var rev := [cur];
    while cur in came
      invariant cur in G && |rev| > 0 && rev[0] == current && rev[|rev| - 1] == cur
      invariant forall i :: 0 <= i < |rev| - 1 ==> rev[i] in came && came[rev[i]] == rev[i + 1]
      decreases G[cur]
    {
      cur := came[cur];
      rev := rev + [cur];
    }
    list := Reverse(rev);
    forall i | 1 <= i < |list|
      ensures list[i] in came && came[list[i]] == list[i - 1]
    {
      assert list[i] == rev[|rev| - 1 - i] && list[i - 1] == rev[(|rev| - 1 - i) + 1];
    }
  }

  /**
   * `PathCost`: 0 for a null path, otherwise the sum of the lengths of its
   * edges (0 below two nodes).
   */
  method PathCost(cs: nat, path: Option<seq<Pos>>) returns (cost: nat)
    ensures path.None? ==> cost == 0
    ensures path.Some? ==> cost == Length(cs, path.value)
  {
    if path.None? || |path.value| < 2 {
      return 0;
    }
    var p := path.value;
    cost := 0;
    for i := 1 to |p|
      invariant cost == Length(cs, p[..i])
    {
      assert p[..i + 1] == p[..i] + [p[i]];
      LengthAppend(cs, p[..i], p[i]);
      cost := cost + Cost(cs, p[i - 1], p[i]);
    }
    assert p[..|p|] == p;
  }

  /** The part of the player controller that turns a path into movement targets. */
  class MazePlayerController {
    /** The movement targets still to visit, front first; a target is the cell of a path node. */
    var waypointQueue: seq<Pos>

    /** A controller with nothing queued. */
    constructor()
      ensures waypointQueue == []
    {
      waypointQueue := [];
    }

    /** `BuildWaypointsFromPath`: enqueues one target per node of the path, in path order; a null path adds nothing. */
    method BuildWaypointsFromPath(path: Option<seq<Pos>>)
      modifies this
      ensures path.None? ==> waypointQueue == old(waypointQueue)
      ensures path.Some? ==> waypointQueue == old(waypointQueue) + path.value
    {
      if path.None? {
        return;
      }
      var p := path.value;
      for i := 0 to |p|
        invariant waypointQueue == old(waypointQueue) + p[..i]
      {
        assert p[..i + 1] == p[..i] + [p[i]];
        waypointQueue := waypointQueue + [p[i]];
      }
      assert p[..|p|] == p;
    }
  }
}
