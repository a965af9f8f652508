/**
 * The player's open list: a binary min-heap kept in a list, ordered by each
 * record's `f`, with push, pop, sift-up, sift-down and the linear
 * decrease-key `UpdateIfBetter`.
 *
 * The heap holds records that nothing outside it refers to, so they are
 * modelled as values: applying a change to a record in the list is
 * replacing the list slot with the changed record.
 */
module MinHeaps {
  import opened Grid

  /** The player's NodeRecord: a node and its `f`, compared by `f` alone. */
  datatype Entry = Entry(node: Pos, f: int)

  /** Every record's `f` is at least its parent's; the children of slot p are slots 2p + 1 and 2p + 2. */
  ghost predicate HeapOrdered(s: seq<Entry>)
  {
    forall p, c :: 0 <= p < |s| && 0 <= c < |s| && (c == 2 * p + 1 || c == 2 * p + 2) ==> s[p].f <= s[c].f
  }

  /** Slot `p` of `s` holds a record no larger than slot `c`'s. */
  ghost predicate NoLarger(s: seq<Entry>, p: int, c: int)
  {
    0 <= p < |s| && 0 <= c < |s| && s[p].f <= s[c].f
  }

  /**
   * HeapOrdered once more, with each parent-child pair behind NoLarger: the
   * heap's users carry this form, which applies only to pairs a proof names.
   */
  ghost predicate Ordered(s: seq<Entry>)
  {
    forall p, c :: 0 <= p < |s| && 0 <= c < |s| && (c == 2 * p + 1 || c == 2 * p + 2) ==> NoLarger(s, p, c)
  }

  /** The two forms of the heap property agree. */
  lemma OrderedIsHeapOrdered(s: seq<Entry>)
    requires Ordered(s)
    ensures HeapOrdered(s)
  {
    forall p, c | 0 <= p < |s| && 0 <= c < |s| && (c == 2 * p + 1 || c == 2 * p + 2)
      ensures s[p].f <= s[c].f
    {
      assert NoLarger(s, p, c);
    }
  }

  /**
   * SiftUp's loop invariant at slot `i`: every parent-child pair is ordered
   * except slot `i` with its parent, and `i`'s parent is no larger than
   * `i`'s children.
   */
  ghost predicate OrderedBut(s: seq<Entry>, i: int)
  {
    && 0 <= i < |s|
    && (forall p, c :: 0 <= p < |s| && 0 <= c < |s| && (c == 2 * p + 1 || c == 2 * p + 2) && c != i ==> s[p].f <= s[c].f)
    && (forall p, c :: 0 <= p < |s| && 0 <= c < |s| && (i == 2 * p + 1 || i == 2 * p + 2) && (c == 2 * i + 1 || c == 2 * i + 2)
                       ==> s[p].f <= s[c].f)
  }

  /**
   * SiftDown's loop invariant at slot `i`: every parent-child pair is
   * ordered except slot `i` with its children, and `i`'s parent is no
   * larger than `i`'s children.
   */
  ghost predicate OrderedBelow(s: seq<Entry>, i: int)
  {
    && 0 <= i < |s|
    && (forall p, c :: 0 <= p < |s| && 0 <= c < |s| && (c == 2 * p + 1 || c == 2 * p + 2) && p != i ==> s[p].f <= s[c].f)
    && (forall p, c :: 0 <= p < |s| && 0 <= c < |s| && (i == 2 * p + 1 || i == 2 * p + 2) && (c == 2 * i + 1 || c == 2 * i + 2)
                       ==> s[p].f <= s[c].f)
  }

  /** The root of a heap has the smallest `f`. */
  lemma {:induction false} RootIsMin(s: seq<Entry>, k: int)
    requires HeapOrdered(s) && 0 <= k < |s|
    ensures s[0].f <= s[k].f
    decreases k
  {
    if k > 0 {
      var p := (k - 1) / 2;
      RootIsMin(s, p);
      assert s[p].f <= s[k].f;
    }
  }

  /** The root of a heap is no larger than any record in it. */
  lemma RootIsSmallest(s: seq<Entry>)
    requires HeapOrdered(s) && |s| > 0
    ensures forall e :: e in s ==> s[0].f <= e.f
  {
    forall k | 0 <= k < |s|
      ensures s[0].f <= s[k].f
    {
      RootIsMin(s, k);
    }
  }

  /**
   * Pop's rearrangement: dropping the last record and, when records remain,
   * moving it to the root loses exactly the root and leaves only the root
   * out of order with its children.
   */
  lemma PopMoves(s: seq<Entry>)
    requires HeapOrdered(s) && |s| > 0
    ensures |s| == 1 ==> multiset(s[..|s| - 1]) == multiset(s) - multiset{s[0]}
    ensures |s| > 1 ==> var r := s[..|s| - 1][0 := s[|s| - 1]];
                        OrderedBelow(r, 0) && multiset(r) == multiset(s) - multiset{s[0]}
  {
    var last, rest := s[|s| - 1], s[..|s| - 1];
    assert s == rest + [last];
    if |s| > 1 {
      assert rest == [s[0]] + rest[1..];
      var r := rest[0 := last];
      assert r == [last] + rest[1..];
    }
  }

  /** A heap may be sifted down from any slot. */
  lemma HeapIsOrderedBelow(s: seq<Entry>, i: int)
    requires HeapOrdered(s) && 0 <= i < |s|
    ensures OrderedBelow(s, i)
  {
    forall p, c | 0 <= p < |s| && 0 <= c < |s| && (i == 2 * p + 1 || i == 2 * p + 2) && (c == 2 * i + 1 || c == 2 * i + 2)
      ensures s[p].f <= s[c].f
    {
      assert s[p].f <= s[i].f <= s[c].f;
    }
  }

  /** The slots `i` and `j` exchanged, as the tuple assignment of the sift loops does. */
  function Swap(s: seq<Entry>, i: int, j: int): (r: seq<Entry>)
    requires 0 <= i < |s| && 0 <= j < |s|
    ensures |r| == |s| && multiset(r) == multiset(s)
    ensures r[i] == s[j] && r[j] == s[i] && forall k :: 0 <= k < |s| && k != i && k != j ==> r[k] == s[k]
  {
    s[i := s[j]][j := s[i]]
  }

  /** One SiftUp step: after exchanging a too-small record with its parent, the order is broken only at the parent. */
  lemma SwapUp(s: seq<Entry>, j: int, q: int)
    requires OrderedBut(s, j) && 0 <= q < |s| && (j == 2 * q + 1 || j == 2 * q + 2) && s[j].f < s[q].f
    ensures OrderedBut(Swap(s, j, q), q)
  {
    var r := Swap(s, j, q);
    forall p, c | 0 <= p < |r| && 0 <= c < |r| && (c == 2 * p + 1 || c == 2 * p + 2) && c != q
      ensures r[p].f <= r[c].f
    {
      if c == j {
      } else if p == j {
        assert s[q].f <= s[c].f;
      } else if p == q {
        assert s[q].f <= s[c].f;
      } else {
        assert r[p] == s[p] && r[c] == s[c];
      }
    }
    forall p, c | 0 <= p < |r| && 0 <= c < |r| && (q == 2 * p + 1 || q == 2 * p + 2) && (c == 2 * q + 1 || c == 2 * q + 2)
      ensures r[p].f <= r[c].f
    {
      assert s[p].f <= s[q].f;
      if c != j {
        assert r[c] == s[c];
      }
    }
  }

  /** SiftUp stops at the root or below a parent no larger than the record: the heap is whole again. */
  lemma UpSettled(s: seq<Entry>, j: int)
    requires OrderedBut(s, j) && (j == 0 || s[(j - 1) / 2].f <= s[j].f)
    ensures HeapOrdered(s)
  {
    forall p, c | 0 <= p < |s| && 0 <= c < |s| && (c == 2 * p + 1 || c == 2 * p + 2)
      ensures s[p].f <= s[c].f
    {
      if c == j {
        assert p == (j - 1) / 2;
      }
    }
  }

  /** SiftDown stops where the record is no larger than its children: the heap is whole again. */
  lemma DownSettled(s: seq<Entry>, j: int)
    requires OrderedBelow(s, j)
    requires forall c :: 0 <= c < |s| && (c == 2 * j + 1 || c == 2 * j + 2) ==> s[j].f <= s[c].f
    ensures HeapOrdered(s)
  {
  }

  /** One SiftDown step: after exchanging a record with its smaller child, the order is broken only below that child. */
  lemma SwapDown(s: seq<Entry>, j: int, best: int)
    requires OrderedBelow(s, j) && 0 <= best < |s| && (best == 2 * j + 1 || best == 2 * j + 2)
    requires forall c :: 0 <= c < |s| && (c == 2 * j + 1 || c == 2 * j + 2) ==> s[best].f <= s[c].f
    requires s[best].f < s[j].f
    ensures OrderedBelow(Swap(s, j, best), best)
  {
    var r := Swap(s, j, best);
    forall p, c | 0 <= p < |r| && 0 <= c < |r| && (c == 2 * p + 1 || c == 2 * p + 2) && p != best
      ensures r[p].f <= r[c].f
    {
      if c == best {
      } else if c == j {
        assert s[p].f <= s[best].f;
      } else if p == j {
        assert s[best].f <= s[c].f;
      } else {
        assert r[p] == s[p] && r[c] == s[c];
      }
    }
    forall p, c | 0 <= p < |r| && 0 <= c < |r| && (best == 2 * p + 1 || best == 2 * p + 2) && (c == 2 * best + 1 || c == 2 * best + 2)
      ensures r[p].f <= r[c].f
    {
      assert p == j && r[p] == s[best] && r[c] == s[c];
      assert s[best].f <= s[c].f;
    }
  }

  /** Replacing one record of a heap breaks the order only above it (smaller `f`) or only below it (larger `f`). */
  lemma ReplaceOrders(s: seq<Entry>, i: int, x: Entry)
    requires HeapOrdered(s) && 0 <= i < |s|
    ensures x.f <= s[i].f ==> OrderedBut(s[i := x], i)
    ensures x.f >= s[i].f ==> OrderedBelow(s[i := x], i)
  {
    var r := s[i := x];
    forall p, c | 0 <= p < |r| && 0 <= c < |r| && (i == 2 * p + 1 || i == 2 * p + 2) && (c == 2 * i + 1 || c == 2 * i + 2)
      ensures r[p].f <= r[c].f
    {
      assert s[p].f <= s[i].f <= s[c].f;
    }
  }

  /** Replacing one record trades it for the new one in the multiset. */
  lemma ReplaceMultiset(s: seq<Entry>, i: int, x: Entry)
    requires 0 <= i < |s|
    ensures multiset(s[i := x]) == multiset(s) - multiset{s[i]} + multiset{x}
  {
    assert s == s[..i] + [s[i]] + s[i + 1..];
    assert s[i := x] == s[..i] + [x] + s[i + 1..];
  }

  /** The index of the first record satisfying `p`, or the length when none does. */
  function FirstMatch(s: seq<Entry>, p: Entry -> bool): (i: nat)
    ensures i <= |s| && (i < |s| ==> p(s[i]))
    ensures forall k :: 0 <= k < i ==> !p(s[k])
    decreases |s|
  {
    if s == [] then 0
    else if p(s[0]) then 0
    else 1 + FirstMatch(s[1..], p)
  }

  /** The first match is the index before which nothing matches and at which something does. */
  lemma FirstMatchIs(s: seq<Entry>, p: Entry -> bool, i: int)
    requires 0 <= i <= |s| && (i < |s| ==> p(s[i])) && forall k :: 0 <= k < i ==> !p(s[k])
    ensures FirstMatch(s, p) == i
  {
  }

  class MinHeap {
    /** The records, in heap order. */
    var data: seq<Entry>

    /** The heap property of the records, as one fact for the heap's users to carry. */
    ghost predicate Valid()
      reads this
    {
      Ordered(data)
    }

    /** An empty heap. */
    constructor()
      ensures data == []
    {
      data := [];
    }

    /** The number of records. */
    function Count(): nat
      reads this
    {
      |data|
    }

    /** Appends a record and sifts it up: the heap gains exactly that record. */
    method Push(item: Entry)
      requires Valid()
      modifies this
      ensures Valid()
      ensures multiset(data) == old(multiset(data)) + multiset{item} && |data| == old(|data|) + 1
    {
      OrderedIsHeapOrdered(data);
      data := data + [item];
      SiftUp(|data| - 1);
    }

    /**
     * Removes and returns the root, moving the last record to the top and
     * sifting it down: the record returned has the smallest `f` and the
     * heap loses exactly that record.
     */
    method Pop() returns (root: Entry)
      requires Valid() && |data| > 0
      modifies this
      ensures Valid()
      ensures root in old(data) && forall e :: e in old(data) ==> root.f <= e.f
      ensures multiset(data) == old(multiset(data)) - multiset{root} && |data| == old(|data|) - 1
    {
      OrderedIsHeapOrdered(data);
      RootIsSmallest(data);
      PopMoves(data);
      root := data[0];
      var last := data[|data| - 1];
      data := data[..|data| - 1];
      if |data| > 0 {
        data := data[0 := last];
        SiftDown(0);
      }
    }

    /**
     * Applies `change` to the first record satisfying `p` and restores the
     * order by sifting that slot up and then down; with no such record the
     * heap is left as it is.
     */
    method UpdateIfBetter(p: Entry -> bool, change: Entry -> Entry)
      requires Valid()
      modifies this
      ensures Valid()
      ensures FirstMatch(old(data), p) == |old(data)| ==> data == old(data)
      ensures FirstMatch(old(data), p) < |old(data)| ==>
                var e := old(data)[FirstMatch(old(data), p)];
                multiset(data) == old(multiset(data)) - multiset{e} + multiset{change(e)}
      ensures |data| == old(|data|)
    {
      OrderedIsHeapOrdered(data);
      for i := 0 to |data|
        invariant data == old(data)
        invariant forall k :: 0 <= k < i ==> !p(data[k])
      {
        if p(data[i]) {
          FirstMatchIs(data, p, i);
          ReplaceAt(i, change(data[i]));
          return;
        }
      }
      FirstMatchIs(data, p, |data|);
    }

    /** UpdateIfBetter's step once it found slot `i`: puts `x` there, then sifts that slot up and down. */
    method ReplaceAt(i: int, x: Entry)
      requires HeapOrdered(data) && 0 <= i < |data|
      modifies this
      ensures HeapOrdered(data)
      ensures multiset(data) == old(multiset(data)) - multiset{old(data)[i]} + multiset{x} && |data| == old(|data|)
    {
      var e := data[i];
      ReplaceOrders(data, i, x);
      ReplaceMultiset(data, i, x);
      data := data[i := x];
      SiftUp(i);
      if x.f <= e.f {
        HeapIsOrderedBelow(data, i);
      }
      SiftDown(i);
    }

    /** Moves the record at `i` towards the root while it is smaller than its parent. */
    method SiftUp(i: int)
      requires OrderedBut(data, i) || OrderedBelow(data, i)
      modifies this
      ensures multiset(data) == old(multiset(data)) && |data| == old(|data|)
      ensures old(OrderedBut(data, i)) ==> HeapOrdered(data)
      ensures old(OrderedBelow(data, i)) ==> data == old(data)
    {
      var j := i;
      while j > 0
        invariant 0 <= j < |data| && multiset(data) == old(multiset(data)) && |data| == old(|data|)
        invariant old(OrderedBut(data, i)) ==> OrderedBut(data, j)
        invariant old(OrderedBelow(data, i)) ==> data == old(data) && j == i
      {
        var p := (j - 1) / 2;
        if data[j].f >= data[p].f {
          break;
        }
        SwapUp(data, j, p);
        data := Swap(data, j, p);
        j := p;
      }
      if old(OrderedBut(data, i)) {
        UpSettled(data, j);
      }
    }

    /** Moves the record at `i` towards the leaves while a child is smaller, exchanging it with the smaller child. */
    method SiftDown(i: int)
      requires OrderedBelow(data, i)
      modifies this
      ensures HeapOrdered(data)
      ensures multiset(data) == old(multiset(data)) && |data| == old(|data|)
    {
      var n := |data|;
      var j := i;
      while true
        invariant 0 <= j < n && |data| == n && multiset(data) == old(multiset(data))
        invariant OrderedBelow(data, j)
        decreases n - j
      {
        var l := j * 2 + 1;
        if l >= n {
          DownSettled(data, j);
          break;
        }
        var r := l + 1;
        var best := if r < n && data[r].f < data[l].f then r else l;
        if data[best].f >= data[j].f {
          DownSettled(data, j);
          break;
        }
        SwapDown(data, j, best);
        data := Swap(data, j, best);
        j := best;
      }
    }
  }
}
