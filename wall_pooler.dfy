/**
 * WallPooler: the component form of the wall pool. The same list and split
 * point as WallPool, plus the inspector settings (`wallPrefab`, `prewarm`,
 * `autoInitialize`) and an `initialized` flag that lets Initialize run once.
 */
module WallPoolers {
  import opened Scene

  class WallPooler {
    /** The prefab CreateNew instantiates when set. */
    var wallPrefab: GameObject?
    /** How many objects the first Initialize creates on an empty pool (0 = none). */
    var prewarm: int
    /** Whether Awake initializes the pool. */
    var autoInitialize: bool
    /** The pooled objects; a slot may be null or hold a destroyed object. */
    var pool: seq<GameObject?>
    /** How many slots, from the front, are handed out. */
    var activeCount: int
    /** Set by the first Initialize. */
    var initialized: bool

    /** The split point lies within the list. */
    ghost predicate Valid()
      reads this
    {
      0 <= activeCount <= |pool|
    }

    /** A component with the inspector defaults and an empty, uninitialized pool. */
    constructor()
      ensures Valid() && wallPrefab == null && prewarm == 0 && autoInitialize
      ensures pool == [] && activeCount == 0 && !initialized
    {
      wallPrefab := null;
      prewarm := 0;
      autoInitialize := true;
      pool := [];
      activeCount := 0;
      initialized := false;
    }

    /** `ActiveCount`: never more than the pool holds. */
    function ActiveCount(): (n: int)
      reads this
      requires Valid()
      ensures 0 <= n <= TotalCount()
    {
      activeCount
    }

    /** `TotalCount`: the number of slots, null ones included. */
    function TotalCount(): int
      reads this
    {
      |pool|
    }

    /** The slots from `from` on hold distinct new objects, inactive and alive. */
    ghost predicate FreshInactive(from: int)
      reads this, Objects(pool)
      requires 0 <= from <= |pool|
    {
      && (forall k :: from <= k < |pool| ==> pool[k] != null && !pool[k].active && !pool[k].destroyed)
      && (forall i, j :: from <= i < j < |pool| ==> pool[i] != pool[j])
    }

    /** Unity's Awake: initializes the pool when `autoInitialize` is set. */
    method Awake()
      requires Valid()
      modifies this`pool, this`initialized
      ensures Valid() && activeCount == old(activeCount)
      ensures autoInitialize ==> initialized
      ensures autoInitialize && !old(initialized) && prewarm > 0 && old(|pool|) == 0 ==> |pool| == prewarm && FreshInactive(0)
      ensures autoInitialize && !(!old(initialized) && prewarm > 0 && old(|pool|) == 0) ==> pool == old(pool)
      ensures old(|pool|) <= |pool| && pool[..old(|pool|)] == old(pool) && forall k :: old(|pool|) <= k < |pool| ==> fresh(pool[k])
      ensures !autoInitialize ==> pool == old(pool) && initialized == old(initialized)
    {
      if autoInitialize {
        Initialize();
      }
    }

    /**
     * Runs once: on the first call, prewarms `prewarm` objects when that is
     * positive and the pool is empty, then sets `initialized`; later calls
     * change nothing.
     */
    method Initialize()
      requires Valid()
      modifies this`pool, this`initialized
      ensures Valid() && initialized && activeCount == old(activeCount)
      ensures old(initialized) ==> pool == old(pool)
      ensures !old(initialized) && prewarm > 0 && old(|pool|) == 0 ==> |pool| == prewarm && FreshInactive(0)
      ensures !(!old(initialized) && prewarm > 0 && old(|pool|) == 0) ==> pool == old(pool)
      ensures pool[..old(|pool|)] == old(pool) && forall k :: old(|pool|) <= k < |pool| ==> fresh(pool[k])
    {
      if initialized {
        return;
      }
      if prewarm > 0 && |pool| == 0 {
        Prewarm(prewarm);
      }
      initialized := true;
    }

    /** Replaces the prefab used for new objects; nothing else changes. */
    method SetWallPrefab(prefab: GameObject?)
      modifies this`wallPrefab
      ensures wallPrefab == prefab
    {
      wallPrefab := prefab;
    }

    /** Appends `count` new inactive objects (none when `count` is not positive). */
    method Prewarm(count: int)
      requires Valid()
      modifies this`pool
      ensures Valid()
      ensures |pool| == old(|pool|) + (if count > 0 then count else 0)
      ensures pool[..old(|pool|)] == old(pool)
      ensures forall k :: old(|pool|) <= k < |pool| ==> fresh(pool[k])
      ensures FreshInactive(old(|pool|))
    {
      var n0 := |pool|;
      var i := 0;
      while i < count
        invariant Valid()
        invariant (if count > 0 then 0 <= i <= count else i == 0) && |pool| == n0 + i && pool[..n0] == old(pool)
        invariant forall k :: n0 <= k < |pool| ==> fresh(pool[k])
        invariant FreshInactive(n0)
      {
        var go := new GameObject();
        go.active := false;
        pool := pool + [go];
        i := i + 1;
      }
    }

    /**
     * Initializes first when needed, then hands out the first free slot,
     * refilling it in place with a new object when it is Missing, or appends
     * a new object when every slot is handed out; the object returned is
     * active and `activeCount` grows by exactly one.
     */
    method Get() returns (go: GameObject)
      requires Valid()
      modifies this`pool, this`activeCount, this`initialized, Objects(pool)`active
      ensures Valid() && initialized && activeCount == old(activeCount) + 1
      ensures go.active && !go.destroyed && go == pool[old(activeCount)]
      ensures old(initialized) ==>
                && (old(activeCount) < old(|pool|) ==> pool == old(pool)[old(activeCount) := go])
                && (old(activeCount) == old(|pool|) ==> pool == old(pool) + [go] && fresh(go))
      ensures forall o :: o in old(Objects(pool)) && o != go ==> o.active == old(o.active)
    {
      if !initialized {
        Initialize();
      }
      if activeCount < |pool| {
        var existing := pool[activeCount];
        if Missing(existing) {
          existing := new GameObject();
          pool := pool[activeCount := existing];
        }
        existing.active := true;
        go := existing;
        activeCount := activeCount + 1;
        return;
      }
      go := new GameObject();
      pool := pool + [go];
      activeCount := activeCount + 1;
    }

    /**
     * Drops every Missing slot, keeping the others in order, deactivates
     * the objects that remain and marks every slot free.
     */
    method DeactivateAll()
      requires Valid()
      modifies this`pool, this`activeCount, Objects(pool)`active
      ensures Valid() && activeCount == 0
      ensures pool == old(Present(pool)) && Present(pool) == pool
      ensures forall k :: 0 <= k < |pool| ==> pool[k] != null && !pool[k].active
    {
      ghost var s, live := pool, Live(pool);
      PresentIsKeep(s, s);
      Sweep(s, live);
      PresentKeepsLive(pool);
      activeCount := 0;
    }

    /** DeactivateAll's loop, from the last slot down: `pool` becomes `s` filtered by `live`, all inactive. */
    method Sweep(ghost s: seq<GameObject?>, ghost live: set<GameObject>)
      requires pool == s && forall o :: o in Objects(s) ==> (o in live <==> !o.destroyed)
      modifies this`pool, Objects(s)`active
      ensures pool == Keep(s, live)
      ensures forall o :: o in pool ==> o != null && !o.active
    {
      var i := |pool|;
      while i > 0
        invariant 0 <= i <= |s| && pool == s[..i] + Keep(s[i..], live)
        invariant forall o :: o in Keep(s[i..], live) ==> o != null && !o.active
      {
        i := i - 1;
        SweepSlot(i, s, live);
      }
      assert s[0..] == s && s[..0] == [];
    }

    /** DeactivateAll's loop body at slot `i`: removes it when Missing, deactivates it otherwise. */
    method SweepSlot(i: int, ghost s: seq<GameObject?>, ghost live: set<GameObject>)
      requires 0 <= i < |s| && pool == s[..i + 1] + Keep(s[i + 1..], live)
      requires forall o :: o in Keep(s[i + 1..], live) ==> o != null && !o.active
      requires forall o :: o in Objects(s) ==> (o in live <==> !o.destroyed)
      modifies this`pool, Slot(s[i])`active
      ensures pool == s[..i] + Keep(s[i..], live)
      ensures forall o :: o in Keep(s[i..], live) ==> o != null && !o.active
    {
      ghost var rest := Keep(s[i + 1..], live);
      KeepAt(s, i, live);
      SplitSlot(s, rest, i);
      var item := pool[i];
      assert item == s[i] && (Missing(item) <==> !(item != null && item in live));
      if Missing(item) {
        pool := pool[..i] + pool[i + 1..];
      } else {
        item.active := false;
      }
    }

    /** Destroys every live object, empties the pool and marks every slot free. */
    method DestroyAll()
      requires Valid()
      modifies this`pool, this`activeCount, Objects(pool)`destroyed
      ensures Valid() && pool == [] && activeCount == 0
      ensures forall o :: o in old(Objects(pool)) ==> o.destroyed
    {
      for i := 0 to |pool|
        invariant pool == old(pool)
        invariant forall k :: 0 <= k < i ==> pool[k] != null ==> pool[k].destroyed
      {
        if !Missing(pool[i]) {
          pool[i].destroyed := true;
        }
      }
      pool := [];
      activeCount := 0;
    }
  }
}
