/**
 * The little of Unity's GameObject that the wall pools rely on: an object
 * is active or not, and it can be destroyed, after which Unity's `== null`
 * holds of it. Instantiating a prefab and creating a primitive cube both
 * give a fresh, active, live object; names, transforms and parents are not
 * part of this model.
 */
module Scene {

  class GameObject {
    /** `activeSelf`, set by SetActive. */
    var active: bool
    /** Set by DestroyImmediate. */
    var destroyed: bool

    /** A new object as the pools' CreateNew leaves it: active and alive. */
    constructor()
      ensures active && !destroyed
    {
      active := true;
      destroyed := false;
    }
  }

  /** The object in a slot, as a set (empty for a null slot). */
  function Slot(o: GameObject?): set<GameObject>
  {
    if o == null then {} else {o}
  }

  /** Unity's `o == null`: the slot holds no reference, or the object was destroyed. */
  predicate Missing(o: GameObject?)
    reads Slot(o)`destroyed
  {
    o == null || o.destroyed
  }

  /** The objects referenced from a list of slots. */
  function Objects(s: seq<GameObject?>): set<GameObject>
  {
    set o: GameObject | o in s
  }

  /** The slots of `s` that are not Missing, in their original order. */
  function Present(s: seq<GameObject?>): (r: seq<GameObject?>)
    reads Objects(s)`destroyed
    ensures |r| <= |s|
    ensures forall k :: 0 <= k < |r| ==> r[k] in s && !Missing(r[k])
    ensures forall k :: 0 <= k < |s| && !Missing(s[k]) ==> s[k] in r
    decreases |s|
  {
    if s == [] then []
    else
      var rest := Present(s[1..]);
      assert forall k :: 1 <= k < |s| ==> s[k] == s[1..][k - 1];
      if Missing(s[0]) then rest else [s[0]] + rest
  }

  /** The live (not destroyed) objects referenced from `s`. */
  ghost function Live(s: seq<GameObject?>): set<GameObject>
    reads Objects(s)`destroyed
  {
    set o | o in Objects(s) && !o.destroyed
  }

  /** The slots of `s` holding an object of `live`, in order: Present with the live set fixed. */
  function Keep(s: seq<GameObject?>, live: set<GameObject>): (r: seq<GameObject?>)
    ensures forall k :: 0 <= k < |r| ==> r[k] != null && r[k] in live && r[k] in s
  {
    if s == [] then []
    else if s[0] != null && s[0] in live then [s[0]] + Keep(s[1..], live)
    else Keep(s[1..], live)
  }

  /** Present filters by the live set of the whole list. */
  lemma {:induction false} PresentIsKeep(s: seq<GameObject?>, t: seq<GameObject?>)
    requires forall k :: 0 <= k < |t| ==> t[k] in s
    ensures Present(t) == Keep(t, Live(s))
    decreases |t|
  {
    if t != [] {
      PresentIsKeep(s, t[1..]);
    }
  }

  /** Filtering distributes over concatenation, so the survivors keep their order. */
  lemma {:induction false} PresentAppend(s: seq<GameObject?>, t: seq<GameObject?>)
    ensures Present(s + t) == Present(s) + Present(t)
    decreases |s|
  {
    if s == [] {
      assert s + t == t;
    } else {
      assert (s + t)[1..] == s[1..] + t;
      PresentAppend(s[1..], t);
    }
  }

  /** A list without Missing slots is left as it is. */
  lemma {:induction false} PresentKeepsLive(s: seq<GameObject?>)
    requires forall k :: 0 <= k < |s| ==> !Missing(s[k])
    ensures Present(s) == s
    decreases |s|
  {
    if s != [] {
      PresentKeepsLive(s[1..]);
    }
  }

  /** Keep at slot `i` of `s`: that slot if it holds a live object, then the rest. */
  lemma KeepAt(s: seq<GameObject?>, i: int, live: set<GameObject>)
    requires 0 <= i < |s|
    ensures Keep(s[i..], live) == (if s[i] != null && s[i] in live then [s[i]] else []) + Keep(s[i + 1..], live)
  {
    assert s[i..][1..] == s[i + 1..];
  }

  /** Slot `i` of `s[..i + 1] + rest`, and the list without it. */
  lemma SplitSlot<T>(s: seq<T>, rest: seq<T>, i: int)
    requires 0 <= i < |s|
    ensures (s[..i + 1] + rest)[i] == s[i]
    ensures (s[..i + 1] + rest)[..i] + (s[..i + 1] + rest)[i + 1..] == s[..i] + rest
    ensures s[..i + 1] + rest == s[..i] + ([s[i]] + rest)
  {
    var p := s[..i + 1] + rest;
    assert p[..i] == s[..i];
    assert p[i + 1..] == rest;
  }
}
