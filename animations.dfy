/** `initAnimations` (js/main.js:82-107): elements tagged for an entrance
    animation gain the "visible" class once and keep it. */
module Animations {

  /** One IntersectionObserver entry: which element, and whether it intersects. */
  datatype Entry = Entry(target: nat, isIntersecting: bool)

  /** Some entry of the batch reports element `k` as intersecting. */
  predicate Hit(entries: seq<Entry>, k: nat) {
    exists j :: 0 <= j < |entries| && entries[j].target == k && entries[j].isIntersecting
  }

  /** The animated elements, by index, with their "visible" class and whether
      the observer still watches them. */
  class Animator {
    const visible: array<bool>
    const observed: array<bool>

    /** Every element is either revealed already or still watched, so none is
        left hidden for good. */
    ghost predicate Valid()
      reads this, visible, observed
    {
      visible != observed && visible.Length == observed.Length &&
      forall k :: 0 <= k < visible.Length ==> visible[k] || observed[k]
    }

    /** Page load. With IntersectionObserver every element is observed; without
        it every element is marked visible at once. */
    constructor Init(n: nat, observerAvailable: bool)
      ensures Valid() && fresh(visible) && fresh(observed) && visible.Length == n
      ensures observerAvailable ==> forall k :: 0 <= k < n ==> observed[k] && !visible[k]
      ensures !observerAvailable ==> forall k :: 0 <= k < n ==> visible[k] && !observed[k]
    {
      var vis := new bool[n](_ => false);
      var obs := new bool[n](_ => observerAvailable);
      visible, observed := vis, obs;
      new;
      if !observerAvailable {
        MarkAllVisible();
      }
    }

    /** The fallback loop (js/main.js:103-105). */
    method MarkAllVisible()
      requires visible != observed
      modifies visible
      ensures forall k :: 0 <= k < visible.Length ==> visible[k]
    {
      var i := 0;
      while i < visible.Length
        invariant 0 <= i <= visible.Length
        invariant forall k :: 0 <= k < i ==> visible[k]
      {
        visible[i] := true;
        i := i + 1;
      }
    }

    /** The observer's callback on a batch of entries (js/main.js:86-92): an
        intersecting element becomes visible and is no longer observed. */
    method OnEntries(entries: seq<Entry>)
      requires Valid()
      requires forall j :: 0 <= j < |entries| ==> entries[j].target < visible.Length
      modifies visible, observed
      ensures Valid()
      ensures forall k :: 0 <= k < visible.Length ==>
        visible[k] == (old(visible[k]) || Hit(entries, k))
      ensures forall k :: 0 <= k < observed.Length ==>
        observed[k] == (old(observed[k]) && !Hit(entries, k))
    {
      var i := 0;
      while i < |entries|
        invariant 0 <= i <= |entries|
        invariant forall k :: 0 <= k < visible.Length ==>
          visible[k] == (old(visible[k]) || Hit(entries[..i], k))
        invariant forall k :: 0 <= k < observed.Length ==>
          observed[k] == (old(observed[k]) && !Hit(entries[..i], k))
      {
        var e := entries[i];
        if e.isIntersecting {
          visible[e.target] := true;
          observed[e.target] := false;
        }
        forall k | 0 <= k < visible.Length
          ensures Hit(entries[..i + 1], k) == (Hit(entries[..i], k) || (e.target == k && e.isIntersecting))
        {
          assert entries[..i + 1][i] == e;
          if Hit(entries[..i], k) {
            var j :| 0 <= j < i && entries[..i][j].target == k && entries[..i][j].isIntersecting;
            assert entries[..i + 1][j] == entries[..i][j];
          }
          if Hit(entries[..i + 1], k) {
            var j :| 0 <= j < i + 1 && entries[..i + 1][j].target == k && entries[..i + 1][j].isIntersecting;
            if j < i { assert entries[..i][j] == entries[..i + 1][j]; }
          }
        }
        i := i + 1;
      }
      assert entries[..|entries|] == entries;
    }
  }
}
