/**
 * `ScrollEffects`: the navbar's "scrolled" marker, updated at most once per
 * animation frame behind the `ticking` guard, and the one-shot reveal of the
 * animated cards as they come into view.
 */
module Scrolling {
  import opened Options

  /** `window.scrollY > 20`: the navbar counts as scrolled past 20 pixels. */
  predicate IsScrolled(scrollY: real)
  {
    scrollY > 20.0
  }

  /** The two offsets the navbar rule is usually illustrated with. */
  lemma ThresholdExamples()
    ensures !IsScrolled(19.0) && !IsScrolled(20.0) && IsScrolled(20.5) && IsScrolled(21.0)
  {
  }

  /** The animated elements, by their index in document order. */
  function Elements(count: nat): (s: set<nat>)
    ensures forall i: nat :: i in s <==> i < count
  {
    if count == 0 then {} else Elements(count - 1) + {count - 1}
  }

  /** An intersection observer entry: the element and whether it is in view. */
  datatype Entry = Entry(target: nat, isIntersecting: bool)

  /** The targets of the entries that report an intersection. */
  function Intersecting(entries: seq<Entry>): set<nat>
    decreases |entries|
  {
    if entries == [] then {}
    else
      var last := entries[|entries| - 1];
      Intersecting(entries[..|entries| - 1]) + (if last.isIntersecting then {last.target} else {})
  }

  /** An element is among the intersecting targets exactly when some entry reports it in view. */
  lemma {:induction false} IntersectingMembers(entries: seq<Entry>, t: nat)
    ensures t in Intersecting(entries) <==> exists i :: 0 <= i < |entries| && entries[i] == Entry(t, true)
    decreases |entries|
  {
    if entries != [] {
      var init := entries[..|entries| - 1];
      IntersectingMembers(init, t);
      if t in Intersecting(init) {
        var i :| 0 <= i < |init| && init[i] == Entry(t, true);
        assert entries[i] == Entry(t, true);
      }
      if i :| 0 <= i < |entries| && entries[i] == Entry(t, true) {
        if i < |init| {
          assert init[i] == Entry(t, true);
        }
      }
    }
  }

  class ScrollEffects {
    /** The navbar's "scrolled" marker; `None` when the page has no navbar. */
    var navbar: Option<bool>
    /** The guard: a frame callback has been requested and has not run yet. */
    var ticking: bool
    /** Frame callbacks requested from the browser and not yet run. */
    ghost var pending: nat
    /** How many animated elements the page has. */
    const count: nat
    /** Elements the intersection observer still watches. */
    var observed: set<nat>
    /** Elements styled hidden (opacity 0, shifted down). */
    var hidden: set<nat>
    /** Elements styled revealed (opacity 1, no shift). */
    var revealed: set<nat>

    /**
     * At most one frame callback is pending, and exactly when `ticking`
     * says so; every watched element is still hidden, and no element is
     * both hidden and revealed.
     */
    ghost predicate Valid()
      reads this
    {
      pending <= 1 && (ticking <==> pending == 1) &&
      observed <= hidden && hidden !! revealed
    }

    /** `new ScrollEffects()`: `ticking` starts false and every animated element is hidden and watched. */
    constructor (navbar: Option<bool>, count: nat)
      ensures Valid()
      ensures this.navbar == navbar && this.count == count
      ensures !ticking && pending == 0
      ensures observed == hidden == Elements(count) && revealed == {}
    {
      this.navbar := navbar;
      this.count := count;
      ticking := false;
      pending := 0;
      observed, hidden, revealed := {}, {}, {};
      new;
      ObserveElements();
    }

    /** `observeElements`: hide every animated element and start watching it. */
    method ObserveElements()
      requires Valid()
      modifies this
      ensures Valid()
      ensures observed == old(observed) + Elements(count)
      ensures hidden == old(hidden) + Elements(count)
      ensures revealed == old(revealed) - Elements(count)
      ensures navbar == old(navbar) && ticking == old(ticking) && pending == old(pending)
    {
      for i := 0 to count
        invariant Valid()
        invariant observed == old(observed) + Elements(i)
        invariant hidden == old(hidden) + Elements(i)
        invariant revealed == old(revealed) - Elements(i)
        invariant navbar == old(navbar) && ticking == old(ticking) && pending == old(pending)
      {
        hidden := hidden + {i};
        revealed := revealed - {i};
        observed := observed + {i};
      }
    }

    /** The `scroll` listener: request a frame callback unless one is pending. */
    method OnScroll()
      requires Valid()
      modifies this
      ensures Valid()
      ensures ticking && pending == 1
      ensures old(ticking) ==> pending == old(pending)
      ensures navbar == old(navbar) && observed == old(observed)
      ensures hidden == old(hidden) && revealed == old(revealed)
    {
      if !ticking {
        pending := pending + 1;
        ticking := true;
      }
    }

    /** `handleScroll`: set or clear the navbar marker. */
    method HandleScroll(scrollY: real)
      modifies this
      ensures navbar == (if old(navbar).Some? then Some(IsScrolled(scrollY)) else None)
      ensures ticking == old(ticking) && pending == old(pending)
      ensures observed == old(observed) && hidden == old(hidden) && revealed == old(revealed)
    {
      if navbar.Some? {
        navbar := Some(scrollY > 20.0);
      }
    }

    /** The requested frame callback runs, with the scroll offset at that frame. */
    method OnFrame(scrollY: real)
      requires Valid() && pending == 1
      modifies this
      ensures Valid()
      ensures !ticking && pending == 0
      ensures navbar == (if old(navbar).Some? then Some(IsScrolled(scrollY)) else None)
      ensures observed == old(observed) && hidden == old(hidden) && revealed == old(revealed)
    {
      HandleScroll(scrollY);
      ticking := false;
      pending := pending - 1;
    }

    /**
     * The intersection observer callback: every entry in view is revealed
     * and unwatched; nothing is hidden again and nothing is watched again.
     */
    method OnIntersect(entries: seq<Entry>)
      requires Valid()
      modifies this
      ensures Valid()
      ensures observed == old(observed) - Intersecting(entries)
      ensures hidden == old(hidden) - Intersecting(entries)
      ensures revealed == old(revealed) + Intersecting(entries)
      ensures revealed !! observed
      ensures navbar == old(navbar) && ticking == old(ticking) && pending == old(pending)
    {
      for i := 0 to |entries|
        invariant Valid()
        invariant observed == old(observed) - Intersecting(entries[..i])
        invariant hidden == old(hidden) - Intersecting(entries[..i])
        invariant revealed == old(revealed) + Intersecting(entries[..i])
        invariant navbar == old(navbar) && ticking == old(ticking) && pending == old(pending)
      {
        assert entries[..i + 1][..i] == entries[..i];
        var entry := entries[i];
        if entry.isIntersecting {
          revealed := revealed + {entry.target};
          hidden := hidden - {entry.target};
          observed := observed - {entry.target};
        }
      }
      assert entries[..|entries|] == entries;
    }
  }
}
