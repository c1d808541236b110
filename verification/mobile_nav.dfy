/**
 * `MobileNav`: the "active" marker on the menu toggle and on the link panel.
 * Each element may be missing from the page (`None`), and then every
 * operation on it is a no-op, as optional chaining makes it in the source.
 */
module Navigation {
  import opened Options

  /** The markers: `Some(b)` when the element exists and `b` says whether it carries "active". */
  datatype MenuState = MenuState(toggle: Option<bool>, panel: Option<bool>)

  /** Where a click on the document landed. */
  datatype Region = ToggleControl | LinkPanel | Elsewhere

  /** `classList.toggle('active')` on an element that may be missing. */
  function Flip(m: Option<bool>): (r: Option<bool>)
    ensures r.Some? == m.Some?
    ensures r.Some? ==> r.value != m.value
  {
    if m.Some? then Some(!m.value) else None
  }

  /** `classList.remove('active')` on an element that may be missing. */
  function Clear(m: Option<bool>): (r: Option<bool>)
    ensures r.Some? == m.Some?
    ensures r != Some(true)
  {
    if m.Some? then Some(false) else None
  }

  /** `isMenuOpen`: the panel exists and carries the marker. */
  predicate IsOpen(s: MenuState)
    ensures IsOpen(s) ==> s.panel.Some?
  {
    s.panel == Some(true)
  }

  /** The two markers agree whenever both elements exist. */
  predicate InSync(s: MenuState)
  {
    s.toggle.Some? && s.panel.Some? ==> s.toggle == s.panel
  }

  /** `toggleMenu`: flip both markers. */
  function Toggled(s: MenuState): (r: MenuState)
    ensures r.toggle.Some? == s.toggle.Some? && r.panel.Some? == s.panel.Some?
    ensures InSync(s) ==> InSync(r)
    ensures IsOpen(r) <==> s.panel == Some(false)
  {
    MenuState(Flip(s.toggle), Flip(s.panel))
  }

  /** `closeMenu`: clear both markers. */
  function Closed(s: MenuState): (r: MenuState)
    ensures r.toggle.Some? == s.toggle.Some? && r.panel.Some? == s.panel.Some?
    ensures !IsOpen(r) && InSync(r)
    ensures Clear(r.toggle) == r.toggle && Clear(r.panel) == r.panel
  {
    MenuState(Clear(s.toggle), Clear(s.panel))
  }

  /** `isClickInside(target)`: the target lies in an element that exists. */
  predicate IsInside(s: MenuState, target: Region)
    ensures target == Elsewhere ==> !IsInside(s, target)
    ensures s.toggle == None && s.panel == None ==> !IsInside(s, target)
  {
    (target == LinkPanel && s.panel.Some?) || (target == ToggleControl && s.toggle.Some?)
  }

  /** The document `click` listener: close an open menu on a click outside it. */
  function AfterDocumentClick(s: MenuState, target: Region): (r: MenuState)
    ensures IsInside(s, target) ==> r == s
    ensures !IsOpen(s) ==> r == s
    ensures IsOpen(s) && !IsInside(s, target) ==> r == Closed(s) && !IsOpen(r)
  {
    if IsOpen(s) && !IsInside(s, target) then Closed(s) else s
  }

  /** The document `keydown` listener: Escape closes an open menu. */
  function AfterKey(s: MenuState, key: string): (r: MenuState)
    ensures key != "Escape" ==> r == s
    ensures !IsOpen(s) ==> r == s
    ensures key == "Escape" && IsOpen(s) ==> r == Closed(s) && !IsOpen(r)
  {
    if key == "Escape" && IsOpen(s) then Closed(s) else s
  }

  /** Closing is idempotent. */
  lemma CloseIdempotent(s: MenuState)
    ensures Closed(Closed(s)) == Closed(s)
  {
  }

  /** Toggling twice restores both markers. */
  lemma ToggleTwice(s: MenuState)
    ensures Toggled(Toggled(s)) == s
  {
  }

  /** Every event leaves the markers in sync if they were. */
  lemma EventsKeepSync(s: MenuState, target: Region, key: string)
    requires InSync(s)
    ensures InSync(Toggled(s)) && InSync(Closed(s))
    ensures InSync(AfterDocumentClick(s, target)) && InSync(AfterKey(s, key))
  {
  }

  class MobileNav {
    var toggle: Option<bool>
    var panel: Option<bool>

    function State(): MenuState
      reads this
    {
      MenuState(toggle, panel)
    }

    constructor (toggle: Option<bool>, panel: Option<bool>)
      ensures State() == MenuState(toggle, panel)
    {
      this.toggle := toggle;
      this.panel := panel;
    }

    function IsMenuOpen(): (r: bool)
      reads this
      ensures r ==> panel.Some?
    {
      IsOpen(State())
    }

    method ToggleMenu()
      modifies this
      ensures State() == Toggled(old(State()))
    {
      panel := Flip(panel);
      toggle := Flip(toggle);
    }

    method CloseMenu()
      modifies this
      ensures State() == Closed(old(State()))
    {
      panel := Clear(panel);
      toggle := Clear(toggle);
    }

    /** A click on the toggle control; it stops propagation, so the document listener does not see it. */
    method OnToggleClick()
      modifies this
      ensures State() == Toggled(old(State()))
    {
      ToggleMenu();
    }

    /** The document `click` listener. */
    method OnDocumentClick(target: Region)
      modifies this
      ensures State() == AfterDocumentClick(old(State()), target)
    {
      if IsMenuOpen() && !IsInside(State(), target) {
        CloseMenu();
      }
    }

    /**
     * A click on a link in the panel: its own listener closes the menu, then
     * the click bubbles to the document listener, which finds the menu closed.
     */
    method OnLinkClick()
      requires panel.Some?
      modifies this
      ensures State() == Closed(old(State()))
    {
      CloseMenu();
      OnDocumentClick(LinkPanel);
    }

    /** The document `keydown` listener. */
    method OnKeyDown(key: string)
      modifies this
      ensures State() == AfterKey(old(State()), key)
    {
      if key == "Escape" && IsMenuOpen() {
        CloseMenu();
      }
    }
  }
}
