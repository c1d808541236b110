/**
 * `ThemeManager`: the `data-theme` attribute of the document element, the
 * toggle that flips it and persists the choice, and the system colour-scheme
 * listener that only applies while no choice is stored.
 */
module Theme {
  import opened Options
  import opened Storage

  /** The storage key of the theme preference. */
  const ThemeKey := "theme"

  /** The theme `toggleTheme` applies: `dark` from `light`, `light` from anything else or nothing. */
  function NextTheme(current: Option<string>): (next: string)
    ensures next == "light" || next == "dark"
    ensures next == "dark" <==> current == Some("light")
  {
    if current == Some("light") then "dark" else "light"
  }

  /** The theme a system preference asks for. */
  function SystemTheme(prefersDark: bool): (theme: string)
    ensures theme == "light" || theme == "dark"
    ensures theme == "dark" <==> prefersDark
  {
    if prefersDark then "dark" else "light"
  }

  /** The attribute after a colour-scheme change event, given what is stored under `theme`. */
  function AfterSystemChange(stored: Option<string>, current: Option<string>, prefersDark: bool): (r: Option<string>)
    ensures Truthy(stored) ==> r == current
    ensures !Truthy(stored) ==> r == Some(SystemTheme(prefersDark))
  {
    if Truthy(stored) then current else Some(SystemTheme(prefersDark))
  }

  /** The attribute after a run of colour-scheme change events. */
  function AfterSystemChanges(stored: Option<string>, current: Option<string>, events: seq<bool>): Option<string>
    decreases |events|
  {
    if events == [] then current
    else AfterSystemChanges(stored, AfterSystemChange(stored, current, events[0]), events[1..])
  }

  /** Once a choice is stored, no run of system changes moves the theme. */
  lemma {:induction false} StoredChoiceWins(stored: Option<string>, current: Option<string>, events: seq<bool>)
    requires Truthy(stored)
    ensures AfterSystemChanges(stored, current, events) == current
    decreases |events|
  {
    if events != [] {
      StoredChoiceWins(stored, current, events[1..]);
    }
  }

  /** With nothing stored, the theme follows the last system change. */
  lemma {:induction false} UnstoredFollowsSystem(stored: Option<string>, current: Option<string>, events: seq<bool>)
    requires !Truthy(stored) && events != []
    ensures AfterSystemChanges(stored, current, events) == Some(SystemTheme(events[|events| - 1]))
    decreases |events|
  {
    if |events| > 1 {
      UnstoredFollowsSystem(stored, AfterSystemChange(stored, current, events[0]), events[1..]);
    }
  }

  /** Toggling twice from a supported theme, or from none, lands on a fixed theme. */
  lemma ToggleTwice(current: Option<string>)
    ensures current == Some("light") || current == Some("dark") ==> NextTheme(Some(NextTheme(current))) == current.value
    ensures current == None ==> NextTheme(Some(NextTheme(current))) == "dark"
  {
  }

  class ThemeManager {
    const store: Store
    /** The `data-theme` attribute of the document element; `None` when absent. */
    var theme: Option<string>

    /** The constructor only wires listeners: it neither reads the store nor applies a theme. */
    constructor (store: Store, theme: Option<string>)
      ensures this.store == store && this.theme == theme
    {
      this.store := store;
      this.theme := theme;
    }

    /** A choice is stored under `theme`, and it is the applied one. */
    predicate Persisted()
      reads this, store
    {
      Truthy(store.GetItem(ThemeKey)) && store.GetItem(ThemeKey) == theme
    }

    method ApplyTheme(t: string)
      modifies this
      ensures theme == Some(t)
    {
      theme := Some(t);
    }

    /** `toggleTheme`: flip the attribute and store the new value. */
    method ToggleTheme()
      modifies this, store
      ensures theme == Some(NextTheme(old(theme)))
      ensures store.items == old(store.items)[ThemeKey := NextTheme(old(theme))]
      ensures Persisted()
    {
      var newTheme := if theme == Some("light") then "dark" else "light";
      ApplyTheme(newTheme);
      store.SetItem(ThemeKey, newTheme);
    }

    /** The `change` listener on `(prefers-color-scheme: dark)`. */
    method OnSystemChange(prefersDark: bool)
      modifies this
      ensures theme == AfterSystemChange(store.GetItem(ThemeKey), old(theme), prefersDark)
      ensures old(Persisted()) ==> Persisted() && theme == old(theme)
    {
      if !Truthy(store.GetItem(ThemeKey)) {
        ApplyTheme(if prefersDark then "dark" else "light");
      }
    }
  }
}
