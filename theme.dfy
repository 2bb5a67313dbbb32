/**
 * `useTheme` (src/App.jsx:63-90): the initial theme, the toggle, and the effect that puts
 * the theme on the document root and persists it. `localStorage` and `matchMedia` are
 * inputs; the root's class list and the stored value are fields.
 */
module Theme {
  import opened Wrappers

  /**
   * The initial theme: a stored value wins when it is non-empty, otherwise the colour-scheme
   * preference, otherwise (no window) "light".
   */
  function InitialTheme(hasWindow: bool, stored: Option<string>, prefersDark: bool): (t: string)
    ensures t != ""
    ensures hasWindow && stored.Some? && stored.value != "" ==> t == stored.value
    ensures !(hasWindow && stored.Some? && stored.value != "") ==>
      (t == "dark" || t == "light") && (t == "dark" <==> hasWindow && prefersDark)
  {
    if hasWindow then
      if stored.Some? && stored.value != "" then stored.value
      else if prefersDark then "dark" else "light"
    else "light"
  }

  /** `prev === 'light' ? 'dark' : 'light'` */
  function Toggled(t: string): (r: string)
    ensures r == "dark" || r == "light"
    ensures r == "dark" <==> t == "light"
  {
    if t == "light" then "dark" else "light"
  }

  /** Toggling is an involution on the two themes and always changes the theme. */
  lemma ToggleInvolution(t: string)
    requires t == "light" || t == "dark"
    ensures Toggled(Toggled(t)) == t && Toggled(t) != t
  {
  }

  /** The effect on the root's class list: exactly one of dark/light, dark iff the theme is "dark"; other classes kept. */
  function RootClasses(classes: set<string>, theme: string): (r: set<string>)
    ensures "dark" in r <==> theme == "dark"
    ensures "light" in r <==> theme != "dark"
    ensures r - {"dark", "light"} == classes - {"dark", "light"}
  {
    if theme == "dark" then classes + {"dark"} - {"light"} else classes - {"dark"} + {"light"}
  }

  class ThemeState {
    var theme: string
    var rootClasses: set<string>
    var stored: Option<string>

    /** The theme is never empty, so once stored it takes precedence on the next visit. */
    ghost predicate Valid()
      reads this
    {
      theme != ""
    }

    constructor (hasWindow: bool, stored: Option<string>, prefersDark: bool, rootClasses: set<string>)
      ensures Valid()
      ensures theme == InitialTheme(hasWindow, stored, prefersDark)
      ensures this.stored == stored && this.rootClasses == rootClasses
    {
      theme := InitialTheme(hasWindow, stored, prefersDark);
      this.stored := stored;
      this.rootClasses := rootClasses;
    }

    /** `toggleTheme` */
    method ToggleTheme()
      modifies this`theme
      ensures Valid()
      ensures theme == Toggled(old(theme))
    {
      theme := Toggled(theme);
    }

    /** The effect that runs whenever the theme changes. */
    method ApplyTheme()
      requires Valid()
      modifies this`rootClasses, this`stored
      ensures Valid()
      ensures rootClasses == RootClasses(old(rootClasses), theme)
      ensures "dark" in rootClasses <==> theme == "dark"
      ensures "light" in rootClasses <==> theme != "dark"
      ensures stored == Some(theme)
      // a later visit, whatever its colour-scheme preference, starts with the stored theme
      ensures forall prefersDark: bool :: InitialTheme(true, stored, prefersDark) == theme
    {
      if theme == "dark" {
        rootClasses := rootClasses + {"dark"};
        rootClasses := rootClasses - {"light"};
      } else {
        rootClasses := rootClasses - {"dark"};
        rootClasses := rootClasses + {"light"};
      }
      stored := Some(theme);
    }
  }
}
