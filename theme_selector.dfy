/**
 * The theme selector: the theme read from storage at start, the `'fun'` to
 * `'light'` mapping when a theme is chosen, the stored copy, and the page's
 * meta colour. Storage is the `theme` key, `None` when it holds nothing.
 */
module ThemeSelector {
  import opened Wrappers

  const Light: string := "light"
  const Dark: string := "dark"
  const Fun: string := "fun"

  /** The start-up theme: light when storage says light or fun, dark otherwise and without a window. */
  function InitialTheme(hasWindow: bool, stored: Option<string>): (t: string)
    ensures t == Light || t == Dark
  {
    if hasWindow && (stored == Some(Light) || stored == Some(Fun)) then Light else Dark
  }

  lemma InitialThemeLightIff(hasWindow: bool, stored: Option<string>)
    ensures InitialTheme(hasWindow, stored) == Light <==> hasWindow && (stored == Some(Light) || stored == Some(Fun))
    ensures !hasWindow ==> InitialTheme(hasWindow, stored) == Dark
  {
  }

  /** A choice of `'fun'` becomes `'light'`; every other choice stands. */
  function MapTheme(t: string): string {
    if t == Fun then Light else t
  }

  lemma MapThemeCases(t: string)
    ensures MapTheme(Fun) == Light
    ensures t != Fun ==> MapTheme(t) == t
    ensures MapTheme(MapTheme(t)) == MapTheme(t)
    ensures MapTheme(t) != Fun
  {
  }

  /** The `theme-color` meta content. */
  function MetaColor(theme: string): string {
    if theme == Light then "#2a183a" else "#0f766e"
  }

  lemma MetaColorCases(theme: string)
    ensures MetaColor(theme) == "#2a183a" <==> theme == Light
    ensures theme != Light ==> MetaColor(theme) == "#0f766e"
  {
  }

  /** The state of the selector: the active theme and the stored copy. */
  class Selector {
    var theme: string
    var stored: Option<string>
    const hasWindow: bool

    constructor(hasWindow: bool, stored: Option<string>)
      ensures this.hasWindow == hasWindow && this.stored == stored
      ensures theme == InitialTheme(hasWindow, stored)
    {
      this.hasWindow := hasWindow;
      this.stored := stored;
      theme := InitialTheme(hasWindow, stored);
    }

    /** `setTheme`: map the choice, make it active, and store it when there is a window. */
    method SetTheme(t: string)
      modifies this
      ensures theme == MapTheme(t)
      ensures stored == if hasWindow then Some(theme) else old(stored)
    {
      var mapped := MapTheme(t);
      theme := mapped;
      if hasWindow {
        stored := Some(mapped);
      }
    }

    /** The moon icon: switches to dark unless dark is already active. */
    method ClickDark()
      modifies this
      ensures old(theme) == Dark ==> theme == old(theme) && stored == old(stored)
      ensures old(theme) != Dark ==> theme == Dark && stored == if hasWindow then Some(Dark) else old(stored)
    {
      if theme != Dark {
        SetTheme(Dark);
      }
    }

    /** The sun icon: switches to light unless light is already active. */
    method ClickLight()
      modifies this
      ensures old(theme) == Light ==> theme == old(theme) && stored == old(stored)
      ensures old(theme) != Light ==> theme == Light && stored == if hasWindow then Some(Light) else old(stored)
    {
      if theme != Light {
        SetTheme(Light);
      }
    }
  }

  /**
   * Reloading after a choice: a stored light or dark theme comes back as the
   * start-up theme, and so does `'fun'`, as light.
   */
  lemma StoredChoiceSurvivesReload(t: string)
    requires t == Light || t == Dark || t == Fun
    ensures InitialTheme(true, Some(MapTheme(t))) == MapTheme(t)
  {
  }

  /** Any other stored value starts the page dark. */
  lemma OtherStoredValueStartsDark(s: string)
    requires s != Light && s != Fun
    ensures InitialTheme(true, Some(s)) == Dark
  {
  }
}
