/**
 * The light/dark theme switch of lotto.js: `setTheme`, `initTheme` and
 * `toggleTheme`.
 *
 * The page state the source writes is a class: the `data-theme` attribute of
 * the root element, the `theme` entry of local storage, and the icon shown on
 * the toggle button. The saved entry and the colour-scheme preference are
 * inputs; the choice of the next theme is a pair of pure functions.
 */
module Theme {
  import opened Wrappers

  const Dark := "dark"
  const Light := "light"

  /** The icon on the toggle button: a sun offers the light theme, a moon the dark one. */
  datatype Icon = SunIcon | MoonIcon

  /** `root.getAttribute("data-theme") || "light"`: a missing attribute, and the
      empty string, which JavaScript treats as false, read as light. */
  function CurrentTheme(attr: Option<string>): (t: string)
    ensures t != ""
    ensures attr.Some? && attr.value != "" ==> t == attr.value
    ensures attr.None? || attr == Some("") ==> t == Light
  {
    if attr.Some? && attr.value != "" then attr.value else Light
  }

  /** The theme `toggleTheme` switches to: light from dark, dark from anything else. */
  function ToggleTarget(attr: Option<string>): (t: string)
    ensures t == Dark || t == Light
    ensures t == Light <==> attr == Some(Dark)
  {
    if CurrentTheme(attr) == Dark then Light else Dark
  }

  /** The icon `setTheme` shows for a theme. */
  function IconFor(theme: string): (i: Icon)
    ensures i == SunIcon <==> theme == Dark
  {
    if theme == Dark then SunIcon else MoonIcon
  }

  /** A saved theme `initTheme` accepts as it is. */
  predicate Known(saved: Option<string>)
  {
    saved == Some(Dark) || saved == Some(Light)
  }

  /** The theme `initTheme` applies: a saved "dark" or "light" as saved,
      otherwise dark exactly when the system prefers a dark colour scheme. */
  function InitialTheme(saved: Option<string>, prefersDark: bool): (t: string)
    ensures t == Dark || t == Light
    ensures Known(saved) ==> saved == Some(t)
    ensures !Known(saved) ==> (t == Dark <==> prefersDark)
  {
    if Known(saved) then saved.value
    else if prefersDark then Dark else Light
  }

  /** Toggling twice from either theme comes back to it. */
  lemma ToggleTwice(t: string)
    requires t == Dark || t == Light
    ensures ToggleTarget(Some(ToggleTarget(Some(t)))) == t
  {
  }

  /** Once `initTheme` has saved its choice, running it again keeps that
      choice, whatever the colour-scheme preference has become. */
  lemma InitStable(saved: Option<string>, prefersDark: bool, laterPrefersDark: bool)
    ensures InitialTheme(Some(InitialTheme(saved, prefersDark)), laterPrefersDark)
            == InitialTheme(saved, prefersDark)
  {
  }

  /** The root element, the local storage entry and the toggle button. */
  class Page {
    var dataTheme: Option<string>
    var storedTheme: Option<string>
    var icon: Icon

    constructor (attr: Option<string>, stored: Option<string>, shown: Icon)
      ensures dataTheme == attr && storedTheme == stored && icon == shown
    {
      dataTheme := attr;
      storedTheme := stored;
      icon := shown;
    }

    /** The theme is applied everywhere at once. */
    predicate Applied(theme: string)
      reads this
    {
      dataTheme == Some(theme) && storedTheme == Some(theme) && icon == IconFor(theme)
    }

    method SetTheme(theme: string)
      modifies this
      ensures Applied(theme)
      ensures icon == SunIcon <==> theme == Dark
    {
      dataTheme := Some(theme);
      storedTheme := Some(theme);
      icon := IconFor(theme);
    }

    method InitTheme(prefersDark: bool)
      modifies this
      ensures Applied(InitialTheme(old(storedTheme), prefersDark))
    {
      var savedTheme := storedTheme;
      if savedTheme == Some(Dark) || savedTheme == Some(Light) {
        SetTheme(savedTheme.value);
        return;
      }
      SetTheme(if prefersDark then Dark else Light);
    }

    method ToggleTheme()
      modifies this
      ensures Applied(ToggleTarget(old(dataTheme)))
      ensures Applied(Light) <==> old(dataTheme) == Some(Dark)
    {
      var currentTheme := CurrentTheme(dataTheme);
      SetTheme(if currentTheme == Dark then Light else Dark);
    }
  }
}
