/** The dark/light theme switch (`initTheme` in js/theme.js). Its state lives
    in the page's `data-theme` attribute, the browser's local storage and the
    text of the toggle button's icon. */
module Theme {
  import opened Wrappers

  /** The local-storage key the preference is kept under. */
  const ThemeKey := "theme"
  const Dark := "dark"
  const Light := "light"
  /** The sun shown while the page is dark, and the moon otherwise. */
  const SunIcon := "\U{2600}\U{FE0F}"
  const MoonIcon := "\U{1F319}"

  /** `localStorage.getItem('theme') || 'dark'`: a missing or empty stored
      value falls back to dark; any other stored string is used as it is. */
  function InitialTheme(storage: map<string, string>): (r: string)
    ensures ThemeKey !in storage || storage[ThemeKey] == "" ==> r == Dark
    ensures ThemeKey in storage && storage[ThemeKey] != "" ==> r == storage[ThemeKey]
    ensures r != ""
  {
    if ThemeKey in storage && storage[ThemeKey] != "" then storage[ThemeKey] else Dark
  }

  /** The click handler's transition: dark goes to light, anything else to dark. */
  function Toggled(current: string): (r: string)
    ensures r == Light <==> current == Dark
    ensures r == Dark <==> current != Dark
  {
    if current == Dark then Light else Dark
  }

  /** `updateThemeIcon`'s choice of icon. */
  function IconFor(theme: string): (r: string)
    ensures r == SunIcon <==> theme == Dark
    ensures r == MoonIcon <==> theme != Dark
  {
    if theme == Dark then SunIcon else MoonIcon
  }

  /** From either proper theme, each toggle changes the theme and two toggles
      return to it. */
  lemma ToggleTwice(theme: string)
    requires theme == Dark || theme == Light
    ensures Toggled(theme) != theme
    ensures Toggled(Toggled(theme)) == theme
  {
  }

  /** A stored value other than the two themes toggles to dark first. */
  lemma ToggleFromOther(theme: string)
    requires theme != Dark && theme != Light
    ensures Toggled(theme) == Dark && Toggled(Toggled(theme)) == Light
  {
  }

  class ThemeToggle {
    /** The `data-theme` attribute of the root element, absent until set. */
    var attribute: Option<string>
    /** The browser's local storage. */
    var storage: map<string, string>
    /** The icon element's text, absent until set. */
    var icon: Option<string>
    /** Whether the click handler has been installed. */
    var listening: bool

    /** Once the handler is installed the page shows a theme and its icon. */
    ghost predicate Valid()
      reads this
    {
      listening ==> attribute.Some? && icon == Some(IconFor(attribute.value))
    }

    /** A page before the script runs. */
    constructor (storage: map<string, string>, attribute: Option<string>)
      ensures Valid()
      ensures this.storage == storage && this.attribute == attribute
      ensures icon == None && !listening
    {
      this.storage := storage;
      this.attribute := attribute;
      icon := None;
      listening := false;
    }

    /** `initTheme()`: without the toggle button or its icon element nothing
        happens; otherwise the stored theme (or dark) is applied, its icon
        shown and the click handler installed. Storage is only read. */
    method Init(hasToggle: bool, hasIcon: bool)
      requires Valid()
      modifies this
      ensures Valid()
      ensures !(hasToggle && hasIcon) ==>
                attribute == old(attribute) && icon == old(icon) && listening == old(listening)
      ensures hasToggle && hasIcon ==>
                attribute == Some(InitialTheme(old(storage))) &&
                icon == Some(IconFor(InitialTheme(old(storage)))) && listening
      ensures storage == old(storage)
    {
      if hasToggle && hasIcon {
        var theme := InitialTheme(storage);
        attribute := Some(theme);
        icon := Some(IconFor(theme));
        listening := true;
      }
    }

    /** A click on the toggle button: with the handler installed, the theme
        flips and the new value goes to the attribute, to storage under
        `theme` (no other key changes) and to the icon; otherwise nothing. */
    method Click()
      requires Valid()
      modifies this
      ensures Valid()
      ensures listening == old(listening)
      ensures !old(listening) ==>
                attribute == old(attribute) && storage == old(storage) && icon == old(icon)
      ensures old(listening) ==>
                var next := Toggled(old(attribute).value);
                attribute == Some(next) && storage == old(storage)[ThemeKey := next] &&
                icon == Some(IconFor(next))
    {
      if listening {
        var next := Toggled(attribute.value);
        attribute := Some(next);
        storage := storage[ThemeKey := next];
        icon := Some(IconFor(next));
      }
    }
  }

  /** A worked example: with nothing stored the page starts dark; one click
      makes it light and stores that, a second click makes it dark again. */
  method FirstVisit() returns (initial: string, afterOne: string, storedAfterOne: string, afterTwo: string)
    ensures initial == Dark && afterOne == Light && afterTwo == Dark
    ensures storedAfterOne == Light
  {
    var page := new ThemeToggle(map[], None);
    page.Init(true, true);
    initial := page.attribute.value;
    page.Click();
    afterOne := page.attribute.value;
    storedAfterOne := page.storage[ThemeKey];
    page.Click();
    afterTwo := page.attribute.value;
  }
}
