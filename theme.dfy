/** The light/dark theme: the start-up choice, the toggle, and the toggle
    button's pressed state and icon. */
module Theme {
  import opened Dom

  const Dark: string := "dark"
  const Light: string := "light"

  /** The storage key both variants persist the theme under. */
  const ThemeKey: string := "theme"

  const SunIcon: string := "fa-sun"
  const MoonIcon: string := "fa-moon"

  /** JavaScript truthiness of a string that may be `null`. */
  predicate Truthy(s: Option<string>) {
    s.Some? && s.value != ""
  }

  /** `localStorage.getItem(key)`: `null` when the key was never set. */
  function Saved(storage: map<string, string>, key: string): Option<string> {
    if key in storage then Some(storage[key]) else None
  }

  /** `saved || (prefersDark ? 'dark' : 'light')`: a truthy saved value wins
      whatever it is; otherwise the environment's preference decides. */
  function InitialTheme(saved: Option<string>, prefersDark: bool): (t: string)
    ensures Truthy(saved) ==> t == saved.value
    ensures !Truthy(saved) ==> (t == Dark <==> prefersDark) && (t == Dark || t == Light)
  {
    if Truthy(saved) then saved.value else if prefersDark then Dark else Light
  }

  /** `(getAttribute('data-theme') || 'light') === 'dark' ? 'light' : 'dark'`:
      only a current `dark` turns light; anything else, unset included,
      turns dark. */
  function ToggledTheme(attr: Option<string>): (next: string)
    ensures next == Light <==> attr == Some(Dark)
    ensures next == Dark || next == Light
  {
    var current := if Truthy(attr) then attr.value else Light;
    if current == Dark then Light else Dark
  }

  /** Toggling twice restores the theme exactly when it was one of the two
      themes; a foreign saved value comes back as `light`. */
  lemma ToggleTwice(t: string)
    ensures ToggledTheme(Some(ToggledTheme(Some(t)))) == t <==> t == Dark || t == Light
    ensures ToggledTheme(Some(ToggledTheme(Some(t)))) == (if t == Dark then Dark else Light)
  {
  }

  /** `String(theme === "dark")`: the button's `aria-pressed` value. */
  function AriaPressed(theme: string): (v: string)
    ensures v == "true" <==> theme == Dark
    ensures v == "true" || v == "false"
  {
    if theme == Dark then "true" else "false"
  }

  /** The icon's class list after `applyTheme`: both theme icons removed,
      then the sun for dark and the moon otherwise added back. */
  function ThemeIcon(classes: set<string>, theme: string): (r: set<string>)
    ensures SunIcon in r <==> theme == Dark
    ensures MoonIcon in r <==> theme != Dark
    ensures forall c :: c != SunIcon && c != MoonIcon ==> (c in r <==> c in classes)
  {
    classes - {SunIcon, MoonIcon} + {if theme == Dark then SunIcon else MoonIcon}
  }
}
