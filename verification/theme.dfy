/**
 The light/dark theme switch of script.js: `setTheme` applies the `dark-theme`
 class, stores the choice under the `theme` key and relabels the toggle button;
 page load resolves the stored choice against the system preference, and the
 toggle flips the theme. Storage, the body class and the button are fields of
 `Page`; the system preference is an input.
 */
module ThemeController {
  import opened Wrappers

  datatype Theme = Light | Dark

  /** The values `setTheme` writes to storage. */
  const DarkValue := "dark"
  const LightValue := "light"

  /** Toggle labels: shown in the dark theme, the button offers the light one and vice versa. */
  const OfferLight := "Светлая Тема"
  const OfferDark := "Темная Тема"

  /** The body's `dark-theme` class, the stored `theme` value, and the toggle
      button's label (`None` when the page has no toggle button). */
  datatype Page = Page(darkClass: bool, stored: Option<string>, toggle: Option<string>)

  function Opposite(th: Theme): Theme
  {
    match th
    case Light => Dark
    case Dark => Light
  }

  /** The theme the page shows. */
  function Shown(pg: Page): Theme
  {
    if pg.darkClass then Dark else Light
  }

  /** The theme a toggle label offers to switch to. */
  function Offered(text: string): Option<Theme>
  {
    if text == OfferLight then Some(Light)
    else if text == OfferDark then Some(Dark)
    else None
  }

  /** The storage value and label that go with a theme. */
  function ValueOf(th: Theme): string
  {
    match th
    case Dark => DarkValue
    case Light => LightValue
  }

  /** JavaScript truthiness of `localStorage.getItem('theme')`: `null` and `""` are false. */
  predicate Truthy(saved: Option<string>)
  {
    saved.Some? && saved.value != ""
  }

  /** `setTheme(value)`: exactly `"dark"` selects the dark theme; any other value
      selects the light one and is stored as `"light"`. */
  function SetTheme(pg: Page, value: string): (r: Page)
    ensures Shown(r) == (if value == DarkValue then Dark else Light)
    ensures r.stored == Some(ValueOf(Shown(r)))
    ensures r.toggle.Some? <==> pg.toggle.Some?
    ensures r.toggle.Some? ==> Offered(r.toggle.value) == Some(Opposite(Shown(r)))
  {
    if value == DarkValue then
      Page(true, Some(DarkValue), if pg.toggle.Some? then Some(OfferLight) else None)
    else
      Page(false, Some(LightValue), if pg.toggle.Some? then Some(OfferDark) else None)
  }

  /** A page whose storage and label agree with the shown theme, as `setTheme` leaves it. */
  predicate Settled(pg: Page)
  {
    && pg.stored == Some(ValueOf(Shown(pg)))
    && (pg.toggle.Some? ==> Offered(pg.toggle.value) == Some(Opposite(Shown(pg))))
  }

  /** Page load: the value stored under `theme` wins when it is truthy, then the
      system preference, then light. */
  function Init(pg: Page, prefersDark: bool): (r: Page)
    ensures Truthy(pg.stored) ==> Shown(r) == (if pg.stored.value == DarkValue then Dark else Light)
    ensures !Truthy(pg.stored) && prefersDark ==> Shown(r) == Dark
    ensures !Truthy(pg.stored) && !prefersDark ==> Shown(r) == Light
    ensures r.toggle.Some? <==> pg.toggle.Some?
    ensures Settled(r)
  {
    if Truthy(pg.stored) then SetTheme(pg, pg.stored.value)
    else if prefersDark then SetTheme(pg, DarkValue)
    else SetTheme(pg, LightValue)
  }

  /** A reload: storage persists, while the body class and the toggle come back
      as the page's markup has them. */
  function Reload(pg: Page, markup: Page): Page
  {
    markup.(stored := pg.stored)
  }

  /** The toggle's click handler: the theme opposite to the `dark-theme` class. */
  function Toggle(pg: Page): (r: Page)
    ensures Shown(r) == Opposite(Shown(pg))
    ensures Settled(r)
    ensures r.toggle.Some? <==> pg.toggle.Some?
  {
    SetTheme(pg, if pg.darkClass then LightValue else DarkValue)
  }

  /** A stored value other than `"dark"` behaves exactly like `"light"`. */
  lemma NonDarkIsLight(pg: Page, value: string)
    requires value != DarkValue
    ensures SetTheme(pg, value) == SetTheme(pg, LightValue)
  {
  }

  /** Two toggles restore a settled page. */
  lemma ToggleInvolution(pg: Page)
    requires Settled(pg)
    ensures Toggle(Toggle(pg)) == pg
  {
  }

  /** A theme once set survives a reload: the stored value brings back the
      same theme, whatever the markup and the system preference. */
  lemma ReloadKeepsTheme(pg: Page, value: string, markup: Page, prefersDark: bool)
    ensures Shown(Init(Reload(SetTheme(pg, value), markup), prefersDark)) == Shown(SetTheme(pg, value))
  {
  }
}
