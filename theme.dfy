/** The dark-mode button (`initDarkMode`): on load the page takes the stored
    theme, or `light` when none is stored, and every click flips the page's
    `data-theme` attribute between `dark` and `light` and stores the new value. */
module Theme {

  import opened Wrappers
  import opened Storage

  const ThemeKey := "theme"
  const Light := "light"
  const Dark := "dark"

  /** `localStorage.getItem('theme') || 'light'`: a missing or empty stored value
      gives `light`; any other stored value is used as it is. */
  function InitialTheme(stored: Option<string>): (t: string)
    ensures t != ""
    ensures stored.Some? && stored.value != "" ==> t == stored.value
    ensures stored.None? || stored.value == "" ==> t == Light
  {
    if stored.Some? && stored.value != "" then stored.value else Light
  }

  /** `theme === 'dark' ? 'light' : 'dark'` */
  function Toggled(theme: string): (t: string)
    ensures t == Light || t == Dark
    ensures t != theme
    ensures t == Light <==> theme == Dark
  {
    if theme == Dark then Light else Dark
  }

  /** The button's buttonText: a sun while dark, a crescent moon otherwise. */
  function Icon(theme: string): string {
    if theme == Dark then "\U{2600}\U{FE0F}" else "\U{1F319}"
  }

  /** Two clicks restore a `light` or `dark` page. */
  lemma ToggleTwice(theme: string)
    requires theme == Light || theme == Dark
    ensures Toggled(Toggled(theme)) == theme
  {
  }

  /** A stored value other than `light` and `dark` is not restored by two clicks:
      the first click already replaces it by `dark`. */
  lemma ToggleTwiceOther(theme: string)
    requires theme != Light && theme != Dark
    ensures Toggled(Toggled(theme)) == Light
  {
  }

  /** The page with its dark-mode button. */
  class ThemeSwitch {

    /** The `data-theme` attribute of the document element. */
    var dataTheme: string
    /** The button's text. */
    var buttonText: string
    const storage: LocalStorage

    ghost predicate Valid()
      reads this, storage
    {
      storage.Valid() && buttonText == Icon(dataTheme)
    }

    /** Page load: apply the saved theme. The store is only read. */
    constructor (storage: LocalStorage)
      requires storage.Valid()
      ensures Valid() && this.storage == storage
      ensures dataTheme == InitialTheme(storage.GetItem(ThemeKey))
    {
      this.storage := storage;
      var current := InitialTheme(storage.GetItem(ThemeKey));
      dataTheme := current;
      buttonText := Icon(current);
    }

    /** A click: flip the attribute, persist it, relabel the button. */
    method Click()
      requires Valid()
      modifies this, storage
      ensures Valid()
      ensures dataTheme == Toggled(old(dataTheme))
      ensures storage.Model() == old(storage.Model()).SetItem(ThemeKey, dataTheme)
    {
      var newTheme := Toggled(dataTheme);
      dataTheme := newTheme;
      storage.SetItem(ThemeKey, newTheme);
      buttonText := Icon(newTheme);
    }
  }

  /** After a click the stored theme is the page's theme, so the next page load
      comes back with it. */
  lemma ClickSurvivesReload(st: Store, theme: string)
    ensures InitialTheme(st.SetItem(ThemeKey, Toggled(theme)).GetItem(ThemeKey)) == Toggled(theme)
  {
  }
}
