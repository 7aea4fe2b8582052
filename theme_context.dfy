/** `ThemeProvider` of the theme-dark-light module: a theme name initialised from storage, a
    toggle, and an effect that writes the name back to storage and to the `data-theme`
    attribute. */
module ThemeContext {
  import opened Wrappers
  import opened Browser
  import opened ThemeNames

  const DataTheme := "data-theme"

  /** `lightTheme` and `darkTheme`; their colours are not part of this model. */
  datatype Palette = LightPalette | DarkPalette

  /** `savedTheme || 'light'`: any non-empty stored value is taken as it is. */
  function InitialTheme(saved: Option<string>): (t: string)
    ensures t != ""
    ensures saved.Some? && saved.value != "" ==> t == saved.value
    ensures saved.None? || saved.value == "" ==> t == Light
  {
    if saved.Some? && saved.value != "" then saved.value else Light
  }

  /** `theme === 'dark' ? darkTheme : lightTheme` */
  function PaletteFor(theme: string): (p: Palette)
    ensures p == DarkPalette <==> theme == Dark
  {
    if theme == Dark then DarkPalette else LightPalette
  }

  /** An unrecognised stored theme renders the light palette, but toggles to light, not dark. */
  lemma UnknownStoredTheme(saved: string)
    requires saved != "" && saved != Light && saved != Dark
    ensures PaletteFor(InitialTheme(Some(saved))) == LightPalette
    ensures Toggled(InitialTheme(Some(saved))) == Light
  {
  }

  class ThemeContextProvider {
    var theme: string

    /** Storage and the root element hold the current theme. */
    predicate Synced(storage: Storage, root: Element)
      reads this, storage, root
    {
      storage.GetItem(ThemeKey) == Some(theme) && DataTheme in root.attributes
      && root.attributes[DataTheme] == theme
    }

    /** The lazy `useState` initialiser. */
    constructor (storage: Storage)
      ensures theme == InitialTheme(storage.GetItem(ThemeKey))
    {
      var savedTheme := storage.GetItem(ThemeKey);
      theme := InitialTheme(savedTheme);
    }

    /** `toggleTheme` */
    method ToggleTheme()
      modifies this
      ensures theme == Toggled(old(theme))
    {
      theme := Toggled(theme);
    }

    /** The effect on `[theme]`. */
    method SyncEffect(storage: Storage, root: Element)
      modifies storage, root
      ensures storage.items == old(storage.items)[ThemeKey := theme]
      ensures root.attributes == old(root.attributes)[DataTheme := theme]
      ensures Synced(storage, root)
    {
      storage.SetItem(ThemeKey, theme);
      root.SetAttribute(DataTheme, theme);
    }

    /** `currentTheme` */
    function CurrentTheme(): (p: Palette)
      reads this
      ensures p == DarkPalette <==> theme == Dark
    {
      PaletteFor(theme)
    }

    /** A toggle followed by the effect it triggers: the name always changes, so the effect runs
        and leaves storage and attribute holding the new name. */
    method ToggleAndSync(storage: Storage, root: Element)
      modifies this, storage, root
      ensures theme == Toggled(old(theme)) && theme != old(theme)
      ensures storage.items == old(storage.items)[ThemeKey := theme]
      ensures root.attributes == old(root.attributes)[DataTheme := theme]
      ensures Synced(storage, root)
    {
      ToggleChanges(theme);
      ToggleTheme();
      SyncEffect(storage, root);
    }
  }

  /** The first render: the initial theme is read, then the effect writes it back. */
  method Mount(storage: Storage, root: Element) returns (provider: ThemeContextProvider)
    modifies storage, root
    ensures fresh(provider)
    ensures provider.theme == InitialTheme(old(storage.GetItem(ThemeKey)))
    ensures provider.Synced(storage, root)
  {
    provider := new ThemeContextProvider(storage);
    provider.SyncEffect(storage, root);
  }
}
