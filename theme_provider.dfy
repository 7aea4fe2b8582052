/** `PhobosThemeProvider` of the theme-provider module: the theme name, restored from storage on
    mount and flipped by `toggleTheme`. */
module ThemeProvider {
  import opened Wrappers
  import opened Browser
  import opened ThemeNames

  /** The two entries of the `themes` table; their colours are not part of this model. */
  datatype Theme = LightTheme | DarkTheme

  const Themes: map<string, Theme> := map[Light := LightTheme, Dark := DarkTheme]

  /** Whether `savedTheme && themes[savedTheme]` lets a stored value in. */
  predicate Adoptable(saved: Option<string>) {
    saved.Some? && saved.value != "" && saved.value in Themes
  }

  class PhobosThemeProvider {
    var themeName: string

    /** The name is always a key of `themes`. */
    predicate Valid()
      reads this
    {
      themeName in Themes
    }

    /** `useState<ThemeName>('light')` */
    constructor ()
      ensures themeName == Light
      ensures Valid()
    {
      themeName := Light;
    }

    /** The mount effect: a stored name is adopted only when it is a theme; storage is only read. */
    method Mount(storage: Storage)
      modifies this
      ensures themeName == if Adoptable(storage.GetItem(ThemeKey)) then storage.GetItem(ThemeKey).value
                           else old(themeName)
      ensures old(Valid()) ==> Valid()
    {
      var savedTheme := storage.GetItem(ThemeKey);
      if savedTheme.Some? && savedTheme.value != "" && savedTheme.value in Themes {
        themeName := savedTheme.value;
      }
    }

    /** `toggleTheme`: flips the name and stores the new one. */
    method ToggleTheme(storage: Storage)
      modifies this, storage
      ensures themeName == Toggled(old(themeName))
      ensures storage.items == old(storage.items)[ThemeKey := themeName]
      ensures Valid()
    {
      var newTheme := Toggled(themeName);
      storage.SetItem(ThemeKey, newTheme);
      themeName := newTheme;
    }

    /** `themes[themeName]` */
    function ActiveTheme(): (t: Theme)
      reads this
      requires Valid()
      ensures t == DarkTheme <==> themeName == Dark
      ensures t == LightTheme <==> themeName == Light
    {
      Themes[themeName]
    }
  }

  /** Only stored `light` or `dark` is adopted on mount; anything else keeps the current name. */
  lemma AdoptableNames(saved: Option<string>)
    ensures Adoptable(saved) <==> saved == Some(Light) || saved == Some(Dark)
  {
  }
}
