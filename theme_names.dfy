/** The light/dark theme names shared by the two theme modules, and their toggle. */
module ThemeNames {
  const Light := "light"
  const Dark := "dark"

  /** The storage key both modules keep the theme name under. */
  const ThemeKey := "theme"

  /** `prev === 'light' ? 'dark' : 'light'` */
  function Toggled(t: string): (r: string)
    ensures r == Light || r == Dark
    ensures r == Dark <==> t == Light
  {
    if t == Light then Dark else Light
  }

  /** A toggle always changes the name, so an effect that depends on it runs again. */
  lemma ToggleChanges(t: string)
    ensures Toggled(t) != t
  {
  }

  /** Toggling twice from light or dark returns to the start; from any other name it ends at
      dark, passing through light. */
  lemma ToggleTwice(t: string)
    ensures t == Light || t == Dark ==> Toggled(Toggled(t)) == t
    ensures t != Light && t != Dark ==> Toggled(t) == Light && Toggled(Toggled(t)) == Dark
  {
  }
}
