/** Theme selection: a stored preference ("light", "dark" or "system") and
    the device's colour scheme decide between the dark and the light theme.
    The device scheme is a parameter; the storage write is an outcome flag. */
module ThemeContext {
  import opened Wrappers

  /** The preference. A stored string is cast without a check, so a value
      other than the three names can end up here too. */
  datatype ThemeType = Light | Dark | System | Unrecognised(name: string)

  /** What `useColorScheme` reports. */
  datatype ColorScheme = SchemeLight | SchemeDark | NoScheme

  datatype Theme = CustomLightTheme | CustomDarkTheme

  /** The preference before storage has answered. */
  const InitialThemeType: ThemeType := System

  predicate IsKnown(t: ThemeType) {
    !t.Unrecognised?
  }

  /** The string stored for a preference. */
  function ThemeName(t: ThemeType): string {
    match t
    case Light => "light"
    case Dark => "dark"
    case System => "system"
    case Unrecognised(name) => name
  }

  /** `savedTheme as ThemeType`. */
  function FromStored(saved: string): (t: ThemeType)
    ensures ThemeName(t) == saved
    ensures t.Unrecognised? <==> saved != "light" && saved != "dark" && saved != "system"
  {
    if saved == "light" then Light
    else if saved == "dark" then Dark
    else if saved == "system" then System
    else Unrecognised(saved)
  }

  /** `loadThemePreference`: only a non-empty stored value overrides. */
  function LoadThemePreference(current: ThemeType, saved: Option<string>): (t: ThemeType)
    ensures saved.None? || saved == Some("") ==> t == current
    ensures saved.Some? && saved.value != "" ==> ThemeName(t) == saved.value
  {
    match saved
    case Some(s) => if s != "" then FromStored(s) else current
    case None => current
  }

  /** `isDarkMode`. */
  function IsDarkMode(t: ThemeType, scheme: ColorScheme): (dark: bool)
    ensures t == Dark ==> dark
    ensures t == Light ==> !dark
    ensures t == System ==> (dark <==> scheme == SchemeDark)
    ensures t.Unrecognised? ==> !dark
  {
    if t == System then scheme == SchemeDark else t == Dark
  }

  /** `theme`: the dark theme exactly in dark mode. */
  function SelectedTheme(t: ThemeType, scheme: ColorScheme): (theme: Theme)
    ensures theme == CustomDarkTheme <==> IsDarkMode(t, scheme)
  {
    if IsDarkMode(t, scheme) then CustomDarkTheme else CustomLightTheme
  }

  /** The provider's state: the preference in memory and the stored value. */
  datatype ThemeState = ThemeState(themeType: ThemeType, stored: Option<string>)

  /** `setThemeType`: memory is updated first and whatever the write does;
      a failed write leaves the stored value behind. */
  function SetThemeType(state: ThemeState, t: ThemeType, writeSucceeds: bool): (r: ThemeState)
    ensures r.themeType == t
    ensures writeSucceeds ==> r.stored == Some(ThemeName(t))
    ensures !writeSucceeds ==> r.stored == state.stored
  {
    ThemeState(t, if writeSucceeds then Some(ThemeName(t)) else state.stored)
  }

  /** A preference chosen in the settings comes back after a restart when
      it was written. */
  lemma PreferenceSurvivesRestart(state: ThemeState, t: ThemeType)
    requires IsKnown(t)
    ensures LoadThemePreference(InitialThemeType, SetThemeType(state, t, true).stored) == t
  {
  }

  /** An unrecognised stored value selects the light theme, whatever the
      device says. */
  lemma UnrecognisedIsLight(saved: string, scheme: ColorScheme)
    requires saved != "" && saved != "light" && saved != "dark" && saved != "system"
    ensures SelectedTheme(LoadThemePreference(InitialThemeType, Some(saved)), scheme) == CustomLightTheme
  {
  }
}
