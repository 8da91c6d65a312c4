/** The `App` component: the light/dark theme, persisted under the `theme`
    key, around the timer. The theme is any non-empty string the store
    held, or "light"; toggling always yields "light" or "dark". */
module Theme {
  import opened Wrappers
  import opened LocalStorage
  import opened TimerMachine
  import opened TimerComponent

  const ThemeKey: string := "theme"
  const Light: string := "light"
  const Dark: string := "dark"

  /** The theme on start-up, `getItem('theme') || 'light'`: an absent or
      empty entry gives "light". */
  function InitialTheme(items: map<string, string>): (t: string)
    ensures t != ""
    ensures Lookup(items, ThemeKey) != Some(t) ==> t == Light
    ensures Lookup(items, ThemeKey).Some? && Lookup(items, ThemeKey).value != "" ==>
      t == Lookup(items, ThemeKey).value
  {
    match Lookup(items, ThemeKey)
    case None => Light
    case Some(v) => if v == "" then Light else v
  }

  /** The toggle button's `theme === 'light' ? 'dark' : 'light'`. */
  function Toggled(theme: string): (t: string)
    ensures t == Light || t == Dark
    ensures t != theme
  {
    if theme == Light then Dark else Light
  }

  /** Toggling twice gives back a light or dark theme; any other stored
      value becomes "light" on the first toggle. */
  lemma ToggleTwice(theme: string)
    ensures theme == Light || theme == Dark ==> Toggled(Toggled(theme)) == theme
    ensures theme != Light && theme != Dark ==> Toggled(theme) == Light
  {
  }

  /** A written theme is read back on reload. */
  lemma ThemeRoundTrip(items: map<string, string>, theme: string)
    requires theme != ""
    ensures InitialTheme(items[ThemeKey := theme]) == theme
  {
  }

  class App {
    var theme: string
    const storage: Storage
    const timer: TimerApp

    /** The timer shares the page's store, and the store holds the theme
        in use. */
    ghost predicate Valid()
      reads this, storage, timer
    {
      && timer.storage == storage
      && timer.Valid()
      && theme != ""
      && Lookup(storage.items, ThemeKey) == Some(theme)
    }

    /** Mounting the page: the initial renders of `App` and `TimerApp`, then
        the effects, the child's first: the timer restores the saved name,
        and the theme is written back to the store. */
    constructor (storage: Storage)
      requires StoredCount(storage.items).Some?
      modifies storage
      ensures Valid() && this.storage == storage && fresh(timer)
      ensures theme == InitialTheme(old(storage.items))
      ensures storage.items == old(storage.items)[ThemeKey := theme]
      ensures timer.Snapshot() == RestoreSavedName(Initial(old(storage.items))).(store := storage.items)
    {
      this.storage := storage;
      var stored := storage.GetItem(ThemeKey);
      theme := if stored.Some? && stored.value != "" then stored.value else Light;
      timer := new TimerApp(storage);
      new;
      timer.RestoreSavedName();
      storage.SetItem(ThemeKey, theme);
      assert CountKey != ThemeKey && SavedNameKey != ThemeKey;
      assert StoredCount(storage.items) == StoredCount(old(storage.items));
      assert StoredName(storage.items) == StoredName(old(storage.items));
    }

    /** The theme button: flip the theme and persist it; the timer is
        untouched apart from seeing the new store. */
    method ToggleTheme()
      requires Valid()
      modifies this, storage
      ensures Valid()
      ensures theme == Toggled(old(theme))
      ensures storage.items == old(storage.items)[ThemeKey := theme]
      ensures timer.Snapshot() == old(timer.Snapshot()).(store := storage.items)
    {
      theme := Toggled(theme);
      storage.SetItem(ThemeKey, theme);
      assert CountKey != ThemeKey && SavedNameKey != ThemeKey;
      assert StoredCount(storage.items) == StoredCount(old(storage.items));
      assert StoredName(storage.items) == StoredName(old(storage.items));
    }

    /** The timer's reset button on the themed page: the timer is reset and
        the persisted theme survives. */
    method PressReset()
      requires Valid()
      modifies timer, storage
      ensures Valid()
      ensures theme == old(theme) && Lookup(storage.items, ThemeKey) == old(Lookup(storage.items, ThemeKey))
      ensures timer.Snapshot() == TimerMachine.ResetTimer(old(timer.Snapshot()))
    {
      timer.ResetTimer();
      assert CountKey != ThemeKey && SavedNameKey != ThemeKey;
    }
  }
}
