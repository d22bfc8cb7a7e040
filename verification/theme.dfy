/** The dark-mode switch: the mode chosen on mount, the toggle, and the
    effect that writes the choice back to storage and to the root element's
    classes. The stored value and the OS preference are parameters. */
module Theme {
  import opened Wrappers

  const StorageKey: string := "dailydev_theme"
  const DarkClass: string := "dark-mode"

  /** The hook's mode, the stored value under the storage key, and the root
      element's class list. */
  datatype State = State(isDarkMode: bool, stored: Option<string>, classes: set<string>)

  /** The mode on mount: a stored value decides (only 'dark' means dark);
      the OS preference is asked only when nothing is stored. */
  function InitialMode(stored: Option<string>, prefersDark: bool): (dark: bool)
    ensures stored.Some? ==> (dark <==> stored.value == "dark")
    ensures stored.None? ==> dark == prefersDark
  {
    match stored
    case Some(v) => v == "dark"
    case None => prefersDark
  }

  /** The effect run after each change of mode. */
  function Apply(dark: bool, classes: set<string>): (st: State)
    ensures st.isDarkMode == dark
    ensures st.stored == Some(if dark then "dark" else "light")
    ensures DarkClass in st.classes <==> dark
    ensures st.classes - {DarkClass} == classes - {DarkClass}
  {
    State(dark, Some(if dark then "dark" else "light"),
      if dark then classes + {DarkClass} else classes - {DarkClass})
  }

  /** Mounting the hook. */
  function Mount(stored: Option<string>, prefersDark: bool, classes: set<string>): (st: State)
    ensures st.isDarkMode == InitialMode(stored, prefersDark)
    ensures Consistent(st)
    ensures st.classes - {DarkClass} == classes - {DarkClass}
  {
    Apply(InitialMode(stored, prefersDark), classes)
  }

  /** The stored value and the root class agree with the mode. */
  predicate Consistent(st: State) {
    && st.stored == Some(if st.isDarkMode then "dark" else "light")
    && (DarkClass in st.classes <==> st.isDarkMode)
  }

  /** `toggleTheme`, followed by its effect. */
  function Toggle(st: State): (r: State)
    ensures r.isDarkMode == !st.isDarkMode
    ensures Consistent(r)
    ensures r.classes - {DarkClass} == st.classes - {DarkClass}
  {
    Apply(!st.isDarkMode, st.classes)
  }

  /** Toggling twice restores a consistent state exactly. */
  lemma ToggleTwice(st: State)
    requires Consistent(st)
    ensures Toggle(Toggle(st)) == st
  {
    var r := Toggle(Toggle(st));
    assert r.classes == st.classes by {
      if st.isDarkMode {
        assert st.classes == (st.classes - {DarkClass}) + {DarkClass};
      } else {
        assert st.classes == st.classes - {DarkClass};
      }
    }
  }

  /** The choice survives a reload: mounting again with what was stored
      gives the same mode, whatever the OS prefers. */
  lemma ReloadKeepsMode(st: State, prefersDark: bool)
    requires Consistent(st)
    ensures Mount(st.stored, prefersDark, st.classes) == st
  {
    var r := Mount(st.stored, prefersDark, st.classes);
    assert r.classes == st.classes by {
      if st.isDarkMode {
        assert st.classes == st.classes + {DarkClass};
      } else {
        assert st.classes == st.classes - {DarkClass};
      }
    }
  }

  /** With nothing stored and no OS preference the page starts light; one
      toggle turns it dark, stores 'dark' and sets the class. */
  lemma FirstVisit(classes: set<string>)
    ensures !Mount(None, false, classes).isDarkMode
    ensures var t := Toggle(Mount(None, false, classes));
      t.isDarkMode && t.stored == Some("dark") && DarkClass in t.classes
  {
  }
}
