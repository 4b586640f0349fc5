/**
 * The ThemeManager of index.js: the body's class list holds at most one of
 * `light-theme` and `dark-theme` after any call, and the choice is saved under
 * the key "theme". Playing the toggle sound is not modelled.
 */
module Theme {
  import opened Wrappers
  import opened KeyValue

  const LightClass := "light-theme"
  const DarkClass := "dark-theme"

  /** ASCII whitespace as the DOM defines it: tab, line feed, form feed,
      carriage return and space. */
  predicate IsAsciiWhitespace(ch: char)
  {
    ch == '\t' || ch == '\n' || ch == '\U{000C}' || ch == '\r' || ch == ' '
  }

  predicate NoAsciiWhitespace(s: string)
  {
    forall i :: 0 <= i < |s| ==> !IsAsciiWhitespace(s[i])
  }

  /** A token `classList.add` accepts. For the empty string it raises a
      SyntaxError, and for a token holding ASCII whitespace an
      InvalidCharacterError. */
  predicate ValidToken(t: string)
  {
    t != "" && NoAsciiWhitespace(t)
  }

  /** The class name `${theme}-theme`. It is never empty, so `classList.add`
      accepts it exactly when the theme holds no ASCII whitespace. */
  function ThemeClass(theme: string): (c: string)
    ensures c == "light-theme" <==> theme == "light"
    ensures c == "dark-theme" <==> theme == "dark"
    ensures ValidToken(c) <==> NoAsciiWhitespace(theme)
  {
    var c := theme + "-theme";
    assert |c| == |theme| + 6 && c[..|theme|] == theme;
    assert forall i :: 0 <= i < |theme| ==> c[i] == theme[i];
    assert forall i :: |theme| <= i < |c| ==> c[i] == "-theme"[i - |theme|];
    c
  }

  /** The class list after `setTheme(theme)`: both theme classes removed, then
      `${theme}-theme` added; every other class is untouched. */
  function WithTheme(classes: set<string>, theme: string): (r: set<string>)
    ensures ThemeClass(theme) in r
    ensures forall c :: c != ThemeClass(theme) ==>
      (c in r <==> c in classes && c != LightClass && c != DarkClass)
  {
    classes - {LightClass, DarkClass} + {ThemeClass(theme)}
  }

  /** The theme `toggleTheme` switches to: dark when the body is light, light
      otherwise (also when no theme class is present). */
  function ToggleTarget(classes: set<string>): (t: string)
    ensures t == "dark" <==> LightClass in classes
    ensures t == "light" <==> LightClass !in classes
  {
    if LightClass in classes then "dark" else "light"
  }

  /** Toggling twice from a light body whose only theme class is
      `light-theme` restores the class list. */
  lemma ToggleTwiceFromLight(classes: set<string>)
    requires LightClass in classes && DarkClass !in classes
    ensures var once := WithTheme(classes, ToggleTarget(classes));
      DarkClass in once && LightClass !in once &&
      WithTheme(once, ToggleTarget(once)) == classes
  {
  }

  class ThemeManager {
    const store: Storage
    var bodyClasses: set<string>

    /** The constructor runs `loadSavedTheme`. A saved theme holding ASCII
        whitespace makes `classList.add` throw out of the constructor; the body
        is then left without either theme class and nothing is saved. */
    constructor (store: Storage, bodyClasses: set<string>)
      modifies store`items
      ensures this.store == store
      ensures var saved := ReadOr(old(store.items), store.readable, "theme", "light");
        && (NoAsciiWhitespace(saved) ==> this.bodyClasses == WithTheme(bodyClasses, saved))
        && (!NoAsciiWhitespace(saved) ==> this.bodyClasses == bodyClasses - {LightClass, DarkClass})
        && store.items ==
             if store.writable && NoAsciiWhitespace(saved) then old(store.items)["theme" := saved]
             else old(store.items)
    {
      this.store := store;
      this.bodyClasses := bodyClasses;
      new;
      var _ := LoadSavedTheme();
    }

    /** `setTheme`: remove both theme classes, add `${theme}-theme` and save the
        choice. `ok` is false when `classList.add` throws; the classes then stay
        removed and the save is skipped. */
    method SetTheme(theme: string) returns (ok: bool)
      modifies this`bodyClasses, store`items
      ensures ok <==> NoAsciiWhitespace(theme)
      ensures ok ==> bodyClasses == WithTheme(old(bodyClasses), theme)
      ensures !ok ==> bodyClasses == old(bodyClasses) - {LightClass, DarkClass}
      ensures store.items == if ok && store.writable then old(store.items)["theme" := theme] else old(store.items)
    {
      bodyClasses := bodyClasses - {LightClass, DarkClass};
      var token := ThemeClass(theme);
      if !ValidToken(token) {
        return false;
      }
      bodyClasses := bodyClasses + {token};
      store.Set("theme", theme);
      ok := true;
    }

    /** `toggleTheme`: switch light to dark and anything else to light. Both
        class names are valid tokens, so it never throws. */
    method ToggleTheme()
      modifies this`bodyClasses, store`items
      ensures bodyClasses == WithTheme(old(bodyClasses), ToggleTarget(old(bodyClasses)))
      ensures store.items ==
        if store.writable then old(store.items)["theme" := ToggleTarget(old(bodyClasses))]
        else old(store.items)
    {
      var isLight := LightClass in bodyClasses;
      var ok;
      if isLight {
        ok := SetTheme("dark");
      } else {
        ok := SetTheme("light");
      }
    }

    /** `loadSavedTheme`: apply the saved theme, "light" by default; `ok` is
        false when `setTheme` throws on it. */
    method LoadSavedTheme() returns (ok: bool)
      modifies this`bodyClasses, store`items
      ensures var saved := ReadOr(old(store.items), store.readable, "theme", "light");
        && (ok <==> NoAsciiWhitespace(saved))
        && (ok ==> bodyClasses == WithTheme(old(bodyClasses), saved))
        && (!ok ==> bodyClasses == old(bodyClasses) - {LightClass, DarkClass})
        && store.items == if ok && store.writable then old(store.items)["theme" := saved] else old(store.items)
    {
      var saved := store.Get("theme", Some("light"));
      ok := SetTheme(saved.value);
    }
  }

}
