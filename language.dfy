/**
 * The LanguageManager of index.js: every `[data-lang]` element is shown when
 * its tag is the current language, the two flags show the current language,
 * and the choice is saved under the key "language". The `languageChanged`
 * event it dispatches is not modelled.
 */
module Language {
  import opened Wrappers
  import opened KeyValue

  /** The language `toggleLanguage` switches to. */
  function Toggled(lang: string): (r: string)
    ensures r == "ru" <==> lang == "en"
    ensures r == "en" <==> lang != "en"
  {
    if lang == "en" then "ru" else "en"
  }

  /** On the two supported languages the toggle is its own inverse; any other
      language goes to "en" and then to "ru". */
  lemma ToggledTwice(lang: string)
    ensures lang == "en" || lang == "ru" ==> Toggled(Toggled(lang)) == lang
    ensures lang != "en" && lang != "ru" ==> Toggled(Toggled(lang)) == "ru"
  {
  }

  class LanguageManager {
    const store: Storage
    /** The `data-lang` attribute of each `[data-lang]` element, in document order. */
    const elementLangs: seq<string>
    /** Whether each of those elements is displayed (`block`) or not (`none`). */
    const shown: array<bool>
    const hasFlagEn: bool
    const hasFlagRu: bool
    var flagEnShown: bool
    var flagRuShown: bool
    var currentLang: string

    ghost predicate Valid()
      reads this
    {
      shown.Length == |elementLangs|
    }

    /** The postcondition every `setLanguage(lang)` establishes on the page. */
    ghost predicate Shows(lang: string)
      reads this, shown
    {
      && currentLang == lang
      && shown.Length == |elementLangs|
      && (forall i :: 0 <= i < shown.Length ==> (shown[i] <==> elementLangs[i] == lang))
      && (hasFlagEn ==> (flagEnShown <==> lang == "en"))
      && (hasFlagRu ==> (flagRuShown <==> lang == "ru"))
    }

    /** The constructor reads the saved language ("en" by default) and runs
        `setLanguage` with it. */
    constructor (store: Storage, elementLangs: seq<string>, hasFlagEn: bool, hasFlagRu: bool)
      modifies store`items
      ensures Valid() && fresh(shown)
      ensures this.store == store && this.elementLangs == elementLangs
      ensures this.hasFlagEn == hasFlagEn && this.hasFlagRu == hasFlagRu
      ensures currentLang == ReadOr(old(store.items), store.readable, "language", "en")
      ensures Shows(currentLang)
      ensures store.items == if store.writable then old(store.items)["language" := currentLang] else old(store.items)
    {
      this.store := store;
      this.elementLangs := elementLangs;
      this.hasFlagEn := hasFlagEn;
      this.hasFlagRu := hasFlagRu;
      shown := new bool[|elementLangs|];
      flagEnShown := false;
      flagRuShown := false;
      currentLang := "en";
      new;
      var saved := store.Get("language", Some("en"));
      currentLang := saved.value;
      SetLanguage(currentLang);
    }

    /** `setLanguage`: record the language, show exactly the elements and the
        flag of that language, and save it. */
    method SetLanguage(lang: string)
      requires Valid()
      modifies this`currentLang, this`flagEnShown, this`flagRuShown, shown, store`items
      ensures Valid() && Shows(lang)
      ensures !hasFlagEn ==> flagEnShown == old(flagEnShown)
      ensures !hasFlagRu ==> flagRuShown == old(flagRuShown)
      ensures store.items == if store.writable then old(store.items)["language" := lang] else old(store.items)
    {
      currentLang := lang;
      for i := 0 to shown.Length
        modifies shown
        invariant forall k :: 0 <= k < i ==> (shown[k] <==> elementLangs[k] == lang)
      {
        shown[i] := elementLangs[i] == lang;
      }
      if hasFlagEn {
        flagEnShown := lang == "en";
      }
      if hasFlagRu {
        flagRuShown := lang == "ru";
      }
      store.Set("language", lang);
    }

    /** `toggleLanguage`: "en" becomes "ru", anything else becomes "en". */
    method ToggleLanguage()
      requires Valid()
      modifies this`currentLang, this`flagEnShown, this`flagRuShown, shown, store`items
      ensures Valid() && Shows(Toggled(old(currentLang)))
      ensures store.items ==
        if store.writable then old(store.items)["language" := Toggled(old(currentLang))] else old(store.items)
    {
      SetLanguage(Toggled(currentLang));
    }
  }

}
