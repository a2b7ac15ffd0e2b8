/** The extension's localisation: the in-memory current language, its
    persistence in the page's local storage and the browser's synced
    storage, the initial-language rule, and the message lookup with its
    fallback chain. */
module I18n {
  import opened Wrappers
  import opened Text
  import opened Bookmarks

  const DefaultLanguage: string := "zh_CN"

  /** The message tables by language, then by message name. */
  type Tables = map<string, map<string, string>>

  /** `getMessage`: the current language's entry, else the default
      language's entry, else the browser's message when it is non-empty,
      else the message name itself. */
  function Message(tables: Tables, current: string, name: string, browser: Option<string>): (r: string)
    ensures current in tables && name in tables[current] ==> r == tables[current][name]
    ensures r == name || r == OrDefault(browser, name)
         || (exists lang :: lang in tables && name in tables[lang] && r == tables[lang][name])
  {
    if current in tables && name in tables[current] then tables[current][name]
    else if DefaultLanguage in tables && name in tables[DefaultLanguage] then tables[DefaultLanguage][name]
    else OrDefault(browser, name)
  }

  /** A language without a table, or whose table lacks the name, gives the
      default language's answer. */
  lemma MessageFallsBackToDefault(tables: Tables, current: string, name: string, browser: Option<string>)
    requires !(current in tables && name in tables[current])
    ensures Message(tables, current, name, browser) == Message(tables, DefaultLanguage, name, browser)
  {
  }

  /** With no entry in either table and no browser message the name itself
      is returned. */
  lemma MessageFallsBackToName(tables: Tables, current: string, name: string, browser: Option<string>)
    requires !(current in tables && name in tables[current])
    requires !(DefaultLanguage in tables && name in tables[DefaultLanguage])
    requires browser.None? || browser.value == ""
    ensures Message(tables, current, name, browser) == name
  {
  }

  /** The browser's message is used only when neither table has the name. */
  lemma BrowserMessageIsLastResort(tables: Tables, current: string, name: string, b: string)
    requires b != "" && Message(tables, current, name, Some(b)) != Message(tables, current, name, None)
    ensures !(current in tables && name in tables[current])
    ensures !(DefaultLanguage in tables && name in tables[DefaultLanguage])
    ensures Message(tables, current, name, Some(b)) == b
  {
  }

  /** `getUILanguage`: the browser's UI language, or "zh-CN" outside the
      extension. */
  function UiLanguage(browserUi: Option<string>): string {
    if browserUi.Some? then browserUi.value else "zh-CN"
  }

  /** The detection rule on the UI language: "en" when its lower-case form
      contains "en" (tested first), "zh_CN" when it contains "zh", and the
      default otherwise. */
  function DetectLanguage(ui: string): (r: string)
    ensures r == "en" <==> Contains(Lower(ui), "en")
    ensures r == "en" || r == DefaultLanguage
  {
    var lower := Lower(ui);
    if Contains(lower, "en") then "en"
    else if Contains(lower, "zh") then "zh_CN"
    else DefaultLanguage
  }

  /** The "zh" test changes nothing: it picks the default language, which is
      also what every other UI language gets. */
  lemma ChineseTestIsRedundant(a: string, b: string)
    requires !Contains(Lower(a), "en") && !Contains(Lower(b), "en")
    ensures DetectLanguage(a) == DetectLanguage(b) == DefaultLanguage
  {
  }

  /** Detection on typical UI language tags, and outside the extension. */
  lemma DetectionExamples()
    ensures DetectLanguage("en-US") == "en"
    ensures DetectLanguage("zh-CN") == DefaultLanguage
    ensures DetectLanguage(UiLanguage(None)) == DefaultLanguage
  {
    assert Lower("en-US")[..2] == "en";
    assert OccursAt(Lower("en-US"), "en", 0);
    assert Lower("zh-CN") == "zh-cn";
    forall i | 0 <= i <= 5 ensures !OccursAt("zh-cn", "en", i) {
      if i + 2 <= 5 {
        assert "zh-cn"[i..i + 2][0] == "zh-cn"[i] != 'e';
      }
    }
  }

  /** What the browser's synced storage holds under the language key. */
  datatype Synced =
    | Unavailable           // no `chrome.storage` outside the extension
    | Unreadable            // reading it fails
    | Stored(value: Option<string>)

  /** `currentLanguageState` together with the two stores it is persisted
      in. */
  class LanguageState {
    var current: string
    /** The page's local storage entry, when there is local storage. */
    var local: Option<string>
    const hasLocalStorage: bool
    var synced: Synced

    constructor(hasLocalStorage: bool, local: Option<string>, synced: Synced)
      ensures current == DefaultLanguage
      ensures this.hasLocalStorage == hasLocalStorage && this.local == local && this.synced == synced
    {
      current := DefaultLanguage;
      this.hasLocalStorage := hasLocalStorage;
      this.local := local;
      this.synced := synced;
    }

    /** The non-empty locally stored language, if any. */
    predicate HasLocalLanguage()
      reads this
    {
      hasLocalStorage && local.Some? && local.value != ""
    }

    /** `getCurrentLanguageSync`. */
    function GetCurrentLanguageSync(): (r: string)
      reads this
      ensures r == current
    {
      current
    }

    /** `getMessage` in the current language. */
    function GetMessage(tables: Tables, name: string, browser: Option<string>): (r: string)
      reads this
      ensures r == Message(tables, GetCurrentLanguageSync(), name, browser)
    {
      Message(tables, current, name, browser)
    }

    /** `setCurrentLanguage`: the language becomes current and is written to
        both stores where they exist. */
    method SetCurrentLanguage(language: string)
      modifies this
      ensures current == language && GetCurrentLanguageSync() == language
      ensures local == if hasLocalStorage then Some(language) else old(local)
      ensures synced == if old(synced).Stored? then Stored(Some(language)) else old(synced)
    {
      current := language;
      if hasLocalStorage {
        local := Some(language);
      }
      if synced.Stored? {
        synced := Stored(Some(language));
      }
    }

    /** `getCurrentLanguage`: a local language wins; otherwise the synced one,
        or the default when none is synced; with no readable synced storage
        the current language stays. The stores are not written. */
    method GetCurrentLanguage() returns (r: string)
      modifies this
      ensures r == current
      ensures local == old(local) && synced == old(synced)
      ensures old(HasLocalLanguage()) ==> r == old(local).value
      ensures !old(HasLocalLanguage()) && synced.Stored? ==> r == OrDefault(synced.value, DefaultLanguage)
      ensures !old(HasLocalLanguage()) && !synced.Stored? ==> r == old(current)
    {
      if HasLocalLanguage() {
        current := local.value;
        return current;
      }
      match synced
      case Stored(v) =>
        current := OrDefault(v, DefaultLanguage);
        return current;
      case _ =>
        return current;
    }

    /** `detectAndSetInitialLanguage`: a local language wins, then a
        non-empty synced language; otherwise the language detected from the
        UI language is set, and so stored. */
    method DetectAndSetInitialLanguage(browserUi: Option<string>) returns (r: string)
      modifies this
      ensures r == current
      ensures old(HasLocalLanguage()) ==> r == old(local).value && local == old(local) && synced == old(synced)
      ensures !old(HasLocalLanguage()) && old(synced).Stored? && old(synced).value.Some? && old(synced).value.value != "" ==>
        r == old(synced).value.value && local == old(local) && synced == old(synced)
      ensures !old(HasLocalLanguage()) && !(old(synced).Stored? && old(synced).value.Some? && old(synced).value.value != "") ==>
        && r == DetectLanguage(UiLanguage(browserUi))
        && local == (if hasLocalStorage then Some(r) else old(local))
        && synced == (if old(synced).Stored? then Stored(Some(r)) else old(synced))
    {
      if HasLocalLanguage() {
        current := local.value;
        return current;
      }
      if synced.Stored? && synced.value.Some? && synced.value.value != "" {
        current := synced.value.value;
        return current;
      }
      var detected := DetectLanguage(UiLanguage(browserUi));
      SetCurrentLanguage(detected);
      return detected;
    }
  }
}
