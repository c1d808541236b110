/**
 * `LanguageManager`: the persisted de/en switch, the translation table it
 * loads for the current language, the elements whose text it replaces and
 * the upper-case label on the language button.
 */
module Language {
  import opened Options
  import opened Storage
  import opened Translations
  import Strings

  /** The storage key of the language preference. */
  const LanguageKey := "language"

  /** An element carrying `data-i18n="key"` and its current text content. */
  datatype Labelled = Labelled(key: string, text: string)

  /**
   * What the fetch of `lang/<code>.json` produced: a parsed table, a response
   * whose status is not ok, or a rejection (network error or bad JSON).
   */
  datatype Fetched = Loaded(table: Json) | NotOk | Threw

  /** `localStorage.getItem('language') || 'de'`. */
  function InitialLanguage(stored: Option<string>): (lang: string)
    ensures lang != ""
    ensures Truthy(stored) ==> lang == stored.value
    ensures !Truthy(stored) ==> lang == "de"
  {
    OrElse(stored, "de")
  }

  /** The language `toggleLanguage` switches to: `en` from `de`, `de` from anything else. */
  function NextLanguage(lang: string): (next: string)
    ensures next == "de" || next == "en"
    ensures next == "en" <==> lang == "de"
  {
    if lang == "de" then "en" else "de"
  }

  /** Toggling twice from either supported language comes back to it. */
  lemma NextLanguageInvolution(lang: string)
    requires lang == "de" || lang == "en"
    ensures NextLanguage(NextLanguage(lang)) == lang
  {
  }

  /** The table after `loadTranslations`: replaced only by a successful parse. */
  function AfterLoad(table: Json, fetched: Fetched): (r: Json)
    ensures fetched.Loaded? ==> r == fetched.table
    ensures !fetched.Loaded? ==> r == table
  {
    if fetched.Loaded? then fetched.table else table
  }

  /** One element after `applyTranslations`. */
  function Retexted(table: Json, e: Labelled): (r: Labelled)
    ensures r.key == e.key
    ensures TextFor(table, e.key) == None ==> r == e
    ensures TextFor(table, e.key).Some? ==> r.text == TextFor(table, e.key).value
  {
    match TextFor(table, e.key)
    case Some(t) => e.(text := t)
    case None => e
  }

  /**
   * All elements after `applyTranslations`: keys stay, and an element's text
   * changes only to a value found for its key; with nothing found it is
   * left as it was.
   */
  function Applied(table: Json, es: seq<Labelled>): (r: seq<Labelled>)
    ensures |r| == |es|
    ensures forall i :: 0 <= i < |es| ==> r[i].key == es[i].key
    ensures forall i :: 0 <= i < |es| ==> TextFor(table, es[i].key) == None ==> r[i] == es[i]
    ensures forall i :: 0 <= i < |es| ==> TextFor(table, es[i].key).Some? ==> Some(r[i].text) == TextFor(table, es[i].key)
  {
    seq(|es|, i requires 0 <= i < |es| => Retexted(table, es[i]))
  }

  /** Applying the same table twice changes nothing more than applying it once. */
  lemma AppliedIdempotent(table: Json, es: seq<Labelled>)
    ensures Applied(table, Applied(table, es)) == Applied(table, es)
  {
  }

  /** A failed load followed by applying the table rewrites nothing a previous apply did not. */
  lemma FailedLoadKeepsTexts(table: Json, fetched: Fetched, es: seq<Labelled>)
    requires !fetched.Loaded?
    ensures Applied(AfterLoad(table, fetched), Applied(table, es)) == Applied(table, es)
  {
    AppliedIdempotent(table, es);
  }

  /** A failed first load leaves every element with the text the markup gave it. */
  lemma FailedFirstLoadKeepsTexts(fetched: Fetched, es: seq<Labelled>)
    requires !fetched.Loaded?
    ensures Applied(AfterLoad(EmptyTable, fetched), es) == es
  {
    forall i | 0 <= i < |es|
      ensures TextFor(EmptyTable, es[i].key) == None
    {
      EmptyTableFindsNothing(es[i].key);
    }
  }

  /** The `.lang-text` label after `updateLangButton`, when the label exists. */
  function LabelFor(current: Option<string>, lang: string): (r: Option<string>)
    ensures r.Some? <==> current.Some?
    ensures r.Some? ==> |r.value| == |lang| && forall i :: 0 <= i < |lang| ==> r.value[i] == Strings.UpperChar(lang[i])
  {
    if current.Some? then Some(Strings.Upper(lang)) else None
  }

  /** After a toggle, an existing label reads `DE` or `EN`, whatever language was stored. */
  lemma LabelAfterToggle(current: Option<string>, lang: string)
    requires current.Some?
    ensures LabelFor(current, NextLanguage(lang)) in {Some("DE"), Some("EN")}
  {
    assert Strings.Upper("de") == "DE";
    assert Strings.Upper("en") == "EN";
  }

  class LanguageManager {
    const store: Store
    /** The elements carrying `data-i18n`, in document order. */
    const labels: array<Labelled>
    var currentLang: string
    var translations: Json
    /** The `.lang-text` element inside the language button; `None` when absent. */
    var langText: Option<string>

    constructor (store: Store, labels: array<Labelled>, langText: Option<string>)
      ensures this.store == store && this.labels == labels && this.langText == langText
      ensures currentLang == InitialLanguage(store.GetItem(LanguageKey))
      ensures translations == EmptyTable
    {
      this.store := store;
      this.labels := labels;
      this.langText := langText;
      currentLang := OrElse(store.GetItem(LanguageKey), "de");
      translations := EmptyTable;
    }

    /** `init`: load the table of the current language, apply it, label the button. */
    method Init(fetched: Fetched)
      modifies this, labels
      ensures currentLang == old(currentLang)
      ensures translations == AfterLoad(old(translations), fetched)
      ensures labels[..] == Applied(translations, old(labels[..]))
      ensures langText == LabelFor(old(langText), currentLang)
    {
      LoadTranslations(currentLang, fetched);
      ApplyTranslations();
      UpdateLangButton();
    }

    /**
     * `loadTranslations(lang)`, where `fetched` is what fetching
     * `lang/<lang>.json` produced. A response that is not ok or a rejection
     * leaves the table exactly as it was.
     */
    method LoadTranslations(lang: string, fetched: Fetched)
      modifies this
      ensures translations == AfterLoad(old(translations), fetched)
      ensures currentLang == old(currentLang) && langText == old(langText)
    {
      match fetched
      case Loaded(table) => translations := table;
      case NotOk => return;
      case Threw =>
    }

    /** `applyTranslations`: rewrite every `data-i18n` element in turn. */
    method ApplyTranslations()
      modifies labels
      ensures labels[..] == Applied(translations, old(labels[..]))
    {
      for i := 0 to labels.Length
        invariant forall j :: 0 <= j < i ==> labels[j] == Retexted(translations, old(labels[j]))
        invariant forall j :: i <= j < labels.Length ==> labels[j] == old(labels[j])
      {
        var translation := TextFor(translations, labels[i].key);
        if translation.Some? {
          labels[i] := labels[i].(text := translation.value);
        }
      }
    }

    /** `updateLangButton`. */
    method UpdateLangButton()
      modifies this
      ensures langText == LabelFor(old(langText), currentLang)
      ensures currentLang == old(currentLang) && translations == old(translations)
    {
      if langText.Some? {
        langText := Some(Strings.Upper(currentLang));
      }
    }

    /**
     * `toggleLanguage`: switch language, persist it, reload the table for it,
     * apply the table and relabel the button.
     */
    method ToggleLanguage(fetched: Fetched)
      modifies this, store, labels
      ensures currentLang == NextLanguage(old(currentLang))
      ensures store.items == old(store.items)[LanguageKey := currentLang]
      ensures translations == AfterLoad(old(translations), fetched)
      ensures labels[..] == Applied(translations, old(labels[..]))
      ensures langText == LabelFor(old(langText), currentLang)
    {
      currentLang := if currentLang == "de" then "en" else "de";
      store.SetItem(LanguageKey, currentLang);
      LoadTranslations(currentLang, fetched);
      ApplyTranslations();
      UpdateLangButton();
    }
  }
}
