/**
  The in-memory language store `user_lang` (user id to locale code), its
  default lookup `get_lang`, the translation helper `t`, and the two updates
  the handlers perform on it.
 */
module LangStore {
  import opened Wrappers
  import opened Texts

  type UserId = int

  /** `user_lang`: the locale each user has chosen, if any. */
  type Store = map<UserId, Locale>

  /** The Python exceptions a handler can raise: an unknown dictionary key or
      an out-of-range list index. */
  datatype BotError = KeyError(key: string) | IndexError

  /** The store invariant: every stored code names a table of `TEXTS`. */
  ghost predicate Valid(store: Store) {
    forall u :: u in store ==> store[u] in LOCALES
  }

  /** `get_lang`: the user's stored code, or the default locale. Under the
      store invariant the result always names a table of `TEXTS`. */
  function GetLang(store: Store, u: UserId): (lang: Locale)
    ensures u in store ==> lang == store[u]
    ensures u !in store ==> lang == DEFAULT_LANG
    ensures Valid(store) ==> lang in LOCALES
  {
    if u in store then store[u] else DEFAULT_LANG
  }

  /** Under the store invariant `TEXTS[get_lang(u)]` is defined and holds every
      message key, so the subscripts of `main_menu_keyboard` and `handle_text`
      cannot raise. */
  lemma ValidLangHasTable(store: Store, u: UserId)
    requires Valid(store)
    ensures GetLang(store, u) in TEXTS
    ensures forall key :: key in TEXTS[GetLang(store, u)] <==> key in MESSAGE_KEYS
  {
    TableKeys(GetLang(store, u));
  }

  /** The locale whose table `TEXTS.get(lang, TEXTS[DEFAULT_LANG])` yields:
      `lang` itself when `TEXTS` has it, the default locale otherwise. */
  function TableLocale(lang: Locale): (source: Locale)
    ensures source in TEXTS
    ensures lang in LOCALES ==> source == lang
    ensures lang !in LOCALES ==> source == DEFAULT_LANG
  {
    LocalesAreTableKeys();
    if lang in TEXTS then lang else DEFAULT_LANG
  }

  /** `t`: message `key` in the user's locale, falling back to the default
      locale's table when the stored code has none; an unknown key raises. */
  function Translate(store: Store, u: UserId, key: MessageKey): (r: Result<string, BotError>)
    ensures r.Ok? <==> key in MESSAGE_KEYS
    ensures r.Err? ==> r.error == KeyError(key)
  {
    var source := TableLocale(GetLang(store, u));
    TableKeys(source);
    var table := TEXTS[source];
    if key in table then Ok(table[key]) else Err(KeyError(key))
  }

  /** For a user with a supported code, and so for every user under the store
      invariant, the fallback of `t` is not taken: the message comes from the
      user's own table. */
  lemma TranslateNoFallback(store: Store, u: UserId, key: MessageKey)
    requires GetLang(store, u) in LOCALES && key in MESSAGE_KEYS
    ensures GetLang(store, u) in TEXTS && key in TEXTS[GetLang(store, u)]
    ensures Translate(store, u, key) == Ok(TEXTS[GetLang(store, u)][key])
  {
    TableKeys(GetLang(store, u));
  }

  /** An unsupported stored code reads the default locale's message. */
  lemma TranslateFallback(store: Store, u: UserId, key: MessageKey)
    requires GetLang(store, u) !in LOCALES && key in MESSAGE_KEYS
    ensures DEFAULT_LANG in TEXTS && key in TEXTS[DEFAULT_LANG]
    ensures Translate(store, u, key) == Ok(TEXTS[DEFAULT_LANG][key])
  {
    TableKeys(DEFAULT_LANG);
  }

  /** `user_lang.pop(u, None)`: forget the user's choice, touching no one else. */
  function ClearLang(store: Store, u: UserId): (r: Store)
    ensures u !in r && GetLang(r, u) == DEFAULT_LANG
    ensures forall v :: v != u ==> (v in r <==> v in store)
    ensures forall v :: v != u && v in r ==> r[v] == store[v]
    ensures Valid(store) ==> Valid(r)
  {
    store - {u}
  }

  /** `user_lang[u] = code`: record the user's choice, touching no one else. */
  function SetLang(store: Store, u: UserId, code: Locale): (r: Store)
    ensures u in r && GetLang(r, u) == code
    ensures forall v :: v != u ==> (v in r <==> v in store)
    ensures forall v :: v != u && v in r ==> r[v] == store[v]
    ensures Valid(store) && code in LOCALES ==> Valid(r)
  {
    store[u := code]
  }

  /** A choice made after forgetting the previous one is the same as
      overwriting it: the earlier entry leaves no trace. */
  lemma SetAfterClear(store: Store, u: UserId, code: Locale)
    ensures SetLang(ClearLang(store, u), u, code) == SetLang(store, u, code)
  {
    assert ClearLang(store, u)[u := code] == store[u := code];
  }

  /** The guard of the language callback (`lang_code not in TEXTS`): an
      unsupported code becomes the default locale, a supported one is kept. */
  function SanitizeLang(code: Locale): (lang: Locale)
    ensures lang in LOCALES
    ensures code in LOCALES ==> lang == code
    ensures code !in LOCALES ==> lang == DEFAULT_LANG
  {
    if code in LOCALES then code else DEFAULT_LANG
  }
}
