/**
  Properties of the bot's language state machine that relate several handlers
  or several updates: the language keyboard and the callback agree, the main
  menu and the text dispatcher agree, dispatch is locale-specific, no handler
  raises along a run from a valid store, and the store updates are idempotent.
 */
module BotProperties {
  import opened Wrappers
  import opened PyStr
  import opened Texts
  import opened LangStore
  import opened Handlers

  /** A routed language callback keeps everything after `lang_` as the code,
      replaces an unsupported code by the default locale, and sets only the
      sender's entry. */
  lemma RoutedCallback(store: Store, u: UserId, data: string)
    requires StartsWith(data, LANG_PREFIX)
    ensures Step(store, LangCallback(u, data)).Ok?
    ensures Step(store, LangCallback(u, data)).value.store == store[u := SanitizeLang(data[|LANG_PREFIX|..])]
  {
    var code := data[|LANG_PREFIX|..];
    assert data == "lang" + ['_'] + code;
    SplitAtFirst("lang", '_', code);
  }

  /** The button data `lang_<code>` leaves the sender with `code` when it is
      supported and with the default locale otherwise, and nobody else changes. */
  lemma CallbackStoresCode(store: Store, u: UserId, code: string)
    ensures Step(store, LangCallback(u, LANG_PREFIX + code)).Ok?
    ensures Step(store, LangCallback(u, LANG_PREFIX + code)).value.store ==
      store[u := if code in LOCALES then code else DEFAULT_LANG]
  {
    var data := LANG_PREFIX + code;
    assert data[..|LANG_PREFIX|] == LANG_PREFIX;
    assert data[|LANG_PREFIX|..] == code;
    RoutedCallback(store, u, data);
  }

  /** The locale a routed callback leaves the sender with. */
  ghost predicate CallbackSets(store: Store, u: UserId, data: string, lang: Locale) {
    var r := Step(store, LangCallback(u, data));
    r.Ok? && GetLang(r.value.store, u) == lang
  }

  /** Any unsupported code falls back to the default locale. */
  lemma CallbackUnsupportedCode(store: Store, u: UserId, code: string)
    requires code !in LOCALES
    ensures CallbackSets(store, u, LANG_PREFIX + code, DEFAULT_LANG)
  {
    CallbackStoresCode(store, u, code);
  }

  /** `lang_fr` falls back to Spanish. */
  lemma CallbackUnknownCode(store: Store, u: UserId, data: string)
    requires data == "lang_fr"
    ensures CallbackSets(store, u, data, "es")
  {
    var code := data[|LANG_PREFIX|..];
    assert data == LANG_PREFIX + code;
    assert code == "fr";
    CallbackUnsupportedCode(store, u, code);
  }

  /** Only the first underscore splits: `lang_en_x` carries the code `en_x`,
      which is unsupported and so falls back to Spanish. */
  lemma CallbackSecondUnderscore(store: Store, u: UserId, data: string)
    requires data == "lang_en_x"
    ensures ParseLangCode(data) == Ok("en_x")
    ensures CallbackSets(store, u, data, "es")
  {
    var code := data[|LANG_PREFIX|..];
    assert data == "lang" + "_" + code;
    assert code == "en_x";
    ParseKeepsAfterFirstUnderscore("lang", code);
    assert data == LANG_PREFIX + code;
    CallbackUnsupportedCode(store, u, code);
  }

  /** The language keyboard offers every supported locale, and each button is
      captioned in its own locale with that locale's name. */
  lemma LanguageKeyboardCoversLocales()
    ensures forall i :: 0 <= i < |LanguageKeyboard()| ==>
      var b := LanguageKeyboard()[i];
      var code := b.callbackData[|LANG_PREFIX|..];
      && StartsWith(b.callbackData, LANG_PREFIX)
      && code in LOCALES
      && b.caption == Localized(code, "lang_button_" + code)
      && Defined(b.caption)
    ensures forall lang :: lang in LOCALES ==>
      exists i :: 0 <= i < |LanguageKeyboard()| && LanguageKeyboard()[i].callbackData == LANG_PREFIX + lang
  {
    var kb := LanguageKeyboard();
    assert kb[0].callbackData[|LANG_PREFIX|..] == "es" && "lang_button_" + "es" == "lang_button_es";
    assert kb[1].callbackData[|LANG_PREFIX|..] == "en" && "lang_button_" + "en" == "lang_button_en";
    assert kb[0].callbackData == LANG_PREFIX + "es" && kb[1].callbackData == LANG_PREFIX + "en";
  }

  /** Pressing a language button stores that button's locale unchanged: the
      default never has to stand in for it. */
  lemma LanguageButtonPress(store: Store, u: UserId, i: nat)
    requires i < |LanguageKeyboard()|
    ensures CallbackSets(store, u, LanguageKeyboard()[i].callbackData, LanguageKeyboard()[i].callbackData[|LANG_PREFIX|..])
  {
    LanguageKeyboardCoversLocales();
    RoutedCallback(store, u, LanguageKeyboard()[i].callbackData);
  }

  /** Keyboard and dispatcher agree: sending the i-th main-menu label, with any
      whitespace around it, is recognised as that button and answered with its
      reply, never with `unknown_command`. */
  lemma MenuPressRecognised(store: Store, u: UserId, i: nat, p: string, q: string)
    requires Valid(store)
    requires i < |MENU|
    requires AllSpace(p) && AllSpace(q)
    ensures MainMenuKeyboard(store, u).Ok? && HandleText(store, u, p + MainMenuKeyboard(store, u).value[i] + q).Ok?
    ensures var o := HandleText(store, u, p + MainMenuKeyboard(store, u).value[i] + q).value;
      && AnswersWith(o, GetLang(store, u), MENU[i].1)
      && !AnswersWith(o, GetLang(store, u), "unknown_command")
  {
    var lang := GetLang(store, u);
    var button := MainMenuKeyboard(store, u).value[i];
    assert button == MenuLabels(lang)[i];
    StripRemovesPadding(p, button, q);
    HandleTextButton(store, u, p + button + q, i);
    HandleTextUnknown(store, u, p + button + q);
  }

  /** Dispatch is locale-specific: a menu label of another locale, sent by a
      user whose locale differs, is answered with `unknown_command`. */
  lemma OtherLocaleLabelUnknown(store: Store, u: UserId, other: Locale, i: nat)
    requires Valid(store)
    requires other in LOCALES && other != GetLang(store, u)
    requires i < |MENU|
    ensures HandleText(store, u, MenuLabels(other)[i]).Ok?
    ensures AnswersWith(HandleText(store, u, MenuLabels(other)[i]).value, GetLang(store, u), "unknown_command")
  {
    var button := MenuLabels(other)[i];
    MenusDisjoint(other, GetLang(store, u));
    assert [] + button + [] == button;
    StripRemovesPadding([], button, []);
    HandleTextUnknown(store, u, button);
  }

  /** Every update along the run is handled without raising. */
  ghost predicate NeverRaises(store: Store, events: seq<Event>)
    decreases |events|
  {
    |events| == 0 ||
    (Step(store, events[0]).Ok? && NeverRaises(Step(store, events[0]).value.store, events[1..]))
  }

  /** From a valid store no handler raises on any sequence of updates, so the
      `TEXTS` lookups of `main_menu_keyboard` and `handle_text` never fail. */
  lemma {:induction false} ValidRunNeverRaises(store: Store, events: seq<Event>)
    requires Valid(store)
    ensures NeverRaises(store, events)
    decreases |events|
  {
    if |events| > 0 {
      ValidRunNeverRaises(Step(store, events[0]).value.store, events[1..]);
    }
  }

  /** A run of two handled updates ends in the store the second one leaves. */
  lemma RunOfTwo(store: Store, e1: Event, e2: Event)
    requires Step(store, e1).Ok?
    requires Step(Step(store, e1).value.store, e2).Ok?
    ensures Run(store, [e1, e2]).store == Step(Step(store, e1).value.store, e2).value.store
  {
    var s1 := Step(store, e1).value.store;
    var s2 := Step(s1, e2).value.store;
    assert [e1, e2][1..] == [e2];
    assert [e2][1..] == [];
    assert Run(s2, []) == Outcome(s2, []);
    assert Run(s1, [e2]).store == s2;
  }

  /** `/start` followed by a language button leaves the user with the
      sanitised code and every other user as before. */
  lemma StartThenChoose(store: Store, u: UserId, code: string)
    ensures Run(store, [Start(u), LangCallback(u, LANG_PREFIX + code)]).store ==
      store[u := if code in LOCALES then code else DEFAULT_LANG]
  {
    var s1 := Step(store, Start(u)).value.store;
    CallbackStoresCode(s1, u, code);
    RunOfTwo(store, Start(u), LangCallback(u, LANG_PREFIX + code));
    SetAfterClear(store, u, if code in LOCALES then code else DEFAULT_LANG);
  }

  /** Handling the same `/start` or language callback twice leaves the store as
      handling it once does. */
  lemma StoreUpdatesIdempotent(store: Store, e: Event)
    requires !e.Text?
    ensures Step(store, e).Ok?
    ensures Step(Step(store, e).value.store, e).Ok?
    ensures Step(Step(store, e).value.store, e).value.store == Step(store, e).value.store
  {
    match e
    case Start(u) =>
      assert ClearLang(ClearLang(store, u), u) == ClearLang(store, u);
    case LangCallback(u, data) =>
      if StartsWith(data, LANG_PREFIX) {
        var lang := SanitizeLang(data[|LANG_PREFIX|..]);
        RoutedCallback(store, u, data);
        RoutedCallback(store[u := lang], u, data);
        assert store[u := lang][u := lang] == store[u := lang];
      }
  }
}
