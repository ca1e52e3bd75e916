/**
  The bot's handlers as pure transitions: each takes the language store and
  one incoming event and yields the new store together with what the bot sends,
  or the Python exception the handler would raise.
 */
module Handlers {
  import opened Wrappers
  import opened PyStr
  import opened Texts
  import opened LangStore

  /** An incoming update, as the dispatcher routes it: the `/start` command,
      an inline-button callback with its data, or a text message that reaches
      the menu handler. */
  datatype Event =
    | Start(user: UserId)
    | LangCallback(user: UserId, data: string)
    | Text(user: UserId, text: string)

  /** A piece of an outgoing message: an entry of `TEXTS` or fixed text. */
  datatype Fragment = Localized(lang: Locale, key: MessageKey) | Literal(text: string)

  datatype InlineButton = InlineButton(caption: Fragment, callbackData: string)

  /** The keyboard attached to a message: none, one row of inline buttons, or a
      reply keyboard given by its labels, one button per row. */
  datatype Markup = NoMarkup | InlineKeyboard(row: seq<InlineButton>) | ReplyKeyboard(labels: seq<string>)

  /** What a handler does in the chat: send a message, replace the text of the
      message that carried the pressed button, or acknowledge the callback. */
  datatype Action =
    | Answer(text: seq<Fragment>, markup: Markup)
    | EditText(text: seq<Fragment>)
    | AckCallback

  datatype Outcome = Outcome(store: Store, actions: seq<Action>)

  /** The bilingual prompt `/start` sends above the language keyboard. */
  const LANGUAGE_PROMPT: string := "🌐 Choose language / Elige idioma:"

  /** The prefix the dispatcher requires of callback data for the language handler. */
  const LANG_PREFIX: string := "lang_"

  /** A fragment that names an existing entry of `TEXTS` (or is fixed text). */
  predicate Defined(f: Fragment) {
    f.Literal? || (f.lang in LOCALES && f.key in MESSAGE_KEYS)
  }

  /** Looking a fragment up in `TEXTS`, as the handlers' subscripts do: an
      unknown locale or key raises `KeyError`. */
  function RenderFragment(f: Fragment): (r: Result<string, BotError>)
    ensures r.Ok? <==> Defined(f)
    ensures f.Literal? ==> r == Ok(f.text)
    ensures f.Localized? && r.Ok? ==> r.value == TEXTS[f.lang][f.key]
    ensures f.Localized? && f.lang !in LOCALES ==> r == Err(KeyError(f.lang))
    ensures f.Localized? && f.lang in LOCALES && f.key !in MESSAGE_KEYS ==> r == Err(KeyError(f.key))
  {
    match f
    case Literal(s) => Ok(s)
    case Localized(lang, key) =>
      LocalesAreTableKeys();
      if lang !in TEXTS then Err(KeyError(lang))
      else
        TableKeys(lang);
        if key !in TEXTS[lang] then Err(KeyError(key)) else Ok(TEXTS[lang][key])
  }

  ghost predicate Renderable(text: seq<Fragment>) {
    forall i :: 0 <= i < |text| ==> Defined(text[i])
  }

  /** The concatenation of a message's fragments; the first failing lookup raises. */
  function Render(text: seq<Fragment>): (r: Result<string, BotError>)
    ensures r.Ok? <==> Renderable(text)
    ensures r.Ok? ==> |r.value| == SumOfLengths(text)
    decreases |text|
  {
    if |text| == 0 then Ok("")
    else
      match RenderFragment(text[0])
      case Err(e) => Err(e)
      case Ok(head) =>
        match Render(text[1..])
        case Err(e) => Err(e)
        case Ok(tail) => Ok(head + tail)
  }

  /** A one-fragment message renders as that fragment does. */
  lemma RenderSingle(f: Fragment)
    ensures Render([f]) == RenderFragment(f)
  {
    assert [f][1..] == [];
    if RenderFragment(f).Ok? {
      assert RenderFragment(f).value + "" == RenderFragment(f).value;
    }
  }

  /** Rendering joins the fragments in order: a renderable message split in two
      renders as the first part followed by the second. */
  lemma {:induction false} RenderAppend(a: seq<Fragment>, b: seq<Fragment>)
    requires Renderable(a) && Renderable(b)
    ensures Render(a).Ok? && Render(b).Ok?
    ensures Render(a + b) == Ok(Render(a).value + Render(b).value)
    decreases |a|
  {
    if |a| == 0 {
      assert a + b == b;
      assert Render(a) == Ok("");
      assert "" + Render(b).value == Render(b).value;
    } else {
      assert (a + b)[0] == a[0];
      assert (a + b)[1..] == a[1..] + b;
      RenderAppend(a[1..], b);
      var head := RenderFragment(a[0]).value;
      assert head + (Render(a[1..]).value + Render(b).value) == (head + Render(a[1..]).value) + Render(b).value;
    }
  }

  /** The length of a renderable message, fragment by fragment. */
  ghost function SumOfLengths(text: seq<Fragment>): nat
    requires Renderable(text)
    decreases |text|
  {
    if |text| == 0 then 0 else |RenderFragment(text[0]).value| + SumOfLengths(text[1..])
  }

  /** Every message an action sends or edits in can be rendered. */
  ghost predicate ActionsRenderable(actions: seq<Action>) {
    forall i :: 0 <= i < |actions| ==>
      match actions[i]
      case Answer(text, markup) =>
        && Renderable(text)
        && (markup.InlineKeyboard? ==> forall j :: 0 <= j < |markup.row| ==> Defined(markup.row[j].caption))
      case EditText(text) => Renderable(text)
      case AckCallback => true
  }

  /** `language_keyboard`: each locale's button, labelled in that locale. */
  function LanguageKeyboard(): (kb: seq<InlineButton>)
    ensures |kb| == |LOCALES|
    ensures forall i :: 0 <= i < |kb| ==> kb[i].caption.Localized? && kb[i].callbackData == LANG_PREFIX + kb[i].caption.lang
  {
    [
      InlineButton(Localized("es", "lang_button_es"), "lang_es"),
      InlineButton(Localized("en", "lang_button_en"), "lang_en")
    ]
  }

  /** `main_menu_keyboard`: the user's three menu labels in `MENU` order. Looking
      up an unsupported stored code raises, which the store invariant rules out. */
  function MainMenuKeyboard(store: Store, u: UserId): (r: Result<seq<string>, BotError>)
    ensures GetLang(store, u) !in LOCALES ==> r == Err(KeyError(GetLang(store, u)))
    ensures GetLang(store, u) in LOCALES ==> r == Ok(MenuLabels(GetLang(store, u)))
    ensures Valid(store) ==> r.Ok?
  {
    var lang := GetLang(store, u);
    if lang !in LOCALES then Err(KeyError(lang))
    else Ok(MenuLabels(lang))
  }

  /** The main menu lists the `TEXTS` entries of the user's locale under the
      menu's label keys, top to bottom. */
  lemma MainMenuFromTable(store: Store, u: UserId)
    requires GetLang(store, u) in LOCALES
    ensures MainMenuKeyboard(store, u).Ok?
    ensures var labels := MainMenuKeyboard(store, u).value;
      && |labels| == |MENU|
      && GetLang(store, u) in TEXTS
      && forall i :: 0 <= i < |MENU| ==> MENU[i].0 in TEXTS[GetLang(store, u)] && labels[i] == TEXTS[GetLang(store, u)][MENU[i].0]
  {
    TableMenu(GetLang(store, u));
  }

  /** `cmd_start`: forget the user's locale and offer the language keyboard. */
  function CmdStart(store: Store, u: UserId): (r: Outcome)
    ensures u !in r.store && GetLang(r.store, u) == DEFAULT_LANG
    ensures forall v :: v != u ==> (v in r.store <==> v in store)
    ensures forall v :: v != u && v in r.store ==> r.store[v] == store[v]
    ensures Valid(store) ==> Valid(r.store)
    ensures |r.actions| == 1 && r.actions[0].Answer?
    ensures r.actions[0].text == [Literal(LANGUAGE_PROMPT)] && r.actions[0].markup == InlineKeyboard(LanguageKeyboard())
  {
    Outcome(ClearLang(store, u), [Answer([Literal(LANGUAGE_PROMPT)], InlineKeyboard(LanguageKeyboard()))])
  }

  /** The prompt of `/start` and both captions of its keyboard render. */
  lemma CmdStartRenders(store: Store, u: UserId)
    ensures ActionsRenderable(CmdStart(store, u).actions)
  {
    var kb := LanguageKeyboard();
    assert Defined(kb[0].caption) && Defined(kb[1].caption);
  }

  /** `callback.data.split("_", maxsplit=1)[1]`: everything after the first
      underscore; data without an underscore raises `IndexError`. */
  function ParseLangCode(data: string): (r: Result<Locale, BotError>)
    ensures r.Ok? <==> '_' in data
    ensures r.Err? ==> r.error == IndexError
    ensures r.Ok? ==> |r.value| < |data| && r.value == data[|data| - |r.value|..]
    ensures r.Ok? ==> data[|data| - |r.value| - 1] == '_' && '_' !in data[..|data| - |r.value| - 1]
  {
    var parts := SplitOnce(data, '_');
    if |parts| < 2 then Err(IndexError)
    else
      assert data[..|parts[0]|] == parts[0];
      assert data[|parts[0]| + 1..] == parts[1];
      Ok(parts[1])
  }

  /** The code is everything after the first underscore, further underscores
      included. */
  lemma ParseKeepsAfterFirstUnderscore(head: string, tail: string)
    requires '_' !in head
    ensures ParseLangCode(head + "_" + tail) == Ok(tail)
  {
    SplitAtFirst(head, '_', tail);
  }

  /** `callback_set_language`: store the sanitised code for the user, then
      acknowledge, confirm in the chosen locale and send that locale's menu. */
  function CallbackSetLanguage(store: Store, u: UserId, data: string): (r: Result<Outcome, BotError>)
    ensures r.Ok? <==> '_' in data
    ensures r.Err? ==> r.error == IndexError && !StartsWith(data, LANG_PREFIX)
    ensures r.Ok? ==>
      var code := ParseLangCode(data).value;
      GetLang(r.value.store, u) == (if code in LOCALES then code else DEFAULT_LANG)
    ensures r.Ok? ==> forall v :: v != u ==> (v in r.value.store <==> v in store)
    ensures r.Ok? ==> forall v :: v != u && v in r.value.store ==> r.value.store[v] == store[v]
    ensures Valid(store) && r.Ok? ==> Valid(r.value.store)
  {
    assert StartsWith(data, LANG_PREFIX) ==> data[..5][4] == '_';
    var code :- ParseLangCode(data);
    var lang := SanitizeLang(code);
    var store' := SetLang(store, u, lang);
    var labels := MainMenuKeyboard(store', u).value;
    var text := [Localized(lang, "welcome"), Literal("\n\n"), Localized(lang, "main_menu_title")];
    Ok(Outcome(store', [AckCallback, EditText([Localized(lang, "language_saved")]), Answer(text, ReplyKeyboard(labels))]))
  }

  /** The language callback acknowledges the press, confirms in the locale it
      stored, and sends the main menu of that locale, all renderable. */
  lemma CallbackReplies(store: Store, u: UserId, data: string)
    requires '_' in data
    ensures CallbackSetLanguage(store, u, data).Ok?
    ensures var o := CallbackSetLanguage(store, u, data).value;
      var lang := GetLang(o.store, u);
      && lang in LOCALES
      && |o.actions| == 3
      && o.actions[0] == AckCallback
      && o.actions[1] == EditText([Localized(lang, "language_saved")])
      && o.actions[2].Answer?
      && o.actions[2].text == [Localized(lang, "welcome"), Literal("\n\n"), Localized(lang, "main_menu_title")]
      && o.actions[2].markup == ReplyKeyboard(MenuLabels(lang))
      && ActionsRenderable(o.actions)
  {
  }

  /** The `if`/`elif` chain of `handle_text`: the reply key for an already
      stripped text, compared exactly against the locale's three menu labels. */
  function ReplyKey(lang: Locale, text: string): (k: MessageKey)
    requires lang in LOCALES
    ensures k in MESSAGE_KEYS
    ensures k == "unknown_command" <==> text !in MenuLabels(lang)
    ensures forall i :: 0 <= i < |MENU| ==> (k == MENU[i].1 <==> text == MenuLabels(lang)[i])
  {
    MenuKeys();
    var labels := MenuLabels(lang);
    if text == labels[0] then "today_stub"
    else if text == labels[1] then "plan_stub"
    else if text == labels[2] then "settings_stub"
    else "unknown_command"
  }

  /** The outcome sends exactly one plain message: entry `key` of locale `lang`. */
  ghost predicate AnswersWith(o: Outcome, lang: Locale, key: MessageKey) {
    o.actions == [Answer([Localized(lang, key)], NoMarkup)]
  }

  /** `handle_text`: strip the message and answer exactly once in the user's
      locale, with the reply of the menu button whose label it equals, or with
      `unknown_command`; the store is never changed. */
  function HandleText(store: Store, u: UserId, text: string): (r: Result<Outcome, BotError>)
    ensures r.Err? <==> GetLang(store, u) !in LOCALES
    ensures r.Err? ==> r.error == KeyError(GetLang(store, u))
    ensures Valid(store) ==> r.Ok?
    ensures r.Ok? ==> r.value.store == store
  {
    var lang := GetLang(store, u);
    if lang !in LOCALES then Err(KeyError(lang))
    else Ok(Outcome(store, [Answer([Localized(lang, ReplyKey(lang, Strip(text)))], NoMarkup)]))
  }

  /** A handled text gets exactly one reply, a message of the user's locale,
      and that reply renders. */
  lemma HandleTextAnswersOnce(store: Store, u: UserId, text: string)
    ensures HandleText(store, u, text).Ok? ==>
      && (exists key :: key in MESSAGE_KEYS && AnswersWith(HandleText(store, u, text).value, GetLang(store, u), key))
      && ActionsRenderable(HandleText(store, u, text).value.actions)
  {
    var lang := GetLang(store, u);
    if lang in LOCALES {
      var key := ReplyKey(lang, Strip(text));
      assert key in MESSAGE_KEYS && AnswersWith(HandleText(store, u, text).value, lang, key);
    }
  }

  /** `handle_text` answers `unknown_command` exactly when the stripped text is
      none of the user's menu labels. */
  lemma HandleTextUnknown(store: Store, u: UserId, text: string)
    requires GetLang(store, u) in LOCALES
    ensures HandleText(store, u, text).Ok?
    ensures AnswersWith(HandleText(store, u, text).value, GetLang(store, u), "unknown_command") <==>
      Strip(text) !in MenuLabels(GetLang(store, u))
  {
  }

  /** `handle_text` answers with the reply of menu button `i` exactly when the
      stripped text is that button's label in the user's locale. */
  lemma HandleTextButton(store: Store, u: UserId, text: string, i: nat)
    requires GetLang(store, u) in LOCALES
    requires i < |MENU|
    ensures HandleText(store, u, text).Ok?
    ensures AnswersWith(HandleText(store, u, text).value, GetLang(store, u), MENU[i].1) <==>
      Strip(text) == MenuLabels(GetLang(store, u))[i]
  {
  }

  /** One update through the dispatcher. A callback whose data does not start
      with `lang_` matches no handler and changes nothing. Only the sender's
      entry of the store can change. */
  function Step(store: Store, e: Event): (r: Result<Outcome, BotError>)
    ensures Valid(store) ==> r.Ok? && Valid(r.value.store)
    ensures r.Ok? ==> forall v :: v != e.user ==> (v in r.value.store <==> v in store)
    ensures r.Ok? ==> forall v :: v != e.user && v in store ==> r.value.store[v] == store[v]
  {
    match e
    case Start(u) => Ok(CmdStart(store, u))
    case LangCallback(u, data) =>
      if StartsWith(data, LANG_PREFIX) then
        assert data[4] == '_';
        CallbackSetLanguage(store, u, data)
      else Ok(Outcome(store, []))
    case Text(u, text) => HandleText(store, u, text)
  }

  /** From a valid store every update is handled and everything it sends
      renders. */
  lemma StepRenders(store: Store, e: Event)
    requires Valid(store)
    ensures Step(store, e).Ok? && ActionsRenderable(Step(store, e).value.actions)
  {
    match e
    case Start(u) => CmdStartRenders(store, u);
    case LangCallback(u, data) =>
      if StartsWith(data, LANG_PREFIX) {
        assert data[4] == '_';
        CallbackReplies(store, u, data);
      }
    case Text(u, text) => HandleTextAnswersOnce(store, u, text);
  }

  /** A sequence of updates handled one at a time. An exception in a handler is
      logged by the dispatcher and polling goes on; every handler raises before
      it changes the store, so a failed update leaves the store as it was. */
  function Run(store: Store, events: seq<Event>): (r: Outcome)
    ensures Valid(store) ==> Valid(r.store)
    decreases |events|
  {
    if |events| == 0 then Outcome(store, [])
    else
      var first := match Step(store, events[0]) case Ok(o) => o case Err(_) => Outcome(store, []);
      var rest := Run(first.store, events[1..]);
      Outcome(rest.store, first.actions + rest.actions)
  }

  /** Everything a run from a valid store sends renders. */
  lemma {:induction false} RunRenders(store: Store, events: seq<Event>)
    requires Valid(store)
    ensures ActionsRenderable(Run(store, events).actions)
    decreases |events|
  {
    if |events| > 0 {
      StepRenders(store, events[0]);
      var first := Step(store, events[0]).value;
      RunRenders(first.store, events[1..]);
      var rest := Run(first.store, events[1..]);
      assert Run(store, events).actions == first.actions + rest.actions;
      ActionsRenderableAppend(first.actions, rest.actions);
    }
  }

  lemma ActionsRenderableAppend(a: seq<Action>, b: seq<Action>)
    requires ActionsRenderable(a) && ActionsRenderable(b)
    ensures ActionsRenderable(a + b)
  {
    forall i | 0 <= i < |a + b|
      ensures (a + b)[i] == (if i < |a| then a[i] else b[i - |a|])
    {
    }
  }
}
