# Crypto Planner bot: language state machine

A Dafny model of the per-user language logic in `bot.py`, a Telegram bot. Only
the part that holds state and chooses replies is modelled:

- the string table `TEXTS`, with its two locales `"en"` and `"es"`, and `DEFAULT_LANG`;
- the in-memory store `user_lang`, with `get_lang` and `t`;
- the three handlers as pure transitions on that store:
  - `cmd_start` forgets the user's choice;
  - `callback_set_language` parses `lang_<code>`, replaces an unsupported code
    by the default locale and stores it;
  - `handle_text` strips the message and matches it exactly against the
    user's menu labels;
- `language_keyboard` and `main_menu_keyboard`, as data.

Each handler takes the store and one event and returns an `Outcome`: the new
store plus the list of chat actions it performs. If the Python code would
raise, the handler returns the exception instead, as a `BotError` (`KeyError`
or `IndexError`). Messages are lists of fragments, where a fragment is either
a `TEXTS` lookup or fixed text. `Render` turns them into strings.

`Step` routes one event the way the dispatcher's filters do. `Run` folds
`Step` over a sequence of updates.

Modules:

| file | module | contents |
|---|---|---|
| wrappers.dfy | `Wrappers` | `Result` |
| pystr.dfy | `PyStr` | `str.strip()` (Python's `isspace` set), `str.split(sep, 1)`, `startswith` |
| texts.dfy | `Texts` | `TEXTS` verbatim, `DEFAULT_LANG`, the menu layout |
| lang_store.dfy | `LangStore` | `user_lang`, `get_lang`, `t`, the store invariant |
| handlers.dfy | `Handlers` | keyboards, the three handlers, dispatch, runs |
| properties.dfy | `BotProperties` | properties that relate several handlers or updates |

The store invariant `LangStore.Valid` says that every stored code is a key of
`TEXTS`. `LOCALES` is the set `{"en", "es"}`, and `Texts.LocalesAreTableKeys`
proves that it equals the key set of `TEXTS`. Contracts test membership in
`LOCALES` instead of `TEXTS`, because that is cheaper for the solver.

## Model

| member | source | states |
|---|---|---|
| LangStore.Valid | bot.py:25 | the store invariant: every stored code is a key of `TEXTS`, as the comment on `user_lang` promises (`"es"` or `"en"`) |
| LangStore.GetLang | bot.py:77-78 | the stored code when the user has one, `"es"` otherwise; under the invariant the result is a key of `TEXTS` |
| LangStore.ValidLangHasTable | bot.py:107 | under the invariant `TEXTS[get_lang(u)]` exists and holds every message key, so the subscripts in `main_menu_keyboard` and `handle_text` cannot raise |
| LangStore.TableLocale | bot.py:83 | `TEXTS.get(lang, TEXTS[DEFAULT_LANG])` reads the table of `lang` when `lang` is supported, and the default table otherwise |
| LangStore.Translate | bot.py:81-83 | `t` succeeds exactly for the message keys; any other key raises `KeyError(key)` |
| LangStore.TranslateNoFallback | bot.py:81-83 | for a user whose code is supported, and so for every user under the invariant, `t` returns the entry from the user's own table, so the fallback is never taken |
| LangStore.TranslateFallback | bot.py:81-83 | with an unsupported stored code, `t` returns the default locale's entry |
| LangStore.ClearLang | bot.py:128 | `pop` removes the user's entry, which makes `get_lang` return `"es"`; other users' entries and the invariant are kept |
| LangStore.SetLang | bot.py:147 | the assignment gives the user the new code; other users are unchanged; the invariant is kept when the code is supported |
| LangStore.SanitizeLang | bot.py:144-145 | the result is always supported; a supported code is kept and any other becomes `"es"` |
| LangStore.SetAfterClear | bot.py:128-147 | a choice made after `/start` overwrites the user's entry as if `/start` had not run |
| Texts.MenuLabels | bot.py:37-60 | each locale has three menu labels; they are non-empty, free of surrounding whitespace and pairwise distinct |
| Texts.LocalesAreTableKeys | bot.py:29-74 | the keys of `TEXTS` are exactly `"en"` and `"es"`, and `DEFAULT_LANG` is one of them |
| Texts.TableKeys | bot.py:29-72 | every locale table defines exactly the same thirteen message keys |
| Texts.TableMenuEntry | bot.py:37-60 | the `btn_*` entries of each table are that locale's menu labels, in menu order |
| Texts.TableMenu | bot.py:111-113 | all three `btn_*` entries of a table, at once |
| Texts.MenusDisjoint | bot.py:37-60 | no English menu label equals any Spanish menu label |
| PyStr.IsSpace | bot.py:174 | the characters `strip()` removes: those of Python's `str.isspace()` |
| PyStr.Strip | bot.py:174 | the stripped text has no whitespace at either end |
| PyStr.StripIsSlice | bot.py:174 | the result is a contiguous slice of the input, with only whitespace cut off either side |
| PyStr.StripRemovesPadding | bot.py:174 | any whitespace around a trimmed core is removed, and exactly that core remains |
| PyStr.StripTrimmed | bot.py:174 | a string with no whitespace at either end is left unchanged |
| PyStr.StripIdempotent | bot.py:174 | stripping twice is the same as stripping once |
| PyStr.StripFixesTrimmed | bot.py:174 | `strip()` leaves a string unchanged exactly when it has no whitespace at either end |
| PyStr.StartsWith | bot.py:136 | the `F.data.startswith("lang_")` filter: the prefix fits and the first characters equal it |
| PyStr.StartsWithConcat | bot.py:136 | a string starts with a prefix exactly when it is that prefix followed by some rest |
| PyStr.SplitOnce | bot.py:142 | one part, the whole string, when the separator is absent; otherwise the text before the first separator (which contains none) and the rest |
| PyStr.SplitAtFirst | bot.py:142 | a string whose first separator is at a known position splits there |
| Handlers.ParseLangCode | bot.py:142 | `[1]` succeeds exactly when the data contains `_`; the code is the suffix after the first `_`; otherwise `IndexError` is raised |
| Handlers.ParseKeepsAfterFirstUnderscore | bot.py:142 | later underscores stay in the code |
| Handlers.RenderFragment | bot.py:153-158 | a `TEXTS[lang][key]` lookup succeeds exactly for a supported locale and a known key; a supported locale with an unknown key raises `KeyError(key)`, and any failure is a `KeyError` |
| Handlers.Render | bot.py:158 | a message renders exactly when all its fragments do, and its length is the sum of theirs |
| Handlers.RenderSingle | bot.py:153-158 | a one-fragment message renders to that fragment's text, or raises its error |
| Handlers.RenderAppend | bot.py:158 | the `+` of two renderable messages renders to the first's text followed by the second's |
| Handlers.LanguageKeyboard | bot.py:88-102 | one button per supported locale; each is captioned from that locale's table and carries `lang_` followed by that locale's code |
| Handlers.MainMenuKeyboard | bot.py:105-117 | the user's three menu labels, in order; an unsupported stored code raises `KeyError`; under the invariant it never raises |
| Handlers.MainMenuFromTable | bot.py:105-113 | the keyboard lists `TEXTS[lang]["btn_today_overview"]`, `["btn_plan"]` and `["btn_settings"]` of the user's locale, in that order |
| Handlers.CmdStart | bot.py:122-133 | the user's entry is removed and other users are unchanged; it sends exactly one message, the fixed prompt `🌐 Choose language / Elige idioma:`, carrying the language keyboard |
| Handlers.CmdStartRenders | bot.py:88-133 | the prompt and both language-button captions render |
| Handlers.CallbackSetLanguage | bot.py:136-161 | it raises `IndexError` exactly when the data has no `_`; otherwise the user ends up with the sanitised code; others are unchanged; the invariant is kept |
| Handlers.CallbackReplies | bot.py:147-161 | it acknowledges, edits the message to `language_saved` in the stored locale, and sends `welcome`, then `\n\n`, then `main_menu_title`, all in that locale, with that locale's main menu; everything renders |
| Handlers.ReplyKey | bot.py:176-183 | the reply is `unknown_command` exactly when the text is none of the locale's labels; it is button `i`'s reply exactly when the text equals label `i` |
| Handlers.HandleText | bot.py:164-183 | it raises `KeyError` exactly when the stored code is unsupported, never under the invariant; the store never changes |
| Handlers.HandleTextAnswersOnce | bot.py:176-183 | a handled text gets exactly one message, a `TEXTS` entry of the user's locale, and it renders |
| Handlers.HandleTextUnknown | bot.py:174-183 | the answer is `unknown_command` exactly when the stripped text is none of the user's labels |
| Handlers.HandleTextButton | bot.py:174-181 | the answer is the reply of button `i` exactly when the stripped text is the user's label `i` |
| Handlers.Step | bot.py:122-183 | from a valid store no handler raises and the invariant holds afterwards; only the sender's entry can change |
| Handlers.StepRenders | bot.py:130-183 | from a valid store everything a handler sends renders |
| Handlers.Run | bot.py:197-199 | a run of updates from a valid store keeps the invariant |
| Handlers.RunRenders | bot.py:197-199 | everything sent along a run from a valid store renders |
| BotProperties.RoutedCallback | bot.py:136-147 | a callback that passes the `lang_` filter never raises, and it sets the sender's entry to the sanitised text after `lang_` |
| BotProperties.CallbackStoresCode | bot.py:142-147 | `lang_<code>` stores `code` when it is supported, and `"es"` otherwise |
| BotProperties.CallbackUnsupportedCode | bot.py:144-147 | `lang_<code>` with any unsupported code leaves the user with `"es"` |
| BotProperties.CallbackUnknownCode | bot.py:144-145 | `lang_fr` leaves the user with `"es"` |
| BotProperties.CallbackSecondUnderscore | bot.py:142-145 | `lang_en_x` parses to `en_x`, which is unsupported, so the user gets `"es"` |
| BotProperties.LanguageKeyboardCoversLocales | bot.py:88-102 | each language button carries `lang_` plus a supported code, and is captioned in that locale; every supported locale has a button |
| BotProperties.LanguageButtonPress | bot.py:88-147 | pressing a language button stores exactly that button's locale |
| BotProperties.MenuPressRecognised | bot.py:105-181 | sending main-menu label `i`, with any whitespace around it, gets button `i`'s reply and never `unknown_command` |
| BotProperties.OtherLocaleLabelUnknown | bot.py:37-183 | a menu label from the other locale gets `unknown_command` |
| BotProperties.ValidRunNeverRaises | bot.py:107-172 | from a valid store no update of any run raises |
| BotProperties.RunOfTwo | bot.py:197-199 | two handled updates in a row leave the store the second one produces |
| BotProperties.StartThenChoose | bot.py:128-147 | `/start` followed by `lang_<code>` leaves the user with the sanitised code, and every other user as before |
| BotProperties.StoreUpdatesIdempotent | bot.py:128-147 | handling the same `/start` or language callback twice leaves the store as handling it once does |

## Left out

- Telegram transport: the aiogram `Bot` and `Dispatcher`, `answer`/`edit_text`/`callback.answer` calls, `parse_mode`, keyboard widget options (`resize_keyboard`, `one_time_keyboard`) and polling. Actions are plain data.
- The `TELEGRAM_BOT_TOKEN` environment check and the startup `print`: process configuration and I/O.
- `/help`: which of `F.text` and `Command("help")` receives `/help` is decided by aiogram's router, which is not part of this model. `Text` events are the messages that reach `handle_text`.
- asyncio: each handler is one atomic step; a `Run` is sequential.
- Markdown rendering of `parse_mode="Markdown"`: a message is the concatenation of its fragments.
- Price, sentiment and news fetching, report aggregation, the alert dialog, durable persistence and the scheduled broadcast: these are not part of this model.
- Handlers.Run: a step that raises is dropped together with its actions. In every handler, the modelled exceptions happen before anything is changed or sent.
- Handlers.HandleText: the reply is a `Localized(lang, key)` fragment, not the looked-up string. `RenderFragment` resolves it to `TEXTS[lang][key]`.
