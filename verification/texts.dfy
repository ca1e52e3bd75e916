/**
  The bot's string table: one message table per supported locale, the default
  locale, and the main-menu labels the dispatcher compares against.
 */
module Texts {
  import opened PyStr

  type Locale = string
  type MessageKey = string
  type LocaleTable = map<MessageKey, string>

  /** The locale assumed for a user who has not chosen one. */
  const DEFAULT_LANG: Locale := "es"

  /** The supported locale codes, i.e. the keys of `TEXTS`. */
  const LOCALES: set<Locale> := {"en", "es"}

  /** The main-menu labels of each locale, top to bottom; `TEXTS` takes its
      `btn_*` entries from here. */
  const EN_MENU: seq<string> := ["📊 Today's crypto overview", "📈 DCA / Investment plan", "⚙️ Settings"]
  const ES_MENU: seq<string> := ["📊 Resumen cripto de hoy", "📈 Plan DCA / inversión", "⚙️ Ajustes"]

  /** The English table: a menu label from `EN_MENU`, any other key from `EnMessage`. */
  function EnText(key: MessageKey): string
    requires key in MESSAGE_KEYS
  {
    if key == "btn_today_overview" then EN_MENU[0]
    else if key == "btn_plan" then EN_MENU[1]
    else if key == "btn_settings" then EN_MENU[2]
    else EnMessage(key)
  }

  /** The English text of every message that is not a menu label. */
  function EnMessage(key: MessageKey): string
    requires key in MESSAGE_KEYS - LABEL_KEYS
  {
    if key == "choose_language" then "🌐 Choose your language:"
    else if key == "lang_button_es" then "🇪🇸 Spanish"
    else if key == "lang_button_en" then "🇬🇧 English"
    else if key == "welcome" then "👋 Welcome to *Crypto Planner*!\n\nI will help you track the crypto market and plan your buys."
    else if key == "main_menu_title" then "📋 Main menu:"
    else if key == "unknown_command" then "I don’t understand this yet. Please use the menu buttons."
    else if key == "today_stub" then "📊 Here will be today's crypto overview for the main coins (BTC, ETH, etc.) in EUR.\n\nWe’ll add real data in the next step."
    else if key == "plan_stub" then "📈 Here we'll set up your DCA / investment plan.\n\nSoon you will be able to choose:\n• coin\n• amount\n• period (daily/weekly/monthly)."
    else if key == "settings_stub" then "⚙️ Settings will be here later.\nFor now, you can /start again to change language."
    else
      assert key == "language_saved";
      "✅ Language saved: English.\n\nUse the menu below 👇"
  }


  /** The Spanish table: a menu label from `ES_MENU`, any other key from `EsMessage`. */
  function EsText(key: MessageKey): string
    requires key in MESSAGE_KEYS
  {
    if key == "btn_today_overview" then ES_MENU[0]
    else if key == "btn_plan" then ES_MENU[1]
    else if key == "btn_settings" then ES_MENU[2]
    else EsMessage(key)
  }

  /** The Spanish text of every message that is not a menu label. */
  function EsMessage(key: MessageKey): string
    requires key in MESSAGE_KEYS - LABEL_KEYS
  {
    if key == "choose_language" then "🌐 Elige tu idioma:"
    else if key == "lang_button_es" then "🇪🇸 Español"
    else if key == "lang_button_en" then "🇬🇧 Inglés"
    else if key == "welcome" then "👋 ¡Bienvenido a *Crypto Planner*!\n\nTe ayudaré a seguir el mercado cripto y planificar tus compras."
    else if key == "main_menu_title" then "📋 Menú principal:"
    else if key == "unknown_command" then "Todavía no entiendo este mensaje. Usa los botones del menú."
    else if key == "today_stub" then "📊 Aquí aparecerá el resumen cripto de hoy para las monedas principales (BTC, ETH, etc.) en EUR.\n\nAñadiremos datos reales en el siguiente paso."
    else if key == "plan_stub" then "📈 Aquí configuraremos tu plan DCA / inversión.\n\nPronto podrás elegir:\n• moneda\n• cantidad\n• período (diario/semanal/mensual)."
    else if key == "settings_stub" then "⚙️ Aquí estarán los ajustes más adelante.\nPor ahora puedes usar /start otra vez para cambiar el idioma."
    else
      assert key == "language_saved";
      "✅ Idioma guardado: Español.\n\nUsa el menú de abajo 👇"
  }


  const EN_TEXTS: LocaleTable := map key | key in MESSAGE_KEYS :: EnText(key)
  const ES_TEXTS: LocaleTable := map key | key in MESSAGE_KEYS :: EsText(key)

  /** Locale code to message table: "en" to the English table, "es" to the Spanish one. */
  const TEXTS: map<Locale, LocaleTable> := map lang | lang in LOCALES :: if lang == "en" then EN_TEXTS else ES_TEXTS

  /** The keys every locale table defines. */
  const MESSAGE_KEYS: set<MessageKey> := {
    "choose_language", "lang_button_es", "lang_button_en", "welcome", "main_menu_title",
    "btn_today_overview", "btn_plan", "btn_settings", "unknown_command",
    "today_stub", "plan_stub", "settings_stub", "language_saved"
  }

  /** The keys of the three main-menu labels. */
  const LABEL_KEYS: set<MessageKey> := {"btn_today_overview", "btn_plan", "btn_settings"}

  /** The main menu, top to bottom: each button's label key and the key of the
      reply its press produces. */
  const MENU: seq<(MessageKey, MessageKey)> := [
    ("btn_today_overview", "today_stub"),
    ("btn_plan", "plan_stub"),
    ("btn_settings", "settings_stub")
  ]

  /** The menu labels of a supported locale, in `MENU` order: non-empty, free of
      surrounding whitespace and pairwise distinct. */
  function MenuLabels(lang: Locale): (labels: seq<string>)
    requires lang in LOCALES
    ensures |labels| == |MENU|
    ensures forall i :: 0 <= i < |MENU| ==> labels[i] != [] && Trimmed(labels[i])
    ensures forall i, j :: 0 <= i < j < |MENU| ==> labels[i] != labels[j]
  {
    assert EN_MENU[0][2] != EN_MENU[1][2];
    assert ES_MENU[0][2] != ES_MENU[1][2];
    if lang == "en" then EN_MENU else ES_MENU
  }

  /** The menu's label and reply keys, position by position. */
  lemma MenuKeys()
    ensures |MENU| == 3
    ensures MENU[0] == ("btn_today_overview", "today_stub")
    ensures MENU[1] == ("btn_plan", "plan_stub")
    ensures MENU[2] == ("btn_settings", "settings_stub")
  {
  }

  /** `LOCALES` are exactly the keys of `TEXTS`, and the default is one of them. */
  lemma LocalesAreTableKeys()
    ensures TEXTS.Keys == LOCALES
    ensures DEFAULT_LANG in LOCALES
  {
  }

  /** Every supported locale's table defines exactly the message keys. */
  lemma TableKeys(lang: Locale)
    requires lang in LOCALES
    ensures lang in TEXTS
    ensures forall key :: key in TEXTS[lang] <==> key in MESSAGE_KEYS
  {
  }

  /** A supported locale's table holds the locale's menu labels under the
      menu's label keys. */
  lemma TableMenuEntry(lang: Locale, i: nat)
    requires lang in LOCALES && i < |MENU|
    ensures lang in TEXTS && MENU[i].0 in TEXTS[lang]
    ensures TEXTS[lang][MENU[i].0] == MenuLabels(lang)[i]
  {
    MenuKeys();
    var key := MENU[i].0;
    assert key in MESSAGE_KEYS;
    if lang == "en" {
      assert TEXTS[lang] == EN_TEXTS && MenuLabels(lang) == EN_MENU;
    } else {
      assert TEXTS[lang] == ES_TEXTS && MenuLabels(lang) == ES_MENU;
    }
  }

  /** All three menu entries of a supported locale's table at once. */
  lemma TableMenu(lang: Locale)
    requires lang in LOCALES
    ensures lang in TEXTS
    ensures forall i :: 0 <= i < |MENU| ==> MENU[i].0 in TEXTS[lang] && TEXTS[lang][MENU[i].0] == MenuLabels(lang)[i]
  {
    forall i | 0 <= i < |MENU|
      ensures MENU[i].0 in TEXTS[lang] && TEXTS[lang][MENU[i].0] == MenuLabels(lang)[i]
    {
      TableMenuEntry(lang, i);
    }
  }

  /** No menu label of one locale is a menu label of another locale. */
  lemma MenusDisjoint(a: Locale, b: Locale)
    requires a in LOCALES && b in LOCALES && a != b
    ensures forall i, j :: 0 <= i < |MENU| && 0 <= j < |MENU| ==> MenuLabels(a)[i] != MenuLabels(b)[j]
  {
    assert EN_MENU[0][2] != ES_MENU[0][2];
    assert EN_MENU[1][2] != ES_MENU[1][2];
    assert EN_MENU[2][3] != ES_MENU[2][3];
  }
}
