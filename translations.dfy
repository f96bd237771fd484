/**
 * The translation lookup `t(key, language)`: the table's string for the key
 * in English or French when there is a non-empty one, otherwise the key itself.
 */
module Translations {

  /** One entry of the table: the English and the French wording. */
  datatype Wording = Wording(en: string, fr: string)

  type Table = map<string, Wording>

  /** The string an entry holds for a language; only "en" and "fr" name a field. */
  function Field(w: Wording, language: string): (r: string)
    ensures language == "en" ==> r == w.en
    ensures language == "fr" ==> r == w.fr
    ensures language != "en" && language != "fr" ==> r == []
  {
    if language == "en" then w.en else if language == "fr" then w.fr else []
  }

  /** `t`: French unless another language is asked for; the key itself when the table has nothing to say. */
  function Translate(table: Table, key: string, language: string := "fr"): (r: string)
    ensures key in table && Field(table[key], language) != [] ==> r == Field(table[key], language)
    ensures key !in table || Field(table[key], language) == [] ==> r == key
  {
    if key in table && Field(table[key], language) != [] then Field(table[key], language) else key
  }

  /** The result is either the key or one of the wordings stored under it. */
  lemma TranslateIsKeyOrWording(table: Table, key: string, language: string)
    ensures var r := Translate(table, key, language);
      r == key || (key in table && r != [] && (r == table[key].en || r == table[key].fr))
  {
  }

  /** A language other than English or French always falls back to the key. */
  lemma OtherLanguageFallsBack(table: Table, key: string, language: string)
    requires language != "en" && language != "fr"
    ensures Translate(table, key, language) == key
  {
  }

  /** Asking for a translation without a language is asking for French. */
  lemma DefaultIsFrench(table: Table, key: string)
    ensures Translate(table, key) == Translate(table, key, "fr")
    ensures key in table && table[key].fr != [] ==> Translate(table, key) == table[key].fr
  {
  }

  /** Whatever the table, the result is empty only for the empty key. */
  lemma EmptyOnlyForEmptyKey(table: Table, key: string, language: string)
    ensures Translate(table, key, language) == [] ==> key == []
  {
  }

  /** The navigation entries at the head of the table. */
  const Navigation: Table := map[
    "home" := Wording("Home", "Accueil"),
    "products" := Wording("Products", "Produits"),
    "maintenance" := Wording("Maintenance", "Entretien")
  ]

  /** "home" reads "Accueil" by default and "Home" in English; a key the table lacks comes back as it is. */
  lemma NavigationWordings()
    ensures Translate(Navigation, "home") == "Accueil"
    ensures Translate(Navigation, "home", "en") == "Home"
    ensures Translate(Navigation, "no_such_key") == "no_such_key"
  {
  }
}
