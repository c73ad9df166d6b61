/**
 * CustomLocalizer: a fixed table of translations, keyed by culture and then
 * by message key, read through a two-level fallback (requested culture, then
 * "de", then the key itself).
 */
module Localization {

  import Text

  /** The culture used when the requested one has no entry for a key. */
  const FallbackCulture: string := "de"

  /** The text of the English "UserNotFoundDetail" template before and after its `{0}` item. */
  const EnglishDetailPrefix: string := "A user with id "
  const EnglishDetailSuffix: string :=
    " could not" + " be found." + " Make sure" + " the Id" + " exists and" + " try again"

  /** The text of the German "UserNotFoundDetail" template before and after its `{0}` item. */
  const GermanDetailPrefix: string := "Ein Benutzer mit der ID "
  const GermanDetailSuffix: string :=
    " konnte nicht" + " gefunden" + " werden." + " Stellen Sie" + " sicher, dass" + " die ID"
    + " existiert" + " und versuchen" + " Sie es erneut"

  /** The "UserNotFoundDetail" templates; `{0}` stands for the missing identifier. */
  const EnglishDetail: string := EnglishDetailPrefix + "{0}" + EnglishDetailSuffix
  const GermanDetail: string := GermanDetailPrefix + "{0}" + GermanDetailSuffix

  /** The `_translations` table, built once and never changed. */
  const Translations: map<string, map<string, string>> := map[
    "en" := map[
      "UserNotFoundDetail" := EnglishDetail,
      "NotFound" := "Not Found"
    ],
    "de" := map[
      "UserNotFoundDetail" := GermanDetail,
      "NotFound" := "Nicht gefunden"
    ]
  ]

  /** The requested culture has its own entry for the key. */
  predicate HasEntry(culture: string, key: string)
  {
    culture in Translations && key in Translations[culture]
  }

  /**
   * `GetString(key, culture)`: the culture's own entry when there is one,
   * otherwise the fallback culture's entry, otherwise the key itself.
   */
  function GetString(key: string, culture: string): (r: string)
    ensures HasEntry(culture, key) ==> r == Translations[culture][key]
    ensures !HasEntry(culture, key) && HasEntry(FallbackCulture, key) ==>
              r == Translations[FallbackCulture][key]
    ensures !HasEntry(culture, key) && !HasEntry(FallbackCulture, key) ==> r == key
  {
    if HasEntry(culture, key) then Translations[culture][key]
    else if key in Translations[FallbackCulture] then Translations[FallbackCulture][key]
    else key
  }

  /** A culture the table does not know reads exactly like the fallback culture. */
  lemma UnknownCultureReadsAsFallback(key: string, culture: string)
    requires culture !in Translations
    ensures GetString(key, culture) == GetString(key, FallbackCulture)
  {
  }

  /** The two keys the controller asks for. */
  predicate IsShippedKey(key: string)
  {
    key == "UserNotFoundDetail" || key == "NotFound"
  }

  /**
   * Every shipped key is translated for every culture: the result is the
   * English entry exactly when the culture is "en", and the German entry
   * otherwise, never the bare key.
   */
  lemma ShippedKeysTranslated(key: string, culture: string)
    requires IsShippedKey(key)
    ensures culture == "en" ==> GetString(key, culture) == Translations["en"][key]
    ensures culture != "en" ==> GetString(key, culture) == Translations[FallbackCulture][key]
    ensures GetString(key, culture) != key
  {
  }

  /**
   * Whatever the culture, the "UserNotFoundDetail" entry has a `{0}` item,
   * so formatting it with an identifier shows that identifier.
   */
  lemma DetailTemplateHasArgument(culture: string)
    ensures Text.Contains(GetString("UserNotFoundDetail", culture), "{0}")
  {
    ShippedKeysTranslated("UserNotFoundDetail", culture);
    if culture == "en" {
      assert EnglishDetail[15..18] == "{0}";
      assert Text.OccursAt(EnglishDetail, "{0}", 15);
    } else {
      assert GermanDetail[24..27] == "{0}";
      assert Text.OccursAt(GermanDetail, "{0}", 24);
    }
  }

  /** No `{` occurs in the plain parts of the detail templates. */
  lemma EnglishPrefixIsPlain()
    ensures '{' !in EnglishDetailPrefix
  {
  }

  lemma EnglishSuffixIsPlain()
    ensures '{' !in EnglishDetailSuffix
  {
    assert '{' !in " could not" && '{' !in " be found." && '{' !in " Make sure";
    assert '{' !in " the Id" && '{' !in " exists and" && '{' !in " try again";
  }

  lemma GermanPrefixIsPlain()
    ensures '{' !in GermanDetailPrefix
  {
  }

  lemma GermanSuffixIsPlain()
    ensures '{' !in GermanDetailSuffix
  {
    assert '{' !in " konnte nicht" && '{' !in " gefunden" && '{' !in " werden.";
    assert '{' !in " Stellen Sie" && '{' !in " sicher, dass" && '{' !in " die ID";
    assert '{' !in " existiert" && '{' !in " und versuchen" && '{' !in " Sie es erneut";
  }

  /**
   * The text around the `{0}` item of either detail template holds no other
   * format item, so formatting replaces the item and keeps that text: the
   * detail is the culture's sentence with the argument in place of `{0}`.
   */
  lemma DetailSentence(culture: string, arg: string)
    ensures culture == "en" ==> Text.Format(GetString("UserNotFoundDetail", culture), arg)
                                == EnglishDetailPrefix + arg + EnglishDetailSuffix
    ensures culture != "en" ==> Text.Format(GetString("UserNotFoundDetail", culture), arg)
                                == GermanDetailPrefix + arg + GermanDetailSuffix
  {
    ShippedKeysTranslated("UserNotFoundDetail", culture);
    if culture == "en" {
      EnglishPrefixIsPlain();
      EnglishSuffixIsPlain();
      Text.FormatSubstitutes(EnglishDetailPrefix, EnglishDetailSuffix, arg);
    } else {
      GermanPrefixIsPlain();
      GermanSuffixIsPlain();
      Text.FormatSubstitutes(GermanDetailPrefix, GermanDetailSuffix, arg);
    }
  }
}
