/** `format_number`, `format_index` and the default number-format maps
    (driverbrainz.py). */
module Formatting {
  import opened Wrappers
  import opened Strings
  import opened Roman
  import opened JapaneseNumerals

  /** The formats `format_number` knows. */
  const NumberFormats: seq<string> := ["kanji", "hiragana", "hepburn", "formal_kanji", "numeral", "roman_numeral"]

  /** `format_number(number, format)`; `None` where the Python returns
      `None` (an unknown format, or a Japanese numeral of 100 000 or more). */
  function FormatNumber(number: int, format: string): (r: Option<string>)
    ensures r.None? <==> format !in NumberFormats || (ScriptNamed(format).Some? && number >= 100000)
  {
    if format !in NumberFormats then None
    else if format == "numeral" then Some(IntToString(number))
    else if format == "roman_numeral" then Some(RomanOf(number))
    else JapaneseNumeral(number, format)
  }

  /** Everything after the map lookup in `format_index(index, title,
      format_map)`: `format` is `format_map[language][script]`. */
  function FormatIndex(index: string, format: string): (r: Option<string>)
    ensures r.None? <==> format != "numeral" && IsNumeric(index) &&
                         (format !in NumberFormats || (ScriptNamed(format).Some? && DigitsValue(index) >= 100000))
    ensures format == "numeral" || !IsNumeric(index) ==> r == Some(index)
  {
    if format == "numeral" then Some(index)
    else if !IsNumeric(index) then Some(index)
    else FormatNumber(DigitsValue(index), format)
  }

  /** A number-format map: language, then script, to a format name. */
  type FormatMap = map<string, map<string, string>>

  /** `format_map[language][script]`; `None` is the `KeyError`. */
  function FormatIn(formatMap: FormatMap, language: string, script: string): (r: Option<string>)
    ensures r.Some? <==> language in formatMap && script in formatMap[language]
  {
    if language in formatMap && script in formatMap[language] then Some(formatMap[language][script]) else None
  }

  /** `DEFAULT_INDEX_NUMBER_FORMAT_MAP` and, with the same contents,
      `DEFAULT_SORT_INDEX_NUMBER_FORMAT_MAP`. */
  const DefaultIndexFormats: FormatMap :=
    map["English" := map["Latin" := "numeral"], "Japanese" := map["Kanji" := "numeral", "Latin" := "numeral"]]
  const DefaultSortIndexFormats: FormatMap :=
    map["English" := map["Latin" := "numeral"], "Japanese" := map["Kanji" := "numeral", "Latin" := "numeral"]]

  // ---- Properties -------------------------------------------------------

  /** Each format that produces a numeral for a natural number produces one
      that reads back as that number: decimal digits, a Roman numeral, or
      (for the single-character scripts) a Japanese numeral. */
  lemma FormatNumberReadsBack(n: nat, format: string)
    requires FormatNumber(n, format).Some?
    ensures format == "numeral" ==> DigitsValue(FormatNumber(n, format).value) == n
    ensures format == "roman_numeral" ==> RomanValue(FormatNumber(n, format).value) == n
    ensures format == "kanji" ==> ReadNumeral(Kanji, FormatNumber(n, format).value) == n
    ensures format == "formal_kanji" ==> ReadNumeral(FormalKanji, FormatNumber(n, format).value) == n
  {
    if format == "numeral" {
      NatToStringRoundTrip(n);
    } else if format == "roman_numeral" {
      RomanRoundTrip(n);
    } else if format == "kanji" {
      NumeralRoundTrip(n, Kanji);
    } else if format == "formal_kanji" {
      NumeralRoundTrip(n, FormalKanji);
    }
  }

  /** Formatting the decimal text of `n` is formatting `n` itself, in every
      format, "numeral" included. */
  lemma FormatIndexOfNumber(n: nat, format: string)
    ensures FormatIndex(NatToString(n), format) == FormatNumber(n, format)
  {
    NatToStringRoundTrip(n);
  }

  /** A fractional index such as "1.5" is not all digits, so it comes back
      verbatim whatever the format. */
  lemma FractionalIndexVerbatim(index: string, format: string)
    requires '.' in index
    ensures FormatIndex(index, format) == Some(index)
  {
  }

  /** The default maps give "numeral" for each of their language/script
      pairs, so every index is inserted unchanged. */
  lemma DefaultFormatsKeepIndex(index: string, language: string, script: string)
    requires FormatIn(DefaultIndexFormats, language, script).Some?
    ensures FormatIn(DefaultSortIndexFormats, language, script) == FormatIn(DefaultIndexFormats, language, script)
    ensures FormatIndex(index, FormatIn(DefaultIndexFormats, language, script).value) == Some(index)
  {
  }
}
