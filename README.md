# DriverBrainz chapter numbering and title normalisation, in Dafny

DriverBrainz is a pair of Python scripts. `parse_wikipedia_chapters.py`
turns a Wikipedia chapter list into chapter records. `driverbrainz.py` then
enters those chapters as works on BookBrainz and MusicBrainz. This project
models the part of both scripts that sits between reading the page and
driving the browser, and proves what that part computes:

- **Chapter indices.** Missing indices are inferred from the neighbours of
  each record: a regular chapter, a bonus chapter or a side story. The model
  expresses indices in tenths (`1.5` is `15`), so Python's float arithmetic
  on `+1`, `+0.5`, `+0.1`, `ceil` and `floor` becomes exact integer
  arithmetic (`chapters.dfy`).
- **Chapter prefixes.** Prefixes such as "Chapter |index|: ", "第|index|話 "
  and the bracketed Japanese form are added in place to every title field of
  a chapter (`prefixes.dfy`).
- **Punctuation clean-ups.** Titles get typographic punctuation, and the
  spaces a romaniser leaves in hiragana readings are removed
  (`punctuation.dfy`).
- **Export.** The chapter list is converted into the mapping from index to
  title entries that `driverbrainz.py` reads (`export.dfy`).
- **Index numerals.** An index is rendered as decimal digits, a Roman
  numeral, or one of four Japanese numeral scripts (`roman.dfy`,
  `japanese.dfy`, `formatting.dfy`).
- **Titles.** Title and alias templates are rendered, and sort names are
  sanitised (`titles.dfy`).
- **Works.** A translation takes over the original's relationships, and each
  chapter is given its edition (`works.dfy`).

`strings.dfy` holds the Python `str` operations the code relies on, and
`wrappers.dfy` holds `Option` and `Result`. Every Python exception on these
paths becomes a `Failure`/`None` result: a `KeyError` from a missing map
entry or title field, a `TypeError` from adding to a missing neighbour
index, and the `TypeError` of `str.replace` with the `None` that
`format_index` returns.

Code that changes state step by step is modelled imperatively. Each such
method is proved against a function that specifies it:

- `Chapters.GenerateMissingIndices` fills an `array` in place.
- `Prefixes.AddChapterPrefix` and `Prefixes.PrefixChapterTitles` overwrite
  title fields.
- `Export.ConvertChapters`, `Works.PropagateRelationships`,
  `Roman.WriteRoman` and `JapaneseNumerals.ConvertToJapaneseNumeral` are
  loops that build lists, strings and maps.
- `Punctuation.UseUnicodePunctuation` and
  `Punctuation.RemoveExtraSpacesHiragana` loop over strings.

Behaviour of the code that the model follows, which a reader may not
expect:

- `sanitize_sort` runs its five checks one after another, so "【[A]】"
  loses both bracket pairs. Its closing-bracket step replaces the *first*
  "】", not the trailing one.
- `write_roman(0)` is "". A negative input writes the numeral of its value
  modulo 1000.
- A negative input to the Japanese converter gives the zero glyph.
- `replace_last` with no match puts the replacement in front, because
  `rpartition` returns `("", "", s)`.
- An inferred index is at least the previous index. It is not always above
  it: a regular chapter after a whole-numbered special gets the same index.
- The last loop of `remove_extra_spaces_hiragana` assigns only a variable
  it does not return. It therefore has no effect on the result, and
  `RemoveExtraSpacesHiragana` proves exactly that.

## Model

| member | source | states |
|---|---|---|
| Roman.WriteRoman | driverbrainz.py:126-153 | the table loop with its early `break` returns the greedy numeral `RomanOf(num)` |
| Roman.RomanRoundTrip | driverbrainz.py:126-153 | every non-negative integer is written as a numeral that the standard subtractive reader reads back as that integer |
| Roman.RomanAlphabet | driverbrainz.py:130-153 | the output uses only the letters M, D, C, L, X, V, I |
| Roman.LeadingThousands | driverbrainz.py:130-153 | the numeral of n ≥ 0 starts with exactly n div 1000 letters M |
| Roman.RomanOfZero | driverbrainz.py:145-153 | zero is written as the empty string |
| Roman.RomanOfNegative | driverbrainz.py:145-153 | a negative input is written as the numeral of its value modulo 1000 (Python's floor `divmod`) |
| JapaneseNumerals.JapaneseNumeral | driverbrainz.py:255-283 | the converter gives `None` exactly for an unknown type or for a number of 100 000 or more |
| JapaneseNumerals.ConvertToJapaneseNumeral | driverbrainz.py:255-283 | the loop over powers 10^4 … 10^0, with its quotient and remainder updates, computes `JapaneseNumeral` |
| JapaneseNumerals.NumeralRoundTrip | driverbrainz.py:159-283 | for the kanji and formal-kanji glyph columns, every number below 100 000 is written as a numeral that a digit-then-place reader reads back as that number |
| JapaneseNumerals.ZeroGlyphExactly | driverbrainz.py:266-283 | in the single-character scripts the zero glyph is the output exactly for inputs ≤ 0 |
| JapaneseNumerals.ZeroGlyphRead | driverbrainz.py:159-219 | in the single-character scripts the zero glyph reads back as 0 |
| JapaneseNumerals.TenThousand | driverbrainz.py:159-283 | 10 000 is written "万", with the leading "one" elided |
| JapaneseNumerals.DigitGlyphReads | driverbrainz.py:159-219 | each digit glyph of the kanji and formal-kanji columns is one character that reads as its digit |
| JapaneseNumerals.PlaceGlyphReads | driverbrainz.py:220-249 | each place glyph of those columns is one character that reads as its power of ten and as no digit |
| Formatting.FormatNumber | driverbrainz.py:289-309 | `None` exactly for an unknown format or for a Japanese numeral of 100 000 or more |
| Formatting.FormatIndex | driverbrainz.py:334-345 | after the map lookup, `None` (the later `TypeError`) exactly when the index is all digits, the format is not "numeral", and the format is unknown or a Japanese script given 100 000 or more; the numeral format and a non-digit index give the index unchanged |
| Formatting.FormatNumberReadsBack | driverbrainz.py:289-309 | the numeral, roman_numeral, kanji and formal_kanji outputs for n read back as n |
| Formatting.FormatIndexOfNumber | driverbrainz.py:334-345 | formatting the decimal text of n is formatting n itself, in every format |
| Formatting.FractionalIndexVerbatim | driverbrainz.py:339-340 | an index that is not all digits, such as "1.5", is returned verbatim |
| Formatting.DefaultFormatsKeepIndex | driverbrainz.py:312-330 | the two default maps agree and insert every index unchanged |
| Titles.SanitizeSort | driverbrainz.py:349-367 | `sanitize_sort` never lengthens a sort name, and changes it exactly when it starts with 【, [, (, " or # |
| Titles.SanitizeWrapped | driverbrainz.py:350-355 | "【x】" becomes x |
| Titles.SanitizeLenticularPrefix | driverbrainz.py:350-355 | "【a】b" becomes "a b" when b does not end with 】 |
| Titles.SanitizeNested | driverbrainz.py:349-367 | the checks run in sequence: "【[A]】" becomes "A" |
| Titles.SanitizeUnclosed | driverbrainz.py:356-358 | an unclosed "[" is dropped: "[Example" becomes "Example" |
| Titles.SanitizeBracketInLenticular | driverbrainz.py:349-367 | for every x holding no 】 or ] and not starting with sort punctuation, "【[x]】" sanitises to x |
| Titles.SanitizeBracketUnclosed | driverbrainz.py:356-367 | for every x holding no ] and not starting with sort punctuation, "[x" sanitises to x |
| Titles.LenticularAround | driverbrainz.py:350-353 | with no 】 inside, the lenticular step turns "【y】" into y |
| Titles.BracketAround | driverbrainz.py:356-358 | with no ] inside, the bracket step turns "[x]" into x |
| Titles.LaterChecksKeep | driverbrainz.py:359-366 | the parenthesis, quote and hash checks leave a name that starts with none of those characters unchanged |
| Titles.SubtitleOf | driverbrainz.py:392-394 | the subtitle is the title's non-empty subtitle, else "" |
| Titles.RenderedIndex | driverbrainz.py:334-345 | rendering fails with the missing-format error exactly when the map lacks the title's language/script |
| Titles.RenderName | driverbrainz.py:392-399 | the name fails exactly when the index cannot be rendered, with that error; otherwise it is the text with the subtitle and then the index filled in, and a text without markers is kept as is |
| Titles.RenderSort | driverbrainz.py:422-436 | the sort name fails exactly when the index cannot be rendered under the sort map, with that error; otherwise it is the sanitised sort template filled with the sort subtitle and the index |
| Titles.SortSubtitleFallback | driverbrainz.py:423-427 | an absent or empty sort subtitle renders the same sort name as the subtitle given as sort subtitle |
| Titles.SortSubtitlePreferred | driverbrainz.py:423-425 | a non-empty sort subtitle is used as it is: the subtitle plays no part in the sort name |
| Titles.SetTitle | driverbrainz.py:379-436 | the form is entered exactly when the name renders and the sort is a button or renders; the name error comes first; Copy is pressed exactly for "COPY", Guess exactly for "GUESS", and otherwise the rendered sort name is typed |
| Titles.RenderAlias | driverbrainz.py:828-853 | an alias renders exactly when its name and its sort name do, with the name error first, and carries the title's language and primary flag |
| Titles.AliasAgreesWithTitle | driverbrainz.py:379-436 | a further title whose sort is typed renders to an alias with the same name and sort that `bookbrainz_set_title` would enter for it |
| Titles.SubtitleBeforeIndex | driverbrainz.py:395-399 | the subtitle marker is replaced before the index marker: for every subtitle and index, a subtitle is itself searched for the index marker, while the index is never searched for the subtitle marker |
| Titles.SubstituteNoMarkers | driverbrainz.py:395-399 | a template without markers renders to itself |
| Titles.DefaultMapsRender | driverbrainz.py:379-436 | with the default maps, a typed sort is the sanitised sort template filled with the sort subtitle and the index |
| Titles.SortButtonsSkipSortMap | driverbrainz.py:418-421 | "COPY" and "GUESS" press a button and never consult the sort map |
| Titles.MissingFormatFails | driverbrainz.py:335 | a language/script pair absent from the name map makes both the title and an alias fail |
| Titles.RenderAliases | driverbrainz.py:826-856 | the alias loop renders the titles after the first, front to back, with `RenderAlias` under the index and sort maps, and stops at the first error |
| Titles.CollectAliases | driverbrainz.py:827-855 | the loop that appends one alias per title and returns on the first failure computes `Collect` |
| Titles.CollectSucceeds | driverbrainz.py:828-855 | collecting succeeds exactly when every title renders; then it holds one alias per title, in order, each that title's rendering |
| Titles.CollectFailure | driverbrainz.py:828-855 | a failed collection carries the error of the first title that fails to render, every earlier title having rendered |
| Works.Carried | driverbrainz.py:1339-1383 | a relationship carries over exactly when its id is non-empty and its role is writer, provided story for, illustrator, provided art for or contributor; the id is kept, a writer becomes "provided story for" and the other roles stay |
| Works.CarriedListMembers | driverbrainz.py:1339-1383 | a relationship is carried over exactly when some original relationship maps to it |
| Works.PropagateRelationships | driverbrainz.py:1339-1383 | the new list is the translation's list followed by the carried relationships, in the original's order, that are neither in the translation nor added earlier; so each appended entry is new, the final set is the old set plus the carried relationships, and nothing is appended when all carried entries are present |
| Works.FreshFacts | driverbrainz.py:1339-1383 | the appended entries contain no repeats and none already present, and together with the translation's list they are exactly the old and the carried relationships |
| Works.EditionFor | driverbrainz.py:1655-1666 | the chosen edition has the greatest start not above the chapter's index (the last such in dict order); there is none exactly when every edition starts later |
| Chapters.Ceil10 | parse_wikipedia_chapters.py:343 | `math.ceil` in tenths: the least whole index not below p |
| Chapters.Floor10 | parse_wikipedia_chapters.py:360 | `math.floor` in tenths: the greatest whole index not above p |
| Chapters.CalculateMissingIndex | parse_wikipedia_chapters.py:315-368 | a known index is kept; a lone record gets 1; failure exactly when the neighbour needed is missing or has no index; the result lies between prev and prev+1 (between next−1 and next without a previous record), equal to the neighbour only where the source allows |
| Chapters.GenerateMissingIndices | parse_wikipedia_chapters.py:371-402 | the in-place loop leaves the array equal to the specification `Filled`, or, on the `TypeError`, unchanged |
| Chapters.FilledFailsExactly | parse_wikipedia_chapters.py:371-402 | the pass fails exactly when the list has two or more records and the first two both lack an index |
| Chapters.FirstRecordFails | parse_wikipedia_chapters.py:378-400 | when the first record's index cannot be inferred from the second, the whole pass fails |
| Chapters.FilledShape | parse_wikipedia_chapters.py:371-402 | the pass keeps the length, categories, titles and known indices, and gives every record an index |
| Chapters.FilledInference | parse_wikipedia_chapters.py:378-400 | each inferred index is computed from the already-filled previous record and the original next record |
| Chapters.FilledOrder | parse_wikipedia_chapters.py:315-402 | an inferred index is at least the index of the record before it |
| Chapters.FilledExamples | parse_wikipedia_chapters.py:371-402 | a bonus chapter between chapters 1 and 2 gets 1.5; a lone chapter gets 1 |
| Strings.LastIndexOf | parse_wikipedia_chapters.py:421-423 | the position `rpartition` splits at: the last occurrence, or none |
| Strings.ReplaceLast | parse_wikipedia_chapters.py:421-423 | for a non-empty pattern (an empty one makes `rpartition` raise `ValueError`): when the pattern occurs, the result is the text with its last occurrence replaced; when it does not, the replacement is put in front of the text |
| Strings.ReplaceLastTrailing | parse_wikipedia_chapters.py:421-423 | `replace_last` on text ending with the pattern replaces that trailing occurrence |
| Strings.ReplaceFirstChar | driverbrainz.py:349-367 | `str.replace(c, r, 1)` replaces the first occurrence of c with r, and leaves a text without c unchanged |
| Prefixes.PrefixSplit | parse_wikipedia_chapters.py:15-37 | every prefix in the table is a body ending in one space, whose body holds no closing bracket and no leading sort punctuation |
| Prefixes.ChapterShape | parse_wikipedia_chapters.py:15-21 | each "chapter" prefix ends in one space and holds no closing bracket or leading sort punctuation |
| Prefixes.BonusShape | parse_wikipedia_chapters.py:22-28 | each "bonus" prefix has that shape |
| Prefixes.SideShape | parse_wikipedia_chapters.py:29-35 | each "side" prefix has that shape |
| Prefixes.Classify | parse_wikipedia_chapters.py:473-485 | first match in table order: chapter exactly for type "chapter"; bonus when the type contains bonus, extra or special; side when it contains side and no earlier group matched |
| Prefixes.AddChapterPrefix | parse_wikipedia_chapters.py:426-466 | every present field gets its prefix (bracketed for Japanese on request, otherwise plain or the English override); a `_sort` variant is added exactly for bracketed Japanese fields; absent fields stay absent |
| Prefixes.PrefixedTitle | parse_wikipedia_chapters.py:426-466 | in bracket mode the kanji/kana/hiragana title is "【" + prefix body + "】" + title and the hepburn one "[" + body + "] " + title, the table entry being body plus one space; an English field takes a non-empty override prefix; every other field gets the table prefix |
| Prefixes.SanitizedBracketsGiveSort | parse_wikipedia_chapters.py:437-459 | sanitising a bracketed title gives the `_sort` variant recorded beside it |
| Prefixes.SanitizeSquare | parse_wikipedia_chapters.py:450-457 | "[body] rest" sanitises to "body rest" |
| Prefixes.PrefixChapterTitles | parse_wikipedia_chapters.py:469-507 | category and index are kept; an unclassified record is unchanged; a classified one has its fields prefixed as `AddChapterPrefix` states |
| Punctuation.UseUnicodePunctuation | parse_wikipedia_chapters.py:40-44 | the quote loop gives the plain substitutions followed by strict left-to-right alternation of opening and closing quotes |
| Punctuation.QuotePairStep | parse_wikipedia_chapters.py:42-43 | one loop turn curls the next pair in the alternation and leaves fewer straight quotes |
| Punctuation.CurlQuotesAt | parse_wikipedia_chapters.py:42-43 | a quote becomes an opening quote exactly when an even number of quotes precede it; other characters stay |
| Punctuation.NoStraightPunctuation | parse_wikipedia_chapters.py:40-44 | the output has no ASCII apostrophe, hyphen-minus or double quote, and no three full stops in a row |
| Punctuation.QuotedWord | parse_wikipedia_chapters.py:42-43 | for any text a and word w free of straight quotes, a"w" becomes a“w” |
| Punctuation.QuotedPhrase | parse_wikipedia_chapters.py:42-43 | `say "hi"` gets an opening and a closing curly quote |
| Punctuation.RemoveExtraSpacesHiragana | parse_wikipedia_chapters.py:52-120 | the result is the single-spaced text with the "vs." joins and the special-character tightening applied; the final range loop has no effect |
| Punctuation.CollapseStep | parse_wikipedia_chapters.py:53-54 | one `replace("  ", " ")` keeps the single-spaced form, so the loop produces it |
| Punctuation.SingleSpacedNoDouble | parse_wikipedia_chapters.py:53-54 | the single-spaced text has no two spaces in a row |
| Punctuation.SingleSpacedRun | parse_wikipedia_chapters.py:53-54 | a run of three spaces becomes one |
| Punctuation.ReplaceIfPresent | parse_wikipedia_chapters.py:55-62 | a replacement guarded by `in` is the same as replacing every occurrence unconditionally |
| Punctuation.VersusKeeps | parse_wikipedia_chapters.py:55-62 | the "vs." joins remove only spaces and create no double space |
| Punctuation.TightenAllKeeps | parse_wikipedia_chapters.py:63-104 | the special-character loop removes only spaces, never lengthens and creates no double space |
| Punctuation.SpaceRemovalOnlyRemovesSpaces | parse_wikipedia_chapters.py:52-120 | the whole clean-up keeps every non-space character in order, never lengthens, and leaves no two spaces in a row |
| Export.EntryOf | parse_wikipedia_chapters.py:521-531 | entry "0" is the kanji title sorted by the hiragana sort (else the hiragana); "1" is the English title; "2" is the hepburn title, with a sort exactly when a hepburn sort exists; `None`, the `KeyError`, when a field is missing |
| Export.ConvertChapters | parse_wikipedia_chapters.py:518-533 | fails exactly when some chapter lacks a field; the keys are the chapters' keys; each key holds the entry of the last chapter with that key |
| Export.TenthsTextRoundTrip | parse_wikipedia_chapters.py:521 | the decimal text of a non-negative index in tenths starts with a digit and reads back as that index |
| Export.KeyRoundTrip | parse_wikipedia_chapters.py:521 | the key `KeyOf`, the model of `str(chapter["index"])`, reads back as the index |
| Export.KeysDistinct | parse_wikipedia_chapters.py:521 | two chapters share a key exactly when they share an index |

## Left out

- Everything that drives the browser (Selenium, waits, clicks), log-in, caches, HTTP fetching of Wikipedia, wikitext parsing, argument parsing, JSON reading and writing, logging, and the two `print` calls in `calculate_missing_chapter_index` (parse_wikipedia_chapters.py:352-353). These are I/O; the rendered values they would type are modelled.
- Formatting.FormatIndex: `float(index)` is modelled as the exact value of the digits. Python rounds above 2^53 ("9007199254740993" becomes 9007199254740992), and an all-digit index above about 1.8·10^308 becomes `inf`, which `format_index` returns as it is, so the later `replace` raises `TypeError`. The model instead returns the roman numeral of the exact value, so for the roman_numeral format (the numeral format keeps the text, and the Japanese scripts refuse 100 000 or more) the value formatted is exact only for indices below 2^53.
- `generate_kana`: it calls the foreign `pykakasi` library.
- Python floats: indices are integers in tenths. `Export.KeyOf` writes a whole index without ".0" and any other index with one decimal, whereas Python's `str` of a float writes "2.0". Edition starts are kept in tenths rather than parsed from string keys with `float`.
- `str.isnumeric` and `str.lower` are modelled on ASCII only.
- Title records are modelled with every key the code reads: the `KeyError` of a title without "text", "sort", "language" or "script" is not modelled. The optional keys ("subtitle", "sort_subtitle", "primary") are modelled.
- Chapter title fields are keyed by a language datatype instead of the strings "kanji", "kanji_sort" and so on. Other keys a chapter dict may hold are not part of this model.
- Relationship dicts are modelled as role and id only. Extra keys, which would make Python's `not in` comparisons differ, are not part of this model.
- The crash at driverbrainz.py:1334 when a translation already has a type, and the copying of the work type, are not modelled.
- JapaneseNumerals.NumeralRoundTrip and JapaneseNumerals.ZeroGlyphExactly: stated for the single-character scripts (kanji, formal_kanji) only. The hiragana and hepburn glyphs are multi-character words, and reading them back is not modelled.
- Export.ConvertChapters: the result is a `map`, so the insertion order of the JSON object the code writes (the order of first appearance of each key) is not modelled.
- Works.EditionFor: the editions are a sequence in dict order, and the method is the search the sorted, reversed `next(...)` performs, not a sort.
- `write_roman`'s inner `roman_num` generator is modelled by the same greedy table, not as a separate generator.
