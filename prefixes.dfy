/** `CHAPTER_PREFIX_DICTIONARY`, `add_chapter_prefix_to_chapter_name` and
    `prefix_chapter_titles` (parse_wikipedia_chapters.py). */
module Prefixes {
  import opened Wrappers
  import opened Strings
  import opened Titles
  import opened Chapters

  /** The three groups of the prefix table, in its order. */
  datatype PrefixGroup = ChapterGroup | BonusGroup | SideGroup

  /** The title fields a prefix is added to, in the table's key order. */
  const Languages: seq<Language> := [English, Kanji, Kana, Hiragana, Hepburn]

  /** The table entries. The `|index|` marker stays literal; it is rendered
      when the title is entered. */
  function PrefixText(g: PrefixGroup, language: Language): string
  {
    match g
    case ChapterGroup =>
      (match language
       case English => "Chapter |index|: "
       case Kanji => "第|index|話 "
       case Kana => "ダイ|index|ワ "
       case Hiragana => "だい|index|わ "
       case Hepburn => "Dai |index| Wa ")
    case BonusGroup =>
      (match language
       case English => "Bonus Chapter: "
       case Kanji => "番外編 "
       case Kana => "バンガイヘン "
       case Hiragana => "ばんがいへん "
       case Hepburn => "Bangai‐hen ")
    case SideGroup =>
      (match language
       case English => "Side Story: "
       case Kanji => "外伝 "
       case Kana => "ガイデン "
       case Hiragana => "がいでん "
       case Hepburn => "Gaiden ")
  }

  // ---- Classification ---------------------------------------------------

  /** The first group of the table whose test the lower-cased type passes:
      "chapter" by equality, "bonus" by containing bonus, extra or special,
      "side" by containing side. */
  function Classify(category: string): (r: Option<PrefixGroup>)
    ensures r == Some(ChapterGroup) <==> AsciiLower(category) == "chapter"
    ensures r == Some(BonusGroup) <==>
      (AsciiLower(category) != "chapter" &&
       (Contains(AsciiLower(category), "bonus") || Contains(AsciiLower(category), "extra") || Contains(AsciiLower(category), "special")))
    ensures r == Some(SideGroup) <==>
      (AsciiLower(category) != "chapter" &&
       !Contains(AsciiLower(category), "bonus") && !Contains(AsciiLower(category), "extra") && !Contains(AsciiLower(category), "special") &&
       Contains(AsciiLower(category), "side"))
  {
    var lower := AsciiLower(category);
    if lower == "chapter" then Some(ChapterGroup)
    else if Contains(lower, "bonus") || Contains(lower, "extra") || Contains(lower, "special") then Some(BonusGroup)
    else if Contains(lower, "side") then Some(SideGroup)
    else None
  }

  // ---- One chapter -------------------------------------------------------

  /** The title field's new text. In bracket mode the Japanese fields get the
      prefix's last space turned into a closing bracket: 【 】 for kanji,
      kana and hiragana, [ ] followed by a space for hepburn. Otherwise the
      English field takes the override prefix when one is given. */
  function PrefixedTitle(g: PrefixGroup, brackets: bool, englishPrefix: Option<string>, language: Language, title: string): (r: string)
    ensures brackets && language in {Kanji, Kana, Hiragana} ==> r == "【" + PrefixBody(g, language) + "】" + title
    ensures brackets && language == Hepburn ==> r == "[" + PrefixBody(g, language) + "] " + title
    ensures language == English && englishPrefix.Some? && |englishPrefix.value| > 0 ==> r == englishPrefix.value + title
    ensures (!brackets || language == English) && !(language == English && englishPrefix.Some? && |englishPrefix.value| > 0) ==>
      r == PrefixText(g, language) + title
  {
    var prefix := PrefixText(g, language);
    PrefixSplit(g, language);
    BracketedParts(prefix, PrefixBody(g, language), title);
    if brackets && language in {Kanji, Kana, Hiragana} then "【" + ReplaceLast(prefix, " ", "】") + title
    else if brackets && language == Hepburn then "[" + ReplaceLast(prefix, " ", "] ") + title
    else if language == English && englishPrefix.Some? && |englishPrefix.value| > 0 then englishPrefix.value + title
    else prefix + title
  }

  /** The two bracketed forms of a prefix `body + " "`. */
  lemma BracketedParts(prefix: string, body: string, title: string)
    requires prefix == body + " "
    ensures "【" + ReplaceLast(prefix, " ", "】") + title == "【" + body + "】" + title
    ensures "[" + ReplaceLast(prefix, " ", "] ") + title == "[" + body + "] " + title
  {
    ReplaceLastTrailing(body, " ", "】");
    ReplaceLastTrailing(body, " ", "] ");
    assert "【" + (body + "】") == "【" + body + "】";
    assert "[" + (body + "] ") == "[" + body + "] ";
  }

  /** Bracket mode records a sort variant for the Japanese fields. */
  predicate SortRecorded(brackets: bool, language: Language)
  {
    brackets && language != English
  }

  /** The sort variant `f` is added once its language has been handled. */
  predicate SortAdded(old_: map<Field, string>, brackets: bool, done: seq<Language>, f: Field)
  {
    f.SortText? && SortRecorded(brackets, f.language) && f.language in done && Text(f.language) in old_
  }

  /** What field `f` holds once the languages in `done` are handled. */
  function ExpectedField(old_: map<Field, string>, g: PrefixGroup, brackets: bool, englishPrefix: Option<string>,
                         done: seq<Language>, f: Field): string
    requires f in old_ || SortAdded(old_, brackets, done, f)
  {
    if f.Text? && f.language in done && f in old_ then PrefixedTitle(g, brackets, englishPrefix, f.language, old_[f])
    else if SortAdded(old_, brackets, done, f) then PrefixText(g, f.language) + old_[Text(f.language)]
    else old_[f]
  }

  /** The title fields after the languages in `done` have been handled:
      each of those present gets its prefixed text; in bracket mode each
      Japanese one present also gets a sort variant holding the plain
      prefix and the old text; every other field is kept. */
  ghost predicate PrefixedAfter(old_: map<Field, string>, new_: map<Field, string>, g: PrefixGroup, brackets: bool,
                                englishPrefix: Option<string>, done: seq<Language>)
  {
    (forall f :: f in new_ <==> f in old_ || SortAdded(old_, brackets, done, f)) &&
    (forall f :: f in new_ ==> new_[f] == ExpectedField(old_, g, brackets, englishPrefix, done, f))
  }

  /** One turn of the loop: handling a language not handled before. */
  lemma PrefixStep(old_: map<Field, string>, cur: map<Field, string>, g: PrefixGroup, brackets: bool,
                   englishPrefix: Option<string>, done: seq<Language>, language: Language, next: map<Field, string>)
    requires PrefixedAfter(old_, cur, g, brackets, englishPrefix, done)
    requires language !in done
    requires Text(language) !in cur ==> next == cur
    requires Text(language) in cur ==>
      var n := cur[Text(language) := PrefixedTitle(g, brackets, englishPrefix, language, cur[Text(language)])];
      next == if SortRecorded(brackets, language) then n[SortText(language) := PrefixText(g, language) + cur[Text(language)]] else n
    ensures PrefixedAfter(old_, next, g, brackets, englishPrefix, done + [language])
  {
    var done' := done + [language];
    assert Text(language) in cur ==> cur[Text(language)] == old_[Text(language)];
    forall f
      ensures f in next <==> f in old_ || SortAdded(old_, brackets, done', f)
      ensures f in next ==> next[f] == ExpectedField(old_, g, brackets, englishPrefix, done', f)
    {
      assert f.language in done' <==> f.language in done || f.language == language;
    }
  }

  /** `add_chapter_prefix_to_chapter_name` on a chapter's title fields. */
  method AddChapterPrefix(titles: map<Field, string>, g: PrefixGroup, brackets: bool, englishPrefix: Option<string>)
    returns (result: map<Field, string>)
    ensures PrefixedAfter(titles, result, g, brackets, englishPrefix, Languages)
  {
    result := titles;
    for i := 0 to |Languages|
      invariant PrefixedAfter(titles, result, g, brackets, englishPrefix, Languages[..i])
    {
      var language := Languages[i];
      assert Languages[..i + 1] == Languages[..i] + [language];
      assert language !in Languages[..i];
      ghost var before := result;
      if Text(language) in result {
        var title := result[Text(language)];
        result := result[Text(language) := PrefixedTitle(g, brackets, englishPrefix, language, title)];
        if SortRecorded(brackets, language) {
          result := result[SortText(language) := PrefixText(g, language) + title];
        }
      }
      PrefixStep(titles, before, g, brackets, englishPrefix, Languages[..i], language, result);
    }
    assert Languages[..|Languages|] == Languages;
  }

  // ---- All chapters -----------------------------------------------------

  /** The English prefix override reaches only the regular chapters. */
  function EnglishOverride(category: string, englishPrefix: Option<string>): (r: Option<string>)
    ensures r.Some? ==> AsciiLower(category) == "chapter" && r == englishPrefix && |r.value| > 0
  {
    if AsciiLower(category) == "chapter" && englishPrefix.Some? && |englishPrefix.value| > 0 then englishPrefix else None
  }

  /** `prefix_chapter_titles`: each chapter whose type a group matches has
      that group's prefixes added in place; the others are left alone. */
  method PrefixChapterTitles(a: array<Chapter>, brackets: bool, englishPrefix: Option<string>)
    modifies a
    ensures forall k :: 0 <= k < a.Length ==> a[k].category == old(a[k].category) && a[k].index == old(a[k].index)
    ensures forall k :: 0 <= k < a.Length && Classify(a[k].category).None? ==> a[k] == old(a[k])
    ensures forall k :: 0 <= k < a.Length && Classify(a[k].category).Some? ==>
      PrefixedAfter(old(a[k].titles), a[k].titles, Classify(a[k].category).value, brackets,
                    EnglishOverride(a[k].category, englishPrefix), Languages)
  {
    for k := 0 to a.Length
      invariant forall m :: k <= m < a.Length ==> a[m] == old(a[m])
      invariant forall m :: 0 <= m < k ==> a[m].category == old(a[m].category) && a[m].index == old(a[m].index)
      invariant forall m :: 0 <= m < k && Classify(a[m].category).None? ==> a[m] == old(a[m])
      invariant forall m :: 0 <= m < k && Classify(a[m].category).Some? ==>
        PrefixedAfter(old(a[m].titles), a[m].titles, Classify(a[m].category).value, brackets,
                      EnglishOverride(a[m].category, englishPrefix), Languages)
    {
      var chapter := a[k];
      match Classify(chapter.category)
      case None =>
      case Some(g) =>
        var titles := AddChapterPrefix(chapter.titles, g, brackets, EnglishOverride(chapter.category, englishPrefix));
        a[k] := chapter.(titles := titles);
    }
  }

  // ---- Properties of the prefixes --------------------------------------

  /** Each table entry is a word or words ending in one space, with no
      closing bracket and no sort punctuation in front. */
  lemma PrefixShape(g: PrefixGroup, language: Language)
    ensures WellShaped(PrefixText(g, language))
  {
    match g {
      case ChapterGroup => ChapterShape(language);
      case BonusGroup => BonusShape(language);
      case SideGroup => SideShape(language);
    }
  }

  predicate WellShaped(p: string)
  {
    |p| > 1 && p[|p| - 1] == ' ' && '】' !in p && ']' !in p && !StartsWithSortPunctuation(p)
  }

  lemma ChapterShape(language: Language)
    ensures WellShaped(PrefixText(ChapterGroup, language))
  {
    match language {
      case English => case Kanji => case Kana => case Hiragana => case Hepburn =>
    }
  }

  lemma BonusShape(language: Language)
    ensures WellShaped(PrefixText(BonusGroup, language))
  {
    match language {
      case English => case Kanji => case Kana => case Hiragana => case Hepburn =>
    }
  }

  lemma SideShape(language: Language)
    ensures WellShaped(PrefixText(SideGroup, language))
  {
    match language {
      case English => case Kanji => case Kana => case Hiragana => case Hepburn =>
    }
  }

  function PrefixBody(g: PrefixGroup, language: Language): string
  {
    var p := PrefixText(g, language);
    if |p| == 0 then "" else p[..|p| - 1]
  }

  lemma PrefixSplit(g: PrefixGroup, language: Language)
    ensures PrefixText(g, language) == PrefixBody(g, language) + " "
    ensures '】' !in PrefixBody(g, language) && ']' !in PrefixBody(g, language)
    ensures |PrefixBody(g, language)| > 0 && !StartsWithSortPunctuation(PrefixBody(g, language))
  {
    PrefixShape(g, language);
    var p := PrefixText(g, language);
    assert p == p[..|p| - 1] + [p[|p| - 1]];
    assert PrefixBody(g, language)[0] == p[0];
  }

  /** The bracketed title and the sort variant recorded beside it agree:
      `sanitize_sort` turns the first into the second, for any non-empty
      title not ending in 】 (and for any hepburn title). */
  lemma SanitizedBracketsGiveSort(g: PrefixGroup, englishPrefix: Option<string>, language: Language, title: string)
    requires language != English
    requires language != Hepburn ==> |title| > 0 && !EndsWith(title, "】")
    ensures SanitizeSort(PrefixedTitle(g, true, englishPrefix, language, title)) == PrefixText(g, language) + title
  {
    PrefixSplit(g, language);
    var body := PrefixBody(g, language);
    if language == Hepburn {
      SanitizeSquare(body, title);
    } else {
      assert (body + " " + title)[0] == body[0];
      SanitizeLenticularPrefix(body, title);
      assert "【" + body + "】" + title == "【" + body + "】" + title;
    }
  }

  /** [body] followed by a space and the rest loses both brackets. */
  lemma SanitizeSquare(body: string, rest: string)
    requires ']' !in body && |body| > 0 && !StartsWithSortPunctuation(body)
    ensures SanitizeSort("[" + body + "] " + rest) == body + " " + rest
  {
    var s := "[" + body + "] " + rest;
    assert s[0] == '[';
    DropFirst(s, '[', "");
    assert s[1..] == body + "]" + (" " + rest);
    RemoveFirstAfter(body, ']', " " + rest, "");
    assert body + "" + (" " + rest) == body + " " + rest;
    assert (body + " " + rest)[0] == body[0];
  }
}
