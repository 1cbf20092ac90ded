/** `convert_chapters_for_driverbrainz` (parse_wikipedia_chapters.py): the
    mapping from chapter index to the three localised titles. */
module Export {
  import opened Wrappers
  import opened Strings
  import opened Chapters

  /** A `{"title": ..., "sort": ...}` entry; the sort is optional. */
  datatype Localized = Localized(title: string, sort: Option<string>)

  /** The value stored for one chapter: "0" is the Japanese title with its
      reading as sort, "1" the English title, "2" the romanised title. */
  datatype Entry = Entry(original: Localized, english: Localized, romanized: Localized)

  /** The `KeyError` raised for a chapter lacking a title field. */
  datatype ExportError = MissingTitleField

  /** `str(index)` for an index in tenths: "None" when there is none, the
      integer for a whole index, one decimal otherwise. */
  function KeyOf(index: Option<int>): string
  {
    match index
    case None => "None"
    case Some(t) => if t < 0 then "-" + TenthsText(-t) else TenthsText(t)
  }

  function TenthsText(t: nat): string
  {
    if t % 10 == 0 then NatToString(t / 10) else NatToString(t / 10) + "." + NatToString(t % 10)
  }

  /** Reads a key back: the inverse of `KeyOf`. */
  function ReadKey(s: string): Option<int>
  {
    if s == "None" then None
    else if |s| > 0 && s[0] == '-' then Some(-(ReadTenths(s[1..]) as int))
    else Some(ReadTenths(s))
  }

  function ReadTenths(s: string): nat
  {
    if '.' in s && |s| >= 2 then DigitsValue(s[..|s| - 2]) * 10 + DigitsValue(s[|s| - 1..])
    else DigitsValue(s) * 10
  }

  lemma TenthsTextRoundTrip(t: nat)
    ensures |TenthsText(t)| > 0 && '0' <= TenthsText(t)[0] <= '9'
    ensures ReadTenths(TenthsText(t)) == t
  {
    var w := NatToString(t / 10);
    NatToStringRoundTrip(t / 10);
    assert '.' !in w by {
      forall i | 0 <= i < |w| ensures w[i] != '.' {
        assert '0' <= w[i] <= '9';
      }
    }
    if t % 10 != 0 {
      var s := w + "." + NatToString(t % 10);
      assert NatToString(t % 10) == [('0' as int + t % 10) as char];
      assert s[..|s| - 2] == w;
      assert s[|s| - 1..] == NatToString(t % 10);
      NatToStringRoundTrip(t % 10);
      assert s[|w|] == '.';
      assert s == TenthsText(t);
    }
  }

  /** Every key reads back as the index it was made from. */
  lemma KeyRoundTrip(index: Option<int>)
    ensures ReadKey(KeyOf(index)) == index
  {
    match index
    case None =>
    case Some(t) =>
      if t < 0 {
        NegativeKeyRoundTrip(t);
        assert KeyOf(index) == "-" + TenthsText(-t);
      } else {
        WholeKeyRoundTrip(t);
        assert KeyOf(index) == TenthsText(t);
      }
  }

  lemma NegativeKeyRoundTrip(t: int)
    requires t < 0
    ensures ReadKey("-" + TenthsText(-t)) == Some(t)
  {
    var u: nat := -t;
    var body := TenthsText(u);
    TenthsTextRoundTrip(u);
    ReadNegative(body, u);
    assert "-" + TenthsText(-t) == "-" + body;
  }

  /** A key with a leading minus reads as the negated reading of the rest. */
  lemma ReadNegative(body: string, u: nat)
    requires ReadTenths(body) == u
    ensures ReadKey("-" + body) == Some(-(u as int))
  {
    var s := "-" + body;
    assert s[0] == '-' && s[1..] == body;
    assert s != "None" by {
      assert s[0] != "None"[0];
    }
  }

  lemma WholeKeyRoundTrip(t: int)
    requires t >= 0
    ensures ReadKey(TenthsText(t)) == Some(t)
  {
    var s := TenthsText(t);
    TenthsTextRoundTrip(t);
    assert s[0] != '-' && s[0] != 'N';
    assert s != "None";
  }

  /** Two chapters share a key exactly when they share an index. */
  lemma KeysDistinct(a: Option<int>, b: Option<int>)
    ensures KeyOf(a) == KeyOf(b) <==> a == b
  {
    KeyRoundTrip(a);
    KeyRoundTrip(b);
  }

  /** The entry for a chapter, or `None` when one of the fields it reads is
      missing: the kanji, English and hepburn titles, and the hiragana sort
      variant or else the hiragana title. */
  function EntryOf(c: Chapter): (r: Option<Entry>)
    ensures r.Some? <==> (Text(Kanji) in c.titles && Text(English) in c.titles && Text(Hepburn) in c.titles &&
                          (SortText(Hiragana) in c.titles || Text(Hiragana) in c.titles))
    ensures r.Some? ==> r.value.original.title == c.titles[Text(Kanji)] && r.value.english == Localized(c.titles[Text(English)], None)
    ensures r.Some? ==> r.value.original.sort == Some(if SortText(Hiragana) in c.titles then c.titles[SortText(Hiragana)] else c.titles[Text(Hiragana)])
    ensures r.Some? ==> r.value.romanized.title == c.titles[Text(Hepburn)]
    ensures r.Some? ==> (r.value.romanized.sort.Some? <==> SortText(Hepburn) in c.titles)
    ensures r.Some? && SortText(Hepburn) in c.titles ==> r.value.romanized.sort == Some(c.titles[SortText(Hepburn)])
  {
    var t := c.titles;
    if Text(Kanji) !in t then None
    else if SortText(Hiragana) !in t && Text(Hiragana) !in t then None
    else if Text(English) !in t || Text(Hepburn) !in t then None
    else
      var reading := if SortText(Hiragana) in t then t[SortText(Hiragana)] else t[Text(Hiragana)];
      var romanizedSort := if SortText(Hepburn) in t then Some(t[SortText(Hepburn)]) else None;
      Some(Entry(Localized(t[Text(Kanji)], Some(reading)), Localized(t[Text(English)], None), Localized(t[Text(Hepburn)], romanizedSort)))
  }

  /** The loop that fills the output mapping; a later chapter with the same
      key overwrites an earlier one. */
  method ConvertChapters(chapters: seq<Chapter>) returns (r: Result<map<string, Entry>, ExportError>)
    ensures r.Failure? <==> exists k :: 0 <= k < |chapters| && EntryOf(chapters[k]).None?
    ensures r.Success? ==> r.value.Keys == set k | 0 <= k < |chapters| :: KeyOf(chapters[k].index)
    ensures r.Success? ==> forall k :: 0 <= k < |chapters| && LastWithKey(chapters, k, |chapters|) ==>
      r.value[KeyOf(chapters[k].index)] == EntryOf(chapters[k]).value
  {
    var converted: map<string, Entry> := map[];
    for j := 0 to |chapters|
      invariant forall k :: 0 <= k < j ==> EntryOf(chapters[k]).Some?
      invariant converted.Keys == set k | 0 <= k < j :: KeyOf(chapters[k].index)
      invariant forall k :: 0 <= k < j && LastWithKey(chapters, k, j) ==>
        converted[KeyOf(chapters[k].index)] == EntryOf(chapters[k]).value
    {
      var entry := EntryOf(chapters[j]);
      if entry.None? {
        return Failure(MissingTitleField);
      }
      converted := converted[KeyOf(chapters[j].index) := entry.value];
    }
    return Success(converted);
  }

  /** No chapter after chapter `k` and before position `n` has the same
      key as chapter `k`. */
  predicate LastWithKey(chapters: seq<Chapter>, k: nat, n: nat)
    requires k < n <= |chapters|
  {
    forall m :: k < m < n ==> KeyOf(chapters[m].index) != KeyOf(chapters[k].index)
  }
}
