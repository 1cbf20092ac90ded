/** `sanitize_sort` and the rendering of names, sort names and aliases in
    `bookbrainz_set_title` and `bookbrainz_create_work` (driverbrainz.py). */
module Titles {
  import opened Wrappers
  import opened Strings
  import opened Formatting

  // ---- sanitize_sort ----------------------------------------------------

  predicate StartsWithChar(s: string, c: char)
  {
    |s| > 0 && s[0] == c
  }

  /** The characters `sanitize_sort` looks for at the front. */
  predicate StartsWithSortPunctuation(s: string)
  {
    |s| > 0 && s[0] in {'【', '[', '(', '"', '#'}
  }

  /** The first check: drop the leading 【, then the first 】 — removed if the
      rest ends with 】, replaced by a space otherwise. */
  function StripLenticular(s: string): string
  {
    if StartsWithChar(s, '【') then
      var t := ReplaceFirst(s, "【", "");
      if EndsWith(t, "】") then ReplaceFirst(t, "】", "") else ReplaceFirst(t, "】", " ")
    else s
  }

  /** The bracket, parenthesis and quote checks: drop the first `open`, then
      the first `close` of what is left. */
  function StripPair(s: string, open: char, close: char): string
  {
    if StartsWithChar(s, open) then ReplaceFirst(ReplaceFirst(s, [open], ""), [close], "") else s
  }

  /** The last check: drop a leading #. */
  function StripHash(s: string): string
  {
    if StartsWithChar(s, '#') then ReplaceFirst(s, "#", "") else s
  }

  /** `sanitize_sort`: five checks, each on the result of the one before.
      It never lengthens a name, and changes it exactly when the name starts
      with one of the characters it looks for. */
  function SanitizeSort(s: string): (r: string)
    ensures |r| <= |s|
    ensures r == s <==> !StartsWithSortPunctuation(s)
  {
    var a := StripLenticular(s);
    var b := StripPair(a, '[', ']');
    var c := StripPair(b, '(', ')');
    var d := StripPair(c, '"', '"');
    LenticularShortens(s);
    PairShortens(a, '[', ']');
    PairShortens(b, '(', ')');
    PairShortens(c, '"', '"');
    HashShortens(d);
    StripHash(d)
  }

  lemma DropFirst(s: string, c: char, r: string)
    requires StartsWithChar(s, c)
    ensures ReplaceFirst(s, [c], r) == r + s[1..]
    ensures r == "" ==> ReplaceFirst(s, [c], r) == s[1..]
  {
  }

  lemma RemoveCharNotLonger(s: string, c: char)
    ensures |ReplaceFirst(s, [c], "")| <= |s|
  {
    ReplaceFirstNotLonger(s, [c], "");
  }

  lemma SpaceForCharNotLonger(s: string, c: char)
    ensures |ReplaceFirst(s, [c], " ")| <= |s|
  {
    ReplaceFirstNotLonger(s, [c], " ");
  }

  /** Each check either leaves its input alone or (exactly when the input
      starts with its character) returns something strictly shorter. */
  lemma LenticularShortens(s: string)
    ensures |StripLenticular(s)| <= |s| && (StartsWithChar(s, '【') <==> |StripLenticular(s)| < |s|)
  {
    if StartsWithChar(s, '【') {
      DropFirst(s, '【', "");
      var t := s[1..];
      RemoveCharNotLonger(t, '】');
      SpaceForCharNotLonger(t, '】');
      if EndsWith(t, "】") {
        assert StripLenticular(s) == ReplaceFirst(t, "】", "");
      } else {
        assert StripLenticular(s) == ReplaceFirst(t, "】", " ");
      }
    }
  }

  lemma PairShortens(s: string, open: char, close: char)
    ensures |StripPair(s, open, close)| <= |s| && (StartsWithChar(s, open) <==> |StripPair(s, open, close)| < |s|)
  {
    if StartsWithChar(s, open) {
      DropFirst(s, open, "");
      RemoveCharNotLonger(s[1..], close);
      assert StripPair(s, open, close) == ReplaceFirst(s[1..], [close], "");
    }
  }

  lemma HashShortens(s: string)
    ensures |StripHash(s)| <= |s| && (StartsWithChar(s, '#') <==> |StripHash(s)| < |s|)
  {
    if StartsWithChar(s, '#') {
      DropFirst(s, '#', "");
    }
  }

  /** `sanitize_sort` never makes a sort name longer, and it changes exactly
      the names that start with one of 【 [ ( " #. */
  /** A title wrapped whole in lenticular brackets loses both: "【X】"
      becomes "X". */
  lemma SanitizeWrapped(x: string)
    requires '】' !in x && !StartsWithSortPunctuation(x)
    ensures SanitizeSort("【" + x + "】") == x
  {
    LenticularAround(x);
    assert StripPair(x, '[', ']') == x;
    LaterChecksKeep(x);
  }

  /** A lenticular prefix followed by more text: its closing bracket becomes
      a space, so "【A】B" becomes "A B". */
  lemma SanitizeLenticularPrefix(a: string, b: string)
    requires '】' !in a && |b| > 0 && !EndsWith(b, "】")
    requires !StartsWithSortPunctuation(a + " " + b)
    ensures SanitizeSort("【" + a + "】" + b) == a + " " + b
  {
    var s := "【" + a + "】" + b;
    var t := a + "】" + b;
    DropFirst(s, '【', "");
    assert s[1..] == t;
    assert t[|t| - 1..] == b[|b| - 1..];
    assert !EndsWith(t, "】");
    RemoveFirstAfter(a, '】', b, " ");
    assert StripLenticular(s) == a + " " + b;
  }

  /** The parenthesis, quote and hash checks leave alone a string that
      starts with none of their characters. */
  lemma LaterChecksKeep(x: string)
    requires !StartsWithSortPunctuation(x)
    ensures StripHash(StripPair(StripPair(x, '(', ')'), '"', '"')) == x
  {
  }

  /** The lenticular check on "【Y】" leaves "Y". */
  lemma LenticularAround(y: string)
    requires '】' !in y
    ensures StripLenticular("【" + y + "】") == y
  {
    var s := "【" + y + "】";
    assert StartsWithChar(s, '【');
    var t := ReplaceFirst(s, ['【'], "");
    DropFirst(s, '【', "");
    assert t == y + ['】'] + "";
    assert EndsWith(t, "】");
    RemoveFirstAfter(y, '】', "", "");
    assert ReplaceFirst(t, ['】'], "") == y;
    assert StripLenticular(s) == ReplaceFirst(t, ['】'], "");
  }

  /** The bracket check on "[X]" leaves "X". */
  lemma BracketAround(x: string)
    requires ']' !in x
    ensures StripPair("[" + x + "]", '[', ']') == x
  {
    var s := "[" + x + "]";
    assert StartsWithChar(s, '[');
    var t := ReplaceFirst(s, ['['], "");
    DropFirst(s, '[', "");
    assert t == x + [']'] + "";
    RemoveFirstAfter(x, ']', "", "");
    assert ReplaceFirst(t, [']'], "") == x;
    assert StripPair(s, '[', ']') == ReplaceFirst(t, [']'], "");
  }

  /** The checks run one after another on the updated string: the bracket
      check sees what the lenticular check left, so "【[X]】" becomes "X". */
  lemma SanitizeBracketInLenticular(x: string)
    requires '】' !in x && ']' !in x && !StartsWithSortPunctuation(x)
    ensures SanitizeSort("【[" + x + "]】") == x
  {
    var inner := "[" + x + "]";
    assert "【[" + x + "]】" == "【" + inner + "】";
    assert '】' !in inner;
    LenticularAround(inner);
    BracketAround(x);
    LaterChecksKeep(x);
  }

  /** An opening bracket without a closing one is dropped alone: "[X"
      becomes "X". */
  lemma SanitizeBracketUnclosed(x: string)
    requires ']' !in x && !StartsWithSortPunctuation(x)
    ensures SanitizeSort("[" + x) == x
  {
    var s := "[" + x;
    DropFirst(s, '[', "");
    assert s[1..] == x;
    ReplaceFirstChar(x, ']', "");
    assert StripPair(s, '[', ']') == x;
    LaterChecksKeep(x);
  }

  /** The nested case on a concrete title. */
  lemma SanitizeNested()
    ensures SanitizeSort("【[A]】") == "A"
  {
    var x := "A";
    SanitizeBracketInLenticular(x);
    assert "【[" + x + "]】" == "【[A]】";
  }

  /** The unclosed case on a concrete title. */
  lemma SanitizeUnclosed()
    ensures SanitizeSort("[Example") == "Example"
  {
    SanitizeBracketUnclosed("Example");
    assert "[" + "Example" == "[Example";
  }

  // ---- Rendering --------------------------------------------------------

  /** One entry of a work's `titles` list. `subtitle`, `sortSubtitle` and
      `primary` are the optional keys. */
  datatype Title = Title(
    text: string,
    sort: string,
    language: string,
    script: string,
    subtitle: Option<string>,
    sortSubtitle: Option<string>,
    primary: Option<bool>)

  /** The Python exceptions that stop rendering: `format_map[language][script]`
      raising `KeyError`, and `str.replace` with the `None` that
      `format_index` returns for a number it cannot format. */
  datatype RenderError = MissingIndexFormat | UnformattableIndex

  /** `title["subtitle"]` when present and non-empty, else "". */
  function SubtitleOf(t: Title): (r: string)
    ensures t.subtitle.Some? && t.subtitle.value != "" ==> r == t.subtitle.value
    ensures t.subtitle.None? || t.subtitle.value == "" ==> r == ""
  {
    match t.subtitle
    case Some(s) => s
    case None => ""
  }

  /** The sort subtitle, falling back to the subtitle when absent or empty. */
  function SortSubtitleOf(t: Title): (r: string)
    ensures t.sortSubtitle.Some? && t.sortSubtitle.value != "" ==> r == t.sortSubtitle.value
    ensures t.sortSubtitle.None? || t.sortSubtitle.value == "" ==> r == SubtitleOf(t)
  {
    match t.sortSubtitle
    case Some(s) => if s != "" then s else SubtitleOf(t)
    case None => SubtitleOf(t)
  }

  /** `template.replace("|subtitle|", subtitle).replace("|index|", index)`. */
  function Substitute(template: string, subtitle: string, index: string): string
  {
    ReplaceAll(ReplaceAll(template, "|subtitle|", subtitle), "|index|", index)
  }

  /** `format_index(index, title, format_map)` with the lookup included. */
  function RenderedIndex(index: string, t: Title, formatMap: FormatMap): (r: Result<string, RenderError>)
    ensures r == Failure(MissingIndexFormat) <==> FormatIn(formatMap, t.language, t.script).None?
  {
    match FormatIn(formatMap, t.language, t.script)
    case None => Failure(MissingIndexFormat)
    case Some(f) =>
      match FormatIndex(index, f)
      case None => Failure(UnformattableIndex)
      case Some(s) => Success(s)
  }

  /** The rendered name. */
  function RenderName(index: string, t: Title, indexFormats: FormatMap): (r: Result<string, RenderError>)
    ensures r.Failure? <==> RenderedIndex(index, t, indexFormats).Failure?
    ensures r.Failure? ==> r.error == RenderedIndex(index, t, indexFormats).error
    ensures r.Success? ==> r.value == Substitute(t.text, SubtitleOf(t), RenderedIndex(index, t, indexFormats).value)
    ensures r.Success? && !Contains(t.text, "|subtitle|") && !Contains(t.text, "|index|") ==> r.value == t.text
  {
    match RenderedIndex(index, t, indexFormats)
    case Failure(e) => Failure(e)
    case Success(i) =>
      var name := Substitute(t.text, SubtitleOf(t), i);
      assert !Contains(t.text, "|subtitle|") && !Contains(t.text, "|index|") ==> name == t.text by {
        if !Contains(t.text, "|subtitle|") && !Contains(t.text, "|index|") {
          SubstituteNoMarkers(t.text, SubtitleOf(t), i);
        }
      }
      Success(name)
  }

  /** The rendered sort name, passed through `sanitize_sort`. */
  function RenderSort(index: string, t: Title, sortFormats: FormatMap): (r: Result<string, RenderError>)
    ensures r.Failure? <==> RenderedIndex(index, t, sortFormats).Failure?
    ensures r.Failure? ==> r.error == RenderedIndex(index, t, sortFormats).error
    ensures r.Success? ==> r.value == SanitizeSort(Substitute(t.sort, SortSubtitleOf(t), RenderedIndex(index, t, sortFormats).value))
  {
    match RenderedIndex(index, t, sortFormats)
    case Failure(e) => Failure(e)
    case Success(i) => Success(SanitizeSort(Substitute(t.sort, SortSubtitleOf(t), i)))
  }

  /** What `bookbrainz_set_title` does with the sort field: press Copy, press
      Guess, or type a rendered sort name. */
  datatype SortEntry = CopyName | GuessSort | TypedSort(sort: string)

  datatype TitleForm = TitleForm(name: string, sort: SortEntry, language: string)

  /** The values `bookbrainz_set_title` enters for the first title. */
  function SetTitle(index: string, t: Title, indexFormats: FormatMap, sortFormats: FormatMap): (r: Result<TitleForm, RenderError>)
    ensures r.Success? <==>
      RenderName(index, t, indexFormats).Success? && (t.sort == "COPY" || t.sort == "GUESS" || RenderSort(index, t, sortFormats).Success?)
    ensures RenderName(index, t, indexFormats).Failure? ==> r == Failure(RenderName(index, t, indexFormats).error)
    ensures r.Success? ==> r.value.name == RenderName(index, t, indexFormats).value && r.value.language == t.language
    ensures r.Success? ==> (r.value.sort == CopyName <==> t.sort == "COPY") && (r.value.sort == GuessSort <==> t.sort == "GUESS")
    ensures r.Success? && r.value.sort.TypedSort? ==> r.value.sort.sort == RenderSort(index, t, sortFormats).value
  {
    match RenderName(index, t, indexFormats)
    case Failure(e) => Failure(e)
    case Success(name) =>
      if t.sort == "COPY" then Success(TitleForm(name, CopyName, t.language))
      else if t.sort == "GUESS" then Success(TitleForm(name, GuessSort, t.language))
      else
        match RenderSort(index, t, sortFormats)
        case Failure(e) => Failure(e)
        case Success(sort) => Success(TitleForm(name, TypedSort(sort), t.language))
  }

  /** An alias as `bookbrainz_create_work` builds it for each further title. */
  datatype Alias = Alias(name: string, sort: string, language: string, primary: bool)

  function RenderAlias(index: string, t: Title, indexFormats: FormatMap, sortFormats: FormatMap): (r: Result<Alias, RenderError>)
    ensures r.Success? <==> RenderName(index, t, indexFormats).Success? && RenderSort(index, t, sortFormats).Success?
    ensures RenderName(index, t, indexFormats).Failure? ==> r == Failure(RenderName(index, t, indexFormats).error)
    ensures r.Success? ==> r.value.name == RenderName(index, t, indexFormats).value && r.value.language == t.language
    ensures r.Success? ==> r.value.sort == RenderSort(index, t, sortFormats).value
    ensures r.Success? ==> (r.value.primary <==> t.primary == Some(true))
  {
    match RenderName(index, t, indexFormats)
    case Failure(e) => Failure(e)
    case Success(name) =>
      match RenderSort(index, t, sortFormats)
      case Failure(e) => Failure(e)
      case Success(sort) => Success(Alias(name, sort, t.language, t.primary == Some(true)))
  }

  /** A sort subtitle that is absent or empty gives way to the subtitle:
      the sort name is the one rendered with the subtitle as sort subtitle. */
  lemma SortSubtitleFallback(index: string, t: Title, sortFormats: FormatMap)
    requires t.sortSubtitle.None? || t.sortSubtitle == Some("")
    ensures RenderSort(index, t, sortFormats) == RenderSort(index, t.(sortSubtitle := Some(SubtitleOf(t))), sortFormats)
  {
    var u := t.(sortSubtitle := Some(SubtitleOf(t)));
    assert SubtitleOf(u) == SubtitleOf(t);
    assert SortSubtitleOf(u) == SortSubtitleOf(t);
  }

  /** A non-empty sort subtitle is used as it is: the subtitle plays no part
      in the sort name. */
  lemma SortSubtitlePreferred(index: string, t: Title, sortFormats: FormatMap)
    requires t.sortSubtitle.Some? && t.sortSubtitle.value != ""
    ensures RenderSort(index, t, sortFormats) == RenderSort(index, t.(subtitle := None), sortFormats)
  {
    var u := t.(subtitle := None);
    assert SortSubtitleOf(u) == SortSubtitleOf(t);
  }

  /** A further title whose sort is typed renders to the alias that carries
      exactly the name and sort `bookbrainz_set_title` would enter for it
      as the first title. */
  lemma AliasAgreesWithTitle(index: string, t: Title, indexFormats: FormatMap, sortFormats: FormatMap)
    requires t.sort != "COPY" && t.sort != "GUESS"
    ensures RenderAlias(index, t, indexFormats, sortFormats).Success? <==> SetTitle(index, t, indexFormats, sortFormats).Success?
    ensures RenderAlias(index, t, indexFormats, sortFormats).Success? ==>
      var a := RenderAlias(index, t, indexFormats, sortFormats).value;
      SetTitle(index, t, indexFormats, sortFormats) == Success(TitleForm(a.name, TypedSort(a.sort), a.language))
  {
  }

  /** `work["titles"][1:]`: the titles after the first. */
  function Further(titles: seq<Title>): (r: seq<Title>)
    ensures |titles| <= 1 ==> r == []
    ensures |titles| > 1 ==> |r| == |titles| - 1 && forall k :: 0 <= k < |r| ==> r[k] == titles[k + 1]
  {
    if |titles| <= 1 then [] else titles[1..]
  }

  /** The per-title step of the alias loop. */
  function Renderer(index: string, indexFormats: FormatMap, sortFormats: FormatMap): Title -> Result<Alias, RenderError>
  {
    t => RenderAlias(index, t, indexFormats, sortFormats)
  }

  /** The aliases of a list of titles, rendered front to back by `render`;
      the first title that fails to render decides the error. */
  function Collect(ts: seq<Title>, render: Title -> Result<Alias, RenderError>): Result<seq<Alias>, RenderError>
    decreases |ts|
  {
    if |ts| == 0 then Success([])
    else
      match render(ts[0])
      case Failure(e) => Failure(e)
      case Success(a) =>
        match Collect(ts[1..], render)
        case Failure(e) => Failure(e)
        case Success(rest) => Success([a] + rest)
  }

  /** `done` followed by whatever the rest renders to. */
  function After(done: seq<Alias>, rest: Result<seq<Alias>, RenderError>): Result<seq<Alias>, RenderError>
  {
    match rest
    case Failure(e) => Failure(e)
    case Success(v) => Success(done + v)
  }

  /** The loop over `work["titles"][1:]` that collects the aliases; the first
      error stops it. */
  method RenderAliases(index: string, titles: seq<Title>, indexFormats: FormatMap, sortFormats: FormatMap)
    returns (r: Result<seq<Alias>, RenderError>)
    ensures r == Collect(Further(titles), Renderer(index, indexFormats, sortFormats))
  {
    r := CollectAliases(Further(titles), Renderer(index, indexFormats, sortFormats));
  }

  /** The loop itself, for any rendering of one title. */
  method CollectAliases(ts: seq<Title>, render: Title -> Result<Alias, RenderError>) returns (r: Result<seq<Alias>, RenderError>)
    ensures r == Collect(ts, render)
  {
    var aliases: seq<Alias> := [];
    ghost var whole := Collect(ts, render);
    var k := 0;
    assert ts[k..] == ts;
    if whole.Success? {
      assert aliases + whole.value == whole.value;
    }
    while k < |ts|
      invariant 0 <= k <= |ts|
      invariant whole == After(aliases, Collect(ts[k..], render))
    {
      var a := render(ts[k]);
      assert ts[k..][0] == ts[k] && ts[k..][1..] == ts[k + 1..];
      if a.Failure? {
        return Failure(a.error);
      }
      AfterAppend(aliases, a.value, Collect(ts[k + 1..], render));
      aliases := aliases + [a.value];
      k := k + 1;
    }
    assert ts[k..] == [];
    assert aliases + [] == aliases;
    return Success(aliases);
  }

  lemma AfterAppend(done: seq<Alias>, a: Alias, rest: Result<seq<Alias>, RenderError>)
    ensures After(done, After([a], rest)) == After(done + [a], rest)
  {
    if rest.Success? {
      assert done + ([a] + rest.value) == done + [a] + rest.value;
    }
  }

  /** The aliases render exactly when every title does, one alias per
      title, in order. */
  lemma {:induction false} CollectSucceeds(ts: seq<Title>, render: Title -> Result<Alias, RenderError>)
    ensures Collect(ts, render).Success? <==> forall k :: 0 <= k < |ts| ==> render(ts[k]).Success?
    ensures Collect(ts, render).Success? ==>
      |Collect(ts, render).value| == |ts| && forall k :: 0 <= k < |ts| ==> Collect(ts, render).value[k] == render(ts[k]).value
    decreases |ts|
  {
    if |ts| > 0 {
      CollectSucceeds(ts[1..], render);
      forall k | 1 <= k < |ts| ensures ts[1..][k - 1] == ts[k] {
      }
    }
  }

  /** A failure is the error of the first title that fails to render. */
  lemma {:induction false} CollectFailure(ts: seq<Title>, render: Title -> Result<Alias, RenderError>)
    requires Collect(ts, render).Failure?
    ensures exists k :: (0 <= k < |ts| && render(ts[k]) == Failure(Collect(ts, render).error) &&
                         forall m :: 0 <= m < k ==> render(ts[m]).Success?)
    decreases |ts|
  {
    if render(ts[0]).Failure? {
      assert render(ts[0]) == Failure(Collect(ts, render).error);
    } else {
      CollectFailure(ts[1..], render);
      var k :| 0 <= k < |ts[1..]| && render(ts[1..][k]) == Failure(Collect(ts[1..], render).error) &&
        forall m :: 0 <= m < k ==> render(ts[1..][m]).Success?;
      assert ts[1..][k] == ts[k + 1];
      forall m | 0 <= m < k + 1 ensures render(ts[m]).Success? {
        if m > 0 {
          assert ts[1..][m - 1] == ts[m];
        }
      }
    }
  }

  // ---- Properties of rendering -----------------------------------------

  /** `|subtitle|` is replaced before `|index|`: a subtitle is itself
      searched for `|index|`, while the index is inserted last and never
      searched for `|subtitle|`. */
  lemma SubtitleBeforeIndex(subtitle: string, index: string)
    ensures Substitute("|subtitle|", subtitle, index) == ReplaceAll(subtitle, "|index|", index)
    ensures Substitute("|index|", subtitle, index) == index
  {
    assert ReplaceAll("|subtitle|", "|subtitle|", subtitle) == subtitle + ReplaceAll("", "|subtitle|", subtitle);
    assert subtitle + "" == subtitle;
    ShorterAbsent("|index|", "|subtitle|");
    ReplaceAllAbsent("|index|", "|subtitle|", subtitle);
    assert ReplaceAll("|index|", "|index|", index) == index + ReplaceAll("", "|index|", index);
    assert index + "" == index;
  }

  lemma {:induction false} ShorterAbsent(s: string, p: string)
    requires |s| < |p|
    ensures !Contains(s, p)
    decreases |s|
  {
    if |s| > 0 {
      ShorterAbsent(s[1..], p);
    }
  }

  /** A template without either marker renders to itself. */
  lemma SubstituteNoMarkers(template: string, subtitle: string, index: string)
    requires !Contains(template, "|subtitle|") && !Contains(template, "|index|")
    ensures Substitute(template, subtitle, index) == template
  {
    ReplaceAllAbsent(template, "|subtitle|", subtitle);
    ReplaceAllAbsent(template, "|index|", index);
  }

  /** With the default maps, a title in English/Latin, Japanese/Kanji or
      Japanese/Latin gets the index inserted as it is, and its typed sort is
      the sanitised sort template with the sort subtitle and the index. */
  lemma DefaultMapsRender(index: string, t: Title)
    requires FormatIn(DefaultIndexFormats, t.language, t.script).Some?
    requires t.sort != "COPY" && t.sort != "GUESS"
    ensures SetTitle(index, t, DefaultIndexFormats, DefaultSortIndexFormats) ==
      Success(TitleForm(Substitute(t.text, SubtitleOf(t), index),
        TypedSort(SanitizeSort(Substitute(t.sort, SortSubtitleOf(t), index))), t.language))
  {
    DefaultFormatsKeepIndex(index, t.language, t.script);
  }

  /** "COPY" and "GUESS" press a button instead of typing a sort, so the
      sort map is not consulted and cannot make the title fail. */
  lemma SortButtonsSkipSortMap(index: string, t: Title, indexFormats: FormatMap, sortFormats: FormatMap)
    requires RenderName(index, t, indexFormats).Success?
    requires t.sort == "COPY" || t.sort == "GUESS"
    ensures SetTitle(index, t, indexFormats, sortFormats) ==
      Success(TitleForm(RenderName(index, t, indexFormats).value, if t.sort == "COPY" then CopyName else GuessSort, t.language))
  {
  }

  /** A title whose language/script pair is not in the name map fails with
      the `KeyError`, whatever the sort says. */
  lemma MissingFormatFails(index: string, t: Title, indexFormats: FormatMap, sortFormats: FormatMap)
    requires FormatIn(indexFormats, t.language, t.script).None?
    ensures SetTitle(index, t, indexFormats, sortFormats) == Failure(MissingIndexFormat)
    ensures RenderAlias(index, t, indexFormats, sortFormats) == Failure(MissingIndexFormat)
  {
  }
}
