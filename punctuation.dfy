/** The two string clean-ups of parse_wikipedia_chapters.py: typographic
    punctuation for titles (`use_unicode_punctuation`), and the removal of
    the spaces a romanisation leaves in hiragana readings
    (`remove_extra_spaces_hiragana`). */
module Punctuation {
  import opened Strings

  // ---- use_unicode_punctuation --------------------------------------------

  const OpenQuote: char := '\U{201C}'
  const CloseQuote: char := '\U{201D}'

  /** The three plain substitutions, in the source's order: apostrophe to
      right single quotation mark, hyphen-minus to hyphen (U+2010), three
      full stops to an ellipsis. */
  function TypographicMarks(s: string): string
  {
    ReplaceAll(ReplaceAll(ReplaceAll(s, "'", "\U{2019}"), "-", "\U{2010}"), "...", "\U{2026}")
  }

  /** Changes the straight double quotes of `s`, left to right, alternately
      into opening and closing ones; `opening` says what the next one
      becomes. */
  function CurlQuotes(s: string, opening: bool): (r: string)
    ensures |r| == |s|
  {
    if |s| == 0 then ""
    else if s[0] == '"' then [if opening then OpenQuote else CloseQuote] + CurlQuotes(s[1..], !opening)
    else [s[0]] + CurlQuotes(s[1..], opening)
  }

  /** The punctuation pass: the plain substitutions, then a loop that turns
      the first remaining straight quote into an opening one and the next
      into a closing one while any is left. */
  method UseUnicodePunctuation(text: string) returns (r: string)
    ensures r == CurlQuotes(TypographicMarks(text), true)
  {
    r := ReplaceAll(ReplaceAll(ReplaceAll(text, "'", "\U{2019}"), "-", "\U{2010}"), "...", "\U{2026}");
    ghost var marked := r;
    while '"' in r
      invariant CurlQuotes(r, true) == CurlQuotes(marked, true)
      decreases Count(r, '"')
    {
      QuotePairStep(r);
      r := ReplaceFirst(ReplaceFirst(r, "\"", [OpenQuote]), "\"", [CloseQuote]);
    }
    CurlQuotesQuoteFree(r, "", true);
    assert r + "" == r;
  }

  lemma {:induction false} CountConcat(x: string, y: string, c: char)
    ensures Count(x + y, c) == Count(x, c) + Count(y, c)
  {
    if |x| > 0 {
      assert (x + y)[0] == x[0];
      assert (x + y)[1..] == x[1..] + y;
      CountConcat(x[1..], y, c);
    } else {
      assert x + y == y;
    }
  }

  /** Text before the first straight quote passes through unchanged. */
  lemma {:induction false} CurlQuotesQuoteFree(x: string, y: string, opening: bool)
    requires '"' !in x
    ensures CurlQuotes(x + y, opening) == x + CurlQuotes(y, opening)
  {
    if |x| > 0 {
      assert (x + y)[0] == x[0];
      assert (x + y)[1..] == x[1..] + y;
      assert x[0] in x;
      assert x == [x[0]] + x[1..];
      CurlQuotesQuoteFree(x[1..], y, opening);
    } else {
      assert x + y == y;
    }
  }

  /** Curling text whose first straight quote follows `a`. */
  lemma CurlAtFirstQuote(a: string, b: string, opening: bool)
    requires '"' !in a
    ensures CurlQuotes(a + ['"'] + b, opening) == a + [if opening then OpenQuote else CloseQuote] + CurlQuotes(b, !opening)
    ensures Count(a + ['"'] + b, '"') == Count(a, '"') + 1 + Count(b, '"')
  {
    assert a + ['"'] + b == a + (['"'] + b);
    CurlQuotesQuoteFree(a, ['"'] + b, opening);
    assert (['"'] + b)[1..] == b;
    CountConcat(a + ['"'], b, '"');
    CountConcat(a, ['"'], '"');
  }

  /** The curled text `a + [q] + b`, for a curly quote `q`, has `a`'s and
      `b`'s straight quotes only. */
  lemma CountAroundCurly(a: string, q: char, b: string)
    requires q != '"'
    ensures Count(a + [q] + b, '"') == Count(a, '"') + Count(b, '"')
  {
    CountConcat(a + [q], b, '"');
    CountConcat(a, [q], '"');
  }

  /** The text one turn of the loop leaves: the first straight quote
      opened, then the next one closed. */
  function QuoteTurn(s: string): string
  {
    ReplaceFirst(ReplaceFirst(s, "\"", [OpenQuote]), "\"", [CloseQuote])
  }

  /** One turn of the loop curls the next pair of quotes the way the
      alternation does, and leaves fewer straight quotes. */
  lemma QuotePairStep(s: string)
    requires '"' in s
    ensures CurlQuotes(QuoteTurn(s), true) == CurlQuotes(s, true)
    ensures Count(QuoteTurn(s), '"') < Count(s, '"')
  {
    var i := IndexOfChar(s, '"');
    SplitAtFirst(s, '"');
    var a, b := s[..i], s[i + 1..];
    if '"' in b {
      var j := IndexOfChar(b, '"');
      SplitAtFirst(b, '"');
      var c, d := b[..j], b[j + 1..];
      TwoQuotesLeft(s, a, c, d);
    } else {
      OneQuoteLeft(s, a, b);
    }
  }

  /** The loop turn on text with at least two straight quotes, the first
      two after quote-free `a` and `c`. */
  lemma TwoQuotesLeft(s: string, a: string, c: string, d: string)
    requires '"' !in a && '"' !in c && s == a + ['"'] + (c + ['"'] + d)
    ensures CurlQuotes(QuoteTurn(s), true) == CurlQuotes(s, true)
    ensures Count(QuoteTurn(s), '"') < Count(s, '"')
  {
    var x := a + [OpenQuote] + c;
    TwoQuotesTurned(s, a, c, d);
    TwoQuotesCurled(a, c, d);
    assert '"' !in x + [CloseQuote];
    CurlQuotesQuoteFree(x + [CloseQuote], d, true);
    CountAroundCurly(x, CloseQuote, d);
    CountAroundCurly(a, OpenQuote, c);
    CurlAtFirstQuote(a, c + ['"'] + d, true);
    CurlAtFirstQuote(c, d, false);
  }

  /** What the two replacements make of text with two quotes ahead. */
  lemma TwoQuotesTurned(s: string, a: string, c: string, d: string)
    requires '"' !in a && '"' !in c && s == a + ['"'] + (c + ['"'] + d)
    ensures QuoteTurn(s) == a + [OpenQuote] + c + [CloseQuote] + d
  {
    var b := c + ['"'] + d;
    RemoveFirstAfter(a, '"', b, [OpenQuote]);
    var x := a + [OpenQuote] + c;
    assert '"' !in x;
    assert a + [OpenQuote] + b == x + ['"'] + d;
    RemoveFirstAfter(x, '"', d, [CloseQuote]);
  }

  /** What the alternation makes of text with two quotes ahead. */
  lemma TwoQuotesCurled(a: string, c: string, d: string)
    requires '"' !in a && '"' !in c
    ensures CurlQuotes(a + ['"'] + (c + ['"'] + d), true) == a + [OpenQuote] + c + [CloseQuote] + CurlQuotes(d, true)
  {
    CurlAtFirstQuote(a, c + ['"'] + d, true);
    CurlAtFirstQuote(c, d, false);
    assert a + [OpenQuote] + (c + [CloseQuote] + CurlQuotes(d, true)) == a + [OpenQuote] + c + [CloseQuote] + CurlQuotes(d, true);
  }

  /** The loop turn on text with exactly one straight quote, after `a`. */
  lemma OneQuoteLeft(s: string, a: string, b: string)
    requires '"' !in a && '"' !in b && s == a + ['"'] + b
    ensures CurlQuotes(QuoteTurn(s), true) == CurlQuotes(s, true)
    ensures Count(QuoteTurn(s), '"') < Count(s, '"')
  {
    CurlAtFirstQuote(a, b, true);
    RemoveFirstAfter(a, '"', b, [OpenQuote]);
    var t := a + [OpenQuote] + b;
    ReplaceFirstChar(t, '"', [CloseQuote]);
    assert QuoteTurn(s) == t;
    CurlQuotesQuoteFree(t, "", true);
    CurlQuotesQuoteFree(b, "", false);
    assert t + "" == t;
    assert b + "" == b;
    CountAroundCurly(a, OpenQuote, b);
  }

  /** The alternation spelled out position by position: a straight quote
      becomes an opening quote exactly when an even number of straight
      quotes comes before it (with `opening` true); every other character
      stays. */
  lemma {:induction false} CurlQuotesAt(s: string, opening: bool, i: nat)
    requires i < |s|
    ensures CurlQuotes(s, opening)[i] ==
      if s[i] == '"' then (if (Count(s[..i], '"') % 2 == 0) == opening then OpenQuote else CloseQuote) else s[i]
  {
    if i > 0 {
      CurlQuotesAt(s[1..], if s[0] == '"' then !opening else opening, i - 1);
      assert s[..i] == [s[0]] + s[1..][..i - 1];
      CountConcat([s[0]], s[1..][..i - 1], '"');
    }
  }

  /** `p in s` holds exactly when `p` occurs at some position of `s`. */
  lemma {:induction false} ContainsAt(s: string, p: string)
    ensures Contains(s, p) <==> exists j :: OccursAt(s, p, j)
    decreases |s|
  {
    if p <= s {
      assert OccursAt(s, p, 0);
    }
    if |s| > 0 {
      ContainsAt(s[1..], p);
      forall j | OccursAt(s[1..], p, j) ensures OccursAt(s, p, j + 1) {
        assert s[1..][j..j + |p|] == s[j + 1..j + 1 + |p|];
      }
      forall j | OccursAt(s, p, j) && j > 0 ensures OccursAt(s[1..], p, j - 1) {
        assert s[1..][j - 1..j - 1 + |p|] == s[j..j + |p|];
      }
      if exists j :: OccursAt(s, p, j) {
        var j :| OccursAt(s, p, j);
        if j == 0 {
          assert s[..|p|] == p;
        }
      }
    } else if exists j :: OccursAt(s, p, j) {
      var j :| OccursAt(s, p, j);
      assert |p| == 0;
    }
  }

  /** What a run of dots at the front of an ellipsis replacement comes
      from. */
  lemma EllipsisFront(t: string)
    ensures |ReplaceAll(t, "...", "\U{2026}")| > 0 && ReplaceAll(t, "...", "\U{2026}")[0] == '.' ==>
      |t| > 0 && t[0] == '.' && !("..." <= t)
    ensures |ReplaceAll(t, "...", "\U{2026}")| > 1 && ReplaceAll(t, "...", "\U{2026}")[0] == '.' && ReplaceAll(t, "...", "\U{2026}")[1] == '.' ==>
      |t| > 1 && t[0] == '.' && t[1] == '.'
  {
    if |t| > 0 && !("..." <= t) {
      var e := ReplaceAll(t[1..], "...", "\U{2026}");
      assert ReplaceAll(t, "...", "\U{2026}") == [t[0]] + e;
      if |t| > 1 && !("..." <= t[1..]) {
        assert ReplaceAll(t[1..], "...", "\U{2026}") == [t[1]] + ReplaceAll(t[2..], "...", "\U{2026}");
      }
    }
  }

  /** After the ellipsis replacement no three full stops remain together. */
  lemma {:induction false} EllipsisGone(s: string)
    ensures !Contains(ReplaceAll(s, "...", "\U{2026}"), "...")
    decreases |s|
  {
    if |s| > 0 {
      if "..." <= s {
        EllipsisGone(s[3..]);
        var e := ReplaceAll(s[3..], "...", "\U{2026}");
        assert ReplaceAll(s, "...", "\U{2026}") == "\U{2026}" + e;
        assert ("\U{2026}" + e)[1..] == e;
      } else {
        EllipsisGone(s[1..]);
        var e := ReplaceAll(s[1..], "...", "\U{2026}");
        assert ReplaceAll(s, "...", "\U{2026}") == [s[0]] + e;
        assert ([s[0]] + e)[1..] == e;
        EllipsisFront(s[1..]);
      }
    }
  }

  /** The punctuation pass leaves no ASCII apostrophe, hyphen-minus or
      double quote, and no three full stops in a row. */
  lemma NoStraightPunctuation(text: string)
    ensures '\'' !in CurlQuotes(TypographicMarks(text), true)
    ensures '-' !in CurlQuotes(TypographicMarks(text), true)
    ensures '"' !in CurlQuotes(TypographicMarks(text), true)
    ensures !Contains(CurlQuotes(TypographicMarks(text), true), "...")
  {
    var a := ReplaceAll(text, "'", "\U{2019}");
    ReplaceAllRemovesChar(text, '\'', "\U{2019}");
    var b := ReplaceAll(a, "-", "\U{2010}");
    ReplaceAllKeepsOut(a, "-", "\U{2010}", '\'');
    ReplaceAllRemovesChar(a, '-', "\U{2010}");
    var m := ReplaceAll(b, "...", "\U{2026}");
    ReplaceAllKeepsOut(b, "...", "\U{2026}", '\'');
    ReplaceAllKeepsOut(b, "...", "\U{2026}", '-');
    var r := CurlQuotes(m, true);
    forall i | 0 <= i < |r|
      ensures r[i] != '\'' && r[i] != '-' && r[i] != '"' && (r[i] == '.' ==> m[i] == '.')
    {
      CurlQuotesAt(m, true, i);
    }
    forall j | OccursAt(r, "...", j) ensures OccursAt(m, "...", j) {
      assert r[j..j + 3][0] == r[j] && r[j..j + 3][1] == r[j + 1] && r[j..j + 3][2] == r[j + 2];
      assert m[j..j + 3] == "...";
    }
    ContainsAt(r, "...");
    ContainsAt(m, "...");
    EllipsisGone(b);
  }

  /** A quoted word after quote-free text gets an opening and a closing
      quote. */
  lemma QuotedWord(a: string, w: string)
    requires '"' !in a && '"' !in w
    ensures CurlQuotes(a + ['"'] + w + ['"'], true) == a + [OpenQuote] + w + [CloseQuote]
  {
    CurlAtFirstQuote(a, w + ['"'], true);
    CurlAtFirstQuote(w, [], false);
    assert w + ['"'] + [] == w + ['"'];
    assert a + ['"'] + w + ['"'] == a + ['"'] + (w + ['"']);
  }

  /** A title with one quoted phrase gets an opening and a closing quote. */
  lemma QuotedPhrase()
    ensures CurlQuotes("say \"hi\"", true) == "say \U{201C}hi\U{201D}"
  {
    var a, w := "say ", "hi";
    assert '"' !in a && '"' !in w;
    QuotedWord(a, w);
    assert a + ['"'] + w + ['"'] == "say \"hi\"";
    assert a + [OpenQuote] + w + [CloseQuote] == "say \U{201C}hi\U{201D}";
  }

  // ---- remove_extra_spaces_hiragana ---------------------------------------

  /** The text with every ASCII space that is followed by another space
      dropped: each run of spaces shrinks to a single space. */
  function SingleSpaced(s: string): string
  {
    if |s| == 0 then ""
    else if "  " <= s then SingleSpaced(s[1..])
    else [s[0]] + SingleSpaced(s[1..])
  }

  /** The characters of `s` other than the ASCII space, in order. */
  function NonSpace(s: string): string
  {
    if |s| == 0 then "" else (if s[0] == ' ' then "" else [s[0]]) + NonSpace(s[1..])
  }

  /** The four joins of "vs." written with spaces between its letters. */
  function VersusJoined(s: string): string
  {
    var a := ReplaceAll(s, " \U{FF56} \U{FF53} \U{FF0E} ", "\U{FF56}\U{FF53}\U{FF0E}");
    var b := ReplaceAll(a, "\U{FF56} \U{FF53} \U{FF0E}", "\U{FF56}\U{FF53}\U{FF0E}");
    var c := ReplaceAll(b, " vs \U{FF0E} ", "vs\U{FF0E}");
    ReplaceAll(c, "vs \U{FF0E}", "vs\U{FF0E}")
  }

  /** The characters whose surrounding spaces are removed, in the source's
      order. */
  const SpecialCharacters: seq<char> := [
    '\U{FF01}', '\U{3001}', '\U{30FB}', '\U{00B7}', '!', '?', '.', '\U{00D7}', '\U{FF0E}', '\U{2010}',
    '\U{300C}', '\U{300D}', '\U{3010}', '\U{3011}', '\U{3008}', '\U{3009}', '(', ')', '[', ']', '{', '}',
    '\U{3000}', '1', '2', '3', '4', '5', '6', '7', '8', '9']

  /** One turn of the loop over the special characters: spaces on both
      sides are removed if any occur, otherwise a space after it, otherwise
      a space before it. */
  function Tighten(s: string, c: char): string
  {
    if Contains(s, [' ', c, ' ']) then ReplaceAll(s, [' ', c, ' '], [c])
    else if Contains(s, [c, ' ']) then ReplaceAll(s, [c, ' '], [c])
    else if Contains(s, [' ', c]) then ReplaceAll(s, [' ', c], [c])
    else s
  }

  /** The loop over the special characters, for the first `|cs|` of them. */
  function TightenAll(s: string, cs: seq<char>): string
  {
    if |cs| == 0 then s else Tighten(TightenAll(s, cs[..|cs| - 1]), cs[|cs| - 1])
  }

  /** The characters of the ranges the final loop looks at: enclosed
      alphanumerics, CJK symbols and punctuation, and the full-width signs. */
  predicate InSymbolRanges(c: char)
  {
    0x2460 <= c as int <= 0x24FF || 0x3000 <= c as int <= 0x303F || 0xFFE0 <= c as int <= 0xFFEE
  }

  /** `remove_extra_spaces_hiragana`. Its last loop assigns only the local
      it no longer returns (and tests the leftover last special character),
      so the result is the text as it stands after the special
      characters. */
  method RemoveExtraSpacesHiragana(text: string) returns (output: string)
    ensures output == TightenAll(VersusJoined(SingleSpaced(text)), SpecialCharacters)
  {
    var input := text;
    while Contains(input, "  ")
      invariant SingleSpaced(input) == SingleSpaced(text)
      decreases |input|
    {
      CollapseStep(input);
      ReplaceAllNotLonger(input, "  ", " ");
      input := ReplaceAll(input, "  ", " ");
    }
    SingleSpacedFixed(input);
    ghost var spaced := input;
    input := ReplaceIfPresent(input, " \U{FF56} \U{FF53} \U{FF0E} ", "\U{FF56}\U{FF53}\U{FF0E}");
    input := ReplaceIfPresent(input, "\U{FF56} \U{FF53} \U{FF0E}", "\U{FF56}\U{FF53}\U{FF0E}");
    input := ReplaceIfPresent(input, " vs \U{FF0E} ", "vs\U{FF0E}");
    input := ReplaceIfPresent(input, "vs \U{FF0E}", "vs\U{FF0E}");
    ghost var joined := input;
    assert joined == VersusJoined(spaced);
    for k := 0 to |SpecialCharacters|
      invariant input == TightenAll(joined, SpecialCharacters[..k])
    {
      var c := SpecialCharacters[k];
      assert SpecialCharacters[..k + 1][..k] == SpecialCharacters[..k];
      if Contains(input, [' ', c, ' ']) {
        input := ReplaceAll(input, [' ', c, ' '], [c]);
      } else if Contains(input, [c, ' ']) {
        input := ReplaceAll(input, [c, ' '], [c]);
      } else if Contains(input, [' ', c]) {
        input := ReplaceAll(input, [' ', c], [c]);
      }
    }
    assert SpecialCharacters[..|SpecialCharacters|] == SpecialCharacters;
    output := input;
    var leftover := SpecialCharacters[|SpecialCharacters| - 1];
    var characters := input;
    for k := 0 to |characters|
      invariant output == TightenAll(joined, SpecialCharacters)
    {
      var c := characters[k];
      if InSymbolRanges(c) {
        if Contains(input, [' ', c, ' ']) {
          input := ReplaceAll(output, [' ', c, ' '], [c]);
        } else if Contains(input, [leftover, ' ']) {
          input := ReplaceAll(output, [c, ' '], [c]);
        } else if Contains(input, [' ', leftover]) {
          input := ReplaceAll(output, [' ', c], [c]);
        }
      }
    }
  }

  /** The source's `if p in s: s = s.replace(p, r)`: replacing only when
      `p` occurs changes nothing, since replacing an absent `p` is the
      identity. */
  method ReplaceIfPresent(s: string, p: string, r: string) returns (t: string)
    requires |p| > 0
    ensures t == ReplaceAll(s, p, r)
  {
    if Contains(s, p) {
      t := ReplaceAll(s, p, r);
    } else {
      ReplaceAllAbsent(s, p, r);
      t := s;
    }
  }

  // ---- Lemmas about the space removal -------------------------------------

  /** One `replace("  ", " ")` does not change the single-spaced form (nor
      that of the text behind a space). */
  lemma {:induction false} CollapseStep(t: string)
    ensures SingleSpaced(ReplaceAll(t, "  ", " ")) == SingleSpaced(t)
    ensures SingleSpaced(" " + ReplaceAll(t, "  ", " ")) == SingleSpaced(" " + t)
    decreases |t|
  {
    var r := ReplaceAll(t, "  ", " ");
    if |t| == 0 {
      assert SingleSpaced(" ") == " " + SingleSpaced("");
    } else if "  " <= t {
      var u := t[2..];
      CollapseStep(u);
      assert r == " " + ReplaceAll(u, "  ", " ");
      assert t[1..] == " " + u;
      assert SingleSpaced(t) == SingleSpaced(" " + u);
      assert (" " + r)[1..] == r;
      assert SingleSpaced(" " + r) == SingleSpaced(r);
      assert (" " + t)[1..] == t;
      assert SingleSpaced(" " + t) == SingleSpaced(t);
    } else {
      var t1 := t[1..];
      CollapseStep(t1);
      assert r == [t[0]] + ReplaceAll(t1, "  ", " ");
      assert t == [t[0]] + t1;
      if t[0] == ' ' {
        assert r == " " + ReplaceAll(t1, "  ", " ");
        assert t == " " + t1;
        assert (" " + r)[1..] == r;
        assert SingleSpaced(" " + r) == SingleSpaced(r);
        assert (" " + t)[1..] == t;
        assert SingleSpaced(" " + t) == SingleSpaced(t);
      } else {
        assert ([t[0]] + ReplaceAll(t1, "  ", " "))[1..] == ReplaceAll(t1, "  ", " ");
        assert SingleSpaced(r) == [t[0]] + SingleSpaced(ReplaceAll(t1, "  ", " "));
        assert (" " + r)[1..] == r;
        assert SingleSpaced(" " + r) == " " + SingleSpaced(r);
        assert (" " + t)[1..] == t;
        assert SingleSpaced(" " + t) == " " + SingleSpaced(t);
      }
    }
  }

  /** A run of three spaces becomes one. */
  lemma SingleSpacedRun()
    ensures SingleSpaced("a   b") == "a b"
  {
    assert "a   b"[1..] == "   b" && "   b"[1..] == "  b" && "  b"[1..] == " b" && " b"[1..] == "b";
    assert SingleSpaced(" b") == " b";
  }

  /** Text without two spaces in a row is already single-spaced. */
  lemma {:induction false} SingleSpacedFixed(t: string)
    requires !Contains(t, "  ")
    ensures SingleSpaced(t) == t
  {
    if |t| > 0 {
      SingleSpacedFixed(t[1..]);
    }
  }

  /** The single-spaced form has no two spaces in a row, and starts with a
      space only when the text does. */
  lemma {:induction false} SingleSpacedNoDouble(t: string)
    ensures !Contains(SingleSpaced(t), "  ")
    ensures |SingleSpaced(t)| > 0 && SingleSpaced(t)[0] == ' ' ==> |t| > 0 && t[0] == ' '
  {
    if |t| > 0 {
      SingleSpacedNoDouble(t[1..]);
      if !("  " <= t) {
        var x := SingleSpaced(t[1..]);
        assert ([t[0]] + x)[1..] == x;
      }
    }
  }

  lemma {:induction false} NonSpaceConcat(x: string, y: string)
    ensures NonSpace(x + y) == NonSpace(x) + NonSpace(y)
  {
    if |x| > 0 {
      assert (x + y)[0] == x[0];
      assert (x + y)[1..] == x[1..] + y;
      NonSpaceConcat(x[1..], y);
    } else {
      assert x + y == y;
    }
  }

  lemma {:induction false} SingleSpacedKeeps(t: string)
    ensures NonSpace(SingleSpaced(t)) == NonSpace(t)
    ensures |SingleSpaced(t)| <= |t|
  {
    if |t| > 0 {
      SingleSpacedKeeps(t[1..]);
      if !("  " <= t) {
        NonSpaceConcat([t[0]], SingleSpaced(t[1..]));
      }
    }
  }

  /** A replacement whose pattern and replacement differ only in spaces
      keeps the characters other than spaces. */
  lemma {:induction false} ReplaceAllKeepsNonSpace(s: string, p: string, r: string)
    requires |p| > 0 && NonSpace(p) == NonSpace(r)
    ensures NonSpace(ReplaceAll(s, p, r)) == NonSpace(s)
    decreases |s|
  {
    if |s| > 0 {
      if p <= s {
        ReplaceAllKeepsNonSpace(s[|p|..], p, r);
        NonSpaceConcat(r, ReplaceAll(s[|p|..], p, r));
        assert s == p + s[|p|..];
        NonSpaceConcat(p, s[|p|..]);
      } else {
        ReplaceAllKeepsNonSpace(s[1..], p, r);
        NonSpaceConcat([s[0]], ReplaceAll(s[1..], p, r));
        assert s == [s[0]] + s[1..];
        NonSpaceConcat([s[0]], s[1..]);
      }
    }
  }

  /** `p in s[k..]` implies `p in s`. */
  lemma {:induction false} ContainsSuffix(s: string, k: nat, p: string)
    requires k <= |s| && Contains(s[k..], p)
    ensures Contains(s, p)
  {
    if k > 0 {
      assert s[1..][k - 1..] == s[k..];
      ContainsSuffix(s[1..], k - 1, p);
    }
  }

  /** Two spaces in a row after a text without spaces come from the
      rest. */
  lemma {:induction false} DoubleAfterSpaceless(r: string, x: string)
    requires ' ' !in r && Contains(r + x, "  ")
    ensures Contains(x, "  ")
  {
    if |r| > 0 {
      assert r[0] in r;
      assert (r + x)[0] == r[0];
      assert (r + x)[1..] == r[1..] + x;
      DoubleAfterSpaceless(r[1..], x);
    } else {
      assert r + x == x;
    }
  }

  /** Replacing by a non-empty text without spaces creates no two spaces in
      a row. */
  lemma {:induction false} ReplaceAllNoDouble(s: string, p: string, r: string)
    requires |p| > 0 && |r| > 0 && ' ' !in r && !Contains(s, "  ")
    ensures !Contains(ReplaceAll(s, p, r), "  ")
    ensures |ReplaceAll(s, p, r)| > 0 && ReplaceAll(s, p, r)[0] == ' ' ==> s[0] == ' '
    decreases |s|
  {
    if |s| > 0 {
      if p <= s {
        if Contains(s[|p|..], "  ") {
          ContainsSuffix(s, |p|, "  ");
        }
        ReplaceAllNoDouble(s[|p|..], p, r);
        if Contains(r + ReplaceAll(s[|p|..], p, r), "  ") {
          DoubleAfterSpaceless(r, ReplaceAll(s[|p|..], p, r));
        }
      } else {
        ReplaceAllNoDouble(s[1..], p, r);
        var x := ReplaceAll(s[1..], p, r);
        assert ([s[0]] + x)[1..] == x;
      }
    }
  }

  /** What one replacement of the space removal keeps: the other
      characters, the length bound and the absence of double spaces. */
  lemma ReplacementKeeps(s: string, p: string, r: string)
    requires |p| > 0 && |r| > 0 && |r| <= |p| && ' ' !in r && NonSpace(p) == NonSpace(r)
    ensures NonSpace(ReplaceAll(s, p, r)) == NonSpace(s)
    ensures |ReplaceAll(s, p, r)| <= |s|
    ensures !Contains(s, "  ") ==> !Contains(ReplaceAll(s, p, r), "  ")
  {
    ReplaceAllKeepsNonSpace(s, p, r);
    ReplaceAllNotLonger(s, p, r);
    if !Contains(s, "  ") {
      ReplaceAllNoDouble(s, p, r);
    }
  }

  lemma TightenKeeps(s: string, c: char)
    requires c != ' '
    ensures NonSpace(Tighten(s, c)) == NonSpace(s)
    ensures |Tighten(s, c)| <= |s|
    ensures !Contains(s, "  ") ==> !Contains(Tighten(s, c), "  ")
  {
    assert [' ', c, ' '][1..] == [c, ' '] && [c, ' '][1..] == [' '] && [' '][1..] == [];
    assert [' ', c][1..] == [c] && [c][1..] == [];
    assert NonSpace([]) == [];
    assert NonSpace([' ']) == [];
    assert NonSpace([c]) == [c];
    assert NonSpace([c, ' ']) == [c];
    assert NonSpace([' ', c, ' ']) == [c];
    assert NonSpace([' ', c]) == [c];
    ReplacementKeeps(s, [' ', c, ' '], [c]);
    ReplacementKeeps(s, [c, ' '], [c]);
    ReplacementKeeps(s, [' ', c], [c]);
  }

  lemma {:induction false} TightenAllKeeps(s: string, cs: seq<char>)
    requires ' ' !in cs
    ensures NonSpace(TightenAll(s, cs)) == NonSpace(s)
    ensures |TightenAll(s, cs)| <= |s|
    ensures !Contains(s, "  ") ==> !Contains(TightenAll(s, cs), "  ")
  {
    if |cs| > 0 {
      assert cs[|cs| - 1] in cs;
      TightenAllKeeps(s, cs[..|cs| - 1]);
      TightenKeeps(TightenAll(s, cs[..|cs| - 1]), cs[|cs| - 1]);
    }
  }

  lemma VersusKeeps(s: string)
    ensures NonSpace(VersusJoined(s)) == NonSpace(s)
    ensures |VersusJoined(s)| <= |s|
    ensures !Contains(s, "  ") ==> !Contains(VersusJoined(s), "  ")
  {
    var a := ReplaceAll(s, " \U{FF56} \U{FF53} \U{FF0E} ", "\U{FF56}\U{FF53}\U{FF0E}");
    var b := ReplaceAll(a, "\U{FF56} \U{FF53} \U{FF0E}", "\U{FF56}\U{FF53}\U{FF0E}");
    var c := ReplaceAll(b, " vs \U{FF0E} ", "vs\U{FF0E}");
    SpacedWord('\U{FF56}', '\U{FF53}', '\U{FF0E}');
    SpacedVs('\U{FF0E}');
    ReplacementKeeps(s, " \U{FF56} \U{FF53} \U{FF0E} ", "\U{FF56}\U{FF53}\U{FF0E}");
    ReplacementKeeps(a, "\U{FF56} \U{FF53} \U{FF0E}", "\U{FF56}\U{FF53}\U{FF0E}");
    ReplacementKeeps(b, " vs \U{FF0E} ", "vs\U{FF0E}");
    ReplacementKeeps(c, "vs \U{FF0E}", "vs\U{FF0E}");
  }

  /** A three-letter word written with a space before, between and after
      its letters keeps just the letters. */
  lemma SpacedWord(x: char, y: char, z: char)
    requires x != ' ' && y != ' ' && z != ' '
    ensures NonSpace([' ', x, ' ', y, ' ', z, ' ']) == [x, y, z]
    ensures NonSpace([x, ' ', y, ' ', z]) == [x, y, z]
  {
    SpacedTail(z);
    SpacedMiddle(y, z);
    assert [' ', x, ' ', y, ' ', z, ' '][1..] == [x, ' ', y, ' ', z, ' '];
    assert [x, ' ', y, ' ', z, ' '][1..] == [' ', y, ' ', z, ' '];
    assert [x, ' ', y, ' ', z][1..] == [' ', y, ' ', z];
  }

  lemma SpacedTail(z: char)
    requires z != ' '
    ensures NonSpace([z, ' ']) == [z] && NonSpace([' ', z, ' ']) == [z]
    ensures NonSpace([z]) == [z] && NonSpace([' ', z]) == [z]
  {
    assert [' '][1..] == [] && [z, ' '][1..] == [' '] && [' ', z, ' '][1..] == [z, ' '];
    assert [z][1..] == [] && [' ', z][1..] == [z];
    assert NonSpace([]) == [];
    assert NonSpace([' ']) == [];
  }

  lemma SpacedMiddle(y: char, z: char)
    requires y != ' ' && z != ' '
    ensures NonSpace([' ', y, ' ', z, ' ']) == [y, z] && NonSpace([' ', y, ' ', z]) == [y, z]
  {
    SpacedTail(z);
    assert [' ', y, ' ', z, ' '][1..] == [y, ' ', z, ' '] && [y, ' ', z, ' '][1..] == [' ', z, ' '];
    assert [' ', y, ' ', z][1..] == [y, ' ', z] && [y, ' ', z][1..] == [' ', z];
  }

  /** "vs" followed by a spaced letter keeps just the letters. */
  lemma SpacedVs(z: char)
    requires z != ' '
    ensures NonSpace([' ', 'v', 's', ' ', z, ' ']) == ['v', 's', z]
    ensures NonSpace(['v', 's', ' ', z]) == ['v', 's', z]
  {
    SpacedTail(z);
    assert [' ', 'v', 's', ' ', z, ' '][1..] == ['v', 's', ' ', z, ' '];
    assert ['v', 's', ' ', z, ' '][1..] == ['s', ' ', z, ' '];
    assert ['s', ' ', z, ' '][1..] == [' ', z, ' '];
    assert ['v', 's', ' ', z][1..] == ['s', ' ', z];
    assert ['s', ' ', z][1..] == [' ', z];
    assert NonSpace(['s', ' ', z, ' ']) == ['s', z];
    assert NonSpace(['s', ' ', z]) == ['s', z];
  }

  /** The space removal only removes ASCII spaces, never lengthens the
      text, and leaves no two spaces in a row. */
  lemma SpaceRemovalOnlyRemovesSpaces(text: string)
    ensures NonSpace(TightenAll(VersusJoined(SingleSpaced(text)), SpecialCharacters)) == NonSpace(text)
    ensures |TightenAll(VersusJoined(SingleSpaced(text)), SpecialCharacters)| <= |text|
    ensures !Contains(TightenAll(VersusJoined(SingleSpaced(text)), SpecialCharacters), "  ")
  {
    SingleSpacedKeeps(text);
    SingleSpacedNoDouble(text);
    VersusKeeps(SingleSpaced(text));
    TightenAllKeeps(VersusJoined(SingleSpaced(text)), SpecialCharacters);
  }
}
