/** `convert_to_japanese_numeral` and `STANDARD_JAPANESE_NUMERALS`
    (driverbrainz.py). */
module JapaneseNumerals {
  import opened Wrappers

  /** The four glyph columns of the numeral table. */
  datatype NumeralScript = Kanji | Hiragana | Hepburn | FormalKanji

  /** The requested-type names the converter accepts. */
  function ScriptNamed(name: string): (r: Option<NumeralScript>)
    ensures r.Some? <==> name in ["kanji", "hiragana", "hepburn", "formal_kanji"]
  {
    match name
    case "kanji" => Some(Kanji)
    case "hiragana" => Some(Hiragana)
    case "hepburn" => Some(Hepburn)
    case "formal_kanji" => Some(FormalKanji)
    case _ => None
  }

  /** The table rows 0 to 9. */
  function DigitGlyph(t: NumeralScript, d: nat): string
    requires d <= 9
  {
    match t
    case Kanji => ["零", "一", "二", "三", "四", "五", "六", "七", "八", "九"][d]
    case Hiragana => ["れい", "いち", "に", "さん", "し", "ご", "ろく", "なな", "はち", "きゅう"][d]
    case Hepburn => ["Rei", "Ichi", "Ni", "San", "Shi", "Go", "Roku", "Nana", "Hachi", "Kyū"][d]
    case FormalKanji => ["零", "壱", "弐", "参", "四", "伍", "陸", "七", "八", "九"][d]
  }

  /** The table rows 10, 100, 1 000 and 10 000, indexed by the power of ten.
      (The row for 100 000 000 is never reached: inputs stop at 99 999.) */
  function PlaceGlyph(t: NumeralScript, p: nat): string
    requires 1 <= p <= 4
  {
    match t
    case Kanji => ["", "十", "百", "千", "万"][p]
    case Hiragana => ["", "じゅう", "ひゃく", "せん", "まん"][p]
    case Hepburn => ["", "Jū", "Hyaku", "Sen", "Man"][p]
    case FormalKanji => ["", "拾", "佰", "千", "万"][p]
  }

  function Pow10(p: nat): (r: nat)
    requires p <= 5
    ensures r > 0
  {
    [1, 10, 100, 1000, 10000, 100000][p]
  }

  /** The decimal digit of `n` at place `p`, as the loop computes it:
      what is left of `n` below 10^(p+1), divided by 10^p. */
  function DigitAt(n: nat, p: nat): (d: nat)
    requires p <= 4
    ensures d <= 9
  {
    (n % Pow10(p + 1)) / Pow10(p)
  }

  /** What one place contributes: nothing for a zero digit, the digit's own
      glyph at the units, the place glyph alone for a 1 above the units (the
      "one" is elided), otherwise the digit glyph followed by the place glyph. */
  function Piece(t: NumeralScript, d: nat, p: nat): string
    requires d <= 9 && p <= 4
  {
    if d == 0 then ""
    else if p == 0 then DigitGlyph(t, d)
    else if d == 1 then PlaceGlyph(t, p)
    else DigitGlyph(t, d) + PlaceGlyph(t, p)
  }

  /** The pieces of the first `j` places, from the ten-thousands down. */
  function PiecesUpTo(t: NumeralScript, n: nat, j: nat): string
    requires j <= 5
  {
    if j == 0 then "" else PiecesUpTo(t, n, j - 1) + Piece(t, DigitAt(n, 5 - j), 5 - j)
  }

  /** The numeral the loop builds for any integer below 100 000: a negative
      input has no positive quotient at any place, so it falls through to
      the zero glyph like 0 does. */
  function JapaneseOf(n: int, t: NumeralScript): string
    requires n < 100000
  {
    var s := if n < 0 then "" else PiecesUpTo(t, n, 5);
    if |s| == 0 then DigitGlyph(t, 0) else s
  }

  /** `convert_to_japanese_numeral(num, requested_type)` for an integer
      `num`: `None` for an unknown type or for `num // 10000 > 9`. */
  function JapaneseNumeral(num: int, requestedType: string): (r: Option<string>)
    ensures r.None? <==> ScriptNamed(requestedType).None? || num >= 100000
  {
    match ScriptNamed(requestedType)
    case None => None
    case Some(t) => if num / 10000 > 9 then None else Some(JapaneseOf(num, t))
  }

  const Powers: seq<nat> := [4, 3, 2, 1, 0]

  /** The loop over the powers 4, 3, 2, 1, 0 that appends to `string` and
      reduces `number`. */
  method ConvertToJapaneseNumeral(num: int, requestedType: string) returns (r: Option<string>)
    ensures r == JapaneseNumeral(num, requestedType)
  {
    var script := ScriptNamed(requestedType);
    if script.None? {
      return None;
    }
    var t := script.value;
    if num / 10000 > 9 {
      return None;
    }
    var s := "";
    var number := num;
    for j := 0 to |Powers|
      invariant num < 0 ==> number == num && s == ""
      invariant num >= 0 ==> number == num % Pow10(5 - j) && s == PiecesUpTo(t, num, j)
    {
      var power := Powers[j];
      var powerOfTen := Pow10(power);
      var quotient := number / powerOfTen;
      if quotient > 0 {
        PlaceStep(num, j);
        assert power == 4 - j && number == num % Pow10(5 - j) && powerOfTen == Pow10(4 - j);
        assert quotient == DigitAt(num, power);
        ghost var before := s;
        if power == 0 {
          s := s + DigitGlyph(t, quotient);
        } else if quotient == 1 {
          s := s + PlaceGlyph(t, power);
        } else if quotient > 1 {
          s := s + DigitGlyph(t, quotient) + PlaceGlyph(t, power);
        }
        assert s == before + Piece(t, quotient, power);
        number := number % powerOfTen;
      } else if num >= 0 {
        PlaceStep(num, j);
      } else {
        NegativeQuotient(num, powerOfTen);
      }
    }
    if |s| == 0 {
      return Some(DigitGlyph(t, 0));
    }
    return Some(s);
  }

  /** Below 100 000, the remainder left for place `4 - j` and its quotient. */
  lemma PlaceStep(num: int, j: nat)
    requires 0 <= num < 100000 && j < 5
    ensures (num % Pow10(5 - j)) / Pow10(4 - j) == DigitAt(num, 4 - j)
    ensures (num % Pow10(5 - j)) % Pow10(4 - j) == num % Pow10(4 - j)
    ensures DigitAt(num, 4 - j) == 0 ==> num % Pow10(5 - j) == num % Pow10(4 - j)
    ensures j == 0 ==> num % Pow10(5) == num
  {
    var hi, lo := Pow10(5 - j), Pow10(4 - j);
    assert hi == lo * 10;
    ModOfMod(num, lo, hi);
  }

  /** Taking a remainder by `hi` first does not change the remainder by
      its divisor `lo`. */
  lemma ModOfMod(a: nat, lo: nat, hi: nat)
    requires 0 < lo && hi == lo * 10
    ensures (a % hi) % lo == a % lo
  {
    var q, r := a / hi, a % hi;
    assert a == q * hi + r;
    var x := q * 10 + r / lo;
    assert r == (r / lo) * lo + r % lo;
    assert q * hi == (q * 10) * lo;
    assert x * lo == (q * 10) * lo + (r / lo) * lo;
    assert a == x * lo + r % lo;
    ModUnique(a, lo, x, r % lo);
  }

  /** The remainder is the only value below the divisor that leaves a
      whole multiple. */
  lemma ModUnique(a: int, b: int, x: int, m: int)
    requires b > 0 && 0 <= m < b && a == x * b + m
    ensures a % b == m
  {
    var d := x - a / b;
    assert d * b == a % b - m;
    assert d >= 1 ==> d * b >= b;
    assert d <= -1 ==> d * b <= -b;
  }

  lemma NegativeQuotient(num: int, d: int)
    requires num < 0 && d > 0
    ensures num / d < 0
  {
  }

  // ---- Properties -------------------------------------------------------

  /** The script writes each digit and each place with a single character. */
  predicate SingleCharacter(t: NumeralScript)
  {
    t == Kanji || t == FormalKanji
  }

  /** The digit a character of a single-character script stands for. */
  function DigitOfChar(t: NumeralScript, c: char): (r: Option<nat>)
    requires SingleCharacter(t)
    ensures r.Some? ==> r.value <= 9 && DigitGlyph(t, r.value) == [c]
  {
    if t == Kanji then
      match c
      case '零' => Some(0) case '一' => Some(1) case '二' => Some(2)
      case '三' => Some(3) case '四' => Some(4) case '五' => Some(5)
      case '六' => Some(6) case '七' => Some(7) case '八' => Some(8)
      case '九' => Some(9) case _ => None
    else
      match c
      case '零' => Some(0) case '壱' => Some(1) case '弐' => Some(2)
      case '参' => Some(3) case '四' => Some(4) case '伍' => Some(5)
      case '陸' => Some(6) case '七' => Some(7) case '八' => Some(8)
      case '九' => Some(9) case _ => None
  }

  /** The power of ten a place character of a single-character script
      stands for. */
  function PlaceOfChar(t: NumeralScript, c: char): (r: Option<nat>)
    requires SingleCharacter(t)
    ensures r.Some? ==> 1 <= r.value <= 4 && PlaceGlyph(t, r.value) == [c]
  {
    if t == Kanji then
      match c
      case '十' => Some(1) case '百' => Some(2) case '千' => Some(3)
      case '万' => Some(4) case _ => None
    else
      match c
      case '拾' => Some(1) case '佰' => Some(2) case '千' => Some(3)
      case '万' => Some(4) case _ => None
  }

  /** A reader's state: the value of the places already closed and the
      digit still waiting for its place (0 when none is waiting). */
  datatype ReadState = ReadState(closed: nat, waiting: nat)

  /** The reader, as an independent definition: a digit waits, a place
      closes the waiting digit (or an elided one) at its power of ten. */
  function ReadStep(t: NumeralScript, st: ReadState, c: char): ReadState
    requires SingleCharacter(t)
  {
    match DigitOfChar(t, c)
    case Some(d) => ReadState(st.closed, d)
    case None =>
      match PlaceOfChar(t, c)
      case Some(p) => ReadState(st.closed + (if st.waiting == 0 then 1 else st.waiting) * Pow10(p), 0)
      case None => st
  }

  function ReadPrefix(t: NumeralScript, s: string): ReadState
    requires SingleCharacter(t)
  {
    if |s| == 0 then ReadState(0, 0) else ReadStep(t, ReadPrefix(t, s[..|s| - 1]), s[|s| - 1])
  }

  /** The value a single-character numeral stands for. */
  function ReadNumeral(t: NumeralScript, s: string): nat
    requires SingleCharacter(t)
  {
    var st := ReadPrefix(t, s);
    st.closed + st.waiting
  }

  /** The value of the places 4 down to `5 - j`. */
  function UpperValue(n: nat, j: nat): nat
    requires j <= 5
  {
    if j == 0 then 0 else UpperValue(n, j - 1) + DigitAt(n, 5 - j) * Pow10(5 - j)
  }

  /** Splitting off the digit at place `p`. */
  lemma PlaceSplit(n: nat, p: nat)
    requires n < 100000 && p <= 4
    ensures n % Pow10(p + 1) == DigitAt(n, p) * Pow10(p) + n % Pow10(p)
  {
    PlaceStep(n, 4 - p);
    var m := n % Pow10(p + 1);
    DivModIdentity(m, Pow10(p));
  }

  lemma DivModIdentity(m: nat, c: nat)
    requires c > 0
    ensures m == (m / c) * c + m % c
  {
  }

  /** The upper places and the remainder below them make up `n`. */
  lemma {:induction false} UpperValueSplit(n: nat, j: nat)
    requires n < 100000 && j <= 5
    ensures UpperValue(n, j) + n % Pow10(5 - j) == n
  {
    if j > 0 {
      UpperValueSplit(n, j - 1);
      PlaceSplit(n, 5 - j);
    }
  }

  /** Each digit glyph of a single-character script reads as its digit. */
  lemma DigitGlyphReads(t: NumeralScript, d: nat)
    requires SingleCharacter(t) && d <= 9
    ensures |DigitGlyph(t, d)| == 1 && DigitOfChar(t, DigitGlyph(t, d)[0]) == Some(d)
  {
  }

  /** Each place glyph of a single-character script reads as its place. */
  lemma PlaceGlyphReads(t: NumeralScript, p: nat)
    requires SingleCharacter(t) && 1 <= p <= 4
    ensures |PlaceGlyph(t, p)| == 1
    ensures DigitOfChar(t, PlaceGlyph(t, p)[0]).None? && PlaceOfChar(t, PlaceGlyph(t, p)[0]) == Some(p)
  {
  }

  lemma ReadAppend(t: NumeralScript, s: string, c: char)
    requires SingleCharacter(t)
    ensures ReadPrefix(t, s + [c]) == ReadStep(t, ReadPrefix(t, s), c)
  {
    assert (s + [c])[..|s + [c]| - 1] == s;
  }

  /** Appending a digit character makes that digit wait. */
  lemma ReadDigitChar(t: NumeralScript, s: string, c: char, d: nat)
    requires SingleCharacter(t) && DigitOfChar(t, c) == Some(d)
    ensures ReadPrefix(t, s + [c]) == ReadState(ReadPrefix(t, s).closed, d)
  {
    ReadAppend(t, s, c);
  }

  /** Appending a place character closes the waiting digit at that place. */
  lemma ReadPlaceChar(t: NumeralScript, s: string, c: char, p: nat)
    requires SingleCharacter(t) && DigitOfChar(t, c).None? && PlaceOfChar(t, c) == Some(p)
    ensures ReadPrefix(t, s + [c]) ==
      ReadState(ReadPrefix(t, s).closed + (if ReadPrefix(t, s).waiting == 0 then 1 else ReadPrefix(t, s).waiting) * Pow10(p), 0)
  {
    ReadAppend(t, s, c);
  }

  /** Reading one more piece of the numeral. */
  lemma PieceRead(t: NumeralScript, s: string, d: nat, p: nat)
    requires SingleCharacter(t) && d <= 9 && p <= 4
    requires ReadPrefix(t, s).waiting == 0
    ensures p > 0 ==> ReadPrefix(t, s + Piece(t, d, p)) == ReadState(ReadPrefix(t, s).closed + d * Pow10(p), 0)
    ensures p == 0 ==> ReadPrefix(t, s + Piece(t, d, p)) == ReadState(ReadPrefix(t, s).closed, d)
  {
    if d == 0 {
      assert s + Piece(t, d, p) == s;
    } else if p == 0 {
      DigitGlyphReads(t, d);
      ReadGlyph(t, s, DigitGlyph(t, d), d);
    } else if d == 1 {
      PlaceGlyphReads(t, p);
      ReadPlaceGlyph(t, s, PlaceGlyph(t, p), p);
    } else {
      DigitGlyphReads(t, d);
      PlaceGlyphReads(t, p);
      ReadDigitPlace(t, s, DigitGlyph(t, d), d, PlaceGlyph(t, p), p);
    }
  }

  lemma ReadGlyph(t: NumeralScript, s: string, g: string, d: nat)
    requires SingleCharacter(t) && |g| == 1 && DigitOfChar(t, g[0]) == Some(d)
    ensures ReadPrefix(t, s + g) == ReadState(ReadPrefix(t, s).closed, d)
  {
    assert g == [g[0]];
    ReadDigitChar(t, s, g[0], d);
  }

  lemma ReadPlaceGlyph(t: NumeralScript, s: string, h: string, p: nat)
    requires SingleCharacter(t) && |h| == 1 && DigitOfChar(t, h[0]).None? && PlaceOfChar(t, h[0]) == Some(p)
    requires ReadPrefix(t, s).waiting == 0
    ensures ReadPrefix(t, s + h) == ReadState(ReadPrefix(t, s).closed + Pow10(p), 0)
  {
    assert h == [h[0]];
    ReadPlaceChar(t, s, h[0], p);
  }

  lemma ReadDigitPlace(t: NumeralScript, s: string, g: string, d: nat, h: string, p: nat)
    requires SingleCharacter(t) && |g| == 1 && DigitOfChar(t, g[0]) == Some(d) && d > 1
    requires |h| == 1 && DigitOfChar(t, h[0]).None? && PlaceOfChar(t, h[0]) == Some(p)
    ensures ReadPrefix(t, s + (g + h)) == ReadState(ReadPrefix(t, s).closed + d * Pow10(p), 0)
  {
    assert s + (g + h) == (s + g) + h;
    ReadGlyph(t, s, g, d);
    assert h == [h[0]];
    ReadPlaceChar(t, s + g, h[0], p);
  }

  lemma {:induction false} PiecesRead(t: NumeralScript, n: nat, j: nat)
    requires SingleCharacter(t) && j <= 4
    ensures ReadPrefix(t, PiecesUpTo(t, n, j)) == ReadState(UpperValue(n, j), 0)
  {
    if j > 0 {
      PiecesRead(t, n, j - 1);
      PieceRead(t, PiecesUpTo(t, n, j - 1), DigitAt(n, 5 - j), 5 - j);
    }
  }

  /** Reading back a written numeral gives its value. */
  lemma NumeralRoundTrip(n: nat, t: NumeralScript)
    requires SingleCharacter(t) && n < 100000
    ensures ReadNumeral(t, JapaneseOf(n, t)) == n
  {
    var upper, whole := PiecesUpTo(t, n, 4), PiecesUpTo(t, n, 5);
    assert whole == upper + Piece(t, DigitAt(n, 0), 0);
    PiecesRead(t, n, 4);
    PieceRead(t, upper, DigitAt(n, 0), 0);
    UpperValueSplit(n, 4);
    UnitsDigit(n);
    assert ReadPrefix(t, whole) == ReadState(UpperValue(n, 4), DigitAt(n, 0));
    if whole == "" {
      ZeroGlyphRead(t);
      assert JapaneseOf(n, t) == DigitGlyph(t, 0);
    } else {
      assert JapaneseOf(n, t) == whole;
    }
  }

  lemma UnitsDigit(n: nat)
    ensures DigitAt(n, 0) == n % Pow10(1)
  {
    assert Pow10(0) == 1 && Pow10(1) == 10;
  }

  /** The zero glyph alone reads as 0. */
  lemma ZeroGlyphRead(t: NumeralScript)
    requires SingleCharacter(t)
    ensures ReadNumeral(t, DigitGlyph(t, 0)) == 0
  {
    var g := DigitGlyph(t, 0);
    DigitGlyphReads(t, 0);
    assert g == [] + [g[0]];
    ReadDigitChar(t, [], g[0], 0);
  }

  /** With a single-character script, the zero glyph comes out exactly for
      0 and, as written, for every negative input. */
  lemma ZeroGlyphExactly(n: int, t: NumeralScript)
    requires SingleCharacter(t) && n < 100000
    ensures JapaneseOf(n, t) == DigitGlyph(t, 0) <==> n <= 0
  {
    if n > 0 {
      NumeralRoundTrip(n, t);
      assert ReadPrefix(t, "") == ReadState(0, 0);
      assert ReadPrefix(t, DigitGlyph(t, 0)) == ReadStep(t, ReadPrefix(t, ""), DigitGlyph(t, 0)[0]);
    }
  }

  /** 10 000 is written with the ten-thousands glyph alone. */
  lemma TenThousand()
    ensures JapaneseOf(10000, Kanji) == "万"
  {
    assert DigitAt(10000, 4) == 1;
    assert DigitAt(10000, 3) == 0 && DigitAt(10000, 2) == 0;
    assert DigitAt(10000, 1) == 0 && DigitAt(10000, 0) == 0;
    assert PiecesUpTo(Kanji, 10000, 1) == "万";
    assert PiecesUpTo(Kanji, 10000, 5) == "万";
  }
}
