/** The Python `str` operations the engine relies on, over `seq<char>`. */
module Strings {
  import opened Wrappers

  /** Python's `p in s`: `p` occurs in `s` as a contiguous block. */
  predicate Contains(s: string, p: string)
    decreases |s|
  {
    p <= s || (|s| > 0 && Contains(s[1..], p))
  }

  /** Python's `s.endswith(p)`. */
  predicate EndsWith(s: string, p: string)
  {
    |p| <= |s| && s[|s| - |p|..] == p
  }

  /** Python's `s.replace(p, r)` for a non-empty `p`: every non-overlapping
      occurrence, scanned left to right, is replaced. */
  function ReplaceAll(s: string, p: string, r: string): string
    requires |p| > 0
    decreases |s|
  {
    if |s| == 0 then ""
    else if p <= s then r + ReplaceAll(s[|p|..], p, r)
    else [s[0]] + ReplaceAll(s[1..], p, r)
  }

  /** Python's `s.replace(p, r, 1)` for a non-empty `p`. */
  function ReplaceFirst(s: string, p: string, r: string): string
    requires |p| > 0
    decreases |s|
  {
    if |s| == 0 then ""
    else if p <= s then r + s[|p|..]
    else [s[0]] + ReplaceFirst(s[1..], p, r)
  }

  /** `p` occurs in `s` starting at position `j`. */
  predicate OccursAt(s: string, p: string, j: int)
  {
    0 <= j && j + |p| <= |s| && s[j..j + |p|] == p
  }

  /** The start of the last occurrence of `p` in `s` (Python's `s.rfind(p)`). */
  function LastIndexOf(s: string, p: string): (r: Option<nat>)
    ensures r.Some? ==> OccursAt(s, p, r.value)
    ensures r.Some? ==> forall j :: r.value < j ==> !OccursAt(s, p, j)
    ensures r.None? ==> forall j :: !OccursAt(s, p, j)
    decreases |s|
  {
    if |s| < |p| then None
    else if s[|s| - |p|..] == p then Some(|s| - |p|)
    else
      var r := LastIndexOf(s[..|s| - 1], p);
      assert forall j :: OccursAt(s, p, j) ==> j < |s| - |p| && OccursAt(s[..|s| - 1], p, j) by {
        forall j | OccursAt(s, p, j) ensures j < |s| - |p| && OccursAt(s[..|s| - 1], p, j) {
          assert s[..|s| - 1][j..j + |p|] == s[j..j + |p|];
        }
      }
      r
  }

  /** `replace_last` (parse_wikipedia_chapters.py): `head + r + tail` of
      `s.rpartition(p)`; when `p` does not occur, `rpartition` gives
      `("", "", s)`, so `r` ends up in front of `s`. An empty separator
      makes `rpartition` raise `ValueError`. */
  function ReplaceLast(s: string, p: string, r: string): (t: string)
    requires |p| > 0
    ensures (exists j :: OccursAt(s, p, j)) ==>
      exists i :: OccursAt(s, p, i) && (forall j :: i < j ==> !OccursAt(s, p, j)) && t == s[..i] + r + s[i + |p|..]
    ensures (forall j :: !OccursAt(s, p, j)) ==> t == r + s
  {
    match LastIndexOf(s, p)
    case Some(i) => s[..i] + r + s[i + |p|..]
    case None => r + s
  }

  /** The number of times `c` occurs in `s`. */
  function Count(s: string, c: char): nat
  {
    if |s| == 0 then 0 else (if s[0] == c then 1 else 0) + Count(s[1..], c)
  }

  /** Python's `s * n`: empty for `n <= 0`. */
  function Repeat(s: string, n: int): (r: string)
    ensures n <= 0 ==> r == ""
    decreases if n <= 0 then 0 else n
  {
    if n <= 0 then "" else s + Repeat(s, n - 1)
  }

  lemma {:induction false} RepeatLength(s: string, n: nat)
    ensures |Repeat(s, n)| == n * |s|
  {
    if n > 0 {
      RepeatLength(s, n - 1);
    }
  }

  /** Python's `str.lower` restricted to ASCII letters. */
  function AsciiLower(s: string): (r: string)
    ensures |r| == |s|
  {
    if |s| == 0 then ""
    else [if 'A' <= s[0] <= 'Z' then (s[0] as int + 32) as char else s[0]] + AsciiLower(s[1..])
  }

  /** Python's `str.isnumeric` on ASCII text: non-empty and all digits. */
  predicate IsNumeric(s: string)
  {
    |s| > 0 && forall i :: 0 <= i < |s| ==> '0' <= s[i] <= '9'
  }

  /** The value of a string of decimal digits (Python's `int(s)`). */
  function DigitsValue(s: string): nat
  {
    if |s| == 0 then 0
    else DigitsValue(s[..|s| - 1]) * 10 + (if '0' <= s[|s| - 1] <= '9' then s[|s| - 1] as int - '0' as int else 0)
  }

  /** Python's `str(n)` for a natural number. */
  function NatToString(n: nat): string
  {
    if n < 10 then [('0' as int + n) as char]
    else NatToString(n / 10) + [('0' as int + n % 10) as char]
  }

  /** Python's `f"{n}"` for an integer. */
  function IntToString(n: int): string
  {
    if n < 0 then "-" + NatToString(-n) else NatToString(n)
  }

  // ---- Lemmas ----------------------------------------------------------

  /** `str(n)` is numeric text that `int` reads back as `n`. */
  lemma {:induction false} NatToStringRoundTrip(n: nat)
    ensures IsNumeric(NatToString(n))
    ensures DigitsValue(NatToString(n)) == n
    decreases n
  {
    if n >= 10 {
      NatToStringRoundTrip(n / 10);
      var s := NatToString(n);
      assert s[..|s| - 1] == NatToString(n / 10);
    }
  }

  /** Replacing a pattern that does not occur changes nothing. */
  lemma {:induction false} ReplaceAllAbsent(s: string, p: string, r: string)
    requires |p| > 0 && !Contains(s, p)
    ensures ReplaceAll(s, p, r) == s
    decreases |s|
  {
    if |s| > 0 {
      ReplaceAllAbsent(s[1..], p, r);
    }
  }

  /** A replacement that is no longer than the pattern never lengthens the
      text. */
  lemma {:induction false} ReplaceAllNotLonger(s: string, p: string, r: string)
    requires |p| > 0 && |r| <= |p|
    ensures |ReplaceAll(s, p, r)| <= |s|
    ensures Contains(s, p) && |r| < |p| ==> |ReplaceAll(s, p, r)| < |s|
    decreases |s|
  {
    if |s| > 0 {
      if p <= s {
        ReplaceAllNotLonger(s[|p|..], p, r);
      } else {
        ReplaceAllNotLonger(s[1..], p, r);
      }
    }
  }

  /** `replace(p, r, 1)` never lengthens the text when `r` is no longer. */
  lemma {:induction false} ReplaceFirstNotLonger(s: string, p: string, r: string)
    requires |p| > 0 && |r| <= |p|
    ensures |ReplaceFirst(s, p, r)| <= |s|
    decreases |s|
  {
    if |s| > 0 && !(p <= s) {
      ReplaceFirstNotLonger(s[1..], p, r);
    }
  }

  /** A character that is in neither the text nor the replacement is not in
      the result. */
  lemma {:induction false} ReplaceAllKeepsOut(s: string, p: string, r: string, c: char)
    requires |p| > 0 && c !in s && c !in r
    ensures c !in ReplaceAll(s, p, r)
    decreases |s|
  {
    if |s| > 0 {
      if p <= s {
        ReplaceAllKeepsOut(s[|p|..], p, r, c);
      } else {
        ReplaceAllKeepsOut(s[1..], p, r, c);
      }
    }
  }

  /** Replacing every `c` by text without `c` removes `c` altogether. */
  lemma {:induction false} ReplaceAllRemovesChar(s: string, c: char, r: string)
    requires c !in r
    ensures c !in ReplaceAll(s, [c], r)
    decreases |s|
  {
    if |s| > 0 {
      ReplaceAllRemovesChar(s[1..], c, r);
    }
  }

  /** Replacing one character by one character keeps every other character
      in place. */
  lemma {:induction false} ReplaceAllCharAt(s: string, c: char, d: char)
    ensures |ReplaceAll(s, [c], [d])| == |s|
    ensures forall i :: 0 <= i < |s| ==> ReplaceAll(s, [c], [d])[i] == if s[i] == c then d else s[i]
    decreases |s|
  {
    if |s| > 0 {
      ReplaceAllCharAt(s[1..], c, d);
    }
  }

  /** The position of the first `c` in `s`, or `|s|` when there is none. */
  function IndexOfChar(s: string, c: char): (i: nat)
    ensures i <= |s| && c !in s[..i]
    ensures i < |s| ==> s[i] == c
    ensures i == |s| <==> c !in s
  {
    if |s| == 0 then 0
    else if s[0] == c then 0
    else
      var i := IndexOfChar(s[1..], c) + 1;
      assert s[..i] == [s[0]] + s[1..][..i - 1];
      i
  }

  /** The first-occurrence replacement of one character, spelled out. */
  lemma {:induction false} ReplaceFirstChar(s: string, c: char, r: string)
    ensures ReplaceFirst(s, [c], r) == FirstCharReplaced(s, c, r)
    decreases |s|
  {
    if |s| == 0 {
    } else if s[0] == c {
      assert [c] <= s;
      assert s[..0] + r + s[1..] == r + s[1..];
    } else {
      ReplaceFirstChar(s[1..], c, r);
      ReplaceFirstCharCons(s, c, r);
    }
  }

  /** `s` with its first `c` replaced by `r`, by position. */
  function FirstCharReplaced(s: string, c: char, r: string): string
  {
    if c in s then s[..IndexOfChar(s, c)] + r + s[IndexOfChar(s, c) + 1..] else s
  }

  lemma ReplaceFirstCharCons(s: string, c: char, r: string)
    requires |s| > 0 && s[0] != c
    requires ReplaceFirst(s[1..], [c], r) == FirstCharReplaced(s[1..], c, r)
    ensures ReplaceFirst(s, [c], r) == FirstCharReplaced(s, c, r)
  {
    var h, t := s[0], s[1..];
    ReplaceFirstSkip(s, c, r);
    if c in t {
      var i := IndexOfChar(t, c);
      IndexOfCharSkip(s, c);
      SplitAround(s, i + 1, r);
    } else {
      assert s == [h] + t;
      assert c !in s;
    }
  }

  /** A text not starting with `c` keeps its head. */
  lemma ReplaceFirstSkip(s: string, c: char, r: string)
    requires |s| > 0 && s[0] != c
    ensures ReplaceFirst(s, [c], r) == [s[0]] + ReplaceFirst(s[1..], [c], r)
  {
    assert !([c] <= s);
  }

  lemma IndexOfCharSkip(s: string, c: char)
    requires |s| > 0 && s[0] != c
    ensures IndexOfChar(s, c) == IndexOfChar(s[1..], c) + 1
    ensures c in s <==> c in s[1..]
  {
    assert s == [s[0]] + s[1..];
  }

  /** Replacing position `j > 0` commutes with the first character. */
  lemma SplitAround(s: string, j: nat, r: string)
    requires 0 < j < |s|
    ensures [s[0]] + (s[1..][..j - 1] + r + s[1..][j..]) == s[..j] + r + s[j + 1..]
  {
    var t := s[1..];
    assert s[..j] == [s[0]] + t[..j - 1];
    assert s[j + 1..] == t[j..];
  }

  /** `replace_last(b + p, p, r)` replaces the trailing `p`. */
  lemma ReplaceLastTrailing(b: string, p: string, r: string)
    requires |p| > 0
    ensures ReplaceLast(b + p, p, r) == b + r
  {
    assert (b + p)[|b + p| - |p|..] == p;
  }

  /** The first `c` of `a + [c] + b` when `a` has none is the one after `a`. */
  lemma FirstAfter(a: string, c: char, b: string)
    requires c !in a
    ensures IndexOfChar(a + [c] + b, c) == |a|
  {
    var s := a + [c] + b;
    var i := IndexOfChar(s, c);
    assert s[|a|] == c;
  }

  /** A string holding `c` splits around its first `c`. */
  lemma SplitAtFirst(s: string, c: char)
    requires c in s
    ensures IndexOfChar(s, c) < |s|
    ensures s == s[..IndexOfChar(s, c)] + [c] + s[IndexOfChar(s, c) + 1..]
  {
    var i := IndexOfChar(s, c);
    assert s == s[..i] + [s[i]] + s[i + 1..];
  }

  /** Hence `replace(c, r, 1)` replaces exactly that one. */
  lemma RemoveFirstAfter(a: string, c: char, b: string, r: string)
    requires c !in a
    ensures ReplaceFirst(a + [c] + b, [c], r) == a + r + b
  {
    FirstAfter(a, c, b);
    ReplaceFirstChar(a + [c] + b, c, r);
    var s := a + [c] + b;
    assert s[..|a|] == a;
    assert s[|a| + 1..] == b;
  }
}
