/** `write_roman` (driverbrainz.py): greedy subtractive Roman numerals. */
module Roman {
  import opened Strings

  /** The ordered value table of `write_roman`, as (value, symbol) rows. */
  const TableSize := 13

  function Value(k: nat): (v: int)
    requires k < TableSize
    ensures v > 0
  {
    [1000, 900, 500, 400, 100, 90, 50, 40, 10, 9, 5, 4, 1][k]
  }

  function Symbol(k: nat): string
    requires k < TableSize
  {
    ["M", "CM", "D", "CD", "C", "XC", "L", "XL", "X", "IX", "V", "IV", "I"][k]
  }

  /** The greedy conversion from table position `k` on: `divmod` by each
      value, emit the symbol that many times, keep the remainder. Python's
      `divmod` floors, as Dafny's `/` and `%` do for a positive divisor. */
  function RomanFrom(n: int, k: nat): string
    requires k <= TableSize
    decreases TableSize - k
  {
    if k == TableSize then ""
    else Repeat(Symbol(k), n / Value(k)) + RomanFrom(n % Value(k), k + 1)
  }

  /** What `write_roman(n)` returns for an integer `n`. */
  function RomanOf(n: int): string
  {
    RomanFrom(n, 0)
  }

  /** `write_roman`: the loop over the value table with its early `break`. */
  method WriteRoman(num: int) returns (r: string)
    ensures r == RomanOf(num)
  {
    r := "";
    var n := num;
    var i := 0;
    ghost var whole := RomanOf(num);
    assert r + RomanFrom(n, i) == whole;
    while i < TableSize
      invariant 0 <= i <= TableSize
      invariant r + RomanFrom(n, i) == whole
    {
      // `x, y = divmod(num, r)`; `num -= r * x` leaves `num == y`
      var value, symbol := Value(i), Symbol(i);
      var x, y := n / value, n % value;
      WriteStep(r, n, i, x, y);
      r := r + Repeat(symbol, x);
      n := y;
      if n <= 0 {
        break;
      }
      i := i + 1;
    }
  }

  /** One pass of the loop body keeps `r + RomanFrom(n, i)` fixed. */
  lemma WriteStep(r: string, n: int, i: nat, x: int, y: int)
    requires i < TableSize && x == n / Value(i) && y == n % Value(i)
    ensures (r + Repeat(Symbol(i), x)) + RomanFrom(y, i + 1) == r + RomanFrom(n, i)
    ensures y >= 0
    ensures y <= 0 ==> r + Repeat(Symbol(i), x) == r + RomanFrom(n, i)
  {
    var w, tail := Repeat(Symbol(i), x), RomanFrom(y, i + 1);
    StepFrom(n, i);
    assert RomanFrom(n, i) == w + tail;
    assert (r + w) + tail == r + (w + tail);
    if y <= 0 {
      EmptyTail(r + w, y, i + 1);
    }
  }

  /** A zero remainder adds nothing. */
  lemma EmptyTail(w: string, y: int, k: nat)
    requires 0 <= y <= 0 && k <= TableSize
    ensures w + RomanFrom(y, k) == w
  {
    RomanFromZero(k);
    assert w + "" == w;
  }

  lemma StepFrom(n: int, k: nat)
    requires k < TableSize
    ensures RomanFrom(n, k) == Repeat(Symbol(k), n / Value(k)) + RomanFrom(n % Value(k), k + 1)
    ensures n % Value(k) >= 0
  {
  }

  lemma DivMod(n: int, d: int)
    requires d > 0
    ensures n - d * (n / d) == n % d
    ensures 0 <= n ==> 0 <= n / d
    ensures 0 <= n && n / d == 0 ==> n % d == n
    ensures 0 <= n && n / d > 0 ==> n >= d
  {
  }

  /** Nothing is left to emit once the remainder is zero. */
  lemma {:induction false} RomanFromZero(k: nat)
    requires k <= TableSize
    ensures RomanFrom(0, k) == ""
    decreases TableSize - k
  {
    if k < TableSize {
      RomanFromZero(k + 1);
    }
  }

  // ---- A standard Roman-numeral reader, independent of the writer -------

  function CharValue(c: char): int
  {
    match c
    case 'M' => 1000
    case 'D' => 500
    case 'C' => 100
    case 'L' => 50
    case 'X' => 10
    case 'V' => 5
    case 'I' => 1
    case _ => 0
  }

  /** Each letter counts with its value, negatively when a larger letter
      follows it. */
  function RomanValue(s: string): int
  {
    if |s| == 0 then 0
    else (if |s| > 1 && CharValue(s[0]) < CharValue(s[1]) then -CharValue(s[0]) else CharValue(s[0]))
         + RomanValue(s[1..])
  }

  lemma {:induction false} ValueConcat(a: string, b: string)
    requires a == [] || b == [] || CharValue(a[|a| - 1]) >= CharValue(b[0])
    ensures RomanValue(a + b) == RomanValue(a) + RomanValue(b)
    decreases |a|
  {
    if a == [] {
      assert a + b == b;
    } else if b == [] {
      assert a + b == a;
    } else {
      assert (a + b)[1..] == a[1..] + b;
      ValueConcat(a[1..], b);
    }
  }

  lemma {:induction false} RepeatEnds(p: string, x: int)
    requires |p| > 0 && x > 0
    ensures Repeat(p, x)[0] == p[0]
    ensures Repeat(p, x)[|Repeat(p, x)| - 1] == p[|p| - 1]
    decreases x
  {
    if x > 1 {
      RepeatEnds(p, x - 1);
    }
  }

  lemma {:induction false} ValueRepeat(p: string, x: nat)
    requires |p| > 0 && CharValue(p[|p| - 1]) >= CharValue(p[0])
    ensures RomanValue(Repeat(p, x)) == x * RomanValue(p)
  {
    if x > 0 {
      ValueRepeat(p, x - 1);
      if x > 1 {
        RepeatEnds(p, x - 1);
      }
      ValueConcat(p, Repeat(p, x - 1));
      var v := RomanValue(p);
      assert RomanValue(Repeat(p, x)) == v + (x - 1) * v;
      assert v + (x - 1) * v == x * v;
    }
  }

  /** The symbols of the table read back as their values; each starts with a
      letter worth at most its value and ends with one worth at least it. */
  lemma SymbolFacts(k: nat)
    requires k < TableSize
    ensures |Symbol(k)| > 0
    ensures RomanValue(Symbol(k)) == Value(k)
    ensures CharValue(Symbol(k)[0]) <= Value(k) <= CharValue(Symbol(k)[|Symbol(k)| - 1])
    ensures forall i :: 0 <= i < |Symbol(k)| ==> Symbol(k)[i] in "MDCLXVI"
  {
    if k % 2 == 0 {
      var c := Symbol(k)[0];
      assert Symbol(k) == [c];
      OneLetter(c);
    } else {
      var a, b := Symbol(k)[0], Symbol(k)[1];
      assert Symbol(k) == [a, b];
      TwoLetters(a, b);
    }
  }

  lemma OneLetter(c: char)
    ensures RomanValue([c]) == CharValue(c)
  {
    assert [c][1..] == [];
  }

  lemma TwoLetters(a: char, b: char)
    requires CharValue(a) < CharValue(b)
    ensures RomanValue([a, b]) == CharValue(b) - CharValue(a)
  {
    assert [a, b][1..] == [b];
    OneLetter(b);
  }

  /** The greedy tail from position `k` starts with a letter worth no more
      than its input. */
  lemma {:induction false} FirstLetterBound(n: int, k: nat)
    requires 0 <= n && k <= TableSize
    ensures RomanFrom(n, k) != [] ==> CharValue(RomanFrom(n, k)[0]) <= n
    decreases TableSize - k
  {
    if k < TableSize {
      var p, v := Symbol(k), Value(k);
      var q, m := n / v, n % v;
      DivMod(n, v);
      SymbolFacts(k);
      FirstLetterBound(m, k + 1);
      StepFrom(n, k);
      if q > 0 {
        RepeatEnds(p, q);
        assert RomanFrom(n, k)[0] == p[0];
      } else {
        assert RomanFrom(n, k) == RomanFrom(m, k + 1);
      }
    }
  }

  lemma DivFacts(n: int, v: int)
    requires 0 <= n && v > 0
    ensures 0 <= n / v && 0 <= n % v < v
  {
  }

  lemma QuotientRemainder(n: int, v: int, q: int, m: int, av: int)
    requires v > 0 && q == n / v && m == n % v && av == q * v
    ensures av + m == n
  {
  }

  /** The greedy tail from position `k` reads back as its input. */
  lemma {:induction false} RoundTripFrom(n: int, k: nat)
    requires 0 <= n && k <= TableSize
    requires k > 0 ==> n < Value(k - 1)
    ensures RomanValue(RomanFrom(n, k)) == n
    decreases TableSize - k
  {
    if k < TableSize {
      var p, v := Symbol(k), Value(k);
      DivFacts(n, v);
      var q: nat, m := n / v, n % v;
      SymbolFacts(k);
      RoundTripFrom(m, k + 1);
      FirstLetterBound(m, k + 1);
      var a, b := Repeat(p, q), RomanFrom(m, k + 1);
      StepFrom(n, k);
      ValueRepeat(p, q);
      if q > 0 {
        RepeatEnds(p, q);
      }
      ValueConcat(a, b);
      QuotientRemainder(n, v, q, m, RomanValue(a));
    }
  }

  /** Round trip: every non-negative integer, 1..3999 in particular, is
      written as a numeral that the standard reader reads back. */
  lemma RomanRoundTrip(n: int)
    requires 0 <= n
    ensures RomanValue(RomanOf(n)) == n
  {
    RoundTripFrom(n, 0);
  }

  lemma {:induction false} RepeatAlphabet(p: string, x: int, alphabet: string)
    requires forall i :: 0 <= i < |p| ==> p[i] in alphabet
    ensures forall i :: 0 <= i < |Repeat(p, x)| ==> Repeat(p, x)[i] in alphabet
    decreases if x <= 0 then 0 else x
  {
    if x > 0 {
      RepeatAlphabet(p, x - 1, alphabet);
    }
  }

  lemma {:induction false} AlphabetFrom(n: int, k: nat)
    requires k <= TableSize
    ensures forall i :: 0 <= i < |RomanFrom(n, k)| ==> RomanFrom(n, k)[i] in "MDCLXVI"
    decreases TableSize - k
  {
    if k < TableSize {
      SymbolFacts(k);
      RepeatAlphabet(Symbol(k), n / Value(k), "MDCLXVI");
      AlphabetFrom(n % Value(k), k + 1);
    }
  }

  /** The output uses only the letters M, D, C, L, X, V and I. */
  lemma RomanAlphabet(n: int)
    ensures forall i :: 0 <= i < |RomanOf(n)| ==> RomanOf(n)[i] in "MDCLXVI"
  {
    AlphabetFrom(n, 0);
  }

  /** The numeral opens with exactly `n div 1000` letters M (none for a
      negative `n`, whose thousands count is negative). */
  lemma LeadingThousands(n: int)
    ensures var q := if n >= 0 then n / 1000 else 0;
            q <= |RomanOf(n)| && RomanOf(n)[..q] == Repeat("M", q) &&
            (q < |RomanOf(n)| ==> RomanOf(n)[q] != 'M')
  {
    var q := if n >= 0 then n / 1000 else 0;
    FirstLetterBound(n % 1000, 1);
    RepeatLength("M", q);
    assert RomanOf(n) == Repeat("M", q) + RomanFrom(n % 1000, 1);
  }

  /** `write_roman(0)` is the empty string. */
  lemma RomanOfZero()
    ensures RomanOf(0) == ""
  {
    RomanFromZero(1);
  }

  /** A negative input is not rejected: `divmod` floors, so the thousands
      count is negative, `"M" * x` is empty, and the remainder `n mod 1000`
      is written. */
  lemma RomanOfNegative(n: int)
    requires n < 0
    ensures RomanOf(n) == RomanOf(n % 1000)
  {
    var m := n % 1000;
    assert m / 1000 == 0 && m % 1000 == m;
    assert RomanOf(m) == Repeat("M", 0) + RomanFrom(m, 1);
    assert RomanOf(n) == Repeat("M", n / 1000) + RomanFrom(m, 1);
  }
}
