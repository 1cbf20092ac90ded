/** Chapter records and the inference of missing chapter indices
    (`calculate_missing_chapter_index` and `generate_missing_chapter_indices`
    in parse_wikipedia_chapters.py). */
module Chapters {
  import opened Wrappers

  /** The languages a chapter title is recorded in, named in the records
      "english", "kanji", "kana", "hiragana" and "hepburn". */
  datatype Language = English | Kanji | Kana | Hiragana | Hepburn

  /** A title field of a chapter record: the title in a language (the key
      "kanji", say) or its sort variant (the key "kanji_sort"). */
  datatype Field = Text(language: Language) | SortText(language: Language)

  /** A chapter record: its `type` (called `category` here), its index in
      tenths (`None` when missing or `None` in the record), and its title
      fields. */
  datatype Chapter = Chapter(category: string, index: Option<int>, titles: map<Field, string>)

  /** The `TypeError` Python raises on arithmetic with a neighbour's `None`
      index. */
  datatype InferenceError = MissingNeighbourIndex

  predicate IsMainline(c: Chapter)
  {
    c.category == "Chapter"
  }

  /** `math.ceil` and `math.floor` on an index in tenths. */
  function Ceil10(p: int): (r: int)
    ensures r % 10 == 0 && p <= r < p + 10
  {
    if p % 10 == 0 then p else p - p % 10 + 10
  }

  function Floor10(p: int): (r: int)
    ensures r % 10 == 0 && p - 10 < r <= p
  {
    p - p % 10
  }

  /** `calculate_missing_chapter_index(previous, current, subsequent)`, with
      +1, +0.5 and +0.1 written as +10, +5 and +1 tenths. */
  function CalculateMissingIndex(prev: Option<Chapter>, cur: Chapter, next: Option<Chapter>): (r: Result<int, InferenceError>)
    // a known index is kept; a lone record is chapter 1
    ensures cur.index.Some? ==> r == Success(cur.index.value)
    ensures cur.index.None? && prev.None? && next.None? ==> r == Success(10)
    // the only failure: the neighbour whose index is needed has none
    ensures r.Failure? <==>
      (cur.index.None? && ((prev.Some? && prev.value.index.None?) || (prev.None? && next.Some? && next.value.index.None?)))
    // after a previous record: at least its index, and at most one more
    ensures cur.index.None? && prev.Some? && prev.value.index.Some? ==>
      prev.value.index.value <= r.value <= prev.value.index.value + 10
    // strictly after it, except for a mainline chapter after a special one
    // that already has a whole index
    ensures cur.index.None? && prev.Some? && prev.value.index.Some? && r.value == prev.value.index.value ==>
      !IsMainline(prev.value) && IsMainline(cur) && prev.value.index.value % 10 == 0
    // with only a following record: at most its index, and at least one less
    ensures cur.index.None? && prev.None? && next.Some? && next.value.index.Some? ==>
      next.value.index.value - 10 <= r.value <= next.value.index.value
    ensures cur.index.None? && prev.None? && next.Some? && next.value.index.Some? && r.value == next.value.index.value ==>
      IsMainline(cur) && !IsMainline(next.value) && next.value.index.value % 10 == 0
    // a mainline chapter beside a special one gets a whole index, a special
    // one after a whole mainline index does not
    ensures cur.index.None? && IsMainline(cur) && r.Success? && prev.Some? && !IsMainline(prev.value) ==> r.value % 10 == 0
    ensures cur.index.None? && IsMainline(cur) && r.Success? && prev.None? && next.Some? && !IsMainline(next.value) ==> r.value % 10 == 0
    ensures cur.index.None? && !IsMainline(cur) && r.Success? && prev.Some? && IsMainline(prev.value) && prev.value.index.value % 10 == 0 ==>
      r.value % 10 != 0
  {
    if cur.index.Some? then Success(cur.index.value)
    else if prev.None? && next.None? then Success(10)
    else if prev.Some? then
      match prev.value.index
      case None => Failure(MissingNeighbourIndex)
      case Some(p) =>
        if IsMainline(prev.value) then
          if IsMainline(cur) then Success(p + 10)
          else if next.Some? && !IsMainline(next.value) then Success(p + 1)
          else Success(p + 5)
        else if IsMainline(cur) then Success(Ceil10(p))
        else Success(p + 1)
    else
      match next.value.index
      case None => Failure(MissingNeighbourIndex)
      case Some(q) =>
        if IsMainline(cur) then
          if IsMainline(next.value) then Success(q - 10) else Success(Floor10(q))
        else if IsMainline(next.value) then Success(q - 5)
        else Success(q - 1)
  }

  // ---- The pass over the list -------------------------------------------

  /** The record at position `k` after the pass: unchanged when it has an
      index, otherwise given the index computed from the record before it
      (as the pass left it), itself, and the record after it. */
  function FillOne(s: seq<Chapter>, k: nat, prev: Option<Chapter>): Result<Chapter, InferenceError>
    requires k < |s|
  {
    if s[k].index.Some? then Success(s[k])
    else
      match CalculateMissingIndex(prev, s[k], if k + 1 < |s| then Some(s[k + 1]) else None)
      case Success(v) => Success(s[k].(index := Some(v)))
      case Failure(e) => Failure(e)
  }

  /** The first `j` records after the pass. */
  function FillPrefix(s: seq<Chapter>, j: nat): (r: Result<seq<Chapter>, InferenceError>)
    requires j <= |s|
    ensures r.Success? ==> |r.value| == j
  {
    if j == 0 then Success([])
    else
      match FillPrefix(s, j - 1)
      case Failure(e) => Failure(e)
      case Success(p) =>
        match FillOne(s, j - 1, if j == 1 then None else Some(p[j - 2]))
        case Failure(e) => Failure(e)
        case Success(c) => Success(p + [c])
  }

  /** The whole list after the pass. */
  function Filled(s: seq<Chapter>): Result<seq<Chapter>, InferenceError>
  {
    FillPrefix(s, |s|)
  }

  /** `generate_missing_chapter_indices`: the records are updated in place,
      left to right; `false` is the `TypeError` it raises. */
  method GenerateMissingIndices(a: array<Chapter>) returns (ok: bool)
    modifies a
    ensures ok ==> Filled(old(a[..])) == Success(a[..])
    ensures !ok ==> Filled(old(a[..])).Failure? && a[..] == old(a[..])
  {
    ghost var s := a[..];
    ok := true;
    if a.Length == 0 {
      return true;
    }
    if a.Length == 1 {
      var r := CalculateMissingIndex(None, a[0], None);
      a[0] := a[0].(index := Some(r.value));
    }
    var previous: Option<Chapter> := None;
    for k := 0 to a.Length
      invariant FillPrefix(s, k) == Success(a[..k])
      invariant forall m :: k <= m < a.Length && (k > 0 || a.Length > 1) ==> a[m] == s[m]
      invariant k == 0 && a.Length == 1 ==> a[0] == FillOne(s, 0, None).value && a[0].index.Some?
      invariant k > 0 ==> previous == Some(a[k - 1]) && a[k - 1].index.Some?
      invariant k == 0 ==> previous.None?
    {
      ghost var before := a[..k];
      assert previous == (if k == 0 then None else Some(before[k - 1]));
      if a[k].index.Some? {
        assert FillOne(s, k, previous) == Success(a[k]);
        FillAdvance(s, k, before, a[k]);
        assert a[..k + 1] == before + [a[k]];
        previous := Some(a[k]);
        continue;
      }
      // the three cases differ only in the neighbours they pass
      var before', after': Option<Chapter>;
      if k == 0 {
        before', after' := None, Some(a[k + 1]);
      } else if k == a.Length - 1 {
        before', after' := previous, None;
      } else {
        before', after' := previous, Some(a[k + 1]);
      }
      assert a[k] == s[k] && (k + 1 < a.Length ==> a[k + 1] == s[k + 1]);
      assert before' == previous && after' == (if k + 1 < |s| then Some(s[k + 1]) else None);
      var r := CalculateMissingIndex(before', a[k], after');
      if r.Failure? {
        assert k == 0;
        FirstRecordFails(s);
        assert a[..] == s;
        return false;
      }
      a[k] := a[k].(index := Some(r.value));
      FillAdvance(s, k, before, a[k]);
      assert a[..k + 1] == before + [a[k]];
      previous := Some(a[k]);
    }
    assert a[..a.Length] == a[..];
  }

  /** One more record of the pass. */
  lemma FillAdvance(s: seq<Chapter>, k: nat, p: seq<Chapter>, c: Chapter)
    requires k < |s| && FillPrefix(s, k) == Success(p)
    requires FillOne(s, k, if k == 0 then None else Some(p[k - 1])) == Success(c)
    ensures FillPrefix(s, k + 1) == Success(p + [c])
  {
  }

  /** When the first record's index cannot be inferred, the pass fails. */
  lemma FirstRecordFails(s: seq<Chapter>)
    requires |s| > 1 && CalculateMissingIndex(None, s[0], Some(s[1])).Failure?
    ensures Filled(s).Failure?
  {
    assert FillPrefix(s, 1).Failure?;
    FailurePersists(s, 1, |s|);
  }

  /** Once a prefix of the pass fails, every longer one does. */
  lemma {:induction false} FailurePersists(s: seq<Chapter>, i: nat, j: nat)
    requires i <= j <= |s| && FillPrefix(s, i).Failure?
    ensures FillPrefix(s, j).Failure?
    decreases j - i
  {
    if i < j {
      FailurePersists(s, i, j - 1);
    }
  }

  // ---- Properties of the pass -------------------------------------------

  /** The pass only fills in indices: each record keeps its type and titles
      and a known index, and ends up with an index. */
  lemma {:induction false} PrefixShape(s: seq<Chapter>, j: nat)
    requires j <= |s| && FillPrefix(s, j).Success?
    ensures forall k :: 0 <= k < j ==>
      var c := FillPrefix(s, j).value[k];
      c.category == s[k].category && c.titles == s[k].titles && c.index.Some? &&
      (s[k].index.Some? ==> c.index == s[k].index)
  {
    if j > 0 {
      PrefixShape(s, j - 1);
    }
  }

  /** Later steps of the pass do not revisit earlier records. */
  lemma {:induction false} PrefixStable(s: seq<Chapter>, m: nat, j: nat)
    requires m <= j <= |s| && FillPrefix(s, j).Success?
    ensures FillPrefix(s, m).Success? && FillPrefix(s, m).value == FillPrefix(s, j).value[..m]
    decreases j - m
  {
    if m < j {
      PrefixStable(s, m, j - 1);
      var p := FillPrefix(s, j - 1).value;
      assert FillPrefix(s, j).value[..j - 1] == p;
      assert FillPrefix(s, j).value[..m] == p[..m];
    } else {
      assert FillPrefix(s, j).value[..j] == FillPrefix(s, j).value;
    }
  }

  lemma {:induction false} PrefixFails(s: seq<Chapter>, j: nat)
    requires j <= |s| && FillPrefix(s, j).Failure?
    ensures |s| >= 2 && s[0].index.None? && s[1].index.None?
  {
    if FillPrefix(s, j - 1).Failure? {
      PrefixFails(s, j - 1);
    } else if j > 1 {
      PrefixShape(s, j - 1);
    }
  }

  /** The pass fails exactly when a list of two or more starts with two
      records without an index. */
  lemma FilledFailsExactly(s: seq<Chapter>)
    ensures Filled(s).Failure? <==> |s| >= 2 && s[0].index.None? && s[1].index.None?
  {
    if Filled(s).Failure? {
      PrefixFails(s, |s|);
    } else if |s| >= 2 && s[0].index.None? && s[1].index.None? {
      assert FillPrefix(s, 1).Failure?;
      FailurePersists(s, 1, |s|);
    }
  }

  /** After a successful pass: same length, same types and titles, known
      indices kept, every index filled in, and each filled-in index computed
      from the record before it as the pass left it and the record after it
      as it was. */
  lemma FilledShape(s: seq<Chapter>)
    requires Filled(s).Success?
    ensures |Filled(s).value| == |s|
    ensures forall k :: 0 <= k < |s| ==>
      var c := Filled(s).value[k];
      c.category == s[k].category && c.titles == s[k].titles && c.index.Some? &&
      (s[k].index.Some? ==> c.index == s[k].index)
  {
    PrefixShape(s, |s|);
  }

  lemma FilledInference(s: seq<Chapter>, k: nat)
    requires Filled(s).Success? && k < |s| && s[k].index.None?
    ensures |Filled(s).value| == |s| && Filled(s).value[k].index.Some?
    ensures Success(Filled(s).value[k].index.value) ==
      CalculateMissingIndex(if k == 0 then None else Some(Filled(s).value[k - 1]), s[k], if k + 1 < |s| then Some(s[k + 1]) else None)
  {
    FilledShape(s);
    PrefixStable(s, k + 1, |s|);
    var p := FillPrefix(s, k + 1).value;
    assert p[k] == Filled(s).value[k];
    if k > 0 {
      PrefixStable(s, k, k + 1);
      assert p[k - 1] == Filled(s).value[k - 1];
    }
  }

  /** A filled-in index is not below the index before it, and one filled in
      at the front is not above the index after it. */
  lemma FilledOrder(s: seq<Chapter>, k: nat)
    requires Filled(s).Success? && k < |s| && s[k].index.None?
    ensures |Filled(s).value| == |s| && forall m :: 0 <= m < |s| ==> Filled(s).value[m].index.Some?
    ensures k > 0 ==> Filled(s).value[k - 1].index.value <= Filled(s).value[k].index.value
    ensures k == 0 && |s| > 1 ==> Filled(s).value[0].index.value <= Filled(s).value[1].index.value
  {
    FilledShape(s);
    FilledInference(s, k);
    if k == 0 && |s| > 1 {
      FilledFailsExactly(s);
    }
  }

  /** A bonus chapter between chapters 1 and 2 becomes chapter 1.5; a lone
      record without an index becomes chapter 1. */
  lemma FilledExamples()
    ensures Filled([Chapter("Chapter", Some(10), map[]), Chapter("Bonus", None, map[]), Chapter("Chapter", Some(20), map[])]) ==
      Success([Chapter("Chapter", Some(10), map[]), Chapter("Bonus", Some(15), map[]), Chapter("Chapter", Some(20), map[])])
    ensures Filled([Chapter("Chapter", None, map[])]) == Success([Chapter("Chapter", Some(10), map[])])
  {
    var s := [Chapter("Chapter", Some(10), map[]), Chapter("Bonus", None, map[]), Chapter("Chapter", Some(20), map[])];
    var b := Chapter("Bonus", Some(15), map[]);
    assert FillPrefix(s, 0) == Success([]);
    assert FillOne(s, 0, None) == Success(s[0]);
    assert [] + [s[0]] == [s[0]];
    assert FillPrefix(s, 1) == Success([s[0]]);
    assert CalculateMissingIndex(Some(s[0]), s[1], Some(s[2])) == Success(15);
    assert FillOne(s, 1, Some(s[0])) == Success(b);
    assert [s[0]] + [b] == [s[0], b];
    assert FillPrefix(s, 2) == Success([s[0], b]);
    assert FillOne(s, 2, Some(b)) == Success(s[2]);
    assert [s[0], b] + [s[2]] == [s[0], b, s[2]];
    var t := [Chapter("Chapter", None, map[])];
    assert FillPrefix(t, 0) == Success([]);
    assert FillOne(t, 0, None) == Success(Chapter("Chapter", Some(10), map[]));
    assert [] + [Chapter("Chapter", Some(10), map[])] == [Chapter("Chapter", Some(10), map[])];
  }
}
