/** The two pieces of `main` (driverbrainz.py) that work on a work's data
    rather than on the web page: copying the original work's relationships
    to the translation, and choosing the edition for a chapter. */
module Works {
  import opened Wrappers

  /** A `{"role": ..., "id": ...}` relationship entry. */
  datatype Relationship = Relationship(role: string, id: string)

  /** The translation's relationship for an original one, if it has one:
      a writer or story provider becomes "provided story for"; illustrator,
      "provided art for" and contributor keep their role; any other role,
      and an empty id, give none. */
  function Carried(rel: Relationship): (r: Option<Relationship>)
    ensures r.Some? <==> rel.id != "" && rel.role in ["writer", "provided story for", "illustrator", "provided art for", "contributor"]
    ensures r.Some? ==> r.value.id == rel.id
    ensures r.Some? ==> r.value.role == if rel.role == "writer" then "provided story for" else rel.role
  {
    if rel.id == "" then None
    else if rel.role in ["writer", "provided story for"] then Some(Relationship("provided story for", rel.id))
    else if rel.role == "illustrator" then Some(Relationship("illustrator", rel.id))
    else if rel.role == "provided art for" then Some(Relationship("provided art for", rel.id))
    else if rel.role == "contributor" then Some(Relationship("contributor", rel.id))
    else None
  }

  /** The relationships the original's list carries over, in its order. */
  function CarriedList(original: seq<Relationship>): seq<Relationship>
  {
    CarriedBy(original, Carried)
  }

  /** The entries `carry` maps the list to, in its order. */
  function CarriedBy(original: seq<Relationship>, carry: Relationship -> Option<Relationship>): seq<Relationship>
  {
    if |original| == 0 then []
    else
      CarriedBy(original[..|original| - 1], carry) +
        match carry(original[|original| - 1])
        case Some(rel) => [rel]
        case None => []
  }

  /** The entries of `carried` that the appending loop adds after `seen`, in
      order: each one not in `seen` and not added earlier. */
  function Fresh(carried: seq<Relationship>, seen: seq<Relationship>): seq<Relationship>
  {
    if |carried| == 0 then []
    else
      var added := Fresh(carried[..|carried| - 1], seen);
      var y := carried[|carried| - 1];
      if y in seen || y in added then added else added + [y]
  }

  /** A relationship is carried over exactly when some original
      relationship maps to it. */
  lemma CarriedListMembers(original: seq<Relationship>, y: Relationship)
    ensures y in CarriedList(original) <==> exists k :: 0 <= k < |original| && Carried(original[k]) == Some(y)
  {
    CarriedByMembers(original, Carried, y);
  }

  lemma {:induction false} CarriedByMembers(original: seq<Relationship>, carry: Relationship -> Option<Relationship>, y: Relationship)
    ensures y in CarriedBy(original, carry) <==> exists k :: 0 <= k < |original| && carry(original[k]) == Some(y)
  {
    if |original| > 0 {
      var init := original[..|original| - 1];
      CarriedByMembers(init, carry, y);
      if exists k :: 0 <= k < |init| && carry(init[k]) == Some(y) {
        var k :| 0 <= k < |init| && carry(init[k]) == Some(y);
        assert original[k] == init[k];
      }
      if exists k :: 0 <= k < |original| && carry(original[k]) == Some(y) {
        var k :| 0 <= k < |original| && carry(original[k]) == Some(y);
        if k < |init| {
          assert init[k] == original[k];
        }
      }
    }
  }

  lemma CarriedListStep(original: seq<Relationship>, j: nat)
    requires j < |original|
    ensures CarriedList(original[..j + 1]) ==
      CarriedList(original[..j]) + match Carried(original[j]) case Some(rel) => [rel] case None => []
  {
    CarriedByStep(original, Carried, j);
  }

  lemma CarriedByStep(original: seq<Relationship>, carry: Relationship -> Option<Relationship>, j: nat)
    requires j < |original|
    ensures CarriedBy(original[..j + 1], carry) ==
      CarriedBy(original[..j], carry) + match carry(original[j]) case Some(rel) => [rel] case None => []
  {
    assert original[..j + 1][..j] == original[..j];
  }

  /** One more carried entry: it is added exactly when it is neither seen
      nor added already. */
  lemma FreshStep(carried: seq<Relationship>, seen: seq<Relationship>, y: Relationship)
    ensures Fresh(carried + [y], seen) ==
      if y in seen + Fresh(carried, seen) then Fresh(carried, seen) else Fresh(carried, seen) + [y]
  {
    assert (carried + [y])[..|carried|] == carried;
  }

  /** The added entries are new: none is seen or added twice, and together
      with `seen` they are exactly `seen` and `carried`. */
  lemma {:induction false} FreshFacts(carried: seq<Relationship>, seen: seq<Relationship>)
    ensures forall k :: 0 <= k < |Fresh(carried, seen)| ==> Fresh(carried, seen)[k] !in seen + Fresh(carried, seen)[..k]
    ensures forall y :: y in seen + Fresh(carried, seen) <==> y in seen || y in carried
  {
    if |carried| > 0 {
      var init := carried[..|carried| - 1];
      var y := carried[|carried| - 1];
      FreshFacts(init, seen);
      var added := Fresh(init, seen);
      assert carried == init + [y];
      if !(y in seen || y in added) {
        assert (added + [y])[..|added|] == added;
      }
    }
  }

  /** The loop over the original work's relationships that appends to the
      translation's list each carried relationship not already in it. */
  method PropagateRelationships(original: seq<Relationship>, translation: seq<Relationship>)
    returns (result: seq<Relationship>)
    ensures result == translation + Fresh(CarriedList(original), translation)
    ensures forall k :: |translation| <= k < |result| ==> result[k] !in result[..k]
    ensures forall y :: y in result <==> y in translation || y in CarriedList(original)
    ensures (forall y :: y in CarriedList(original) ==> y in translation) ==> result == translation
  {
    result := translation;
    assert original[..0] == [] && translation + [] == translation;
    for j := 0 to |original|
      invariant result == translation + Fresh(CarriedList(original[..j]), translation)
    {
      var c := Carried(original[j]);
      CarriedListStep(original, j);
      AppendStep(translation, CarriedList(original[..j]), CarriedList(original[..j + 1]), result, c);
      if c.Some? && c.value !in result {
        result := result + [c.value];
      }
    }
    assert original[..|original|] == original;
    AppendedFacts(CarriedList(original), translation, result);
  }

  /** One turn of the loop: appending the carried entry `c`, when there is
      one and it is not yet present, keeps the list equal to the translation
      followed by the fresh entries. */
  lemma AppendStep(translation: seq<Relationship>, carried: seq<Relationship>, next: seq<Relationship>,
                   result: seq<Relationship>, c: Option<Relationship>)
    requires result == translation + Fresh(carried, translation)
    requires next == carried + match c case Some(rel) => [rel] case None => []
    ensures (if c.Some? && c.value !in result then result + [c.value] else result) == translation + Fresh(next, translation)
  {
    var added := Fresh(carried, translation);
    match c
    case None =>
      assert next == carried;
    case Some(rel) =>
      FreshStep(carried, translation, rel);
      assert (translation + added) + [rel] == translation + (added + [rel]);
  }

  /** What appending the fresh entries of `carried` to `seen` gives: the
      appended entries are new, and every carried entry ends up present. */
  lemma AppendedFacts(carried: seq<Relationship>, seen: seq<Relationship>, result: seq<Relationship>)
    requires result == seen + Fresh(carried, seen)
    ensures forall k :: |seen| <= k < |result| ==> result[k] !in result[..k]
    ensures forall y :: y in result <==> y in seen || y in carried
    ensures (forall y :: y in carried ==> y in seen) ==> result == seen
  {
    var added := Fresh(carried, seen);
    FreshFacts(carried, seen);
    forall k | |seen| <= k < |result| ensures result[k] !in result[..k] {
      assert result[k] == added[k - |seen|];
      assert result[..k] == seen + added[..k - |seen|];
    }
    if |added| > 0 {
      assert added[0] !in seen && added[0] in result;
    }
  }

  /** An entry of a translation work's `editions` dict: the index (in
      tenths) of the first chapter an edition covers, and its id. */
  datatype Edition = Edition(start: int, id: string)

  /** The `next(...)` over the editions sorted by start index and reversed:
      the position of the edition with the greatest start not above the
      chapter's index `i` (the last such one in dict order when two starts
      are equal, as the stable sort reversed puts it first), or `None` when
      every edition starts later. */
  method EditionFor(editions: seq<Edition>, i: int) returns (pos: Option<nat>)
    ensures pos.Some? ==> pos.value < |editions| && editions[pos.value].start <= i
    ensures pos.Some? ==> forall m :: 0 <= m < |editions| && editions[m].start <= i ==>
      editions[m].start < editions[pos.value].start || (editions[m].start == editions[pos.value].start && m <= pos.value)
    ensures pos.None? <==> forall m :: 0 <= m < |editions| ==> editions[m].start > i
  {
    pos := None;
    for k := 0 to |editions|
      invariant pos.Some? ==> pos.value < k && editions[pos.value].start <= i
      invariant pos.Some? ==> forall m :: 0 <= m < k && editions[m].start <= i ==>
        editions[m].start < editions[pos.value].start || (editions[m].start == editions[pos.value].start && m <= pos.value)
      invariant pos.None? <==> forall m :: 0 <= m < k ==> editions[m].start > i
    {
      if editions[k].start <= i && (pos.None? || editions[pos.value].start <= editions[k].start) {
        pos := Some(k);
      }
    }
  }
}
