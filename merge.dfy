/**
 * The fill-only merge of `update_data`: a stored column keeps its value
 * unless it is unset and the freshly scraped value is not NULL.
 */
module Merge {
  import opened Wrappers
  import opened PyStr
  import opened Records

  /** A stored column counts as unset when it is NULL or strips to "". */
  predicate IsUnset(f: Field)
    ensures IsUnset(f) <==> f.None? || forall j | 0 <= j < |f.value| :: IsSpace(f.value[j])
  {
    f.None? || Strip(f.value) == ""
  }

  /** The per-column decision of `update_data`. */
  function MergeField(existing: Field, incoming: Field): (r: Field)
    ensures r == existing || r == incoming
    ensures !IsUnset(existing) ==> r == existing
    ensures incoming.None? ==> r == existing
    ensures incoming.Some? && IsUnset(existing) ==> r == incoming
  {
    if incoming.Some? && IsUnset(existing) then incoming else existing
  }

  /** The merged row, column by column. */
  function MergeFields(existing: seq<Field>, incoming: seq<Field>): (r: seq<Field>)
    requires |existing| == |incoming|
    ensures |r| == |incoming|
    ensures forall i | 0 <= i < |r| :: !IsUnset(existing[i]) ==> r[i] == existing[i]
    ensures forall i | 0 <= i < |r| :: incoming[i].None? ==> r[i] == existing[i]
    ensures forall i | 0 <= i < |r| :: incoming[i].Some? && IsUnset(existing[i]) ==> r[i] == incoming[i]
  {
    seq(|incoming|, i requires 0 <= i < |incoming| => MergeField(existing[i], incoming[i]))
  }

  /** The loop of `update_data` that builds `updated_data` one column at a time. */
  method BuildUpdatedData(existing: seq<Field>, incoming: seq<Field>) returns (updated: seq<Field>)
    requires |existing| == |incoming|
    ensures updated == MergeFields(existing, incoming)
  {
    updated := [];
    var i := 0;
    while i < |incoming|
      invariant 0 <= i <= |incoming|
      invariant |updated| == i
      invariant forall j | 0 <= j < i :: updated[j] == MergeField(existing[j], incoming[j])
    {
      if incoming[i].Some? && IsUnset(existing[i]) {
        updated := updated + [incoming[i]];
      } else {
        updated := updated + [existing[i]];
      }
      i := i + 1;
    }
  }

  /** A column is set after the merge exactly when it was set before or the
      incoming value is set. */
  lemma MergeSetIff(existing: seq<Field>, incoming: seq<Field>, i: nat)
    requires |existing| == |incoming| && i < |incoming|
    ensures !IsUnset(MergeFields(existing, incoming)[i]) <==> !IsUnset(existing[i]) || !IsUnset(incoming[i])
  {
  }

  /** Merging the same incoming row a second time changes nothing. */
  lemma MergeIdempotent(existing: seq<Field>, incoming: seq<Field>)
    requires |existing| == |incoming|
    ensures MergeFields(MergeFields(existing, incoming), incoming) == MergeFields(existing, incoming)
  {
    var once := MergeFields(existing, incoming);
    var twice := MergeFields(once, incoming);
    forall i | 0 <= i < |incoming| ensures twice[i] == once[i] {
      if incoming[i].Some? && IsUnset(existing[i]) {
        assert once[i] == incoming[i];
      }
    }
  }

  /** Merging a row into itself gives the row back. */
  lemma MergeSelf(row: seq<Field>)
    ensures MergeFields(row, row) == row
  {
  }

  /** Merging into a row of NULLs gives the incoming row exactly, as an insert would. */
  lemma MergeIntoNulls(incoming: seq<Field>)
    ensures MergeFields(seq(|incoming|, _ => None), incoming) == incoming
  {
  }

  /** A row whose every column is set is a fixed point of the merge. */
  lemma MergeComplete(existing: seq<Field>, incoming: seq<Field>)
    requires |existing| == |incoming|
    requires forall i | 0 <= i < |existing| :: !IsUnset(existing[i])
    ensures MergeFields(existing, incoming) == existing
  {
  }

  /** One column's stored value after a series of merges with `ns`, in order. */
  function FoldField(x: Field, ns: seq<Field>): (r: Field)
    ensures !IsUnset(x) ==> r == x
    ensures r == x || r in ns
  {
    if ns == [] then x else MergeField(FoldField(x, ns[..|ns| - 1]), ns[|ns| - 1])
  }

  /** Merging with `ps` and then with `qs` is merging with `ps + qs`. */
  lemma {:induction false} FoldFieldAppend(x: Field, ps: seq<Field>, qs: seq<Field>)
    ensures FoldField(x, ps + qs) == FoldField(FoldField(x, ps), qs)
  {
    if qs == [] {
      assert ps + qs == ps;
    } else {
      var front := qs[..|qs| - 1];
      assert (ps + qs)[..|ps + qs| - 1] == ps + front;
      FoldFieldAppend(x, ps, front);
    }
  }

  /** Replaying the same series of merges a second time changes nothing. */
  lemma {:induction false} FoldFieldIdempotent(x: Field, ns: seq<Field>)
    ensures FoldField(FoldField(x, ns), ns) == FoldField(x, ns)
    decreases |ns|
  {
    if ns != [] {
      var n, rest := ns[0], ns[1..];
      assert ns == [n] + rest;
      FoldFieldAppend(x, [n], rest);
      var z := MergeField(x, n);
      assert FoldField(x, [n]) == z by {
        assert [n][..0] == [];
      }
      var y := FoldField(z, rest);
      // y == FoldField(x, ns); the second pass starts from y
      FoldFieldAppend(y, [n], rest);
      assert FoldField(y, [n]) == MergeField(y, n) by {
        assert [n][..0] == [];
      }
      if !IsUnset(y) {
        assert MergeField(y, n) == y;
      } else if n.None? {
        FoldFieldIdempotent(z, rest);
      } else {
        assert IsUnset(z);
        assert MergeField(y, n) == n == z;
      }
    }
  }

  /** A stored column whose text is whitespace only (the dashboard's U+00A0
      placeholder among them) is unset, so any scraped value fills it. */
  lemma BlankIsFilled(stored: string, scraped: string)
    requires forall j | 0 <= j < |stored| :: IsSpace(stored[j])
    ensures MergeField(Some(stored), Some(scraped)) == Some(scraped)
  {
  }

  /** The dashboard's placeholder text counts as unset. */
  lemma NbspIsBlank()
    ensures IsUnset(Some([Nbsp]))
  {
    var text := [Nbsp];
    assert IsSpace(text[0]);
    assert forall j | 0 <= j < |text| :: IsSpace(text[j]);
  }

  /** January was NULL and is filled; February was "10" and is kept; the
      columns NULL on both sides stay NULL. */
  lemma MergeExample()
    ensures var nulls: seq<Field> := seq(Width - 2, _ => None);
            MergeFields([None, Some("10")] + nulls, [Some("3"), Some("99")] + nulls)
              == [Some("3"), Some("10")] + nulls
  {
    var nulls: seq<Field> := seq(Width - 2, _ => None);
    var existing, incoming := [None, Some("10")] + nulls, [Some("3"), Some("99")] + nulls;
    var expected := [Some("3"), Some("10")] + nulls;
    var merged := MergeFields(existing, incoming);
    assert !IsUnset(existing[1]) by {
      assert !IsSpace("10"[0]);
    }
    forall i | 2 <= i < Width ensures merged[i] == expected[i] {
      assert incoming[i] == None && existing[i] == None == expected[i];
    }
    assert merged[0] == expected[0] && merged[1] == expected[1];
    assert merged == expected;
  }
}
