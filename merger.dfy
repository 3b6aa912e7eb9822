/**
 The merge `_add_to_group_data` performs, as a function on values: the
 variable records of one trial are folded into the records accumulated so
 far. A variable new to the store is inserted whole; for a variable already
 there, a field new to it is inserted and a field it already has gets the
 new rows appended after the old ones (`np.append(..., axis=0)`).
 */
module Merger {
  import opened Recordings

  /** The rows a record holds under field `f`, none when it has no such field. */
  function Column(r: Record, f: Field): seq<Cell> {
    if f in r then r[f] else []
  }

  /** The rows a store holds for variable `x` and field `f`, none when absent. */
  function Cells(d: Dict, x: string, f: Field): seq<Cell> {
    if x in d then Column(d[x], f) else []
  }

  /** The fields a store holds for variable `x`, none when absent. */
  function FieldsOf(d: Dict, x: string): set<Field> {
    if x in d then d[x].Keys else {}
  }

  /** The value field `f` ends up with when `incoming` is merged into `stored`. */
  function FieldEntry(stored: Record, incoming: Record, f: Field): seq<Cell>
    requires f in stored || f in incoming
  {
    if f !in stored then incoming[f]
    else if f !in incoming then stored[f]
    else stored[f] + incoming[f]
  }

  /** The inner loop of `_add_to_group_data`: one trial's record of a
      variable merged into the stored record of the same variable. */
  function MergeRecord(stored: Record, incoming: Record): Record {
    map f | f in stored.Keys + incoming.Keys :: FieldEntry(stored, incoming, f)
  }

  /** The value variable `x` ends up with when `d` is merged into `s`. */
  function Entry(s: Dict, d: Dict, x: string): Record
    requires x in s || x in d
  {
    if x !in s then d[x]
    else if x !in d then s[x]
    else MergeRecord(s[x], d[x])
  }

  /** `_add_to_group_data(s, d)`: the store after merging one trial's records. */
  function Merge(s: Dict, d: Dict): Dict {
    map x | x in s.Keys + d.Keys :: Entry(s, d, x)
  }

  /** Merging the trials one after the other, as a caller that merges
      trials one after another does. */
  function MergeAll(s: Dict, trials: seq<Dict>): Dict
    decreases |trials|
  {
    if trials == [] then s else MergeAll(Merge(s, trials[0]), trials[1..])
  }

  /** The rows of all trials for variable `x` and field `f`, in trial order. */
  function Stacked(trials: seq<Dict>, x: string, f: Field): seq<Cell>
    decreases |trials|
  {
    if trials == [] then [] else Cells(trials[0], x, f) + Stacked(trials[1..], x, f)
  }

  /** Every variable the two stores share has the same fields in both. */
  predicate SameFields(s: Dict, d: Dict) {
    forall x :: x in s && x in d ==> s[x].Keys == d[x].Keys
  }

  /** Two stores with the same variables, the same fields and the same
      rows everywhere are the same store. */
  lemma StoreExtensionality(a: Dict, b: Dict)
    requires a.Keys == b.Keys
    requires forall x :: x in a ==> FieldsOf(a, x) == FieldsOf(b, x)
    requires forall x, f :: x in a && f in a[x] ==> Cells(a, x, f) == Cells(b, x, f)
    ensures a == b
  {
    forall x | x in a ensures a[x] == b[x] {
      assert FieldsOf(a, x) == FieldsOf(b, x);
      forall f | f in a[x] ensures a[x][f] == b[x][f] {
        assert Cells(a, x, f) == Cells(b, x, f);
      }
    }
  }

  // ---------------------------------------------------------------------
  // One merge

  /** The merged store has the variables of both, each with the fields it
      has in either. */
  lemma MergeKeys(s: Dict, d: Dict)
    ensures Merge(s, d).Keys == s.Keys + d.Keys
    ensures forall x :: x in s && x !in d ==> Merge(s, d)[x].Keys == s[x].Keys
    ensures forall x :: x !in s && x in d ==> Merge(s, d)[x].Keys == d[x].Keys
    ensures forall x :: x in s && x in d ==> Merge(s, d)[x].Keys == s[x].Keys + d[x].Keys
  {
  }

  /** The fields of a merged variable are the fields it has on either side. */
  lemma MergeFieldsOf(s: Dict, d: Dict, x: string)
    ensures FieldsOf(Merge(s, d), x) == FieldsOf(s, x) + FieldsOf(d, x)
  {
  }

  /** Column by column, the merge appends the new rows after the stored
      ones; an absent variable or field counts as no rows. */
  lemma MergeCells(s: Dict, d: Dict, x: string, f: Field)
    ensures Cells(Merge(s, d), x, f) == Cells(s, x, f) + Cells(d, x, f)
  {
    if x in s && x in d {
      assert Merge(s, d)[x] == MergeRecord(s[x], d[x]);
    }
  }

  /** A variable new to the store is inserted exactly as the trial gives it. */
  lemma MergeNewVariable(s: Dict, d: Dict, x: string)
    requires x !in s && x in d
    ensures x in Merge(s, d) && Merge(s, d)[x] == d[x]
  {
  }

  /** A variable the trial does not mention is left as it was. */
  lemma MergeUntouchedVariable(s: Dict, d: Dict, x: string)
    requires x in s && x !in d
    ensures x in Merge(s, d) && Merge(s, d)[x] == s[x]
  {
  }

  /** The field cases of a variable already in the store: a field the
      trial adds is inserted as given, a field the trial does not mention
      is left as it was, and a field both have gets the new rows appended,
      keeping the stored rows as its prefix. */
  lemma MergeFields(s: Dict, d: Dict, x: string, f: Field)
    requires x in s && x in d && (f in s[x] || f in d[x])
    ensures x in Merge(s, d) && f in Merge(s, d)[x]
    ensures f !in s[x] ==> Merge(s, d)[x][f] == d[x][f]
    ensures f !in d[x] ==> Merge(s, d)[x][f] == s[x][f]
    ensures f in s[x] && f in d[x] ==>
              && Merge(s, d)[x][f] == s[x][f] + d[x][f]
              && |Merge(s, d)[x][f]| == |s[x][f]| + |d[x][f]|
              && Merge(s, d)[x][f][..|s[x][f]|] == s[x][f]
  {
    assert Merge(s, d)[x] == MergeRecord(s[x], d[x]);
  }

  /** Merging nothing changes nothing, and merging into an empty store
      gives the trial's records. */
  lemma MergeIdentity(s: Dict)
    ensures Merge(s, map[]) == s
    ensures Merge(map[], s) == s
  {
    assert Merge(s, map[]).Keys == s.Keys;
    assert Merge(map[], s).Keys == s.Keys;
  }

  /** Merging trial `a` and then trial `b` gives what merging their merge
      does: the store does not depend on how the trials are grouped. */
  lemma MergeAssociative(s: Dict, a: Dict, b: Dict)
    ensures Merge(Merge(s, a), b) == Merge(s, Merge(a, b))
  {
    var lhs := Merge(Merge(s, a), b);
    var rhs := Merge(s, Merge(a, b));
    assert lhs.Keys == rhs.Keys;
    forall x | x in lhs ensures FieldsOf(lhs, x) == FieldsOf(rhs, x) {
      MergeFieldsOf(Merge(s, a), b, x);
      MergeFieldsOf(s, a, x);
      MergeFieldsOf(s, Merge(a, b), x);
      MergeFieldsOf(a, b, x);
    }
    forall x, f | x in lhs && f in lhs[x] ensures Cells(lhs, x, f) == Cells(rhs, x, f) {
      MergeCellsAssociative(s, a, b, x, f);
    }
    StoreExtensionality(lhs, rhs);
  }

  lemma MergeCellsAssociative(s: Dict, a: Dict, b: Dict, x: string, f: Field)
    ensures Cells(Merge(Merge(s, a), b), x, f) == Cells(Merge(s, Merge(a, b)), x, f)
  {
    MergeCells(Merge(s, a), b, x, f);
    MergeCells(s, a, x, f);
    MergeCells(s, Merge(a, b), x, f);
    MergeCells(a, b, x, f);
  }

  /** Merging two trials in either order gives the same variables with
      the same fields. */
  lemma MergeOrderKeys(s: Dict, a: Dict, b: Dict, x: string)
    ensures Merge(Merge(s, a), b).Keys == Merge(Merge(s, b), a).Keys
    ensures FieldsOf(Merge(Merge(s, a), b), x) == FieldsOf(Merge(Merge(s, b), a), x)
  {
    MergeFieldsOf(Merge(s, a), b, x);
    MergeFieldsOf(s, a, x);
    MergeFieldsOf(Merge(s, b), a, x);
    MergeFieldsOf(s, b, x);
  }

  /** Merging two trials in either order gives, in every column, the
      stored rows followed by the two trials' row blocks in merge order:
      the same rows, only the order of the two blocks differs. */
  lemma MergeOrderRows(s: Dict, a: Dict, b: Dict, x: string, f: Field)
    ensures Cells(Merge(Merge(s, a), b), x, f) == Cells(s, x, f) + Cells(a, x, f) + Cells(b, x, f)
    ensures Cells(Merge(Merge(s, b), a), x, f) == Cells(s, x, f) + Cells(b, x, f) + Cells(a, x, f)
    ensures multiset(Cells(Merge(Merge(s, a), b), x, f)) == multiset(Cells(Merge(Merge(s, b), a), x, f))
  {
    MergeCells(Merge(s, a), b, x, f);
    MergeCells(s, a, x, f);
    MergeCells(Merge(s, b), a, x, f);
    MergeCells(s, b, x, f);
    SwappedBlocks(Cells(s, x, f), Cells(a, x, f), Cells(b, x, f));
  }

  lemma SwappedBlocks(p: seq<Cell>, q: seq<Cell>, r: seq<Cell>)
    ensures multiset(p + q + r) == multiset(p + r + q)
  {
    assert multiset(p + q + r) == multiset(p) + multiset(q) + multiset(r);
    assert multiset(p + r + q) == multiset(p) + multiset(r) + multiset(q);
  }

  /** Records with the nine fields stay records with the nine fields. */
  lemma MergeWellShaped(s: Dict, d: Dict)
    requires WellShaped(s) && WellShaped(d)
    ensures WellShaped(Merge(s, d))
  {
    MergeKeys(s, d);
  }

  /** A shared variable whose stored fields all have `n` rows and whose
      incoming fields (the same ones) all have `m` rows ends with `n + m`
      rows in every field. */
  lemma MergeAligned(s: Dict, d: Dict, x: string, n: nat, m: nat)
    requires x in s && x in d && s[x].Keys == d[x].Keys
    requires Aligned(s[x], n) && Aligned(d[x], m)
    ensures x in Merge(s, d) && Aligned(Merge(s, d)[x], n + m)
  {
    forall f | f in Merge(s, d)[x] ensures |Merge(s, d)[x][f]| == n + m {
      MergeFields(s, d, x, f);
    }
  }

  /** When every shared variable has the same fields in the store and in
      the trial, a store of rectangular records stays rectangular. */
  lemma MergeRectangular(s: Dict, d: Dict)
    requires Rectangular(s) && Rectangular(d) && SameFields(s, d)
    ensures Rectangular(Merge(s, d))
  {
    var r := Merge(s, d);
    MergeKeys(s, d);
    forall x, f, g | x in r && f in r[x] && g in r[x] ensures |r[x][f]| == |r[x][g]| {
      if x in s && x in d {
        MergeFields(s, d, x, f);
        MergeFields(s, d, x, g);
      }
    }
  }

  /** Without the same fields the merge can leave a record ragged: a
      field the trial lacks keeps its old row count while the others grow. */
  lemma MergeRaggedWithoutSameFields()
    ensures exists s: Dict, d: Dict :: Rectangular(s) && Rectangular(d) && !Rectangular(Merge(s, d))
  {
    var s: Dict := map["u" := map[Data := [NaN], Index := [NaN]]];
    var d: Dict := map["u" := map[Data := [NaN]]];
    MergeFields(s, d, "u", Data);
    MergeFields(s, d, "u", Index);
    assert |Merge(s, d)["u"][Data]| == 2 && |Merge(s, d)["u"][Index]| == 1;
    assert Rectangular(s) && Rectangular(d) && !Rectangular(Merge(s, d));
  }

  // ---------------------------------------------------------------------
  // Many merges

  /** After any number of trials, every column is the stored rows followed
      by each trial's rows, in the order the trials were merged. */
  lemma {:induction false} MergeAllCells(s: Dict, trials: seq<Dict>, x: string, f: Field)
    ensures Cells(MergeAll(s, trials), x, f) == Cells(s, x, f) + Stacked(trials, x, f)
    decreases |trials|
  {
    if trials != [] {
      MergeAllCells(Merge(s, trials[0]), trials[1..], x, f);
      MergeCells(s, trials[0], x, f);
    }
  }

  /** A variable is in the store after the trials exactly when it was
      there before or one of the trials has it. */
  lemma {:induction false} MergeAllKeys(s: Dict, trials: seq<Dict>, x: string)
    ensures x in MergeAll(s, trials) <==> x in s || exists k :: 0 <= k < |trials| && x in trials[k]
    decreases |trials|
  {
    if trials != [] {
      MergeAllKeys(Merge(s, trials[0]), trials[1..], x);
      MergeKeys(s, trials[0]);
      assert forall k :: 1 <= k < |trials| ==> trials[k] == trials[1..][k - 1];
      if exists k :: 0 <= k < |trials| && x in trials[k] {
        var k :| 0 <= k < |trials| && x in trials[k];
        if k > 0 {
          assert x in trials[1..][k - 1];
        }
      }
    }
  }

  /** A store of nine-field records, fed trials of nine-field records,
      stays a store of nine-field records. */
  lemma {:induction false} MergeAllWellShaped(s: Dict, trials: seq<Dict>)
    requires WellShaped(s)
    requires forall k :: 0 <= k < |trials| ==> WellShaped(trials[k])
    ensures WellShaped(MergeAll(s, trials))
    decreases |trials|
  {
    if trials != [] {
      MergeWellShaped(s, trials[0]);
      assert forall k :: 1 <= k < |trials| ==> trials[1..][k - 1] == trials[k];
      MergeAllWellShaped(Merge(s, trials[0]), trials[1..]);
    }
  }

  /** A store of nine-field rectangular records, fed trials of nine-field
      rectangular records, stays a store of nine-field rectangular records. */
  lemma {:induction false} MergeAllRectangular(s: Dict, trials: seq<Dict>)
    requires WellShaped(s) && Rectangular(s)
    requires forall k :: 0 <= k < |trials| ==> WellShaped(trials[k]) && Rectangular(trials[k])
    ensures WellShaped(MergeAll(s, trials)) && Rectangular(MergeAll(s, trials))
    decreases |trials|
  {
    if trials != [] {
      MergeWellShaped(s, trials[0]);
      MergeRectangular(s, trials[0]);
      assert forall k :: 1 <= k < |trials| ==> trials[1..][k - 1] == trials[k];
      MergeAllRectangular(Merge(s, trials[0]), trials[1..]);
    }
  }
}
