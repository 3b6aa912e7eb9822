/**
 Several trials in a row: each trial's recording is extracted with
 `_rec2dict` and merged into the group data with `_add_to_group_data`, as a
 caller that merges trials one after another does (loading and saving the
 store, reading and unpickling files, is not modelled).
 */
module Trials {
  import opened Recordings
  import opened Extractor
  import opened Merger

  /** The trial's recording and its parameter object. */
  datatype Trial = Trial(rec: Recording, P: Params)

  /** The trials' extractions succeed and give `ds`, one dictionary per trial. */
  predicate Extracted(trials: seq<Trial>, ds: seq<Dict>) {
    |trials| == |ds| && forall k :: 0 <= k < |ds| ==> Extract(trials[k].rec, trials[k].P) == Ok(ds[k])
  }

  /** Merging the extracted trials into an empty store gives, for every
      variable and field, the rows of all trials in trial order; the store
      holds exactly the variables some trial records; every record has the
      nine fields; and when each trial's indices match its data arrays,
      every record has all its fields of one length. */
  lemma GroupData(trials: seq<Trial>, ds: seq<Dict>)
    requires Extracted(trials, ds)
    ensures WellShaped(MergeAll(map[], ds))
    ensures forall x, f :: Cells(MergeAll(map[], ds), x, f) == Stacked(ds, x, f)
    ensures forall x :: x in MergeAll(map[], ds) <==> exists k :: 0 <= k < |trials| && Recorded(trials[k].rec, x)
    ensures (forall k :: 0 <= k < |trials| ==> AllIndicesMatch(trials[k].rec)) ==> Rectangular(MergeAll(map[], ds))
  {
    var store := MergeAll(map[], ds);
    forall x, f ensures Cells(store, x, f) == Stacked(ds, x, f) {
      MergeAllCells(map[], ds, x, f);
    }
    forall x ensures x in store <==> exists k :: 0 <= k < |trials| && Recorded(trials[k].rec, x) {
      MergeAllKeys(map[], ds, x);
      forall k | 0 <= k < |trials| ensures x in ds[k] <==> Recorded(trials[k].rec, x) {
        ExtractKeys(trials[k].rec, trials[k].P, x);
      }
    }
    forall k | 0 <= k < |ds| ensures WellShaped(ds[k]) {
      ExtractWellShaped(trials[k].rec, trials[k].P);
    }
    if forall k :: 0 <= k < |trials| ==> AllIndicesMatch(trials[k].rec) {
      forall k | 0 <= k < |ds| ensures Rectangular(ds[k]) {
        ExtractRectangular(trials[k].rec, trials[k].P);
      }
      MergeAllRectangular(map[], ds);
    } else {
      MergeAllWellShaped(map[], ds);
    }
  }
}
