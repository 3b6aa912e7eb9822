/**
 The flat-keyed extraction (`_rec2df` up to the DataFrame call): the same
 three nested loops as `_rec2dict`, but every field lands under the pair
 (variable, field) of one flat dictionary, the recorded indices are named
 `brian_index`, and, because each assignment ends in a comma, every value
 is a one-element tuple around the array.
 */
module FlatExtractor {
  import opened Recordings
  import opened Extractor

  /** The one-element tuple `(array,)`. */
  datatype Singleton = Singleton(only: seq<Cell>)

  type FlatDict = map<(string, Field), Singleton>

  /** The nine field names of the flat extraction. */
  const FLAT_FIELDS: set<Field> :=
    {Data, BrianIndex, PreIndex, PostIndex, BrianGroupName, GroupName, TrialId, Parameters, FieldMag}

  /** The field of `_rec2dict` that a flat field name corresponds to. */
  function DictName(f: Field): Field {
    if f == BrianIndex then Index else f
  }

  /** The nine assignments of one visit (one variable of one group), in
      the order the source makes them. */
  function FlatAssign(acc: FlatDict, v: Visit, P: Params): (r: FlatDict)
    requires Readable(v)
  {
    var x := v.variable;
    var data := v.monitor.arrays[x];
    var n := |data|;
    var synapses := v.typeKey == SYNAPSES;
    acc[(x, Data) := Singleton(Rows(data))]
       [(x, BrianIndex) := Singleton(Indices(v.monitor.record))]
       [(x, PreIndex) := Singleton(if synapses then Indices(v.monitor.source.i) else Broadcast(NaN, n))]
       [(x, PostIndex) := Singleton(if synapses then Indices(v.monitor.source.j) else Broadcast(NaN, n))]
       [(x, BrianGroupName) := Singleton(Broadcast(Text(v.monitor.source.name), n))]
       [(x, GroupName) := Singleton(Broadcast(Text(v.groupKey), n))]
       [(x, TrialId) := Singleton(Broadcast(Text(P.trialId), n))]
       [(x, Parameters) := Singleton(Broadcast(Param(P), n))]
       [(x, FieldMag) := Singleton(Broadcast(Magnitude(P.fieldMag), n))]
  }

  /** The loop body applied to each visit in turn. */
  function RunFlat(vs: seq<Visit>, P: Params, acc: FlatDict): Result<FlatDict>
    decreases |vs|
  {
    if vs == [] then Ok(acc)
    else if !Readable(vs[0]) then Err(AttributeError(vs[0].groupKey, vs[0].variable))
    else RunFlat(vs[1..], P, FlatAssign(acc, vs[0], P))
  }

  /** The dictionary `_rec2df(rec, P)` hands to `pd.DataFrame` (or the fault it raises). */
  function ExtractFlat(rec: Recording, P: Params): Result<FlatDict>
  {
    RunFlat(Visits(rec), P, map[])
  }

  /** `fd` is the flat view of `d`: under (variable, field) it holds that
      variable's field of the same name (`index` for `brian_index`) in a
      one-element tuple, and it holds nothing else. */
  ghost predicate FlatView(fd: FlatDict, d: Dict)
    requires WellShaped(d)
  {
    FlatCovers(fd, d) && FlatOnly(fd, d)
  }

  ghost predicate FlatCovers(fd: FlatDict, d: Dict)
    requires WellShaped(d)
  {
    forall x, f :: x in d && f in FLAT_FIELDS ==> (x, f) in fd && fd[(x, f)] == Singleton(d[x][DictName(f)])
  }

  ghost predicate FlatOnly(fd: FlatDict, d: Dict)
  {
    forall p :: p in fd ==> p.0 in d && p.1 in FLAT_FIELDS
  }

  /** The flat entries of one nine-field record of variable `x`. */
  function FlatOf(x: string, r: Record): FlatDict
    requires r.Keys == RECORD_FIELDS
  {
    map[(x, Data) := Singleton(r[Data]),
        (x, BrianIndex) := Singleton(r[Index]),
        (x, PreIndex) := Singleton(r[PreIndex]),
        (x, PostIndex) := Singleton(r[PostIndex]),
        (x, BrianGroupName) := Singleton(r[BrianGroupName]),
        (x, GroupName) := Singleton(r[GroupName]),
        (x, TrialId) := Singleton(r[TrialId]),
        (x, Parameters) := Singleton(r[Parameters]),
        (x, FieldMag) := Singleton(r[FieldMag])]
  }

  /** One visit's nine assignments write the flat entries of the record
      `_rec2dict` builds for the same visit, over whatever was there. */
  lemma FlatAssignIsOverride(acc: FlatDict, v: Visit, P: Params)
    requires Readable(v)
    ensures FlatAssign(acc, v, P) == acc + FlatOf(v.variable, RecordOf(v, P))
  {
    var lhs := FlatAssign(acc, v, P);
    var rhs := acc + FlatOf(v.variable, RecordOf(v, P));
    assert lhs.Keys == rhs.Keys;
    forall p | p in lhs ensures lhs[p] == rhs[p] {
      if p.0 != v.variable {
        assert lhs[p] == acc[p] == rhs[p];
      }
    }
  }

  /** Every flat field of `x` is in `FlatOf(x, r)`, holding the record's field of that name. */
  lemma FlatOfCovers(x: string, r: Record)
    requires r.Keys == RECORD_FIELDS
    ensures forall f :: f in FLAT_FIELDS ==> (x, f) in FlatOf(x, r) && FlatOf(x, r)[(x, f)] == Singleton(r[DictName(f)])
  {
  }

  /** `FlatOf(x, r)` holds flat fields of `x` only. */
  lemma FlatOfOnly(x: string, r: Record)
    requires r.Keys == RECORD_FIELDS
    ensures forall p :: p in FlatOf(x, r) ==> p.0 == x && p.1 in FLAT_FIELDS
  {
  }

  /** Assigning one record to a variable of the dictionary amounts to
      overriding the flat view with that record's flat entries. */
  lemma FlatViewUpdate(fd: FlatDict, d: Dict, x: string, r: Record)
    requires WellShaped(d) && r.Keys == RECORD_FIELDS
    requires FlatView(fd, d)
    ensures WellShaped(d[x := r])
    ensures FlatView(fd + FlatOf(x, r), d[x := r])
  {
    FlatCoversUpdate(fd, d, x, r);
    FlatOnlyUpdate(fd, d, x, r);
  }

  lemma FlatCoversUpdate(fd: FlatDict, d: Dict, x: string, r: Record)
    requires WellShaped(d) && r.Keys == RECORD_FIELDS
    requires FlatCovers(fd, d)
    ensures WellShaped(d[x := r])
    ensures FlatCovers(fd + FlatOf(x, r), d[x := r])
  {
    FlatOfCovers(x, r);
    FlatOfOnly(x, r);
    var fo := FlatOf(x, r);
    var fd' := fd + fo;
    var d' := d[x := r];
    forall y, f | y in d' && f in FLAT_FIELDS
      ensures (y, f) in fd' && fd'[(y, f)] == Singleton(d'[y][DictName(f)])
    {
      if y != x {
        assert (y, f) !in fo;
      }
    }
  }

  lemma FlatOnlyUpdate(fd: FlatDict, d: Dict, x: string, r: Record)
    requires r.Keys == RECORD_FIELDS
    requires FlatOnly(fd, d)
    ensures FlatOnly(fd + FlatOf(x, r), d[x := r])
  {
    FlatOfOnly(x, r);
  }

  /** One visit's flat assignments keep the flat view in step with the
      dictionary assignment of the same visit. */
  lemma FlatViewStep(fd: FlatDict, acc: Dict, v: Visit, P: Params)
    requires WellShaped(acc) && Readable(v)
    requires FlatView(fd, acc)
    ensures WellShaped(acc[v.variable := RecordOf(v, P)])
    ensures FlatView(FlatAssign(fd, v, P), acc[v.variable := RecordOf(v, P)])
  {
    FlatAssignIsOverride(fd, v, P);
    FlatViewUpdate(fd, acc, v.variable, RecordOf(v, P));
  }

  /** `_rec2df` computes the flat view of what `_rec2dict` computes, and
      raises the same fault when `_rec2dict` raises. */
  lemma {:induction false} RunFlatAgrees(vs: seq<Visit>, P: Params, fd: FlatDict, acc: Dict)
    requires WellShaped(acc) && FlatView(fd, acc)
    ensures match Run(vs, P, acc)
            case Ok(d) => WellShaped(d) && RunFlat(vs, P, fd).Ok? && FlatView(RunFlat(vs, P, fd).value, d)
            case Err(e) => RunFlat(vs, P, fd) == Err(e)
    decreases |vs|
  {
    if vs != [] && Readable(vs[0]) {
      FlatViewStep(fd, acc, vs[0], P);
      RunFlatAgrees(vs[1..], P, FlatAssign(fd, vs[0], P), acc[vs[0].variable := RecordOf(vs[0], P)]);
    }
  }

  /** For every variable and field of `_rec2dict`'s result, `_rec2df`'s
      dictionary holds the same array in a one-element tuple under the
      pair (variable, field), with `index` renamed `brian_index`, and it
      holds nothing else; when one raises, so does the other, with the
      same fault. */
  lemma ExtractFlatAgrees(rec: Recording, P: Params)
    ensures Extract(rec, P).Err? ==> ExtractFlat(rec, P) == Err(Extract(rec, P).fault)
    ensures Extract(rec, P).Ok? ==>
              && WellShaped(Extract(rec, P).value)
              && ExtractFlat(rec, P).Ok?
              && FlatView(ExtractFlat(rec, P).value, Extract(rec, P).value)
  {
    RunFlatAgrees(Visits(rec), P, map[], map[]);
  }

  // ---------------------------------------------------------------------
  // The imperative extraction

  /** `_rec2df` up to the DataFrame call: three nested loops making nine
      assignments per recorded variable. */
  method RecToFlat(rec: Recording, P: Params) returns (r: Result<FlatDict>)
    ensures r == ExtractFlat(rec, P)
  {
    var groupData: FlatDict := map[];
    ghost var pending := Visits(rec);   // the visits still to come
    var i := 0;
    assert rec[0..] == rec;
    while i < |rec|
      invariant 0 <= i <= |rec|
      invariant pending == Visits(rec[i..])
      invariant ExtractFlat(rec, P) == RunFlat(pending, P, groupData)
    {
      var groupTypeKey := rec[i].key;
      var groupType := rec[i].groups;
      VisitsStep(rec, i);
      ghost var afterType := Visits(rec[i + 1..]);
      assert groupType[0..] == groupType;
      var j := 0;
      while j < |groupType|
        invariant 0 <= j <= |groupType|
        invariant pending == TypeVisits(groupTypeKey, groupType[j..]) + afterType
        invariant ExtractFlat(rec, P) == RunFlat(pending, P, groupData)
      {
        var group := groupType[j];
        TypeVisitsStep(groupTypeKey, groupType, j, afterType);
        ghost var afterGroup := TypeVisits(groupTypeKey, groupType[j + 1..]) + afterType;
        var vars := group.monitor.recordVariables;
        assert vars[0..] == vars;
        assert pending == VarVisits(groupTypeKey, group.key, group.monitor, vars[0..]) + afterGroup;
        var k := 0;
        while k < |vars|
          invariant 0 <= k <= |vars|
          invariant pending == VarVisits(groupTypeKey, group.key, group.monitor, vars[k..]) + afterGroup
          invariant ExtractFlat(rec, P) == RunFlat(pending, P, groupData)
        {
          var variable := vars[k];
          ghost var visit := Visit(groupTypeKey, group.key, group.monitor, variable);
          ghost var rest := VarVisits(groupTypeKey, group.key, group.monitor, vars[k + 1..]) + afterGroup;
          VarVisitsStep(groupTypeKey, group.key, group.monitor, vars, k, afterGroup);
          assert ([visit] + rest)[0] == visit && ([visit] + rest)[1..] == rest;
          if variable !in group.monitor.arrays {
            return Err(AttributeError(group.key, variable));
          }
          var dataArray := group.monitor.arrays[variable];
          var n := |dataArray|;
          var preIndex, postIndex;
          if groupTypeKey == SYNAPSES {
            preIndex := Indices(group.monitor.source.i);
            postIndex := Indices(group.monitor.source.j);
          } else {
            preIndex := Broadcast(NaN, n);
            postIndex := Broadcast(NaN, n);
          }
          ghost var before := groupData;
          groupData := groupData[(variable, Data) := Singleton(Rows(dataArray))];
          groupData := groupData[(variable, BrianIndex) := Singleton(Indices(group.monitor.record))];
          groupData := groupData[(variable, PreIndex) := Singleton(preIndex)];
          groupData := groupData[(variable, PostIndex) := Singleton(postIndex)];
          groupData := groupData[(variable, BrianGroupName) := Singleton(Broadcast(Text(group.monitor.source.name), n))];
          groupData := groupData[(variable, GroupName) := Singleton(Broadcast(Text(group.key), n))];
          groupData := groupData[(variable, TrialId) := Singleton(Broadcast(Text(P.trialId), n))];
          groupData := groupData[(variable, Parameters) := Singleton(Broadcast(Param(P), n))];
          groupData := groupData[(variable, FieldMag) := Singleton(Broadcast(Magnitude(P.fieldMag), n))];
          assert groupData == FlatAssign(before, visit, P);
          pending := rest;
          k := k + 1;
        }
        assert vars[k..] == [];
        assert pending == afterGroup;
        j := j + 1;
      }
      assert groupType[j..] == [];
      assert pending == afterType;
      i := i + 1;
    }
    assert rec[i..] == [];
    r := Ok(groupData);
  }
}
