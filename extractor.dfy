/**
 Extraction of one trial's recordings into a dictionary of variable records
 (`_rec2dict`). The three nested loops of the source visit every group type,
 every group of it and every recorded variable of that group; `Visits` lists
 those visits in loop order and `Run` is the effect of the loop body applied
 to them one after the other: later visits of the same variable name
 overwrite earlier ones.
 */
module Extractor {
  import opened Recordings

  /** One execution of the innermost loop body: group type, group key,
      the group's monitor and the recorded variable. */
  datatype Visit = Visit(typeKey: string, groupKey: string, monitor: Monitor, variable: string)

  /** The monitor has the attribute the visit reads. */
  predicate Readable(v: Visit) {
    v.variable in v.monitor.arrays
  }

  function VarVisits(typeKey: string, groupKey: string, m: Monitor, vars: seq<string>): seq<Visit>
  {
    if vars == [] then []
    else [Visit(typeKey, groupKey, m, vars[0])] + VarVisits(typeKey, groupKey, m, vars[1..])
  }

  function TypeVisits(typeKey: string, groups: seq<Group>): seq<Visit>
  {
    if groups == [] then []
    else VarVisits(typeKey, groups[0].key, groups[0].monitor, groups[0].monitor.recordVariables)
         + TypeVisits(typeKey, groups[1..])
  }

  /** All visits of the three nested loops, in the order they happen. */
  function Visits(rec: Recording): seq<Visit>
  {
    if rec == [] then []
    else TypeVisits(rec[0].key, rec[0].groups) + Visits(rec[1..])
  }

  /** The names the visits write. */
  function Names(vs: seq<Visit>): set<string>
  {
    set k | 0 <= k < |vs| :: vs[k].variable
  }

  /** The variable is in the `record_variables` of some group of `rec`. */
  ghost predicate Recorded(rec: Recording, x: string) {
    exists i, j :: 0 <= i < |rec| && 0 <= j < |rec[i].groups| && x in rec[i].groups[j].monitor.recordVariables
  }

  /** The record one visit writes (the dictionary literal of the loop body). */
  function RecordOf(v: Visit, P: Params): (r: Record)
    requires Readable(v)
    ensures r.Keys == RECORD_FIELDS
  {
    var data := v.monitor.arrays[v.variable];
    var n := |data|;
    var synapses := v.typeKey == SYNAPSES;
    map[
      Data := Rows(data),
      Index := Indices(v.monitor.record),
      PreIndex := if synapses then Indices(v.monitor.source.i) else Broadcast(NaN, n),
      PostIndex := if synapses then Indices(v.monitor.source.j) else Broadcast(NaN, n),
      BrianGroupName := Broadcast(Text(v.monitor.source.name), n),
      GroupName := Broadcast(Text(v.groupKey), n),
      TrialId := Broadcast(Text(P.trialId), n),
      Parameters := Broadcast(Param(P), n),
      FieldMag := Broadcast(Magnitude(P.fieldMag), n)
    ]
  }

  /** What each field of the record holds: the data array unchanged, the
      monitor's recorded indices, the synapse indices for a `synapses`
      group and NaN fill otherwise, and five fields broadcast to the data
      array's row count. */
  lemma RecordContents(v: Visit, P: Params)
    requires Readable(v)
    ensures var r, data := RecordOf(v, P), v.monitor.arrays[v.variable];
            && r[Data] == Rows(data)
            && r[Index] == Indices(v.monitor.record)
    ensures var r, n := RecordOf(v, P), |v.monitor.arrays[v.variable]|;
            if v.typeKey == SYNAPSES then
              r[PreIndex] == Indices(v.monitor.source.i) && r[PostIndex] == Indices(v.monitor.source.j)
            else
              && |r[PreIndex]| == n && |r[PostIndex]| == n
              && forall k :: 0 <= k < n ==> r[PreIndex][k] == NaN && r[PostIndex][k] == NaN
    ensures var r, n := RecordOf(v, P), |v.monitor.arrays[v.variable]|;
            && |r[BrianGroupName]| == n && |r[GroupName]| == n && |r[TrialId]| == n
            && |r[Parameters]| == n && |r[FieldMag]| == n
            && forall k :: 0 <= k < n ==>
                 && r[BrianGroupName][k] == Text(v.monitor.source.name)
                 && r[GroupName][k] == Text(v.groupKey)
                 && r[TrialId][k] == Text(P.trialId)
                 && r[Parameters][k] == Param(P)
                 && r[FieldMag][k] == Magnitude(P.fieldMag)
  {
  }

  /** The loop body applied to each visit in turn, starting from `acc`. */
  function Run(vs: seq<Visit>, P: Params, acc: Dict): Result<Dict>
    decreases |vs|
  {
    if vs == [] then Ok(acc)
    else if !Readable(vs[0]) then Err(AttributeError(vs[0].groupKey, vs[0].variable))
    else Run(vs[1..], P, acc[vs[0].variable := RecordOf(vs[0], P)])
  }

  /** What `_rec2dict(rec, P)` returns (or raises). */
  function Extract(rec: Recording, P: Params): Result<Dict>
  {
    Run(Visits(rec), P, map[])
  }

  // ---------------------------------------------------------------------
  // What the fold over the visits produces

  /** The extraction succeeds exactly when every visit's attribute exists. */
  lemma {:induction false} RunSucceeds(vs: seq<Visit>, P: Params, acc: Dict)
    ensures Run(vs, P, acc).Ok? <==> forall k :: 0 <= k < |vs| ==> Readable(vs[k])
    decreases |vs|
  {
    if vs != [] && Readable(vs[0]) {
      RunSucceeds(vs[1..], P, acc[vs[0].variable := RecordOf(vs[0], P)]);
      assert forall k :: 1 <= k < |vs| ==> vs[k] == vs[1..][k - 1];
    }
  }

  /** When the extraction fails, it reports the first visit whose
      attribute is missing. */
  lemma {:induction false} RunFault(vs: seq<Visit>, P: Params, acc: Dict)
    requires Run(vs, P, acc).Err?
    ensures exists k :: 0 <= k < |vs| && !Readable(vs[k]) && (forall k' :: 0 <= k' < k ==> Readable(vs[k']))
                        && Run(vs, P, acc).fault == AttributeError(vs[k].groupKey, vs[k].variable)
    decreases |vs|
  {
    if Readable(vs[0]) {
      var acc' := acc[vs[0].variable := RecordOf(vs[0], P)];
      RunFault(vs[1..], P, acc');
      var k :| 0 <= k < |vs[1..]| && !Readable(vs[1..][k]) && (forall k' :: 0 <= k' < k ==> Readable(vs[1..][k']))
               && Run(vs[1..], P, acc').fault == AttributeError(vs[1..][k].groupKey, vs[1..][k].variable);
      assert forall k' :: 1 <= k' < |vs| ==> vs[k'] == vs[1..][k' - 1];
      assert vs[k + 1] == vs[1..][k];
    }
  }

  /** On success, the keys are those already present plus every name visited. */
  lemma {:induction false} RunKeys(vs: seq<Visit>, P: Params, acc: Dict)
    requires Run(vs, P, acc).Ok?
    ensures Run(vs, P, acc).value.Keys == acc.Keys + Names(vs)
    decreases |vs|
  {
    if vs != [] {
      RunKeys(vs[1..], P, acc[vs[0].variable := RecordOf(vs[0], P)]);
      assert Names(vs) == {vs[0].variable} + Names(vs[1..]) by {
        forall x | x in Names(vs) ensures x in {vs[0].variable} + Names(vs[1..]) {
          var k :| 0 <= k < |vs| && vs[k].variable == x;
          if k > 0 { assert vs[1..][k - 1] == vs[k]; }
        }
        forall x | x in Names(vs[1..]) ensures x in Names(vs) {
          var k :| 0 <= k < |vs[1..]| && vs[1..][k].variable == x;
          assert vs[k + 1] == vs[1..][k];
        }
      }
    }
  }

  /** A variable no visit writes keeps the record it had. */
  lemma {:induction false} RunKeepsUnvisited(vs: seq<Visit>, P: Params, acc: Dict, x: string)
    requires Run(vs, P, acc).Ok?
    requires x in acc
    requires forall k :: 0 <= k < |vs| ==> vs[k].variable != x
    ensures x in Run(vs, P, acc).value && Run(vs, P, acc).value[x] == acc[x]
    decreases |vs|
  {
    if vs != [] {
      assert forall k :: 0 <= k < |vs[1..]| ==> vs[1..][k] == vs[k + 1];
      RunKeepsUnvisited(vs[1..], P, acc[vs[0].variable := RecordOf(vs[0], P)], x);
    }
  }

  /** The last visit of a name decides its record: earlier records of the
      same name are overwritten. */
  lemma {:induction false} RunLastWins(vs: seq<Visit>, P: Params, acc: Dict, k: nat)
    requires Run(vs, P, acc).Ok?
    requires k < |vs|
    requires forall k' :: k < k' < |vs| ==> vs[k'].variable != vs[k].variable
    ensures Readable(vs[k])
    ensures vs[k].variable in Run(vs, P, acc).value
    ensures Run(vs, P, acc).value[vs[k].variable] == RecordOf(vs[k], P)
    decreases |vs|
  {
    RunSucceeds(vs, P, acc);
    var acc' := acc[vs[0].variable := RecordOf(vs[0], P)];
    assert forall j :: 0 <= j < |vs[1..]| ==> vs[1..][j] == vs[j + 1];
    if k == 0 {
      RunKeepsUnvisited(vs[1..], P, acc', vs[0].variable);
    } else {
      RunLastWins(vs[1..], P, acc', k - 1);
    }
  }

  /** Every record written has the nine fields. */
  lemma {:induction false} RunWellShaped(vs: seq<Visit>, P: Params, acc: Dict)
    requires WellShaped(acc)
    requires Run(vs, P, acc).Ok?
    ensures WellShaped(Run(vs, P, acc).value)
    decreases |vs|
  {
    if vs != [] {
      RunWellShaped(vs[1..], P, acc[vs[0].variable := RecordOf(vs[0], P)]);
    }
  }

  // ---------------------------------------------------------------------
  // Visits and the recording they come from

  /** The visit reads variable `v.variable` of group `j` of group type `i`. */
  ghost predicate FromGroup(rec: Recording, v: Visit, i: int, j: int) {
    && 0 <= i < |rec| && 0 <= j < |rec[i].groups|
    && v.typeKey == rec[i].key
    && v.groupKey == rec[i].groups[j].key
    && v.monitor == rec[i].groups[j].monitor
    && v.variable in rec[i].groups[j].monitor.recordVariables
  }

  lemma {:induction false} VarVisitsMembers(typeKey: string, groupKey: string, m: Monitor, vars: seq<string>, v: Visit)
    ensures v in VarVisits(typeKey, groupKey, m, vars)
        <==> v.typeKey == typeKey && v.groupKey == groupKey && v.monitor == m && v.variable in vars
    decreases |vars|
  {
    if vars != [] {
      VarVisitsMembers(typeKey, groupKey, m, vars[1..], v);
      assert vars == [vars[0]] + vars[1..];
    }
  }

  lemma {:induction false} TypeVisitsMembers(rec: Recording, i: nat, n: nat, v: Visit)
    requires i < |rec| && n <= |rec[i].groups|
    ensures v in TypeVisits(rec[i].key, rec[i].groups[n..])
        <==> exists j :: n <= j < |rec[i].groups| && FromGroup(rec, v, i, j)
    decreases |rec[i].groups| - n
  {
    var gs := rec[i].groups;
    if n < |gs| {
      var g := gs[n];
      TypeVisitsStep(rec[i].key, gs, n, []);
      assert TypeVisits(rec[i].key, gs[n..]) + [] == TypeVisits(rec[i].key, gs[n..]);
      assert TypeVisits(rec[i].key, gs[n + 1..]) + [] == TypeVisits(rec[i].key, gs[n + 1..]);
      VarVisitsMembers(rec[i].key, g.key, g.monitor, g.monitor.recordVariables, v);
      TypeVisitsMembers(rec, i, n + 1, v);
      if v in VarVisits(rec[i].key, g.key, g.monitor, g.monitor.recordVariables) {
        assert FromGroup(rec, v, i, n);
      }
    } else {
      assert gs[n..] == [];
    }
  }

  lemma {:induction false} VisitsMembersFrom(rec: Recording, n: nat, v: Visit)
    requires n <= |rec|
    ensures v in Visits(rec[n..])
        <==> exists i, j :: n <= i < |rec| && FromGroup(rec, v, i, j)
    decreases |rec| - n
  {
    if n < |rec| {
      VisitsStep(rec, n);
      assert rec[n].groups[0..] == rec[n].groups;
      TypeVisitsMembers(rec, n, 0, v);
      VisitsMembersFrom(rec, n + 1, v);
    } else {
      assert rec[n..] == [];
    }
  }

  /** A visit happens exactly for each recorded variable of each group. */
  lemma VisitsMembers(rec: Recording, v: Visit)
    ensures v in Visits(rec) <==> exists i, j :: FromGroup(rec, v, i, j)
  {
    VisitsMembersFrom(rec, 0, v);
    assert rec[0..] == rec;
  }

  /** Every monitor has each attribute it lists in `record_variables`. */
  ghost predicate AllReadable(rec: Recording) {
    forall i, j, x :: 0 <= i < |rec| && 0 <= j < |rec[i].groups| && x in rec[i].groups[j].monitor.recordVariables
      ==> x in rec[i].groups[j].monitor.arrays
  }

  /** `_rec2dict` raises exactly when a listed variable cannot be read. */
  lemma ExtractSucceeds(rec: Recording, P: Params)
    ensures Extract(rec, P).Ok? <==> AllReadable(rec)
  {
    var vs := Visits(rec);
    RunSucceeds(vs, P, map[]);
    if AllReadable(rec) {
      forall k | 0 <= k < |vs| ensures Readable(vs[k]) {
        VisitsMembers(rec, vs[k]);
      }
    } else {
      var i, j, x :| 0 <= i < |rec| && 0 <= j < |rec[i].groups| && x in rec[i].groups[j].monitor.recordVariables
                     && x !in rec[i].groups[j].monitor.arrays;
      var g := rec[i].groups[j];
      var v := Visit(rec[i].key, g.key, g.monitor, x);
      assert FromGroup(rec, v, i, j);
      VisitsMembers(rec, v);
      var k :| 0 <= k < |vs| && vs[k] == v;
      assert !Readable(vs[k]);
    }
  }

  /** The keys of the result are exactly the names recorded by some group. */
  lemma ExtractKeys(rec: Recording, P: Params, x: string)
    requires Extract(rec, P).Ok?
    ensures x in Extract(rec, P).value <==> Recorded(rec, x)
  {
    var vs := Visits(rec);
    RunKeys(vs, P, map[]);
    if x in Names(vs) {
      var k :| 0 <= k < |vs| && vs[k].variable == x;
      VisitsMembers(rec, vs[k]);
    }
    if Recorded(rec, x) {
      var i, j :| 0 <= i < |rec| && 0 <= j < |rec[i].groups| && x in rec[i].groups[j].monitor.recordVariables;
      var g := rec[i].groups[j];
      var v := Visit(rec[i].key, g.key, g.monitor, x);
      assert FromGroup(rec, v, i, j);
      VisitsMembers(rec, v);
      var k :| 0 <= k < |vs| && vs[k] == v;
    }
  }

  /** Each record of the result has exactly the nine fields. */
  lemma ExtractWellShaped(rec: Recording, P: Params)
    requires Extract(rec, P).Ok?
    ensures WellShaped(Extract(rec, P).value)
  {
    RunWellShaped(Visits(rec), P, map[]);
  }

  lemma {:induction false} TypeVisitsAppend(typeKey: string, a: seq<Group>, b: seq<Group>)
    ensures TypeVisits(typeKey, a + b) == TypeVisits(typeKey, a) + TypeVisits(typeKey, b)
    decreases |a|
  {
    if a != [] {
      assert (a + b)[0] == a[0] && (a + b)[1..] == a[1..] + b;
      TypeVisitsAppend(typeKey, a[1..], b);
    } else {
      assert a + b == b;
    }
  }

  lemma {:induction false} VisitsAppend(a: Recording, b: Recording)
    ensures Visits(a + b) == Visits(a) + Visits(b)
    decreases |a|
  {
    if a != [] {
      assert (a + b)[0] == a[0] && (a + b)[1..] == a[1..] + b;
      VisitsAppend(a[1..], b);
    } else {
      assert a + b == b;
    }
  }

  /** A group whose `record_variables` is empty contributes nothing: adding
      one anywhere leaves the result (and any fault) unchanged. */
  lemma EmptyGroupContributesNothing(rec: Recording, P: Params, i: nat, j: nat, g: Group)
    requires i < |rec| && j <= |rec[i].groups|
    requires g.monitor.recordVariables == []
    ensures Extract(rec[i := GroupType(rec[i].key, rec[i].groups[..j] + [g] + rec[i].groups[j..])], P)
         == Extract(rec, P)
  {
    var gs := rec[i].groups;
    var t := GroupType(rec[i].key, gs[..j] + [g] + gs[j..]);
    var rec' := rec[i := t];
    TypeVisitsAppend(t.key, gs[..j] + [g], gs[j..]);
    TypeVisitsAppend(t.key, gs[..j], [g]);
    TypeVisitsAppend(t.key, gs[..j], gs[j..]);
    assert [g][1..] == [];
    assert TypeVisits(t.key, [g]) == [];
    assert gs[..j] + gs[j..] == gs;
    assert TypeVisits(t.key, t.groups) == TypeVisits(rec[i].key, gs);
    assert rec' == rec[..i] + [t] + rec[i + 1..];
    assert rec == rec[..i] + [rec[i]] + rec[i + 1..];
    VisitsAppend(rec[..i] + [t], rec[i + 1..]);
    VisitsAppend(rec[..i], [t]);
    VisitsAppend(rec[..i] + [rec[i]], rec[i + 1..]);
    VisitsAppend(rec[..i], [rec[i]]);
    assert [t][1..] == [] && [rec[i]][1..] == [];
    assert Visits([t]) == Visits([rec[i]]);
    assert Visits(rec') == Visits(rec);
  }

  /** The monitor's recorded indices (and, for a synapse group, its pre-
      and postsynaptic indices) have one entry per row of the data array. */
  predicate IndicesMatch(v: Visit)
    requires Readable(v)
  {
    var n := |v.monitor.arrays[v.variable]|;
    |v.monitor.record| == n && (v.typeKey == SYNAPSES ==> |v.monitor.source.i| == n && |v.monitor.source.j| == n)
  }

  /** The nine fields of a record all have the data array's row count
      exactly when the indices match the data array. */
  lemma RecordAligned(v: Visit, P: Params)
    requires Readable(v)
    ensures Aligned(RecordOf(v, P), |v.monitor.arrays[v.variable]|) <==> IndicesMatch(v)
  {
    RecordContents(v, P);
    var r := RecordOf(v, P);
    assert Index in r && PreIndex in r && PostIndex in r;
  }

  /** Every readable recorded variable of every group has matching indices. */
  ghost predicate AllIndicesMatch(rec: Recording) {
    forall i, j, x :: 0 <= i < |rec| && 0 <= j < |rec[i].groups| && x in rec[i].groups[j].monitor.recordVariables
           && x in rec[i].groups[j].monitor.arrays
      ==> IndicesMatch(Visit(rec[i].key, rec[i].groups[j].key, rec[i].groups[j].monitor, x))
  }

  /** When every visit's indices match its data array, every record written
      has all its fields of one length. */
  lemma {:induction false} RunRectangular(vs: seq<Visit>, P: Params, acc: Dict)
    requires Rectangular(acc)
    requires Run(vs, P, acc).Ok?
    requires forall k :: 0 <= k < |vs| && Readable(vs[k]) ==> IndicesMatch(vs[k])
    ensures Rectangular(Run(vs, P, acc).value)
    decreases |vs|
  {
    if vs != [] {
      var v := vs[0];
      var acc' := acc[v.variable := RecordOf(v, P)];
      RecordAligned(v, P);
      assert Rectangular(acc');
      assert forall k :: 1 <= k < |vs| ==> vs[k] == vs[1..][k - 1];
      RunRectangular(vs[1..], P, acc');
    }
  }

  /** A trial whose groups' indices match their data arrays yields records
      whose fields all have one length. */
  lemma ExtractRectangular(rec: Recording, P: Params)
    requires Extract(rec, P).Ok?
    requires AllIndicesMatch(rec)
    ensures Rectangular(Extract(rec, P).value)
  {
    var vs := Visits(rec);
    forall k | 0 <= k < |vs| && Readable(vs[k]) ensures IndicesMatch(vs[k]) {
      VisitsMembers(rec, vs[k]);
    }
    RunRectangular(vs, P, map[]);
  }

  // ---------------------------------------------------------------------
  // Unfolding the visit order one loop iteration at a time

  lemma VisitsStep(rec: Recording, i: nat)
    requires i < |rec|
    ensures Visits(rec[i..]) == TypeVisits(rec[i].key, rec[i].groups) + Visits(rec[i + 1..])
  {
    assert rec[i..][0] == rec[i] && rec[i..][1..] == rec[i + 1..];
  }

  lemma TypeVisitsStep(typeKey: string, groups: seq<Group>, j: nat, after: seq<Visit>)
    requires j < |groups|
    ensures TypeVisits(typeKey, groups[j..]) + after
         == VarVisits(typeKey, groups[j].key, groups[j].monitor, groups[j].monitor.recordVariables)
            + (TypeVisits(typeKey, groups[j + 1..]) + after)
  {
    assert groups[j..][0] == groups[j] && groups[j..][1..] == groups[j + 1..];
  }

  lemma VarVisitsStep(typeKey: string, groupKey: string, m: Monitor, vars: seq<string>, k: nat, after: seq<Visit>)
    requires k < |vars|
    ensures VarVisits(typeKey, groupKey, m, vars[k..]) + after
         == [Visit(typeKey, groupKey, m, vars[k])] + (VarVisits(typeKey, groupKey, m, vars[k + 1..]) + after)
  {
    assert vars[k..][0] == vars[k] && vars[k..][1..] == vars[k + 1..];
  }

  lemma RunStep(v: Visit, rest: seq<Visit>, P: Params, acc: Dict)
    ensures Run([v] + rest, P, acc)
         == if !Readable(v) then Err(AttributeError(v.groupKey, v.variable))
            else Run(rest, P, acc[v.variable := RecordOf(v, P)])
  {
    assert ([v] + rest)[0] == v && ([v] + rest)[1..] == rest;
  }

  // ---------------------------------------------------------------------
  // The imperative extraction

  /** `_rec2dict`: three nested loops filling `groupData`; a later record
      for the same variable name replaces the earlier one. */
  method RecToDict(rec: Recording, P: Params) returns (r: Result<Dict>)
    ensures r == Extract(rec, P)
  {
    var groupData: Dict := map[];
    ghost var pending := Visits(rec);   // the visits still to come
    var i := 0;
    assert rec[0..] == rec;
    while i < |rec|
      invariant 0 <= i <= |rec|
      invariant pending == Visits(rec[i..])
      invariant Extract(rec, P) == Run(pending, P, groupData)
    {
      var groupTypeKey := rec[i].key;
      var groupType := rec[i].groups;
      VisitsStep(rec, i);
      ghost var afterType := Visits(rec[i + 1..]);
      assert groupType[0..] == groupType;
      var j := 0;
      while j < |groupType|
        invariant 0 <= j <= |groupType|
        invariant pending == TypeVisits(groupTypeKey, groupType[j..]) + afterType
        invariant Extract(rec, P) == Run(pending, P, groupData)
      {
        var group := groupType[j];
        TypeVisitsStep(groupTypeKey, groupType, j, afterType);
        ghost var afterGroup := TypeVisits(groupTypeKey, groupType[j + 1..]) + afterType;
        var vars := group.monitor.recordVariables;
        assert vars[0..] == vars;
        assert pending == VarVisits(groupTypeKey, group.key, group.monitor, vars[0..]) + afterGroup;
        var k := 0;
        while k < |vars|
          invariant 0 <= k <= |vars|
          invariant pending == VarVisits(groupTypeKey, group.key, group.monitor, vars[k..]) + afterGroup
          invariant Extract(rec, P) == Run(pending, P, groupData)
        {
          var variable := vars[k];
          var visit := Visit(groupTypeKey, group.key, group.monitor, variable);
          ghost var rest := VarVisits(groupTypeKey, group.key, group.monitor, vars[k + 1..]) + afterGroup;
          VarVisitsStep(groupTypeKey, group.key, group.monitor, vars, k, afterGroup);
          RunStep(visit, rest, P, groupData);
          if variable !in group.monitor.arrays {
            return Err(AttributeError(group.key, variable));
          }
          groupData := groupData[variable := RecordOf(visit, P)];
          pending := rest;
          k := k + 1;
        }
        assert vars[k..] == [];
        assert pending == afterGroup;
        j := j + 1;
      }
      assert groupType[j..] == [];
      assert pending == afterType;
      i := i + 1;
    }
    assert rec[i..] == [];
    r := Ok(groupData);
  }
}
