/**
 The values one simulation trial hands to the analysis code: the recording
 handles of the simulator, grouped by group type and group, and the trial's
 parameter object; and the shapes the extraction produces from them.
 */
module Recordings {

  /** The trial's parameter object. Only `simulation['trial_id']` and
      `simulation['field_mag']` are read; everything else it holds is carried
      along uninterpreted in `rest`. */
  datatype Params = Params(trialId: string, fieldMag: real, rest: seq<string>)

  /** One row of a recorded field. Every field of a variable record is a
      sequence of cells, one per recorded entity (neuron or synapse). */
  datatype Cell =
    | Sample(values: seq<real>)  // one row of a recorded data array: one entity's time series
    | Idx(i: int)                // an entity or connection index
    | NaN                        // fill value for the indices a non-synapse group does not have
    | Text(s: string)            // a name or a trial identifier
    | Param(p: Params)           // the whole parameter object
    | Magnitude(x: real)         // the electric field magnitude

  /** The simulator object a monitor records from: its name and, for a
      synapse group, the pre- and postsynaptic neuron index of each synapse. */
  datatype Source = Source(name: string, i: seq<int>, j: seq<int>)

  /** A state monitor: the list of recorded variables, the attribute that
      holds each variable's data array (recorded entities x time samples),
      the indices of the recorded entities, and the recorded object. */
  datatype Monitor = Monitor(
    recordVariables: seq<string>,
    arrays: map<string, seq<seq<real>>>,
    record: seq<int>,
    source: Source)

  /** `rec[group_type][group_key]`, with the iteration order made explicit. */
  datatype Group = Group(key: string, monitor: Monitor)
  datatype GroupType = GroupType(key: string, groups: seq<Group>)
  type Recording = seq<GroupType>

  /** The field names the extraction writes. `Key` gives the dictionary
      key the source uses for each; `Index` is written by `_rec2dict`,
      `BrianIndex` by `_rec2df`, and the two agree on all the others. */
  datatype Field =
    | Data | Index | BrianIndex | PreIndex | PostIndex
    | BrianGroupName | GroupName | TrialId | Parameters | FieldMag

  function Key(f: Field): string {
    match f
    case Data => "data"
    case Index => "index"
    case BrianIndex => "brian_index"
    case PreIndex => "pre_index"
    case PostIndex => "post_index"
    case BrianGroupName => "brian_group_name"
    case GroupName => "group_name"
    case TrialId => "trial_id"
    case Parameters => "P"
    case FieldMag => "field_mag"
  }

  /** Distinct fields have distinct source keys; in particular `index`
      and `brian_index` are different keys. */
  lemma KeyInjective()
    ensures forall f, g :: Key(f) == Key(g) ==> f == g
  {
  }

  /** A variable record (field -> rows) and a store of them
      (variable name -> variable record). */
  type Record = map<Field, seq<Cell>>
  type Dict = map<string, Record>

  /** `getattr(group, var)` raises when the monitor has no such attribute. */
  datatype Fault = AttributeError(groupKey: string, variable: string)

  datatype Result<T> = Ok(value: T) | Err(fault: Fault)

  /** The group type whose groups carry pre- and postsynaptic indices. */
  const SYNAPSES: string := "synapses"

  /** The nine fields of every variable record built from one trial. */
  const RECORD_FIELDS: set<Field> :=
    {Data, Index, PreIndex, PostIndex, BrianGroupName, GroupName, TrialId, Parameters, FieldMag}

  /** Every record of `d` has exactly the nine fields. */
  predicate WellShaped(d: Dict) {
    forall x :: x in d ==> d[x].Keys == RECORD_FIELDS
  }

  /** Every field of the record has `n` rows. */
  predicate Aligned(r: Record, n: nat) {
    forall f :: f in r ==> |r[f]| == n
  }

  /** Every field of every record of the store has as many rows as every
      other field of the same record. */
  predicate Rectangular(d: Dict) {
    forall x, f, g :: x in d && f in d[x] && g in d[x] ==> |d[x][f]| == |d[x][g]|
  }

  /** `np.array([c] * n)`. */
  function Broadcast(c: Cell, n: nat): (r: seq<Cell>)
    ensures |r| == n
    ensures forall k :: 0 <= k < n ==> r[k] == c
  {
    seq(n, _ => c)
  }

  /** An integer index array as cells. */
  function Indices(xs: seq<int>): (r: seq<Cell>)
    ensures |r| == |xs|
    ensures forall k :: 0 <= k < |xs| ==> r[k] == Idx(xs[k])
  {
    seq(|xs|, k requires 0 <= k < |xs| => Idx(xs[k]))
  }

  /** A data array as cells, one per row. */
  function Rows(data: seq<seq<real>>): (r: seq<Cell>)
    ensures |r| == |data|
    ensures forall k :: 0 <= k < |data| ==> r[k] == Sample(data[k])
  {
    seq(|data|, k requires 0 <= k < |data| => Sample(data[k]))
  }
}
