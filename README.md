# Group data for trial recordings

This project models the in-memory data handling of `analysis.py`. That
code gathers the recordings of simulation trials into one cumulative group
store.

- `_rec2dict` takes one trial's recording handles (group type → group →
  monitor) and the trial's parameter object. For every recorded variable it
  builds a record with nine fields: the data array, the recorded indices,
  the pre- and postsynaptic indices (NaN fill outside `synapses` groups),
  and five fields broadcast to the data array's row count.
- `_rec2df` builds the same information one level flatter. Its keys are
  `(variable, field)` pairs, `index` is renamed `brian_index`, and each value
  is a one-element tuple. This model covers the part before the DataFrame
  call.
- `_add_to_group_data` merges one trial's records into the store in place.
  A variable new to the store is inserted whole. A field new to a variable
  is inserted. A field both sides have gets the new rows appended after the
  old ones.

Files:

- `recordings.dfy` (module `Recordings`) holds the values: monitors, groups,
  the recording, the parameter object, cells, fields, records, and the
  `AttributeError` fault.
- `extractor.dfy` (module `Extractor`) holds `_rec2dict`.
  - `Visits` lists the innermost loop bodies in loop order. `Run` applies
    the loop body to them one after another. `Extract` is the resulting
    specification.
  - `RecToDict` is the three nested loops, proved equal to `Extract`.
  - The lemmas state what `Extract` produces.
- `flat_extractor.dfy` (module `FlatExtractor`) holds `_rec2df`.
  - `RecToFlat` is the three nested loops with nine flat assignments per
    variable, proved equal to `ExtractFlat`.
  - `FlatView` says when a flat dictionary is the flattening of a nested
    one. `ExtractFlatAgrees` relates the two extractions through it.
- `merger.dfy` (module `Merger`) holds `Merge`, the value-level meaning of
  `_add_to_group_data`, and its properties. It also holds `MergeAll`, which
  merges trials one after another.
- `store.dfy` (module `Store`) holds the class `GroupStore`.
  - Its field `data` is the dictionary that `_add_to_group_data` mutates.
  - `Add` walks the incoming variables in any order, and `AddFields` walks
    one variable's incoming fields. Each updates `data` one key at a time.
  - `Add` is proved to leave `data == Merge(old(data), dataDict)`.
  - `AddFields` is proved to change only the one variable, leaving its
    record equal to `MergeRecord` of the stored and incoming records.
- `trials.dfy` (module `Trials`) combines the two steps: trials extracted
  with `_rec2dict`, then merged in order.

## Model

| member | source | states |
|---|---|---|
| Recordings.Broadcast | analysis.py:157-158 | `np.array([c]*n)` has `n` elements, every one `c` |
| Recordings.Indices | analysis.py:154-155 | an index array as cells keeps its length and holds each index at its position |
| Recordings.Rows | analysis.py:163 | the data array as cells has one cell per row, holding that row unchanged |
| Recordings.KeyInjective | analysis.py:163-185 | distinct fields have distinct dictionary keys, so the field datatype loses nothing; `index` (line 166) and `brian_index` (line 110) are different keys |
| Extractor.RecordOf | analysis.py:160-186 | the record written for one variable has exactly the nine fields `data`, `index`, `pre_index`, `post_index`, `brian_group_name`, `group_name`, `trial_id`, `P`, `field_mag` |
| Extractor.RecordContents | analysis.py:149-185 | `data` is the data array unchanged and `index` is `group.record`; for `synapses`, `pre_index`/`post_index` are `source.i`/`source.j`; otherwise both are `n` NaNs, `n` being the data array's row count; the five broadcast fields have length `n` and hold the source name, the group key, the trial id, `P` and the field magnitude |
| Extractor.RecordAligned | analysis.py:151-185 | all nine fields have the data array's row count exactly when `group.record` (and, for `synapses`, `source.i` and `source.j`) has that length |
| Extractor.RunSucceeds | analysis.py:147-150 | the loops finish without an exception exactly when every visited variable is an attribute of its monitor |
| Extractor.RunFault | analysis.py:150 | when they raise, the `AttributeError` names the first visit whose attribute is missing |
| Extractor.RunKeys | analysis.py:147-160 | on success the keys are those already present plus every variable name visited |
| Extractor.RunKeepsUnvisited | analysis.py:160 | a key no visit writes keeps its value |
| Extractor.RunLastWins | analysis.py:147-160 | the record kept for a name is the one built by the last visit of that name |
| Extractor.RunWellShaped | analysis.py:160-186 | every record written has the nine fields |
| Extractor.RunRectangular | analysis.py:151-186 | when every visit's indices match its data array, every record has all its fields of one length |
| Extractor.VisitsMembers | analysis.py:140-147 | a visit happens exactly when it reads a listed variable of some group: its group type, group key and monitor are those of that group and its variable is in that group's `record_variables` |
| Extractor.ExtractSucceeds | analysis.py:140-150 | `_rec2dict` raises exactly when some listed variable has no attribute on its monitor |
| Extractor.ExtractKeys | analysis.py:138-188 | the result's keys are exactly the variable names in the `record_variables` of some group |
| Extractor.ExtractWellShaped | analysis.py:160-186 | every record of the result has exactly the nine fields |
| Extractor.ExtractRectangular | analysis.py:151-186 | when all indices match their data arrays, every record of the result has all its fields of one length |
| Extractor.EmptyGroupContributesNothing | analysis.py:144-147 | inserting a group with an empty `record_variables` anywhere leaves the result, or the fault, unchanged |
| Extractor.RecToDict | analysis.py:135-188 | the three nested loops return exactly `Extract(rec, P)`: the dictionary, or the `AttributeError` of the first missing attribute |
| FlatExtractor.FlatAssignIsOverride | analysis.py:107-129 | the nine flat assignments for one variable write the flattened `_rec2dict` record of that variable over whatever was there |
| FlatExtractor.FlatViewUpdate | analysis.py:107-129 | assigning a record to a variable of the nested dictionary matches overriding the flat dictionary with that record's flat entries |
| FlatExtractor.FlatCoversUpdate | analysis.py:107-129 | after the override, every (variable, field) of the nested dictionary has its one-element tuple in the flat one |
| FlatExtractor.FlatOnlyUpdate | analysis.py:107-129 | after the override, the flat dictionary holds no other keys |
| FlatExtractor.FlatViewStep | analysis.py:107-129 | one variable's flat assignments keep the flat dictionary the flattening of the nested one |
| FlatExtractor.RunFlatAgrees | analysis.py:86-129 | over any visits, the flat loops yield the flattening of what the nested loops yield, or the same fault |
| FlatExtractor.ExtractFlatAgrees | analysis.py:84-129 | `_rec2df`'s dictionary holds, under each (variable, field) with `index` renamed `brian_index`, the one-element tuple of the array `_rec2dict` stores there, and nothing else; when one raises, the other raises the same fault |
| FlatExtractor.RecToFlat | analysis.py:84-129 | the three nested loops with nine flat assignments return exactly `ExtractFlat(rec, P)` |
| Merger.MergeKeys | analysis.py:201-212 | the variables after the merge are the union of both sides' variables; a variable's fields are the store's (untouched variable), the trial's (new variable) or the union of both |
| Merger.MergeFieldsOf | analysis.py:201-212 | the fields of a merged variable are its fields on either side |
| Merger.MergeCells | analysis.py:201-212 | every column after the merge is the stored rows followed by the incoming rows, an absent variable or field counting as no rows |
| Merger.MergeNewVariable | analysis.py:203-205 | a variable absent from the store ends up mapped to exactly the incoming record |
| Merger.MergeUntouchedVariable | analysis.py:202 | a variable absent from the incoming records keeps its record |
| Merger.MergeFields | analysis.py:206-212 | for a variable on both sides: a new field is inserted as given, a field the trial lacks is untouched, and a shared field becomes old rows then new rows, its length the sum and the old rows its prefix |
| Merger.MergeIdentity | analysis.py:199-214 | merging no records changes nothing; merging into an empty store gives the incoming records |
| Merger.MergeAssociative | analysis.py:199-214 | merging trial `a` then trial `b` equals merging the merge of `a` and `b` |
| Merger.MergeOrderKeys | analysis.py:199-214 | merging two trials in either order gives the same variables with the same fields |
| Merger.MergeOrderRows | analysis.py:206-212 | in either order each column is the stored rows followed by the two row blocks in merge order, so the two orders differ only by a permutation of rows |
| Merger.MergeWellShaped | analysis.py:199-214 | merging nine-field records into nine-field records gives nine-field records |
| Merger.MergeAligned | analysis.py:206-212 | a shared variable with the same fields on both sides, `n` rows in every stored field and `m` in every incoming field, ends with `n + m` rows in every field |
| Merger.MergeRectangular | analysis.py:199-214 | if the shared variables have the same fields on both sides, equal-length records stay equal-length |
| Merger.MergeRaggedWithoutSameFields | analysis.py:206-212 | without the same fields the merge can leave a record ragged |
| Merger.MergeAllCells | analysis.py:199-214 | after any sequence of merges each column is the stored rows followed by each trial's rows in merge order |
| Merger.MergeAllKeys | analysis.py:199-214 | after any sequence of merges a variable is present exactly when it was stored or some trial has it |
| Merger.MergeAllWellShaped | analysis.py:199-214 | repeated merges of nine-field records keep nine-field records |
| Merger.MergeAllRectangular | analysis.py:199-214 | repeated merges of nine-field equal-length records keep every record equal-length |
| Store.GroupStore.constructor | analysis.py:62 | the store starts as the empty dictionary |
| Store.GroupStore.Add | analysis.py:199-214 | the loop over the incoming variables, in any order, leaves the store equal to `Merge` of the old store and the incoming records |
| Store.GroupStore.AddFields | analysis.py:206-212 | the loop over one variable's incoming fields leaves that variable's record equal to `MergeRecord` of the stored and incoming ones, and every other variable as it was |
| Trials.GroupData | analysis.py:199-214 | merging extracted trials into an empty store gives nine-field records; each column holds all trials' rows in trial order; the variables are those some trial records; with matching indices, every record is equal-length |

## Left out

- `_load_group_data` (analysis.py:9-64) is file-system and unpickling I/O and
  is not modelled. Only its empty-dictionary start (line 62) appears, as
  `GroupStore`'s constructor. No function of the file saves the store.
- `pd.DataFrame(group_data)` (analysis.py:131) and `_dict2frame`
  (analysis.py:190-197) build pandas objects. `ExtractFlat` stops at the
  dictionary handed to pandas.
- brian2 objects are inputs. `getattr(group, var)`, `group.record`,
  `group.source.i/j/name` and `record_variables` become fields of
  `Monitor` and `Source`. A missing attribute is modelled as the
  `AttributeError` fault.
- Numeric contents are opaque. A data row is one `Sample` cell, and
  `n = data_array.shape[0]` is the number of rows. numpy's demand that
  appended 2-D arrays have matching column counts, and the error it raises
  otherwise, are not modelled: `np.append(..., axis=0)` is sequence
  concatenation.
- Aliasing is not modelled. The alias that line 204 creates between the
  store and the caller's record has no counterpart. Records are values, so
  later appends to the store never show through the caller's dictionary.
- Python 2 dictionary order is unspecified.
  - The recording is a sequence of group types, each a sequence of groups,
    so the order in which a repeated variable name is overwritten is
    explicit.
  - `GroupStore.Add` picks the incoming variables and fields in an
    arbitrary order. Its result does not depend on that order.
- Dictionary keys are the `Field` datatype. `Key` gives the string the
  source uses for each field.
- `np.array(...)` around `source.i`/`source.j` (analysis.py:100-101) and its
  absence in `_rec2dict` (lines 154-155) hold the same cells here.
- `print` statements and unused imports have nothing to model.
