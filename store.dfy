/**
 The accumulated group data of `_add_to_group_data`, as the dictionary the
 function updates in place: a class whose one field is the store, and a
 method that walks one trial's records and merges them in, one variable and
 one field at a time.
 */
module Store {
  import opened Recordings
  import opened Merger

  class GroupStore {
    /** variable name -> field -> rows */
    var data: Dict

    /** The empty dictionary a new store starts from. */
    constructor()
      ensures data == map[]
    {
      data := map[];
    }

    /** `_add_to_group_data(self.data, dataDict)`. The variables of the
        trial are taken in whatever order the dictionary yields them. */
    method Add(dataDict: Dict)
      modifies this
      ensures data == Merge(old(data), dataDict)
    {
      var todo := dataDict.Keys;
      ghost var done: set<string> := {};
      while todo != {}
        invariant todo + done == dataDict.Keys && todo !! done
        invariant data.Keys == old(data).Keys + done
        invariant forall y :: y in done ==> data[y] == Entry(old(data), dataDict, y)
        invariant forall y :: y in old(data) && y !in done ==> data[y] == old(data)[y]
        decreases todo
      {
        var variableKey :| variableKey in todo;
        var variable := dataDict[variableKey];
        if variableKey !in data {
          data := data[variableKey := variable];
        } else {
          AddFields(variableKey, variable);
          assert data[variableKey] == MergeRecord(old(data)[variableKey], variable);
        }
        todo := todo - {variableKey};
        done := done + {variableKey};
      }
      ghost var merged := Merge(old(data), dataDict);
      assert data.Keys == merged.Keys;
      forall y | y in data ensures data[y] == merged[y] {
        if y in dataDict {
          assert y in done;
        }
      }
    }

    /** The inner loop: the fields of one trial's record of a variable
        already in the store, each inserted or appended. */
    method AddFields(variableKey: string, variable: Record)
      requires variableKey in data
      modifies this
      ensures data == old(data)[variableKey := MergeRecord(old(data)[variableKey], variable)]
    {
      ghost var stored := data[variableKey];
      var todo := variable.Keys;
      ghost var done: set<Field> := {};
      while todo != {}
        invariant todo + done == variable.Keys && todo !! done
        invariant variableKey in data && data == old(data)[variableKey := data[variableKey]]
        invariant data[variableKey].Keys == stored.Keys + done
        invariant forall f :: f in done ==> data[variableKey][f] == FieldEntry(stored, variable, f)
        invariant forall f :: f in stored && f !in done ==> data[variableKey][f] == stored[f]
        decreases todo
      {
        var dataKey :| dataKey in todo;
        var rows := variable[dataKey];
        var record := data[variableKey];
        if dataKey !in record {
          record := record[dataKey := rows];
        } else {
          record := record[dataKey := record[dataKey] + rows];
        }
        data := data[variableKey := record];
        todo := todo - {dataKey};
        done := done + {dataKey};
      }
      ghost var merged := MergeRecord(stored, variable);
      assert data[variableKey].Keys == merged.Keys;
      forall f | f in merged ensures data[variableKey][f] == merged[f] {
        if f in variable {
          assert f in done;
        }
      }
      assert data[variableKey] == merged;
    }
  }
}
