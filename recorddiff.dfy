/** The record-set differ (`check_record_count`). */
module RecordDiff {
  import opened Wrappers
  import opened Tables

  /** The summary sentences the differ appends, as data. */
  datatype RecordNote =
    | OldRecordCount(count: nat)     // "The old table has {n} records"
    | NewRecordCount(count: nat)     // "The new table has {n} records"
    | NetRecordChange(delta: int)    // "Change in the total number of records: {d}"
    | RecordsRemoved(count: nat)     // "{n} record(s) removed"
    | RecordsAdded(count: nat)       // "{n} record(s) added"

  /** The `record_count_changes` section. */
  datatype RecordCountChanges = RecordCountChanges(
    isEqual: bool,
    summary: seq<RecordNote>,
    removedRecords: Option<set<Cell>>,
    addedRecords: Option<set<Cell>>)

  /** `check_record_count`: compares the sets of primary-key values. Equal
      sets report equal; otherwise the row counts and their net change are
      reported, then the removed keys if any and the added keys if any,
      each independently of the other. */
  function CheckRecordCount(oldTable: Table, newTable: Table, pk: Col): (r: Result<RecordCountChanges, Error>)
    ensures r.Success? <==> pk in Names(oldTable) && pk in Names(newTable)
    ensures r.Failure? ==> r.error == MissingColumn(pk)
    ensures r.Success? ==>
      var removed := KeySet(oldTable, pk) - KeySet(newTable, pk);
      var added := KeySet(newTable, pk) - KeySet(oldTable, pk);
      var c := r.value;
      && (c.isEqual <==> KeySet(oldTable, pk) == KeySet(newTable, pk))
      && (c.isEqual ==> c.summary == [] && c.removedRecords == None && c.addedRecords == None)
      && (c.removedRecords.Some? <==> removed != {})
      && (c.removedRecords.Some? ==> c.removedRecords.value == removed)
      && (c.addedRecords.Some? <==> added != {})
      && (c.addedRecords.Some? ==> c.addedRecords.value == added)
      && (!c.isEqual ==>
            c.summary == [OldRecordCount(|oldTable.rows|), NewRecordCount(|newTable.rows|),
                          NetRecordChange(|newTable.rows| - |oldTable.rows|)]
                         + (if removed != {} then [RecordsRemoved(|removed|)] else [])
                         + (if added != {} then [RecordsAdded(|added|)] else []))
  {
    if pk !in Names(oldTable) || pk !in Names(newTable) then Failure(MissingColumn(pk))
    else
      var oldKeys, newKeys := KeySet(oldTable, pk), KeySet(newTable, pk);
      var removedIds := oldKeys - newKeys;
      var addedIds := newKeys - oldKeys;
      assert removedIds == {} && addedIds == {} <==> oldKeys == newKeys;
      if |removedIds| == 0 && |addedIds| == 0 then
        Success(RecordCountChanges(true, [], None, None))
      else
        var counts := [OldRecordCount(|oldTable.rows|), NewRecordCount(|newTable.rows|),
                       NetRecordChange(|newTable.rows| - |oldTable.rows|)];
        var withRemoved := if |removedIds| > 0 then counts + [RecordsRemoved(|removedIds|)] else counts;
        var summary := if |addedIds| > 0 then withRemoved + [RecordsAdded(|addedIds|)] else withRemoved;
        Success(RecordCountChanges(false, summary,
          if |removedIds| > 0 then Some(removedIds) else None,
          if |addedIds| > 0 then Some(addedIds) else None))
  }

  /** Swapping the tables swaps removed and added records and negates the
      net change. */
  lemma SwapExchangesRemovedAndAdded(oldTable: Table, newTable: Table, pk: Col)
    requires pk in Names(oldTable) && pk in Names(newTable)
    ensures var there := CheckRecordCount(oldTable, newTable, pk).value;
            var back := CheckRecordCount(newTable, oldTable, pk).value;
            && there.isEqual == back.isEqual
            && there.removedRecords == back.addedRecords
            && there.addedRecords == back.removedRecords
            && (!there.isEqual ==> there.summary[2].delta == -back.summary[2].delta)
  {
  }

  /** A table whose key column holds the given values, one row per value. */
  function KeyedTable(pk: Col, keys: seq<Val>): (t: Table)
    ensures Names(t) == [pk] && |t.rows| == |keys|
    ensures forall i :: 0 <= i < |keys| ==> Get(t.rows[i], pk) == Some(keys[i])
  {
    Table([Column(pk, "int64")], seq(|keys|, i requires 0 <= i < |keys| => map[pk := Some(keys[i])]))
  }

  /** Old keys {1, 2, 3} against new keys {2, 3, 4}: both `removed_records`
      ([1]) and `added_records` ([4]) are reported, with a net change of 0. */
  lemma RemovedAndAddedScenario()
    ensures var r := CheckRecordCount(KeyedTable("A", [1, 2, 3]), KeyedTable("A", [2, 3, 4]), "A");
            && r.Success? && !r.value.isEqual
            && r.value.removedRecords == Some({Some(1)})
            && r.value.addedRecords == Some({Some(4)})
            && r.value.summary == [OldRecordCount(3), NewRecordCount(3), NetRecordChange(0),
                                   RecordsRemoved(1), RecordsAdded(1)]
  {
    var o, n := KeyedTable("A", [1, 2, 3]), KeyedTable("A", [2, 3, 4]);
    assert Names(o) == [Names(o)[0]];
    assert "A" in Names(o) && "A" in Names(n);
    KeySetOfThree(o, "A", Some(1), Some(2), Some(3));
    KeySetOfThree(n, "A", Some(2), Some(3), Some(4));
    ScenarioReport(o, n, "A");
  }

  /** The record-count report of any two three-row tables with keys
      {1, 2, 3} and {2, 3, 4}: the lists, then the summary. */
  lemma ScenarioReport(o: Table, n: Table, pk: Col)
    requires pk in Names(o) && pk in Names(n) && |o.rows| == 3 && |n.rows| == 3
    requires KeySet(o, pk) == {Some(1), Some(2), Some(3)} && KeySet(n, pk) == {Some(2), Some(3), Some(4)}
    ensures var r := CheckRecordCount(o, n, pk);
            && r.Success? && !r.value.isEqual
            && r.value.removedRecords == Some({Some(1)})
            && r.value.addedRecords == Some({Some(4)})
            && r.value.summary == [OldRecordCount(3), NewRecordCount(3), NetRecordChange(0),
                                   RecordsRemoved(1), RecordsAdded(1)]
  {
    ScenarioKeyDifferences();
    ScenarioLists(o, n, pk);
    ScenarioSummary(o, n, pk);
  }

  lemma ScenarioLists(o: Table, n: Table, pk: Col)
    requires pk in Names(o) && pk in Names(n)
    requires KeySet(o, pk) - KeySet(n, pk) == {Some(1)} && KeySet(n, pk) - KeySet(o, pk) == {Some(4)}
    ensures var r := CheckRecordCount(o, n, pk);
            && r.Success? && !r.value.isEqual
            && r.value.removedRecords == Some({Some(1)})
            && r.value.addedRecords == Some({Some(4)})
  {
    assert KeySet(o, pk) != KeySet(n, pk) by {
      assert Some(1) in KeySet(o, pk) - KeySet(n, pk);
    }
  }

  lemma ScenarioSummary(o: Table, n: Table, pk: Col)
    requires pk in Names(o) && pk in Names(n) && |o.rows| == 3 && |n.rows| == 3
    requires KeySet(o, pk) - KeySet(n, pk) == {Some(1)} && KeySet(n, pk) - KeySet(o, pk) == {Some(4)}
    requires !CheckRecordCount(o, n, pk).value.isEqual
    ensures CheckRecordCount(o, n, pk).value.summary
            == [OldRecordCount(3), NewRecordCount(3), NetRecordChange(0), RecordsRemoved(1), RecordsAdded(1)]
  {
    assert |{Some(1)}| == 1 && |{Some(4)}| == 1;
  }

  lemma ScenarioKeyDifferences()
    ensures var old3: set<Cell>, new3: set<Cell> := {Some(1), Some(2), Some(3)}, {Some(2), Some(3), Some(4)};
            && old3 - new3 == {Some(1)} && new3 - old3 == {Some(4)}
            && old3 != new3 && |old3 - new3| == 1 && |new3 - old3| == 1
  {
    var old3: set<Cell>, new3: set<Cell> := {Some(1), Some(2), Some(3)}, {Some(2), Some(3), Some(4)};
    assert Some(1) in old3 - new3;
    assert old3 - new3 == {Some(1)};
    assert new3 - old3 == {Some(4)};
  }

  lemma KeySetOfThree(t: Table, pk: Col, a: Cell, b: Cell, c: Cell)
    requires |t.rows| == 3
    requires Get(t.rows[0], pk) == a && Get(t.rows[1], pk) == b && Get(t.rows[2], pk) == c
    ensures KeySet(t, pk) == {a, b, c}
  {
    forall k | k in KeySet(t, pk) ensures k in {a, b, c} {
      var i :| 0 <= i < |t.rows| && Get(t.rows[i], pk) == k;
    }
    assert a in KeySet(t, pk) && b in KeySet(t, pk) && c in KeySet(t, pk);
  }
}
