/**
 What the calls of the version history do, row by row and record by record (src/repository.rs:811-1056,
 1138-1180, src/domain.rs:72-95): a restore brings back what the row was when the version was current.
 */
module HistoryLaws {
  import opened Prelude
  import opened VersionHistory

  /** The newest record of `key` tells this. */
  ghost predicate Tells(t: History, key: Text, row: Option<Bytes>, op: Operation, restored: Option<nat>) {
    match RecordAt(t, key, Current(t, key))
    case None => false
    case Some(r) =>
      r.operation == op && r.data == row && r.restored == restored && r.key == key && r.version == Current(t, key)
  }

  /** Every row but `key`, and every record there was, is as before; `key` has one more version, recorded so. */
  ghost predicate OneMore(h: History, t: History, key: Text, row: Option<Bytes>, op: Operation, restored: Option<nat>) {
    && RowAt(t, key) == row && Current(t, key) == Current(h, key) + 1 && Tells(t, key, row, op, restored)
    && (forall k :: k != key ==> RowAt(t, k) == RowAt(h, k) && Current(t, k) == Current(h, k))
    && (forall c :: c in h.records ==> c in t.records && t.records[c] == h.records[c])
    && t.bulks == h.bulks
  }

  lemma ChangedMeans(h: History, key: Text, op: Operation, row: Option<Bytes>, restored: Option<nat>,
                     bulk: Option<Text>)
    requires Numbered(h)
    ensures OneMore(h, Recorded(WithRow(h, key, row), key, op, row, restored, bulk), key, row, op, restored)
  {
    var w := WithRow(h, key, row);
    SameNumbers(h, w);
    RecordedKeeps(w, key, op, row, restored, bulk);
  }

  /** Setting a row. */
  lemma SetMeans(h: History, key: Text, value: Bytes)
    requires HistoryInv(h)
    ensures OneMore(h, SetOp(h, key, value), key, Some(value), Set, None)
  {
    ChangedMeans(h, key, Set, Some(value), None, None);
  }

  /** Deleting a row that is there; deleting one that is not changes nothing. */
  lemma DeleteMeans(h: History, key: Text)
    requires HistoryInv(h)
    ensures if RowAt(h, key).Some? then OneMore(h, DeleteOp(h, key), key, None, Delete, None) else DeleteOp(h, key) == h
  {
    ChangedMeans(h, key, Delete, None, None, None);
  }

  /** What a version says, at any later time, is what the row was when that version was current. */
  lemma VersionIsThen(h: History, run: seq<Call>, key: Text)
    requires HistoryInv(h) && Current(h, key) >= 1 && AllSucceed(h, run)
    ensures var u := After(h, run);
            RecordAt(u, key, Current(h, key)).Some? && Old(u, Entry(key, Current(h, key))) == RowAt(h, key)
  {
    RunKeeps(h, run);
    WhichRecords(h, key, Current(h, key));
    assert Newest(h, key);
  }

  /** Restoring a version, whatever happened since, brings the row back to what it was then, and only that row. */
  lemma RestoreIsThen(h: History, run: seq<Call>, key: Text)
    requires HistoryInv(h) && Current(h, key) >= 1 && AllSucceed(h, run)
    ensures var u, v := After(h, run), Current(h, key);
            Succeeds(u, DoRestore(key, v)) && OneMore(u, RestoreOp(u, key, v), key, RowAt(h, key), Restore, Some(v))
  {
    var u, v := After(h, run), Current(h, key);
    RunKeeps(h, run);
    VersionIsThen(h, run, key);
    var r := RecordAt(u, key, v).value;
    ChangedMeans(u, key, Restore, Data(r), Some(v), if r.operation.Delete? then None else r.bulk);
  }

  /** A version the row never had cannot be restored. */
  lemma NoSuchVersion(h: History, key: Text, version: nat)
    requires HistoryInv(h)
    ensures Succeeds(h, DoRestore(key, version)) <==> 1 <= version <= Current(h, key)
    ensures !Succeeds(h, DoRestore(key, version)) ==> RestoreOp(h, key, version) == h
  {
    WhichRecords(h, key, version);
  }

  /** A bulk update of distinct ids sets each row, and no other, and remembers the version each had. */
  lemma {:induction false} UpdateMeans(h: History, inputs: seq<(Text, Bytes)>)
    requires DistinctInputs(inputs)
    ensures forall i :: 0 <= i < |inputs| ==> RowAt(UpdateRows(h, inputs), inputs[i].0) == Some(inputs[i].1)
    ensures forall key :: !Among(inputs, key) ==> RowAt(UpdateRows(h, inputs), key) == RowAt(h, key)
  {
    if inputs != [] {
      var first := inputs[..|inputs| - 1];
      UpdateMeans(h, first);
      assert forall i :: 0 <= i < |first| ==> first[i] == inputs[i];
      forall key | !Among(inputs, key) ensures RowAt(UpdateRows(h, inputs), key) == RowAt(h, key) {
        assert inputs[|inputs| - 1].0 != key;
        assert !Among(first, key);
      }
    }
  }

  /** A bulk restore leaves rows it does not mention alone. */
  lemma RestoreSpares(h: History, bulk: Text, key: Text)
    requires HistoryInv(h) && Succeeds(h, DoRestoreBulk(bulk)) && !Mentions(h.bulks[bulk], key)
    ensures RowAt(RestoreBulkOp(h, bulk), key) == RowAt(h, key)
  {
    BulkIsSteps(h, bulk);
    StepsSpare(h, h.bulks[bulk], bulk, key);
  }
}
