/**
 The version history of one table (src/backup.rs:216-435, src/repository.rs:799-832, 967-1056, 1138-1180,
 src/domain.rs:72-95): every change of a row leaves a numbered record, and rows go back to what records say.
 */
module VersionHistory {
  import opened Prelude

  type Text = Bytes

  datatype Operation = Set | Delete | Restore | RestoreBulk

  /** A record, without its clock readings. */
  datatype Record = Record(
    version: nat,
    operation: Operation,
    key: Text,
    data: Option<Bytes>,
    restored: Option<nat>,
    bulk: Option<Text>)

  /** What a bulk update remembers of a row: the version it had before. */
  datatype Entry = Entry(key: Text, version: nat)

  datatype History = History(
    records: map<Text, Record>,
    versions: map<Text, nat>,
    bulks: map<Text, seq<Entry>>,
    rows: map<Text, Bytes>)

  function Fresh(): History {
    History(map[], map[], map[], map[])
  }

  const COLON: Byte := 58

  /** The key of a record: the row's key, a colon, and the version. */
  function Composite(key: Text, version: nat): Text {
    key + [COLON] + Decimal(version)
  }

  lemma NoColonAfter(key: Text, version: nat)
    ensures forall i :: |key| < i < |Composite(key, version)| ==> Composite(key, version)[i] != COLON
  {
    forall i | |key| < i < |Composite(key, version)| ensures Composite(key, version)[i] != COLON {
      assert Composite(key, version)[i] == Decimal(version)[i - |key| - 1];
    }
  }

  /** The last colon ends the key, whatever the key is. */
  lemma CompositeInjective(a: Text, v: nat, b: Text, w: nat)
    requires Composite(a, v) == Composite(b, w)
    ensures a == b && v == w
  {
    var c, d := Composite(a, v), Composite(b, w);
    assert c[|a|] == COLON && d[|b|] == COLON;
    NoColonAfter(a, v);
    NoColonAfter(b, w);
    assert |a| == |b|;
    assert c[..|a|] == a && d[..|b|] == b;
    assert c[|a| + 1..] == Decimal(v) && d[|b| + 1..] == Decimal(w);
    DecimalInjective(v, w);
  }

  function Current(h: History, key: Text): nat {
    if key in h.versions then h.versions[key] else 0
  }

  /** What a record says the row was: nothing, for a delete. */
  function Data(r: Record): Option<Bytes> {
    if r.operation.Delete? then None else r.data
  }

  function RecordAt(h: History, key: Text, version: nat): Option<Record> {
    if Composite(key, version) in h.records then Some(h.records[Composite(key, version)]) else None
  }

  function RowAt(h: History, key: Text): Option<Bytes> {
    if key in h.rows then Some(h.rows[key]) else None
  }

  // ---- invariants ----

  ghost predicate IsRecordOf(h: History, c: Text, key: Text, v: nat) {
    c == Composite(key, v) && 1 <= v <= Current(h, key)
  }

  /** Each key's records are exactly versions 1..current. */
  ghost predicate Numbered(h: History) {
    && (forall key, v :: 1 <= v <= Current(h, key) ==> Composite(key, v) in h.records)
    && (forall key, v :: 1 <= v <= Current(h, key) && Composite(key, v) in h.records ==>
          h.records[Composite(key, v)].version == v && h.records[Composite(key, v)].key == key)
    && (forall c :: c in h.records ==> exists key, v :: IsRecordOf(h, c, key, v))
  }

  /** The row is what the newest record says; there is none without a record. */
  ghost predicate Newest(h: History, key: Text) {
    if Current(h, key) == 0 then RowAt(h, key) == None
    else RecordAt(h, key, Current(h, key)).Some? && RowAt(h, key) == Data(RecordAt(h, key, Current(h, key)).value)
  }

  ghost predicate Mirrored(h: History) {
    forall key :: Newest(h, key)
  }

  /** Bulks remember versions the rows have had. */
  ghost predicate BulksKnown(h: History) {
    forall b, i :: b in h.bulks && 0 <= i < |h.bulks[b]| ==> h.bulks[b][i].version <= Current(h, h.bulks[b][i].key)
  }

  /** What even a call that fails keeps. */
  ghost predicate Whole(h: History) {
    Numbered(h) && BulksKnown(h)
  }

  ghost predicate HistoryInv(h: History) {
    Whole(h) && Mirrored(h)
  }

  lemma FreshInv()
    ensures HistoryInv(Fresh())
  {
  }

  /** A version has its record exactly if the row has had it. */
  lemma WhichRecords(h: History, key: Text, v: nat)
    requires Numbered(h)
    ensures Composite(key, v) in h.records <==> 1 <= v <= Current(h, key)
    ensures Composite(key, v) in h.records ==>
            h.records[Composite(key, v)].version == v && h.records[Composite(key, v)].key == key
  {
    if Composite(key, v) in h.records {
      var k, w :| IsRecordOf(h, Composite(key, v), k, w);
      CompositeInjective(key, v, k, w);
    }
  }

  // ---- one record more ----

  function Recorded(h: History, key: Text, op: Operation, data: Option<Bytes>, restored: Option<nat>,
                    bulk: Option<Text>): History
  {
    var n := Current(h, key) + 1;
    WithRecord(h, key, n, Record(n, op, key, data, restored, bulk))
  }

  function WithRecord(h: History, key: Text, n: nat, r: Record): History {
    History(h.records[Composite(key, n) := r], h.versions[key := n], h.bulks, h.rows)
  }

  function WithRow(h: History, key: Text, data: Option<Bytes>): History {
    h.(rows := if data.Some? then h.rows[key := data.value] else h.rows - {key})
  }

  lemma RecordedNumbers(h: History, key: Text, op: Operation, data: Option<Bytes>, restored: Option<nat>,
                        bulk: Option<Text>)
    requires Numbered(h)
    ensures Numbered(Recorded(h, key, op, data, restored, bulk))
    ensures Composite(key, Current(h, key) + 1) !in h.records
  {
    var t, n := Recorded(h, key, op, data, restored, bulk), Current(h, key) + 1;
    WhichRecords(h, key, n);
    forall k, v | 1 <= v <= Current(t, k)
      ensures Composite(k, v) in t.records && t.records[Composite(k, v)].version == v
              && t.records[Composite(k, v)].key == k
    {
      if Composite(k, v) == Composite(key, n) {
        CompositeInjective(k, v, key, n);
      } else {
        WhichRecords(h, k, v);
      }
    }
    forall c | c in t.records ensures exists k, v :: IsRecordOf(t, c, k, v) {
      if c == Composite(key, n) {
        assert IsRecordOf(t, c, key, n);
      } else {
        var k, v :| IsRecordOf(h, c, k, v);
        assert IsRecordOf(t, c, k, v);
      }
    }
  }

  lemma RecordedKeepsBulks(h: History, key: Text, op: Operation, data: Option<Bytes>, restored: Option<nat>,
                           bulk: Option<Text>)
    requires BulksKnown(h)
    ensures BulksKnown(Recorded(h, key, op, data, restored, bulk))
  {
  }

  /** Records never change. */
  ghost predicate Keeps(h: History, t: History) {
    && (forall c :: c in h.records ==> c in t.records && t.records[c] == h.records[c])
    && (forall b :: b in h.bulks ==> b in t.bulks && t.bulks[b] == h.bulks[b])
  }

  lemma RecordedKeeps(h: History, key: Text, op: Operation, data: Option<Bytes>, restored: Option<nat>,
                      bulk: Option<Text>)
    requires Numbered(h)
    ensures Keeps(h, Recorded(h, key, op, data, restored, bulk))
  {
    RecordedNumbers(h, key, op, data, restored, bulk);
  }

  /** Rows and bulks do not matter to the numbering. */
  lemma SameNumbers(h: History, t: History)
    requires Numbered(h) && t.records == h.records && t.versions == h.versions
    ensures Numbered(t)
  {
    forall c | c in t.records ensures exists k, v :: IsRecordOf(t, c, k, v) {
      var k, v :| IsRecordOf(h, c, k, v);
      assert IsRecordOf(t, c, k, v);
    }
  }

  /** A row changed with its record. */
  lemma ChangedKeeps(h: History, key: Text, op: Operation, data: Option<Bytes>, restored: Option<nat>,
                     bulk: Option<Text>)
    requires HistoryInv(h) && (op.Delete? ==> data.None?)
    ensures HistoryInv(Recorded(WithRow(h, key, data), key, op, data, restored, bulk))
    ensures Keeps(h, Recorded(WithRow(h, key, data), key, op, data, restored, bulk))
  {
    var w := WithRow(h, key, data);
    SameNumbers(h, w);
    RecordedNumbers(w, key, op, data, restored, bulk);
    RecordedKeepsBulks(w, key, op, data, restored, bulk);
    RecordedKeeps(w, key, op, data, restored, bulk);
    var t := Recorded(w, key, op, data, restored, bulk);
    forall k ensures Newest(t, k) {
      assert Newest(h, k);
      if k != key && Current(h, k) > 0 {
        NotTheNewOne(w, k, Current(h, k), key);
      }
    }
  }

  lemma NotTheNewOne(h: History, k: Text, v: nat, key: Text)
    requires k != key
    ensures Composite(k, v) != Composite(key, Current(h, key) + 1)
  {
    if Composite(k, v) == Composite(key, Current(h, key) + 1) {
      CompositeInjective(k, v, key, Current(h, key) + 1);
    }
  }

  lemma RecordedWhole(h: History, key: Text, op: Operation, data: Option<Bytes>, restored: Option<nat>,
                      bulk: Option<Text>)
    requires Whole(h)
    ensures Whole(Recorded(h, key, op, data, restored, bulk))
  {
    RecordedNumbers(h, key, op, data, restored, bulk);
    RecordedKeepsBulks(h, key, op, data, restored, bulk);
  }

  lemma RowWhole(h: History, key: Text, data: Option<Bytes>)
    requires Whole(h)
    ensures Whole(WithRow(h, key, data))
  {
    SameNumbers(h, WithRow(h, key, data));
  }

  // ---- operations ----

  function SetOp(h: History, key: Text, value: Bytes): History {
    Recorded(WithRow(h, key, Some(value)), key, Set, Some(value), None, None)
  }

  function DeleteOp(h: History, key: Text): History {
    if key in h.rows then Recorded(WithRow(h, key, None), key, Delete, None, None, None) else h
  }

  function RestoreOp(h: History, key: Text, version: nat): History {
    var r := RecordAt(h, key, version);
    if r.None? then h
    else Recorded(WithRow(h, key, Data(r.value)), key, Restore, Data(r.value), Some(version),
      if r.value.operation.Delete? then None else r.value.bulk)
  }

  /** What an entry of a bulk goes back to. */
  function Old(h: History, e: Entry): Option<Bytes> {
    var r := RecordAt(h, e.key, e.version);
    if r.Some? then Data(r.value) else None
  }

  /** The records of a bulk restore, all before any row changes. */
  function BulkRecords(h: History, entries: seq<Entry>, bulk: Text): History {
    if entries == [] then h
    else
      var before, e := BulkRecords(h, entries[..|entries| - 1], bulk), entries[|entries| - 1];
      Recorded(before, e.key, RestoreBulk, Old(before, e), Some(e.version), Some(bulk))
  }

  /** The rows of a bulk restore, in the order of its entries. */
  function BulkRows(h: History, source: History, entries: seq<Entry>): History {
    if entries == [] then h
    else
      var e := entries[|entries| - 1];
      WithRow(BulkRows(h, source, entries[..|entries| - 1]), e.key, Old(source, e))
  }

  function RestoreBulkOp(h: History, bulk: Text): History {
    if bulk !in h.bulks then h else BulkRows(BulkRecords(h, h.bulks[bulk], bulk), h, h.bulks[bulk])
  }

  function UpdateRows(h: History, inputs: seq<(Text, Bytes)>): History {
    if inputs == [] then h
    else SetOp(UpdateRows(h, inputs[..|inputs| - 1]), inputs[|inputs| - 1].0, inputs[|inputs| - 1].1)
  }

  /** Before each row is set, its version is noted. */
  function UpdateEntries(h: History, inputs: seq<(Text, Bytes)>): seq<Entry> {
    if inputs == [] then []
    else
      var before, key := UpdateRows(h, inputs[..|inputs| - 1]), inputs[|inputs| - 1].0;
      UpdateEntries(h, inputs[..|inputs| - 1]) + [Entry(key, Current(before, key))]
  }

  function UpdateBulkOp(h: History, inputs: seq<(Text, Bytes)>, bulk: Text): History {
    var t := UpdateRows(h, inputs);
    t.(bulks := t.bulks[bulk := UpdateEntries(h, inputs)])
  }

  // ---- a bulk restore, entry by entry ----

  function BulkSteps(h: History, entries: seq<Entry>, bulk: Text): History {
    if entries == [] then h
    else
      var before, e := BulkSteps(h, entries[..|entries| - 1], bulk), entries[|entries| - 1];
      Recorded(WithRow(before, e.key, Old(h, e)), e.key, RestoreBulk, Old(h, e), Some(e.version), Some(bulk))
  }

  /** Every version named has its record. */
  ghost predicate Restorable(h: History, entries: seq<Entry>) {
    forall i :: 0 <= i < |entries| ==> RecordAt(h, entries[i].key, entries[i].version).Some?
  }

  lemma {:induction false} StepsKeep(h: History, entries: seq<Entry>, bulk: Text)
    requires HistoryInv(h)
    ensures HistoryInv(BulkSteps(h, entries, bulk)) && Keeps(h, BulkSteps(h, entries, bulk))
  {
    if entries != [] {
      var e := entries[|entries| - 1];
      StepsKeep(h, entries[..|entries| - 1], bulk);
      ChangedKeeps(BulkSteps(h, entries[..|entries| - 1], bulk), e.key, RestoreBulk, Old(h, e), Some(e.version),
        Some(bulk));
    }
  }

  lemma OldStays(h: History, t: History, e: Entry)
    requires Keeps(h, t) && RecordAt(h, e.key, e.version).Some?
    ensures Old(t, e) == Old(h, e)
  {
  }

  ghost predicate SameHistory(a: History, b: History) {
    a.records == b.records && a.versions == b.versions && a.bulks == b.bulks
  }

  lemma SameHistoryMore(a: History, b: History, key: Text, data: Option<Bytes>, restored: Option<nat>,
                        bulk: Option<Text>)
    requires SameHistory(a, b)
    ensures SameHistory(Recorded(a, key, RestoreBulk, data, restored, bulk),
                        Recorded(WithRow(b, key, data), key, RestoreBulk, data, restored, bulk))
  {
  }

  /** The rows of a bulk restore do not matter to its records. */
  lemma {:induction false} RecordsOfSteps(h: History, entries: seq<Entry>, bulk: Text)
    requires HistoryInv(h) && Restorable(h, entries)
    ensures SameHistory(BulkRecords(h, entries, bulk), BulkSteps(h, entries, bulk))
    ensures BulkRecords(h, entries, bulk).rows == h.rows
  {
    if entries != [] {
      var before, e := entries[..|entries| - 1], entries[|entries| - 1];
      var a, b := BulkRecords(h, before, bulk), BulkSteps(h, before, bulk);
      RecordsOfSteps(h, before, bulk);
      StepsKeep(h, before, bulk);
      OldStays(h, b, e);
      SameOld(a, b, e);
      SameHistoryMore(a, b, e.key, Old(h, e), Some(e.version), Some(bulk));
    }
  }

  lemma SameOld(a: History, b: History, e: Entry)
    requires a.records == b.records
    ensures Old(a, e) == Old(b, e)
  {
  }

  lemma {:induction false} RowsOfSteps(a: History, h: History, entries: seq<Entry>, bulk: Text)
    requires a.rows == h.rows
    ensures BulkRows(a, h, entries) == a.(rows := BulkSteps(h, entries, bulk).rows)
  {
    if entries != [] {
      RowsOfSteps(a, h, entries[..|entries| - 1], bulk);
    }
  }

  /** Writing all records first and all rows then comes to the same. */
  lemma BulkIsSteps(h: History, bulk: Text)
    requires HistoryInv(h) && bulk in h.bulks && Restorable(h, h.bulks[bulk])
    ensures RestoreBulkOp(h, bulk) == BulkSteps(h, h.bulks[bulk], bulk)
  {
    RecordsOfSteps(h, h.bulks[bulk], bulk);
    RowsOfSteps(BulkRecords(h, h.bulks[bulk], bulk), h, h.bulks[bulk], bulk);
  }

  /** No later entry is about the same key. */
  predicate IsLast(entries: seq<Entry>, i: nat) {
    i < |entries| && forall j :: i < j < |entries| ==> entries[j].key != entries[i].key
  }

  predicate Distinct(entries: seq<Entry>) {
    forall i, j :: 0 <= i < j < |entries| ==> entries[i].key != entries[j].key
  }

  /** Each row ends as its last entry says. */
  lemma {:induction false} StepsRestore(h: History, entries: seq<Entry>, bulk: Text, i: nat)
    requires IsLast(entries, i)
    ensures RowAt(BulkSteps(h, entries, bulk), entries[i].key) == Old(h, entries[i])
  {
    if i < |entries| - 1 {
      assert IsLast(entries[..|entries| - 1], i);
      StepsRestore(h, entries[..|entries| - 1], bulk, i);
    }
  }

  predicate Mentions(entries: seq<Entry>, key: Text) {
    exists i :: 0 <= i < |entries| && entries[i].key == key
  }

  lemma {:induction false} StepsSpare(h: History, entries: seq<Entry>, bulk: Text, key: Text)
    requires !Mentions(entries, key)
    ensures RowAt(BulkSteps(h, entries, bulk), key) == RowAt(h, key)
  {
    if entries != [] {
      var before := entries[..|entries| - 1];
      assert forall i :: 0 <= i < |before| ==> before[i] == entries[i];
      StepsSpare(h, before, bulk, key);
    }
  }

  lemma {:induction false} LastMention(entries: seq<Entry>, key: Text) returns (i: nat)
    requires Mentions(entries, key)
    ensures IsLast(entries, i) && entries[i].key == key
  {
    i := |entries| - 1;
    if entries[i].key != key {
      var before := entries[..i];
      assert forall j :: 0 <= j < |before| ==> before[j] == entries[j];
      i := LastMention(before, key);
    }
  }

  // ---- a bulk update ----

  lemma {:induction false} UpdateKeeps(h: History, inputs: seq<(Text, Bytes)>)
    requires HistoryInv(h)
    ensures HistoryInv(UpdateRows(h, inputs)) && Keeps(h, UpdateRows(h, inputs))
    ensures UpdateRows(h, inputs).bulks == h.bulks
  {
    if inputs != [] {
      UpdateKeeps(h, inputs[..|inputs| - 1]);
      var before := UpdateRows(h, inputs[..|inputs| - 1]);
      ChangedKeeps(before, inputs[|inputs| - 1].0, Set, Some(inputs[|inputs| - 1].1), None, None);
    }
  }

  ghost predicate EntriesKnown(h: History, entries: seq<Entry>) {
    forall i :: 0 <= i < |entries| ==> entries[i].version <= Current(h, entries[i].key)
  }

  lemma {:induction false} UpdateKnown(h: History, inputs: seq<(Text, Bytes)>)
    ensures EntriesKnown(UpdateRows(h, inputs), UpdateEntries(h, inputs))
  {
    if inputs != [] {
      UpdateKnown(h, inputs[..|inputs| - 1]);
    }
  }

  lemma UpdateBulkKeeps(h: History, inputs: seq<(Text, Bytes)>, bulk: Text)
    requires HistoryInv(h) && bulk !in h.bulks
    ensures HistoryInv(UpdateBulkOp(h, inputs, bulk)) && Keeps(h, UpdateBulkOp(h, inputs, bulk))
  {
    UpdateKeeps(h, inputs);
    UpdateKnown(h, inputs);
    var r, t := UpdateRows(h, inputs), UpdateBulkOp(h, inputs, bulk);
    forall key ensures Newest(t, key) {
      assert Newest(r, key);
    }
    SameNumbers(r, t);
  }

  predicate DistinctInputs(inputs: seq<(Text, Bytes)>) {
    forall i, j :: 0 <= i < j < |inputs| ==> inputs[i].0 != inputs[j].0
  }

  predicate Among(inputs: seq<(Text, Bytes)>, key: Text) {
    exists i :: 0 <= i < |inputs| && inputs[i].0 == key
  }

  lemma {:induction false} UntouchedStays(h: History, inputs: seq<(Text, Bytes)>, key: Text)
    requires !Among(inputs, key)
    ensures Current(UpdateRows(h, inputs), key) == Current(h, key)
  {
    if inputs != [] {
      var before := inputs[..|inputs| - 1];
      assert forall i :: 0 <= i < |before| ==> before[i].0 == inputs[i].0;
      UntouchedStays(h, before, key);
    }
  }

  /** With distinct ids, the versions noted are those from before the bulk. */
  lemma {:induction false} EntriesOfDistinct(h: History, inputs: seq<(Text, Bytes)>)
    requires DistinctInputs(inputs)
    ensures |UpdateEntries(h, inputs)| == |inputs|
    ensures forall i :: 0 <= i < |inputs| ==> UpdateEntries(h, inputs)[i] == Entry(inputs[i].0, Current(h, inputs[i].0))
  {
    if inputs != [] {
      var before := inputs[..|inputs| - 1];
      EntriesOfDistinct(h, before);
      UntouchedStays(h, before, inputs[|inputs| - 1].0);
    }
  }

  // ---- runs ----

  datatype Call =
    | DoSet(key: Text, value: Bytes)
    | DoDelete(key: Text)
    | DoRestore(key: Text, version: nat)
    | DoUpdateBulk(inputs: seq<(Text, Bytes)>, bulk: Text)
    | DoRestoreBulk(bulk: Text)

  /** A bulk gets a new name; a restore finds its records. */
  ghost predicate Succeeds(h: History, c: Call) {
    match c
    case DoSet(_, _) => true
    case DoDelete(_) => true
    case DoRestore(key, v) => RecordAt(h, key, v).Some?
    case DoUpdateBulk(inputs, bulk) => inputs != [] && bulk !in h.bulks
    case DoRestoreBulk(bulk) => bulk in h.bulks && Restorable(h, h.bulks[bulk])
  }

  function Did(h: History, c: Call): History {
    match c
    case DoSet(key, value) => SetOp(h, key, value)
    case DoDelete(key) => DeleteOp(h, key)
    case DoRestore(key, v) => RestoreOp(h, key, v)
    case DoUpdateBulk(inputs, bulk) => UpdateBulkOp(h, inputs, bulk)
    case DoRestoreBulk(bulk) => RestoreBulkOp(h, bulk)
  }

  ghost predicate AllSucceed(h: History, run: seq<Call>)
    decreases |run|
  {
    run == [] || (Succeeds(h, run[0]) && AllSucceed(Did(h, run[0]), run[1..]))
  }

  function After(h: History, run: seq<Call>): History
    decreases |run|
  {
    if run == [] then h else After(Did(h, run[0]), run[1..])
  }

  lemma CallKeeps(h: History, c: Call)
    requires HistoryInv(h) && Succeeds(h, c)
    ensures HistoryInv(Did(h, c)) && Keeps(h, Did(h, c))
  {
    match c {
      case DoSet(key, value) => ChangedKeeps(h, key, Set, Some(value), None, None);
      case DoDelete(key) => ChangedKeeps(h, key, Delete, None, None, None);
      case DoRestore(key, v) =>
        var r := RecordAt(h, key, v).value;
        ChangedKeeps(h, key, Restore, Data(r), Some(v), if r.operation.Delete? then None else r.bulk);
      case DoUpdateBulk(inputs, bulk) => UpdateBulkKeeps(h, inputs, bulk);
      case DoRestoreBulk(bulk) =>
        BulkIsSteps(h, bulk);
        StepsKeep(h, h.bulks[bulk], bulk);
    }
  }

  /**
   In every run of successful calls each key's records are exactly versions 1..current, they never
   change, and each row is what its newest record says.
   */
  lemma {:induction false} RunKeeps(h: History, run: seq<Call>)
    requires HistoryInv(h) && AllSucceed(h, run)
    ensures HistoryInv(After(h, run)) && Keeps(h, After(h, run))
    decreases |run|
  {
    if run != [] {
      CallKeeps(h, run[0]);
      RunKeeps(Did(h, run[0]), run[1..]);
    }
  }

  /** In every later state the bulk names the versions from before it, and their records are as they were. */
  lemma BulkRemembered(h: History, inputs: seq<(Text, Bytes)>, bulk: Text, u: History)
    requires HistoryInv(h) && bulk !in h.bulks && DistinctInputs(inputs)
    requires Keeps(UpdateBulkOp(h, inputs, bulk), u) && HistoryInv(u)
    ensures bulk in u.bulks && |u.bulks[bulk]| == |inputs|
    ensures forall i :: 0 <= i < |inputs| ==> Remembered(h, u, u.bulks[bulk][i], inputs[i].0)
  {
    UpdateBulkKeeps(h, inputs, bulk);
    EntriesOfDistinct(h, inputs);
    assert u.bulks[bulk] == UpdateEntries(h, inputs);
    forall i | 0 <= i < |inputs| ensures Remembered(h, u, u.bulks[bulk][i], inputs[i].0) {
      OneRemembered(h, u, inputs[i].0);
    }
  }

  /** The entry is the version the row had at `h`; if it had one, its record says in `u` what the row was. */
  ghost predicate Remembered(h: History, u: History, e: Entry, key: Text) {
    && e == Entry(key, Current(h, key))
    && (RecordAt(u, e.key, e.version).Some? <==> Current(h, key) >= 1)
    && (Current(h, key) >= 1 ==> Old(u, e) == RowAt(h, key))
  }

  lemma OneRemembered(h: History, u: History, key: Text)
    requires HistoryInv(h) && HistoryInv(u)
             && (forall c :: c in h.records ==> c in u.records && u.records[c] == h.records[c])
    ensures Remembered(h, u, Entry(key, Current(h, key)), key)
  {
    WhichRecords(h, key, Current(h, key));
    WhichRecords(u, key, Current(h, key));
    assert Newest(h, key);
  }

  lemma WhenRestorable(h: History, inputs: seq<(Text, Bytes)>, bulk: Text, u: History)
    requires bulk in u.bulks && |u.bulks[bulk]| == |inputs|
    requires forall i :: 0 <= i < |inputs| ==> Remembered(h, u, u.bulks[bulk][i], inputs[i].0)
    ensures Succeeds(u, DoRestoreBulk(bulk)) <==> forall i :: 0 <= i < |inputs| ==> Current(h, inputs[i].0) >= 1
  {
    forall i | 0 <= i < |inputs|
      ensures RecordAt(u, u.bulks[bulk][i].key, u.bulks[bulk][i].version).Some? <==> Current(h, inputs[i].0) >= 1
    {
      assert Remembered(h, u, u.bulks[bulk][i], inputs[i].0);
    }
  }

  lemma RestoreReturns(h: History, inputs: seq<(Text, Bytes)>, bulk: Text, u: History)
    requires HistoryInv(u) && Succeeds(u, DoRestoreBulk(bulk)) && |u.bulks[bulk]| == |inputs| && DistinctInputs(inputs)
    requires forall i :: 0 <= i < |inputs| ==> Remembered(h, u, u.bulks[bulk][i], inputs[i].0)
    ensures forall i :: 0 <= i < |inputs| ==> RowAt(RestoreBulkOp(u, bulk), inputs[i].0) == RowAt(h, inputs[i].0)
  {
    var entries := u.bulks[bulk];
    BulkIsSteps(u, bulk);
    assert Distinct(entries) by {
      forall i, j | 0 <= i < j < |entries| ensures entries[i].key != entries[j].key {
        assert Remembered(h, u, entries[i], inputs[i].0) && Remembered(h, u, entries[j], inputs[j].0);
      }
    }
    assert forall i :: 0 <= i < |entries| ==> IsLast(entries, i);
    forall i | 0 <= i < |inputs| ensures RowAt(RestoreBulkOp(u, bulk), inputs[i].0) == RowAt(h, inputs[i].0) {
      assert Remembered(h, u, entries[i], inputs[i].0) && RecordAt(u, entries[i].key, entries[i].version).Some?;
      StepsRestore(u, entries, bulk, i);
    }
  }

  /**
   After a bulk update of distinct ids, and whatever succeeded since, the bulk can be restored exactly if
   every id had history before it; and that returns each row to what it was before the bulk.
   */
  lemma BulkIsUndone(h: History, inputs: seq<(Text, Bytes)>, bulk: Text, run: seq<Call>)
    requires HistoryInv(h) && inputs != [] && bulk !in h.bulks && DistinctInputs(inputs)
    requires AllSucceed(UpdateBulkOp(h, inputs, bulk), run)
    ensures var u := After(UpdateBulkOp(h, inputs, bulk), run);
            && (Succeeds(u, DoRestoreBulk(bulk)) <==> forall i :: 0 <= i < |inputs| ==> Current(h, inputs[i].0) >= 1)
            && (Succeeds(u, DoRestoreBulk(bulk)) ==>
                  forall i :: 0 <= i < |inputs| ==> RowAt(RestoreBulkOp(u, bulk), inputs[i].0) == RowAt(h, inputs[i].0))
  {
    var t := UpdateBulkOp(h, inputs, bulk);
    var u := After(t, run);
    UpdateBulkKeeps(h, inputs, bulk);
    RunKeeps(t, run);
    BulkRemembered(h, inputs, bulk, u);
    WhenRestorable(h, inputs, bulk, u);
    if Succeeds(u, DoRestoreBulk(bulk)) {
      RestoreReturns(h, inputs, bulk, u);
    }
  }

  // ---- a bulk restore that fails ----

  /** What a bulk restore leaves that wrote the records for `entries` and put the first `put` rows. */
  function Partial(h: History, entries: seq<Entry>, bulk: Text, put: nat): History
    requires put <= |entries|
  {
    BulkRows(BulkRecords(h, entries, bulk), h, entries[..put])
  }

  /**
   Every row ends as the last entry about it says. What counts is the last entry about it among those put
   or, for a row not put, what the row was.
   */
  ghost predicate Settles(h: History, entries: seq<Entry>, put: nat)
    requires put <= |entries|
  {
    forall i: nat :: put <= i && IsLast(entries, i) ==> SettlesAt(h, entries, put, i)
  }

  ghost predicate SettlesAt(h: History, entries: seq<Entry>, put: nat, i: nat)
    requires put <= i < |entries|
  {
    && (!Mentions(entries[..put], entries[i].key) ==> RowAt(h, entries[i].key) == Old(h, entries[i]))
    && (forall j: nat :: IsLast(entries[..put], j) && entries[j].key == entries[i].key ==>
          Old(h, entries[j]) == Old(h, entries[i]))
  }

  lemma PartialRows(h: History, entries: seq<Entry>, bulk: Text, put: nat)
    requires HistoryInv(h) && Restorable(h, entries) && put <= |entries|
    ensures SameHistory(Partial(h, entries, bulk, put), BulkSteps(h, entries, bulk))
    ensures Partial(h, entries, bulk, put).rows == BulkSteps(h, entries[..put], bulk).rows
  {
    RecordsOfSteps(h, entries, bulk);
    RowsOfSteps(BulkRecords(h, entries, bulk), h, entries[..put], bulk);
  }

  /** A row after the first `put`: what the last of these entries about it says, or what it was. */
  lemma PartialRow(h: History, entries: seq<Entry>, bulk: Text, put: nat, key: Text)
    requires HistoryInv(h) && Restorable(h, entries) && put <= |entries|
    ensures !Mentions(entries[..put], key) ==> RowAt(Partial(h, entries, bulk, put), key) == RowAt(h, key)
    ensures forall j: nat :: IsLast(entries[..put], j) && entries[j].key == key ==>
              RowAt(Partial(h, entries, bulk, put), key) == Old(h, entries[j])
  {
    PartialRows(h, entries, bulk, put);
    if !Mentions(entries[..put], key) {
      StepsSpare(h, entries[..put], bulk, key);
    }
    forall j: nat | IsLast(entries[..put], j) && entries[j].key == key
      ensures RowAt(Partial(h, entries, bulk, put), key) == Old(h, entries[j])
    {
      StepsRestore(h, entries[..put], bulk, j);
    }
  }

  /** The row agrees with its newest record exactly if it is what the whole restore would make it. */
  lemma NewestAfterFailure(h: History, entries: seq<Entry>, bulk: Text, put: nat, key: Text)
    requires HistoryInv(h) && Restorable(h, entries) && put <= |entries|
    ensures var t := Partial(h, entries, bulk, put);
            Newest(t, key) <==> RowAt(BulkSteps(h, entries, bulk), key) == RowAt(t, key)
  {
    PartialRows(h, entries, bulk, put);
    StepsKeep(h, entries, bulk);
    assert Newest(BulkSteps(h, entries, bulk), key);
  }

  /** A row no entry mentions agrees with its newest record. */
  lemma UnmentionedIsNewest(h: History, entries: seq<Entry>, bulk: Text, put: nat, key: Text)
    requires HistoryInv(h) && Restorable(h, entries) && put <= |entries| && !Mentions(entries, key)
    ensures Newest(Partial(h, entries, bulk, put), key)
  {
    assert !Mentions(entries[..put], key) by {
      assert forall i :: 0 <= i < put ==> entries[..put][i] == entries[i];
    }
    StepsSpare(h, entries, bulk, key);
    PartialRow(h, entries, bulk, put, key);
    NewestAfterFailure(h, entries, bulk, put, key);
  }

  /** A row whose last entry is number `i` agrees with its newest record exactly if it is what that entry says. */
  lemma MentionedIsNewest(h: History, entries: seq<Entry>, bulk: Text, put: nat, i: nat)
    requires HistoryInv(h) && Restorable(h, entries) && put <= |entries| && IsLast(entries, i)
    ensures var t := Partial(h, entries, bulk, put);
            Newest(t, entries[i].key) <==> RowAt(t, entries[i].key) == Old(h, entries[i])
  {
    StepsRestore(h, entries, bulk, i);
    NewestAfterFailure(h, entries, bulk, put, entries[i].key);
  }

  /** Which in turn can be told before the restore. */
  lemma SettlesIsRestored(h: History, entries: seq<Entry>, bulk: Text, put: nat, i: nat)
    requires HistoryInv(h) && Restorable(h, entries) && put <= |entries| && IsLast(entries, i)
    ensures RowAt(Partial(h, entries, bulk, put), entries[i].key) == Old(h, entries[i]) <==>
            (i < put || SettlesAt(h, entries, put, i))
  {
    var first, key := entries[..put], entries[i].key;
    PartialRow(h, entries, bulk, put, key);
    if i < put {
      assert IsLast(first, i);
    } else if Mentions(first, key) {
      var j := LastMention(first, key);
      assert entries[j] == first[j];
    }
  }

  /**
   A bulk restore that stops, after the records for `entries` and after the first `put` rows, leaves rows
   and newest records in agreement exactly if each row is what the last entry about it goes back to. That
   can be told from the history before.
   */
  lemma FailedBulkMirrors(h: History, entries: seq<Entry>, bulk: Text, put: nat)
    requires HistoryInv(h) && Restorable(h, entries) && put <= |entries|
    ensures var t := Partial(h, entries, bulk, put);
            Mirrored(t) <==> forall i: nat :: IsLast(entries, i) ==> RowAt(t, entries[i].key) == Old(h, entries[i])
    ensures Mirrored(Partial(h, entries, bulk, put)) <==> Settles(h, entries, put)
  {
    var t := Partial(h, entries, bulk, put);
    forall i: nat | IsLast(entries, i)
      ensures Newest(t, entries[i].key) <==> RowAt(t, entries[i].key) == Old(h, entries[i])
      ensures Newest(t, entries[i].key) <==> i < put || SettlesAt(h, entries, put, i)
    {
      MentionedIsNewest(h, entries, bulk, put, i);
      SettlesIsRestored(h, entries, bulk, put, i);
    }
    forall key ensures Newest(t, key) || exists i: nat :: IsLast(entries, i) && entries[i].key == key {
      if Mentions(entries, key) {
        var i := LastMention(entries, key);
      } else {
        UnmentionedIsNewest(h, entries, bulk, put, key);
      }
    }
  }

  /** With distinct ids, only the rows not put matter: each must already be what its entry goes back to. */
  lemma FailedBulkOfDistinct(h: History, entries: seq<Entry>, bulk: Text, put: nat)
    requires HistoryInv(h) && Restorable(h, entries) && put <= |entries| && Distinct(entries)
    ensures Mirrored(Partial(h, entries, bulk, put)) <==>
            forall i :: put <= i < |entries| ==> RowAt(h, entries[i].key) == Old(h, entries[i])
  {
    FailedBulkMirrors(h, entries, bulk, put);
    var first := entries[..put];
    assert forall i: nat :: i < |entries| ==> IsLast(entries, i);
    assert forall j :: 0 <= j < put ==> first[j] == entries[j];
    forall i | put <= i < |entries|
      ensures SettlesAt(h, entries, put, i) <==> RowAt(h, entries[i].key) == Old(h, entries[i])
    {
      assert !Mentions(first, entries[i].key);
    }
  }

  /** A bulk update of a row with history and one without. */
  function ExampleBulk(x: Bytes, y: Bytes, z: Bytes, bulk: Text): History {
    UpdateBulkOp(SetOp(Fresh(), [97], x), [([97], y), ([98], z)], bulk)
  }

  lemma ExampleEntries(x: Bytes, y: Bytes, z: Bytes, bulk: Text)
    ensures var h := ExampleBulk(x, y, z, bulk);
            && HistoryInv(h) && bulk in h.bulks && h.bulks[bulk] == [Entry([97], 1), Entry([98], 0)]
            && RecordAt(h, [97], 1).Some? && Old(h, Entry([97], 1)) == Some(x) && RecordAt(h, [98], 0).None?
  {
    var a: Text, b: Text := [97], [98];
    var s := SetOp(Fresh(), a, x);
    var inputs := [(a, y), (b, z)];
    FreshInv();
    ChangedKeeps(Fresh(), a, Set, Some(x), None, None);
    UpdateBulkKeeps(s, inputs, bulk);
    assert a[0] != b[0];
    EntriesOfDistinct(s, inputs);
    WhichRecords(s, a, 1);
    WhichRecords(ExampleBulk(x, y, z, bulk), b, 0);
  }

  lemma ExampleRow(x: Bytes, y: Bytes, z: Bytes, bulk: Text)
    ensures RowAt(ExampleBulk(x, y, z, bulk), [97]) == Some(y)
  {
    var a: Text, b: Text := [97], [98];
    assert a[0] != b[0];
    var inputs := [(a, y), (b, z)];
    assert inputs[..1] == [(a, y)];
  }

  /** That bulk cannot be restored, and the attempt leaves the first row apart from its newest record. */
  lemma FailedBulkExample(x: Bytes, y: Bytes, z: Bytes, bulk: Text)
    requires x != y
    ensures var h, entries := ExampleBulk(x, y, z, bulk), [Entry([97], 1)];
            && HistoryInv(h) && bulk in h.bulks && h.bulks[bulk] == entries + [Entry([98], 0)]
            && !Succeeds(h, DoRestoreBulk(bulk))
            && Restorable(h, entries) && !Mirrored(Partial(h, entries, bulk, 0))
  {
    var h, entries := ExampleBulk(x, y, z, bulk), [Entry([97], 1)];
    ExampleEntries(x, y, z, bulk);
    ExampleRow(x, y, z, bulk);
    FailedBulkOfDistinct(h, entries, bulk, 0);
    assert RecordAt(h, h.bulks[bulk][1].key, h.bulks[bulk][1].version).None?;
  }

  // ---- the history of a key ----

  predicate StartsWith(c: Text, prefix: Text) {
    |prefix| <= |c| && c[..|prefix|] == prefix
  }

  /** `found` lists the records whose key starts with the row's key and a colon, by version. */
  ghost predicate Lists(records: map<Text, Record>, key: Text, found: seq<Text>) {
    && (forall i, j :: 0 <= i < j < |found| ==> found[i] != found[j])
    && (forall c :: c in found <==> c in records && StartsWith(c, key + [COLON]))
    && (forall i, j :: 0 <= i < j < |found| ==> records[found[i]].version <= records[found[j]].version)
  }

  function Shown(records: map<Text, Record>, found: seq<Text>): seq<Record>
    requires forall c :: c in found ==> c in records
  {
    seq(|found|, i requires 0 <= i < |found| => records[found[i]])
  }

  /** The key's own records, from the first version to the current one. */
  function Versions(h: History, key: Text): seq<Record>
    requires forall v :: 1 <= v <= Current(h, key) ==> Composite(key, v) in h.records
  {
    seq(Current(h, key), i requires 0 <= i < Current(h, key) => h.records[Composite(key, i + 1)])
  }

  /** A record's key starts with `key:` exactly if it is the key's own, or its row's key starts with `key:`. */
  lemma WhoStarts(key: Text, k: Text, v: nat)
    ensures StartsWith(Composite(k, v), key + [COLON]) <==> k == key || StartsWith(k, key + [COLON])
  {
    var c, p := Composite(k, v), key + [COLON];
    if StartsWith(c, p) {
      assert c[|key|] == p[|key|] == COLON;
      NoColonAfter(k, v);
      assert |key| <= |k|;
      if |key| == |k| {
        assert c[..|key|] == k && p[..|key|] == key && c[..|p|][..|key|] == c[..|key|];
      } else {
        assert c[..|p|] == k[..|p|];
      }
    }
    if k == key {
      assert c[..|p|] == p;
    } else if StartsWith(k, p) {
      assert c[..|p|] == k[..|p|];
    }
  }

  /** Another row's key starts with `key:`, and that row has history. */
  ghost predicate Mixed(h: History, key: Text) {
    exists k :: k != key && Current(h, k) >= 1 && StartsWith(k, key + [COLON])
  }

  lemma Own(h: History, key: Text, found: seq<Text>, i: nat)
    requires Numbered(h) && Lists(h.records, key, found) && !Mixed(h, key) && i < |found|
    ensures var v := h.records[found[i]].version; found[i] == Composite(key, v) && 1 <= v <= Current(h, key)
  {
    assert found[i] in h.records;
    var k, v :| IsRecordOf(h, found[i], k, v);
    WhoStarts(key, k, v);
    WhichRecords(h, k, v);
  }

  lemma Listed(h: History, key: Text, found: seq<Text>, v: nat) returns (i: nat)
    requires Numbered(h) && Lists(h.records, key, found) && 1 <= v <= Current(h, key)
    ensures i < |found| && found[i] == Composite(key, v) && h.records[found[i]].version == v
  {
    WhichRecords(h, key, v);
    WhoStarts(key, key, v);
    i :| 0 <= i < |found| && found[i] == Composite(key, v);
  }

  /** By version, without repeats: the i-th listed is version i + 1. */
  lemma {:induction false} InOrder(h: History, key: Text, found: seq<Text>, i: nat)
    requires Numbered(h) && Lists(h.records, key, found) && !Mixed(h, key) && i < |found|
    ensures h.records[found[i]].version == i + 1
    decreases i
  {
    Own(h, key, found, i);
    var v := h.records[found[i]].version;
    if i > 0 {
      InOrder(h, key, found, i - 1);
      Own(h, key, found, i - 1);
      assert found[i - 1] != found[i];
    }
    if v > i + 1 {
      var j := Listed(h, key, found, i + 1);
      if j < i {
        InOrder(h, key, found, j);
      }
    }
  }

  lemma Place(h: History, key: Text, found: seq<Text>, i: nat)
    requires Numbered(h) && Lists(h.records, key, found) && !Mixed(h, key) && i < |found|
    ensures found[i] == Composite(key, i + 1) && i + 1 <= Current(h, key)
  {
    InOrder(h, key, found, i);
    Own(h, key, found, i);
  }

  lemma AllListed(h: History, key: Text, found: seq<Text>)
    requires Numbered(h) && Lists(h.records, key, found) && !Mixed(h, key)
    ensures |found| == Current(h, key)
    ensures forall i :: 0 <= i < |found| ==> found[i] == Composite(key, i + 1)
  {
    forall i | 0 <= i < |found| ensures found[i] == Composite(key, i + 1) && i + 1 <= Current(h, key) {
      Place(h, key, found, i);
    }
    if |found| > 0 {
      Place(h, key, found, |found| - 1);
    }
    if |found| < Current(h, key) {
      var j := Listed(h, key, found, Current(h, key));
      CompositeInjective(key, j + 1, key, Current(h, key));
    }
  }

  lemma MixedShows(h: History, key: Text, found: seq<Text>) returns (i: nat)
    requires Numbered(h) && Lists(h.records, key, found) && Mixed(h, key)
    ensures i < |found| && h.records[found[i]].key != key
  {
    var k :| k != key && Current(h, k) >= 1 && StartsWith(k, key + [COLON]);
    WhoStarts(key, k, 1);
    WhichRecords(h, k, 1);
    i :| 0 <= i < |found| && found[i] == Composite(k, 1);
  }

  /** The history of a key is its own records exactly if no row with history has a key starting with `key:`. */
  lemma HistoryIsOwn(h: History, key: Text, found: seq<Text>)
    requires Numbered(h) && Lists(h.records, key, found)
    ensures Shown(h.records, found) == Versions(h, key) <==> !Mixed(h, key)
  {
    if Mixed(h, key) {
      MixedIsNotOwn(h, key, found);
    } else {
      OwnIsShown(h, key, found);
    }
  }

  lemma OwnIsShown(h: History, key: Text, found: seq<Text>)
    requires Numbered(h) && Lists(h.records, key, found) && !Mixed(h, key)
    ensures Shown(h.records, found) == Versions(h, key)
  {
    AllListed(h, key, found);
  }

  lemma MixedIsNotOwn(h: History, key: Text, found: seq<Text>)
    requires Numbered(h) && Lists(h.records, key, found) && Mixed(h, key)
    ensures Shown(h.records, found) != Versions(h, key)
  {
    var i := MixedShows(h, key, found);
    assert Shown(h.records, found)[i].key != key;
    assert forall j :: 0 <= j < |Versions(h, key)| ==> Versions(h, key)[j].key == key;
  }

  /** A key without a colon can still be mixed up with one that has it. */
  lemma MixedExample(x: Bytes)
    ensures var key: Text, other: Text := [97], [97, COLON, 98];
            var h := SetOp(Fresh(), other, x);
            && HistoryInv(h) && Mixed(h, key) && Current(h, key) == 0
            && forall found :: Lists(h.records, key, found) ==> Shown(h.records, found) != Versions(h, key)
  {
    var key: Text, other: Text := [97], [97, COLON, 98];
    var h := SetOp(Fresh(), other, x);
    FreshInv();
    ChangedKeeps(Fresh(), other, Set, Some(x), None, None);
    assert key + [COLON] == [97, COLON] && other[..2] == [97, COLON];
    assert Current(h, other) == 1 && StartsWith(other, key + [COLON]);
    forall found | Lists(h.records, key, found) ensures Shown(h.records, found) != Versions(h, key) {
      MixedIsNotOwn(h, key, found);
    }
  }

  // ---- the store ----

  predicate Encodable(op: Operation, data: Option<Bytes>) {
    (op.Set? ==> data.Some?) && (op.Delete? ==> data.None?)
  }

  // ---- version numbers run out ----

  function Times(keys: seq<Text>, key: Text): nat {
    if keys == [] then 0
    else Times(keys[..|keys| - 1], key) + if keys[|keys| - 1] == key then 1 else 0
  }

  function EntryKeys(entries: seq<Entry>): seq<Text> {
    seq(|entries|, i requires 0 <= i < |entries| => entries[i].key)
  }

  function InputKeys(inputs: seq<(Text, Bytes)>): seq<Text> {
    seq(|inputs|, i requires 0 <= i < |inputs| => inputs[i].0)
  }

  /** There is a version number for one more record of each of `keys`, repeats counted. */
  ghost predicate Countable(h: History, keys: seq<Text>) {
    forall key :: key in keys ==> Current(h, key) + Times(keys, key) < U64
  }

  lemma CountableNext(h: History, keys: seq<Text>, i: nat)
    requires i < |keys|
    ensures Countable(h, keys[..i + 1]) <==>
            Countable(h, keys[..i]) && Current(h, keys[i]) + Times(keys[..i], keys[i]) + 1 < U64
  {
    var a, b := keys[..i], keys[..i + 1];
    assert b[..i] == a && b[i] == keys[i];
    assert forall key :: key in b <==> key in a || key == keys[i];
    if Countable(h, a) && Current(h, keys[i]) + Times(a, keys[i]) + 1 < U64 {
      forall key | key in b ensures Current(h, key) + Times(b, key) < U64 {
      }
    }
    if Countable(h, b) {
      forall key | key in a ensures Current(h, key) + Times(a, key) < U64 {
        assert key in b;
      }
    }
  }

  lemma {:induction false} CountablePrefix(h: History, keys: seq<Text>, n: nat)
    requires n <= |keys| && Countable(h, keys)
    ensures Countable(h, keys[..n])
    decreases |keys| - n
  {
    if n < |keys| {
      CountablePrefix(h, keys, n + 1);
      CountableNext(h, keys, n);
    } else {
      assert keys[..n] == keys;
    }
  }

  /** A bulk restore gives each key one version for each of its entries. */
  lemma {:induction false} RecordsCount(h: History, entries: seq<Entry>, bulk: Text, key: Text)
    ensures Current(BulkRecords(h, entries, bulk), key) == Current(h, key) + Times(EntryKeys(entries), key)
  {
    if entries != [] {
      var before := entries[..|entries| - 1];
      RecordsCount(h, before, bulk, key);
      assert EntryKeys(entries)[..|before|] == EntryKeys(before);
    }
  }

  lemma {:induction false} UpdatesCount(h: History, inputs: seq<(Text, Bytes)>, key: Text)
    ensures Current(UpdateRows(h, inputs), key) == Current(h, key) + Times(InputKeys(inputs), key)
  {
    if inputs != [] {
      var before := inputs[..|inputs| - 1];
      UpdatesCount(h, before, key);
      assert InputKeys(inputs)[..|before|] == InputKeys(before);
    }
  }

  /** The next record of a bulk restore has a number exactly if its entries so far are countable. */
  lemma RecordCounts(h: History, entries: seq<Entry>, bulk: Text, i: nat)
    requires i < |entries| && Countable(h, EntryKeys(entries[..i]))
    ensures Current(BulkRecords(h, entries[..i], bulk), entries[i].key) + 1 < U64 <==>
            Countable(h, EntryKeys(entries[..i + 1]))
  {
    RecordsCount(h, entries[..i], bulk, entries[i].key);
    var keys := EntryKeys(entries[..i + 1]);
    assert keys[..i] == EntryKeys(entries[..i]) && keys[..i + 1] == keys;
    CountableNext(h, keys, i);
  }

  lemma UpdateCounts(h: History, inputs: seq<(Text, Bytes)>, i: nat)
    requires i < |inputs| && Countable(h, InputKeys(inputs[..i]))
    ensures Current(UpdateRows(h, inputs[..i]), inputs[i].0) + 1 < U64 <==> Countable(h, InputKeys(inputs[..i + 1]))
  {
    UpdatesCount(h, inputs[..i], inputs[i].0);
    var keys := InputKeys(inputs[..i + 1]);
    assert keys[..i] == InputKeys(inputs[..i]) && keys[..i + 1] == keys;
    CountableNext(h, keys, i);
  }

  lemma {:induction false} UpdateWhole(h: History, inputs: seq<(Text, Bytes)>)
    requires Whole(h)
    ensures Whole(UpdateRows(h, inputs)) && UpdateRows(h, inputs).bulks == h.bulks
  {
    if inputs != [] {
      var before := UpdateRows(h, inputs[..|inputs| - 1]);
      var (key, value) := inputs[|inputs| - 1];
      UpdateWhole(h, inputs[..|inputs| - 1]);
      RowWhole(before, key, Some(value));
      RecordedWhole(WithRow(before, key, Some(value)), key, Set, Some(value), None, None);
    }
  }

  lemma UpdateBulkWhole(h: History, inputs: seq<(Text, Bytes)>, bulk: Text)
    requires Whole(h) && bulk !in h.bulks
    ensures Whole(UpdateBulkOp(h, inputs, bulk))
  {
    UpdateWhole(h, inputs);
    UpdateKnown(h, inputs);
    SameNumbers(UpdateRows(h, inputs), UpdateBulkOp(h, inputs, bulk));
  }

  /** A bulk update stopped at input `n`: its row is refused, or set and then not recorded. */
  function StoppedAt(h: History, inputs: seq<(Text, Bytes)>, accepted: seq<bool>, n: nat): History
    requires n < |inputs| == |accepted|
  {
    var t := UpdateRows(h, inputs[..n]);
    if accepted[n] then WithRow(t, inputs[n].0, Some(inputs[n].1)) else t
  }

  ghost predicate AllTrue(accepted: seq<bool>, n: nat)
    requires n <= |accepted|
  {
    forall i :: 0 <= i < n ==> accepted[i]
  }

  /** The first `n` rows of a bulk update are set, and their versions noted. */
  ghost predicate Updating(h: History, inputs: seq<(Text, Bytes)>, accepted: seq<bool>, n: nat, now: History,
                           entries: seq<Entry>)
    requires n <= |inputs| == |accepted|
  {
    && now == UpdateRows(h, inputs[..n]) && entries == UpdateEntries(h, inputs[..n])
    && AllTrue(accepted, n) && Countable(h, InputKeys(inputs[..n]))
  }

  /** The first `n` rows are set, and the next was refused or got no version number. */
  ghost predicate Halted(h: History, inputs: seq<(Text, Bytes)>, accepted: seq<bool>, n: nat, now: History)
    requires n < |inputs| == |accepted|
  {
    && now == StoppedAt(h, inputs, accepted, n) && AllTrue(accepted, n)
    && !(accepted[n] && Countable(h, InputKeys(inputs[..n + 1])))
  }

  lemma UpdatingNext(h: History, inputs: seq<(Text, Bytes)>, accepted: seq<bool>, n: nat, now: History,
                     entries: seq<Entry>)
    requires n < |inputs| == |accepted| && Updating(h, inputs, accepted, n, now, entries)
    ensures var (key, value) := inputs[n];
            && (Current(now, key) + 1 < U64 <==> Countable(h, InputKeys(inputs[..n + 1])))
            && (accepted[n] && Current(now, key) + 1 < U64 ==>
                  var more := entries + [Entry(key, Current(now, key))];
                  Updating(h, inputs, accepted, n + 1, SetOp(now, key, value), more))
            && StoppedAt(h, inputs, accepted, n) == if accepted[n] then WithRow(now, key, Some(value)) else now
  {
    UpdateNext(h, inputs, n);
    UpdateCounts(h, inputs, n);
  }

  lemma UpdateNext(h: History, inputs: seq<(Text, Bytes)>, i: nat)
    requires i < |inputs|
    ensures UpdateRows(h, inputs[..i + 1]) == SetOp(UpdateRows(h, inputs[..i]), inputs[i].0, inputs[i].1)
    ensures var version := Current(UpdateRows(h, inputs[..i]), inputs[i].0);
            UpdateEntries(h, inputs[..i + 1]) == UpdateEntries(h, inputs[..i]) + [Entry(inputs[i].0, version)]
  {
    assert inputs[..i + 1][..i] == inputs[..i];
  }

  lemma ResultsNext(h: History, entries: seq<Entry>, i: nat)
    requires i < |entries|
    ensures Results(h, entries[..i + 1]) == Results(h, entries[..i]) + [(entries[i].key, Old(h, entries[i]))]
  {
  }

  lemma BulkNext(h: History, entries: seq<Entry>, i: nat, bulk: Text)
    requires i < |entries|
    ensures var t, e := BulkRecords(h, entries[..i], bulk), entries[i];
            BulkRecords(h, entries[..i + 1], bulk) ==
              Recorded(t, e.key, RestoreBulk, Old(t, e), Some(e.version), Some(bulk))
  {
    assert entries[..i + 1][..i] == entries[..i];
  }

  lemma RestorableNext(h: History, entries: seq<Entry>, i: nat)
    requires i < |entries| && Restorable(h, entries[..i]) && RecordAt(h, entries[i].key, entries[i].version).Some?
    ensures Restorable(h, entries[..i + 1])
  {
  }

  /** The records of the first `i` entries of a bulk restore are written. */
  ghost predicate Midway(h: History, entries: seq<Entry>, bulk: Text, i: nat, now: History,
                         results: seq<(Text, Option<Bytes>)>)
  {
    && i <= |entries|
    && now == BulkRecords(h, entries[..i], bulk) && results == Results(h, entries[..i])
    && Restorable(h, entries[..i]) && Countable(h, EntryKeys(entries[..i]))
  }

  lemma MidwayStart(h: History, entries: seq<Entry>, bulk: Text)
    ensures Midway(h, entries, bulk, 0, h, [])
  {
  }

  lemma MidwayFinds(h: History, entries: seq<Entry>, bulk: Text, i: nat, now: History,
                    results: seq<(Text, Option<Bytes>)>)
    requires Numbered(h) && i < |entries| && entries[i].version <= Current(h, entries[i].key)
    requires Midway(h, entries, bulk, i, now, results)
    ensures Numbered(now)
    ensures Current(now, entries[i].key) + 1 < U64 <==> Countable(h, EntryKeys(entries[..i + 1]))
    ensures RecordAt(now, entries[i].key, entries[i].version) == RecordAt(h, entries[i].key, entries[i].version)
    ensures Old(now, entries[i]) == Old(h, entries[i])
  {
    RecordsNumbered(h, entries[..i], bulk);
    SameLookup(h, entries[..i], bulk, entries[i]);
    RecordCounts(h, entries, bulk, i);
  }

  lemma MidwayNext(h: History, entries: seq<Entry>, bulk: Text, i: nat, now: History,
                   results: seq<(Text, Option<Bytes>)>, data: Option<Bytes>)
    requires i < |entries| && Midway(h, entries, bulk, i, now, results)
    requires data == Old(now, entries[i]) == Old(h, entries[i]) && RecordAt(h, entries[i].key, entries[i].version).Some?
    requires Countable(h, EntryKeys(entries[..i + 1]))
    ensures var next := Recorded(now, entries[i].key, RestoreBulk, data, Some(entries[i].version), Some(bulk));
            Midway(h, entries, bulk, i + 1, next, results + [(entries[i].key, data)])
  {
    BulkNext(h, entries, i, bulk);
    ResultsNext(h, entries, i);
    RestorableNext(h, entries, i);
  }

  class HistoryStore {
    var records: map<Text, Record>
    var versions: map<Text, nat>
    var bulks: map<Text, seq<Entry>>
    var rows: map<Text, Bytes>

    function View(): History
      reads this
    {
      History(records, versions, bulks, rows)
    }

    constructor ()
      ensures View() == Fresh()
    {
      records, versions, bulks, rows := map[], map[], map[], map[];
    }

    /** Number and keep a record, in one transaction; the number is never taken. */
    method Write(key: Text, op: Operation, data: Option<Bytes>, restored: Option<nat>, bulk: Option<Text>)
      returns (ok: bool)
      requires Numbered(View())
      modifies this`records, this`versions
      ensures ok <==> Current(old(View()), key) + 1 < U64 && Encodable(op, data)
      ensures View() == if ok then Recorded(old(View()), key, op, data, restored, bulk) else old(View())
    {
      WhichRecords(View(), key, Current(View(), key) + 1);
      var n := (if key in versions then versions[key] else 0) + 1;
      if n >= U64 || (op.Set? && data.None?) || (op.Delete? && data.Some?) {
        return false;
      }
      assert Composite(key, n) !in records;
      Keep(key, n, Record(n, op, key, data, restored, bulk));
      ok := true;
    }

    method Keep(key: Text, n: nat, r: Record)
      modifies this`records, this`versions
      ensures View() == WithRecord(old(View()), key, n, r)
    {
      versions := versions[key := n];
      records := records[Composite(key, n) := r];
    }

    /** Set a row, if its table takes it, and record it. */
    method SetRow(key: Text, value: Bytes, accepted: bool) returns (ok: bool)
      requires Whole(View())
      modifies this`rows, this`records, this`versions
      ensures Whole(View()) && (ok <==> accepted && Current(old(View()), key) + 1 < U64)
      ensures View() == if ok then SetOp(old(View()), key, value)
              else if accepted then WithRow(old(View()), key, Some(value)) else old(View())
    {
      if !accepted {
        return false;
      }
      ghost var w := WithRow(View(), key, Some(value));
      RowWhole(View(), key, Some(value));
      RecordedWhole(w, key, Set, Some(value), None, None);
      rows := rows[key := value];
      ok := Write(key, Set, Some(value), None, None);
    }

    /** Delete a row; only a row that was there leaves a record. */
    method DeleteRow(key: Text, accepted: bool) returns (ok: bool, found: bool)
      requires Whole(View())
      modifies this`rows, this`records, this`versions
      ensures Whole(View()) && (ok <==> accepted && (key in old(rows) ==> Current(old(View()), key) + 1 < U64))
      ensures ok ==> found == (key in old(rows))
      ensures View() == if ok then DeleteOp(old(View()), key)
              else if accepted then WithRow(old(View()), key, None) else old(View())
    {
      if !accepted {
        return false, false;
      }
      found := key in rows;
      ghost var w := WithRow(View(), key, None);
      RowWhole(View(), key, None);
      RecordedWhole(w, key, Delete, None, None, None);
      assert !found ==> rows - {key} == rows;
      rows := rows - {key};
      ok := true;
      if found {
        ok := Write(key, Delete, None, None, None);
      }
    }

    /** Put a row back to what one of its records says. */
    method RestoreByVersion(key: Text, version: nat, accepted: bool) returns (ok: bool)
      requires Whole(View())
      modifies this`rows, this`records, this`versions
      ensures Whole(View())
      ensures ok <==> accepted && Succeeds(old(View()), DoRestore(key, version)) && Current(old(View()), key) + 1 < U64
      ensures View() == if ok then RestoreOp(old(View()), key, version)
              else if accepted && RecordAt(old(View()), key, version).Some?
              then WithRow(old(View()), key, Old(old(View()), Entry(key, version))) else old(View())
    {
      var c := Composite(key, version);
      if c !in records {
        return false;
      }
      var r := records[c];
      if !accepted {
        return false;
      }
      var data := if r.operation.Delete? then None else r.data;
      var bulk := if r.operation.Delete? then None else r.bulk;
      ghost var w := WithRow(View(), key, data);
      RowWhole(View(), key, data);
      RecordedWhole(w, key, Restore, data, Some(version), bulk);
      rows := if data.Some? then rows[key := data.value] else rows - {key};
      ok := Write(key, Restore, data, Some(version), bulk);
    }

    function CurrentVersion(key: Text): (n: nat)
      reads this
      ensures n == Current(View(), key)
    {
      if key in versions then versions[key] else 0
    }

    /** Set one row of a bulk update, after noting its version. */
    method UpdateOne(inputs: seq<(Text, Bytes)>, accepted: seq<bool>, n: nat, entries: seq<Entry>, ghost h: History)
      returns (ok: bool, e: Entry)
      requires Whole(View()) && n < |inputs| == |accepted| && Updating(h, inputs, accepted, n, View(), entries)
      modifies this`rows, this`records, this`versions
      ensures Whole(View())
      ensures ok ==> Updating(h, inputs, accepted, n + 1, View(), entries + [e])
      ensures !ok ==> Halted(h, inputs, accepted, n, View())
    {
      UpdatingNext(h, inputs, accepted, n, View(), entries);
      e := Entry(inputs[n].0, CurrentVersion(inputs[n].0));
      ok := SetRow(inputs[n].0, inputs[n].1, accepted[n]);
    }

    /** Set rows one by one, noting the version each had, up to the first that fails. */
    method UpdateAll(inputs: seq<(Text, Bytes)>, accepted: seq<bool>) returns (entries: seq<Entry>, n: nat)
      requires Whole(View()) && |accepted| == |inputs|
      modifies this`rows, this`records, this`versions
      ensures Whole(View()) && n <= |inputs|
      ensures n == |inputs| ==> Updating(old(View()), inputs, accepted, n, View(), entries)
      ensures n < |inputs| ==> Halted(old(View()), inputs, accepted, n, View())
    {
      entries := [];
      n := 0;
      ghost var h := View();
      while n < |inputs|
        invariant n <= |inputs| && Whole(View()) && Updating(h, inputs, accepted, n, View(), entries)
      {
        var ok, e := UpdateOne(inputs, accepted, n, entries, h);
        if !ok {
          return;
        }
        entries := entries + [e];
        n := n + 1;
      }
    }

    /**
     A bulk update keeps the list of versions under a new name. If a row fails, those before it stay set
     and there is no bulk.
     */
    method UpdateBulk(inputs: seq<(Text, Bytes)>, accepted: seq<bool>, bulk: Text) returns (ok: bool, ghost n: nat)
      requires Whole(View()) && bulk !in bulks && |accepted| == |inputs|
      modifies this
      ensures Whole(View()) && n <= |inputs|
      ensures ok <==> inputs != [] && AllTrue(accepted, |inputs|) && Countable(old(View()), InputKeys(inputs))
      ensures ok ==> View() == UpdateBulkOp(old(View()), inputs, bulk)
      ensures !ok ==> View() == if n == |inputs| then old(View()) else StoppedAt(old(View()), inputs, accepted, n)
    {
      ghost var h := View();
      UpdateBulkWhole(h, inputs, bulk);
      var entries, done := UpdateAll(inputs, accepted);
      n := done;
      if done < |inputs| {
        WhenHalted(h, inputs, accepted, n);
        return false, n;
      }
      assert inputs[..n] == inputs;
      if entries == [] {
        return false, n;
      }
      bulks := bulks[bulk := entries];
      ok := true;
    }

    /** One record of a bulk restore. */
    method RecordEntry(e: Entry, bulk: Text) returns (data: Option<Option<Bytes>>)
      requires Numbered(View())
      modifies this`records, this`versions
      ensures data.Some? <==>
              RecordAt(old(View()), e.key, e.version).Some? && Current(old(View()), e.key) + 1 < U64
      ensures data.Some? ==> data.value == Old(old(View()), e)
      ensures View() ==
              if data.Some? then Recorded(old(View()), e.key, RestoreBulk, data.value, Some(e.version), Some(bulk))
              else old(View())
    {
      var c := Composite(e.key, e.version);
      if c !in records {
        return None;
      }
      var was := if records[c].operation.Delete? then None else records[c].data;
      var ok := Write(e.key, RestoreBulk, was, Some(e.version), Some(bulk));
      data := if ok then Some(was) else None;
    }

    method RecordStep(entries: seq<Entry>, bulk: Text, i: nat, results: seq<(Text, Option<Bytes>)>, ghost h: History)
      returns (data: Option<Option<Bytes>>)
      requires Numbered(h) && i < |entries| && EntriesKnown(h, entries)
      requires Midway(h, entries, bulk, i, View(), results)
      modifies this`records, this`versions
      ensures data.Some? ==> Midway(h, entries, bulk, i + 1, View(), results + [(entries[i].key, data.value)])
      ensures data.None? ==> View() == old(View())
      ensures data.None? ==> !Restorable(h, entries[..i + 1]) || !Countable(h, EntryKeys(entries[..i + 1]))
    {
      ghost var now := View();
      MidwayFinds(h, entries, bulk, i, now, results);
      data := RecordEntry(entries[i], bulk);
      if data.Some? {
        MidwayNext(h, entries, bulk, i, now, results, data.value);
      } else {
        assert entries[..i + 1][i] == entries[i];
      }
    }

    /** Write the records of a bulk restore, up to the first whose version has none, or that gets no number. */
    method RecordBulk(bulk: Text) returns (ok: bool, results: seq<(Text, Option<Bytes>)>, ghost done: nat)
      requires Whole(View()) && bulk in bulks
      modifies this`records, this`versions
      ensures Midway(old(View()), bulks[bulk], bulk, done, View(), results) && (ok <==> done == |bulks[bulk]|)
      ensures !ok ==> !Restorable(old(View()), bulks[bulk][..done + 1])
                      || !Countable(old(View()), EntryKeys(bulks[bulk][..done + 1]))
    {
      ghost var h := View();
      var entries := bulks[bulk];
      results := [];
      var i := 0;
      MidwayStart(h, entries, bulk);
      assert EntriesKnown(h, entries);
      while i < |entries|
        invariant i <= |entries| && Midway(h, entries, bulk, i, View(), results)
        decreases |entries| - i
      {
        var data := RecordStep(entries, bulk, i, results, h);
        if data.None? {
          return false, results, i;
        }
        results := results + [(entries[i].key, data.value)];
        i := i + 1;
      }
      ok, done := true, i;
    }

    /** Put rows to what a bulk restore goes back to, in order, up to the first the table does not take. */
    method PutRows(results: seq<(Text, Option<Bytes>)>, accepted: seq<bool>, ghost h: History,
                   ghost entries: seq<Entry>)
      returns (n: nat)
      requires results == Results(h, entries) && |accepted| == |results|
      modifies this`rows
      ensures n <= |entries| && View() == BulkRows(old(View()), h, entries[..n])
      ensures AllTrue(accepted, n) && (n < |entries| ==> !accepted[n])
    {
      ghost var r := View();
      n := 0;
      while n < |results|
        invariant n <= |results| && View() == BulkRows(r, h, entries[..n]) && AllTrue(accepted, n)
      {
        assert entries[..n + 1][..n] == entries[..n];
        var (key, data) := results[n];
        if !accepted[n] {
          return;
        }
        rows := if data.Some? then rows[key := data.value] else rows - {key};
        n := n + 1;
      }
    }

    /**
     Restore a bulk: first all records, then all rows. If a version has no record, or gets no number, only
     the records before it are written; if the table does not take a row, only the rows before it change.
     */
    method RestoreAll(bulk: Text, accepted: seq<bool>) returns (ok: bool, ghost recorded: nat, ghost put: nat)
      requires Whole(View()) && (bulk in bulks ==> |accepted| == |bulks[bulk]|)
      modifies this`rows, this`records, this`versions
      ensures Whole(View()) && (bulk !in bulks ==> !ok && View() == old(View()))
      ensures bulk in bulks ==>
                (ok <==> Succeeds(old(View()), DoRestoreBulk(bulk)) && Countable(old(View()), EntryKeys(bulks[bulk]))
                         && AllTrue(accepted, |accepted|))
      ensures ok ==> View() == RestoreBulkOp(old(View()), bulk)
      ensures bulk in bulks ==>
                && put <= recorded <= |bulks[bulk]| && (put > 0 ==> recorded == |bulks[bulk]|)
                && Restorable(old(View()), bulks[bulk][..recorded])
                && View() == Partial(old(View()), bulks[bulk][..recorded], bulk, put)
      ensures bulk in bulks && HistoryInv(old(View())) ==>
                (Mirrored(View()) <==> Settles(old(View()), bulks[bulk][..recorded], put))
    {
      recorded, put := 0, 0;
      if bulk !in bulks {
        return false, recorded, put;
      }
      ghost var h, entries := View(), bulks[bulk];
      var results;
      ok, results, recorded := RecordBulk(bulk);
      PartialWhole(h, entries[..recorded], bulk, 0);
      WhenRecorded(h, entries, recorded);
      if ok {
        assert entries[..recorded] == entries;
        var n := PutRows(results, accepted, h, entries);
        put := n;
        ok := n == |results|;
        assert entries[..recorded][..put] == entries[..put];
        assert n == |entries| ==> entries[..n] == entries;
        PartialWhole(h, entries, bulk, put);
      }
      if HistoryInv(h) {
        FailedBulkMirrors(h, entries[..recorded], bulk, put);
      }
    }

    /** What the row was at a version; nothing for a delete, or a version there is none of. */
    method ViewByVersion(key: Text, version: nat) returns (data: Option<Bytes>)
      requires Numbered(View())
      ensures data == Old(View(), Entry(key, version))
      ensures data.Some? ==> 1 <= version <= Current(View(), key)
    {
      WhichRecords(View(), key, version);
      var c := Composite(key, version);
      if c !in records {
        return None;
      }
      data := if records[c].operation.Delete? then None else records[c].data;
    }

    /** Put a record's key in its place by version. */
    method Insert(found: seq<Text>, c: Text) returns (r: seq<Text>)
      requires c in records && c !in found && (forall x :: x in found ==> x in records)
      requires forall i, j :: 0 <= i < j < |found| ==> found[i] != found[j]
      requires forall i, j :: 0 <= i < j < |found| ==> records[found[i]].version <= records[found[j]].version
      ensures forall x :: x in r <==> x in found || x == c
      ensures forall i, j :: 0 <= i < j < |r| ==> r[i] != r[j]
      ensures forall i, j :: 0 <= i < j < |r| ==> records[r[i]].version <= records[r[j]].version
    {
      var i := 0;
      while i < |found| && records[found[i]].version <= records[c].version
        invariant i <= |found| && forall j :: 0 <= j < i ==> records[found[j]].version <= records[c].version
      {
        i := i + 1;
      }
      r := found[..i] + [c] + found[i..];
    }

    /** The records whose key starts with `key:`, by version: those of `key` unless other keys are mixed in. */
    method HistoryOf(key: Text) returns (out: seq<Record>, ghost found: seq<Text>)
      ensures Lists(records, key, found) && out == Shown(records, found)
      ensures Numbered(View()) ==> (out == Versions(View(), key) <==> !Mixed(View(), key))
    {
      var list: seq<Text> := [];
      var left := records.Keys;
      while left != {}
        invariant left <= records.Keys
        invariant forall x :: x in list <==> x in records && x !in left && StartsWith(x, key + [COLON])
        invariant forall i, j :: 0 <= i < j < |list| ==> list[i] != list[j]
        invariant forall i, j :: 0 <= i < j < |list| ==> records[list[i]].version <= records[list[j]].version
        decreases |left|
      {
        var c :| c in left;
        if StartsWith(c, key + [COLON]) {
          list := Insert(list, c);
        }
        left := left - {c};
      }
      found := list;
      out := Shown(records, list);
      if Numbered(View()) {
        HistoryIsOwn(View(), key, list);
      }
    }
  }

  lemma WhenHalted(h: History, inputs: seq<(Text, Bytes)>, accepted: seq<bool>, n: nat)
    requires n < |inputs| == |accepted| && !(accepted[n] && Countable(h, InputKeys(inputs[..n + 1])))
    ensures !(AllTrue(accepted, |inputs|) && Countable(h, InputKeys(inputs)))
  {
    if Countable(h, InputKeys(inputs)) {
      CountablePrefix(h, InputKeys(inputs), n + 1);
      assert InputKeys(inputs)[..n + 1] == InputKeys(inputs[..n + 1]);
    }
  }

  /** What stops the records of a bulk restore. */
  lemma WhenRecorded(h: History, entries: seq<Entry>, n: nat)
    requires n <= |entries| && Restorable(h, entries[..n]) && Countable(h, EntryKeys(entries[..n]))
    requires n < |entries| ==> !Restorable(h, entries[..n + 1]) || !Countable(h, EntryKeys(entries[..n + 1]))
    ensures n == |entries| <==> Restorable(h, entries) && Countable(h, EntryKeys(entries))
  {
    if n == |entries| {
      assert entries[..n] == entries;
    } else {
      if Countable(h, EntryKeys(entries)) {
        CountablePrefix(h, EntryKeys(entries), n + 1);
        assert EntryKeys(entries)[..n + 1] == EntryKeys(entries[..n + 1]);
      }
      if Restorable(h, entries) {
        assert forall i :: 0 <= i < n + 1 ==> entries[..n + 1][i] == entries[i];
      }
    }
  }

  lemma {:induction false} RowsWhole(h: History, source: History, entries: seq<Entry>)
    requires Whole(h)
    ensures Whole(BulkRows(h, source, entries))
  {
    if entries != [] {
      var e := entries[|entries| - 1];
      RowsWhole(h, source, entries[..|entries| - 1]);
      RowWhole(BulkRows(h, source, entries[..|entries| - 1]), e.key, Old(source, e));
    }
  }

  lemma {:induction false} RecordsWhole(h: History, entries: seq<Entry>, bulk: Text)
    requires Whole(h)
    ensures Whole(BulkRecords(h, entries, bulk))
  {
    if entries != [] {
      var before, e := BulkRecords(h, entries[..|entries| - 1], bulk), entries[|entries| - 1];
      RecordsWhole(h, entries[..|entries| - 1], bulk);
      RecordedWhole(before, e.key, RestoreBulk, Old(before, e), Some(e.version), Some(bulk));
    }
  }

  lemma PartialWhole(h: History, entries: seq<Entry>, bulk: Text, put: nat)
    requires Whole(h) && put <= |entries|
    ensures Whole(Partial(h, entries, bulk, put))
  {
    RecordsWhole(h, entries, bulk);
    RowsWhole(BulkRecords(h, entries, bulk), h, entries[..put]);
  }

  /** The rows a bulk restore goes back to. */
  function Results(h: History, entries: seq<Entry>): seq<(Text, Option<Bytes>)> {
    seq(|entries|, i requires 0 <= i < |entries| => (entries[i].key, Old(h, entries[i])))
  }

  lemma {:induction false} RecordsNumbered(h: History, entries: seq<Entry>, bulk: Text)
    requires Numbered(h)
    ensures Numbered(BulkRecords(h, entries, bulk)) && Keeps(h, BulkRecords(h, entries, bulk))
  {
    if entries != [] {
      var before, e := BulkRecords(h, entries[..|entries| - 1], bulk), entries[|entries| - 1];
      RecordsNumbered(h, entries[..|entries| - 1], bulk);
      RecordedNumbers(before, e.key, RestoreBulk, Old(before, e), Some(e.version), Some(bulk));
      RecordedKeeps(before, e.key, RestoreBulk, Old(before, e), Some(e.version), Some(bulk));
    }
  }

  /** The records a bulk restore adds do not change what its other entries find. */
  lemma SameLookup(h: History, entries: seq<Entry>, bulk: Text, e: Entry)
    requires Numbered(h) && e.version <= Current(h, e.key)
    ensures var t := BulkRecords(h, entries, bulk);
            RecordAt(t, e.key, e.version) == RecordAt(h, e.key, e.version) && Old(t, e) == Old(h, e)
  {
    RecordsNumbered(h, entries, bulk);
    WhichRecords(h, e.key, e.version);
    WhichRecords(BulkRecords(h, entries, bulk), e.key, e.version);
  }
}
