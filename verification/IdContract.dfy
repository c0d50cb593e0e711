/** Rows that must hold their own key (src/id_contract.rs). */
module IdContract {
  import opened Prelude
  import opened ChangeCodec
  import opened Journal
  import opened RowTables

  type Contracts = map<Text, Path>

  datatype IdError = BadContract | Mismatch

  predicate Check(read: Reader, path: Path, key: Text, row: Bytes) {
    read(row, path) == Value(key)
  }

  ghost predicate TableHolds(read: Reader, path: Path, content: map<Text, Bytes>) {
    forall k :: k in content ==> Check(read, path, k, content[k])
  }

  /** Every row of a table with a contract holds its own key. */
  ghost predicate Holds(read: Reader, contracts: Contracts, rows: Rows) {
    forall id :: id in rows && id.table in contracts ==> Check(read, contracts[id.table], id.key, rows[id])
  }

  /** What a change writes holds its own key. */
  ghost predicate Sound(read: Reader, contracts: Contracts, c: ChangeKind, images: map<Text, Image>) {
    && (c.Upsert? && c.table in contracts ==> Check(read, contracts[c.table], c.key, c.value))
    && (c.TableReset? && c.table in contracts && c.snapshot in images ==>
      TableHolds(read, contracts[c.table], images[c.snapshot].rows))
  }

  ghost predicate AllSound(read: Reader, contracts: Contracts, effects: seq<ChangeKind>, images: map<Text, Image>) {
    forall i :: 0 <= i < |effects| ==> Sound(read, contracts, effects[i], images)
  }

  /** Every row of a table with a contract holds its key at the contract's path. */
  lemma HoldsMeans(read: Reader, contracts: Contracts, rows: Rows)
    ensures Holds(read, contracts, rows) <==>
            forall id :: id in rows && id.table in contracts ==> read(rows[id], contracts[id.table]) == Value(id.key)
  {
  }

  /** What is asked of a row: its table has no contract, or it holds its key. */
  predicate OwnKey(read: Reader, contracts: Contracts, table: Text, key: Text, row: Bytes) {
    table in contracts ==> read(row, contracts[table]) == Value(key)
  }

  /** A transaction is sound exactly if the rows it writes, and those of the images it captures, hold their keys. */
  lemma SoundMeans(read: Reader, contracts: Contracts, effects: seq<ChangeKind>, images: map<Text, Image>)
    ensures AllSound(read, contracts, effects, images) <==>
            && (forall t, k, v :: Upsert(t, k, v) in effects ==> OwnKey(read, contracts, t, k, v))
            && (forall t, s, k :: TableReset(t, s) in effects && s in images && k in images[s].rows ==>
                  OwnKey(read, contracts, t, k, images[s].rows[k]))
  {
    if AllSound(read, contracts, effects, images) {
      forall t, k, v | Upsert(t, k, v) in effects ensures OwnKey(read, contracts, t, k, v) {
        var i :| 0 <= i < |effects| && effects[i] == Upsert(t, k, v);
        assert Sound(read, contracts, effects[i], images);
      }
      forall t, s, k | TableReset(t, s) in effects && s in images && k in images[s].rows
        ensures OwnKey(read, contracts, t, k, images[s].rows[k])
      {
        var i :| 0 <= i < |effects| && effects[i] == TableReset(t, s);
        assert Sound(read, contracts, effects[i], images);
      }
    } else {
      var i :| 0 <= i < |effects| && !Sound(read, contracts, effects[i], images);
      assert effects[i] in effects;
    }
  }

  /** Sound changes keep the contracts. */
  lemma {:induction false} SoundKeeps(read: Reader, contracts: Contracts, rows: Rows, effects: seq<ChangeKind>,
                                      images: map<Text, Image>)
    requires Holds(read, contracts, rows) && AllSound(read, contracts, effects, images)
    ensures Holds(read, contracts, Replay(rows, effects, images))
  {
    if effects != [] {
      var before, c := effects[..|effects| - 1], effects[|effects| - 1];
      SoundKeeps(read, contracts, rows, before, images);
      assert Sound(read, contracts, c, images);
      var mid, after := Replay(rows, before, images), Replay(rows, effects, images);
      forall id | id in after && id.table in contracts ensures Check(read, contracts[id.table], id.key, after[id]) {
        if id in mid && after[id] == mid[id] {
          assert Check(read, contracts[id.table], id.key, mid[id]);
        }
      }
    }
  }

  method CheckTable(read: Reader, path: Path, content: map<Text, Bytes>) returns (ok: bool)
    ensures ok <==> TableHolds(read, path, content)
  {
    var left := content.Keys;
    while left != {}
      invariant forall k :: k in content && k !in left ==> Check(read, path, k, content[k])
      invariant left <= content.Keys
      decreases |left|
    {
      var k :| k in left;
      if !Check(read, path, k, content[k]) {
        return false;
      }
      left := left - {k};
    }
    ok := true;
  }

  /** Check what a transaction writes, change by change; the images of its resets are in place. */
  method Validate(read: Reader, contracts: Contracts, effects: seq<ChangeKind>, images: map<Text, Image>)
    returns (r: Result<(), IdError>)
    requires forall i, s :: Resets(effects, i, s) ==> s in images
    ensures r == if AllSound(read, contracts, effects, images) then Ok(()) else Err(Mismatch)
  {
    if |contracts| == 0 {
      return Ok(());
    }
    var i := 0;
    while i < |effects|
      invariant i <= |effects|
      invariant forall j :: 0 <= j < i ==> Sound(read, contracts, effects[j], images)
    {
      var c := effects[i];
      if (c.Upsert? || c.TableReset?) && c.table in contracts {
        var path := contracts[c.table];
        if c.Upsert? {
          if !Check(read, path, c.key, c.value) {
            assert !Sound(read, contracts, effects[i], images);
            return Err(Mismatch);
          }
        } else {
          assert Resets(effects, i, c.snapshot);
          var ok := CheckTable(read, path, images[c.snapshot].rows);
          if !ok {
            assert !Sound(read, contracts, effects[i], images);
            return Err(Mismatch);
          }
        }
      }
      i := i + 1;
    }
    r := Ok(());
  }

  // ---- configuration ----

  ghost predicate Acceptable(read: Reader, was: Contracts, c: (Text, Path), rows: Rows) {
    c.1.plain && ((c.0 in was && was[c.0] == c.1) || TableHolds(read, c.1, TableOf(rows, c.0)))
  }

  predicate Mentioned(configured: seq<(Text, Path)>, t: Text) {
    exists i :: 0 <= i < |configured| && configured[i].0 == t
  }

  /** The last contract configured for each table. */
  function Merged(was: Contracts, configured: seq<(Text, Path)>): Contracts {
    if configured == [] then was
    else Merged(was, configured[..|configured| - 1])[configured[|configured| - 1].0 := configured[|configured| - 1].1]
  }

  /** Each one is met by the rows, or is what the ones before it left. */
  ghost predicate AllAcceptable(read: Reader, was: Contracts, configured: seq<(Text, Path)>, rows: Rows) {
    configured == [] ||
    (AllAcceptable(read, was, configured[..|configured| - 1], rows)
     && Acceptable(read, Merged(was, configured[..|configured| - 1]), configured[|configured| - 1], rows))
  }

  lemma {:induction false} StaysUnacceptable(read: Reader, was: Contracts, configured: seq<(Text, Path)>, n: nat,
                                             rows: Rows)
    requires n <= |configured|
    ensures AllAcceptable(read, was, configured, rows) ==> AllAcceptable(read, was, configured[..n], rows)
  {
    assert configured[..|configured|] == configured;
    if n < |configured| {
      StaysUnacceptable(read, was, configured[..|configured| - 1], n, rows);
      assert configured[..|configured| - 1][..n] == configured[..n];
    }
  }

  lemma TableHoldsIs(read: Reader, contracts: Contracts, table: Text, path: Path, rows: Rows)
    requires Holds(read, contracts, rows)
    ensures TableHolds(read, path, TableOf(rows, table)) <==> Holds(read, contracts[table := path], rows)
  {
    forall id | id in rows && id.table == table
      ensures id.key in TableOf(rows, table) && TableOf(rows, table)[id.key] == rows[id]
    {
    }
    forall k | k in TableOf(rows, table)
      ensures RowId(table, k) in rows && rows[RowId(table, k)] == TableOf(rows, table)[k]
    {
    }
  }

  /** The path is plain, and every row of the table holds its key there. */
  ghost predicate Met(read: Reader, c: (Text, Path), rows: Rows) {
    c.1.plain && forall id :: id in rows && id.table == c.0 ==> read(rows[id], c.1) == Value(id.key)
  }

  ghost predicate AllMet(read: Reader, configured: seq<(Text, Path)>, rows: Rows) {
    forall i :: 0 <= i < |configured| ==> Met(read, configured[i], rows)
  }

  lemma MetIs(read: Reader, was: Contracts, c: (Text, Path), rows: Rows)
    requires Holds(read, was, rows)
    ensures Acceptable(read, was, c, rows) <==> Met(read, c, rows)
    ensures Met(read, c, rows) ==> Holds(read, was[c.0 := c.1], rows)
  {
    TableHoldsIs(read, was, c.0, c.1, rows);
    if Acceptable(read, was, c, rows) && c.0 in was && was[c.0] == c.1 {
      assert was[c.0 := c.1] == was;
    }
    HoldsMeans(read, was[c.0 := c.1], rows);
  }

  /** With the old contracts met, that some stay as they were makes no difference: every one must be met. */
  lemma {:induction false} AcceptableMeans(read: Reader, was: Contracts, configured: seq<(Text, Path)>, rows: Rows)
    requires Holds(read, was, rows)
    ensures AllAcceptable(read, was, configured, rows) <==> AllMet(read, configured, rows)
    ensures AllAcceptable(read, was, configured, rows) ==> Holds(read, Merged(was, configured), rows)
  {
    if configured != [] {
      var before, last := configured[..|configured| - 1], configured[|configured| - 1];
      AcceptableMeans(read, was, before, rows);
      if AllAcceptable(read, was, before, rows) {
        MetIs(read, Merged(was, before), last, rows);
      }
      assert configured == before + [last];
    }
  }

  /** The last contract configured for a table is its contract. */
  lemma {:induction false} MergedMeans(was: Contracts, configured: seq<(Text, Path)>, i: nat)
    requires i < |configured| && forall j :: i < j < |configured| ==> configured[j].0 != configured[i].0
    ensures configured[i].0 in Merged(was, configured) && Merged(was, configured)[configured[i].0] == configured[i].1
  {
    if i + 1 < |configured| {
      MergedMeans(was, configured[..|configured| - 1], i);
    }
  }

  lemma NextContract(read: Reader, was: Contracts, configured: seq<(Text, Path)>, i: nat, rows: Rows)
    requires i < |configured|
    ensures AllAcceptable(read, was, configured[..i + 1], rows) <==>
            AllAcceptable(read, was, configured[..i], rows)
            && Acceptable(read, Merged(was, configured[..i]), configured[i], rows)
    ensures Merged(was, configured[..i + 1]) == Merged(was, configured[..i])[configured[i].0 := configured[i].1]
    ensures AllAcceptable(read, was, configured, rows) ==> AllAcceptable(read, was, configured[..i + 1], rows)
  {
    assert configured[..i + 1][..i] == configured[..i];
    StaysUnacceptable(read, was, configured, i + 1, rows);
  }

  /** Take over one contract; an unchanged one is not checked again. */
  method TakeOne(read: Reader, was: Contracts, c: (Text, Path), rows: Rows) returns (r: Result<Contracts, IdError>)
    requires Holds(read, was, rows)
    ensures r.Ok? <==> Acceptable(read, was, c, rows)
    ensures r.Ok? ==> r.value == was[c.0 := c.1] && Holds(read, r.value, rows)
  {
    var (table, path) := c;
    if !path.plain {
      return Err(BadContract);
    }
    if table in was && was[table] == path {
      assert was[table := path] == was;
      return Ok(was);
    }
    var ok := CheckTable(read, path, TableOf(rows, table));
    if !ok {
      return Err(Mismatch);
    }
    TableHoldsIs(read, was, table, path, rows);
    r := Ok(was[table := path]);
  }

  method TakeAll(read: Reader, was: Contracts, configured: seq<(Text, Path)>, rows: Rows)
    returns (r: Result<Contracts, IdError>)
    requires Holds(read, was, rows)
    ensures r.Ok? <==> AllAcceptable(read, was, configured, rows)
    ensures r.Ok? ==> r.value == Merged(was, configured) && Holds(read, r.value, rows)
  {
    r := Ok(was);
    var i := 0;
    while i < |configured|
      invariant i <= |configured|
      invariant r.Ok? && r.value == Merged(was, configured[..i]) && Holds(read, r.value, rows)
      invariant AllAcceptable(read, was, configured[..i], rows)
    {
      NextContract(read, was, configured, i, rows);
      r := TakeOne(read, r.value, configured[i], rows);
      if r.Err? {
        return;
      }
      i := i + 1;
    }
    assert configured[..|configured|] == configured;
  }

  method DropObsolete(merged: Contracts, configured: seq<(Text, Path)>) returns (now: Contracts)
    ensures now == map t | t in merged && Mentioned(configured, t) :: merged[t]
  {
    now := merged;
    var left := now.Keys;
    while left != {}
      invariant left <= merged.Keys
      invariant forall t :: t in now <==> t in merged && (t in left || Mentioned(configured, t))
      invariant forall t :: t in now ==> now[t] == merged[t]
      decreases |left|
    {
      var t :| t in left;
      if !Mentioned(configured, t) {
        now := now - {t};
      }
      left := left - {t};
    }
  }

  /**
   Take over the configured contracts: a new or changed one must be plain and met by every row of its
   table, and those no longer configured go. Afterwards every contract is met.
   */
  method Configure(read: Reader, contracts: Contracts, configured: seq<(Text, Path)>, rows: Rows)
    returns (r: Result<Contracts, IdError>)
    requires Holds(read, contracts, rows)
    ensures r.Ok? <==> AllAcceptable(read, contracts, configured, rows)
    ensures r.Ok? <==> AllMet(read, configured, rows)
    ensures r.Ok? ==> Holds(read, r.value, rows)
    ensures r.Ok? ==>
            r.value == map t | t in Merged(contracts, configured) && Mentioned(configured, t) ::
                         Merged(contracts, configured)[t]
  {
    AcceptableMeans(read, contracts, configured, rows);
    r := TakeAll(read, contracts, configured, rows);
    if r.Ok? {
      var now := DropObsolete(r.value, configured);
      r := Ok(now);
    }
  }
}
