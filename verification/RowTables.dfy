/** Rows of user tables, the changes that make them, and reading values out of them. */
module RowTables {
  import opened Prelude
  import opened ChangeCodec
  import opened Journal

  datatype RowId = RowId(table: Text, key: Text)

  type Rows = map<RowId, Bytes>

  // ---- tables ----

  /** The keys of the rows of one table. */
  function KeysOf(ids: set<RowId>, table: Text): (keys: set<Text>)
    ensures forall k :: k in keys <==> RowId(table, k) in ids
  {
    var keys := set id | id in ids && id.table == table :: id.key;
    assert forall k :: RowId(table, k) in ids ==> RowId(table, k).key in keys;
    keys
  }

  function TableOf(rows: Rows, table: Text): map<Text, Bytes> {
    map k | k in KeysOf(rows.Keys, table) :: rows[RowId(table, k)]
  }

  function WithoutTable(rows: Rows, table: Text): Rows {
    map id | id in rows && id.table != table :: rows[id]
  }

  /** The rows with one table replaced. */
  function WithTable(rows: Rows, table: Text, content: map<Text, Bytes>): Rows {
    WithoutTable(rows, table) + map k | k in content :: RowId(table, k) := content[k]
  }

  // ---- replaying changes ----

  /** A change applied to the rows; a reset puts its image in place of its table. */
  function Apply(rows: Rows, c: ChangeKind, images: map<Text, Image>): Rows {
    match c
    case Upsert(t, k, v) => rows[RowId(t, k) := v]
    case Delete(t, k) => rows - {RowId(t, k)}
    case TableReset(t, s) => WithTable(rows, t, if s in images then images[s].rows else map[])
    case BlobPut(_, _, _, _) => rows
    case BlobDelete(_, _, _, _) => rows
  }

  function Replay(rows: Rows, changes: seq<ChangeKind>, images: map<Text, Image>): Rows {
    if changes == [] then rows
    else Apply(Replay(rows, changes[..|changes| - 1], images), changes[|changes| - 1], images)
  }

  lemma {:induction false} ReplayJoins(rows: Rows, a: seq<ChangeKind>, b: seq<ChangeKind>, images: map<Text, Image>)
    ensures Replay(rows, a + b, images) == Replay(Replay(rows, a, images), b, images)
  {
    if b == [] {
      assert a + b == a;
    } else {
      ReplayJoins(rows, a, b[..|b| - 1], images);
      assert (a + b)[..|a + b| - 1] == a + b[..|b| - 1];
    }
  }

  /** Only the images the changes name matter. */
  lemma {:induction false} ReplaySame(rows: Rows, changes: seq<ChangeKind>, a: map<Text, Image>, b: map<Text, Image>)
    requires forall i, s :: Resets(changes, i, s) ==> s in a && s in b && a[s] == b[s]
    ensures Replay(rows, changes, a) == Replay(rows, changes, b)
  {
    if changes != [] {
      var before, last := changes[..|changes| - 1], changes[|changes| - 1];
      forall i, s | Resets(before, i, s) ensures s in a && s in b && a[s] == b[s] {
        assert Resets(changes, i, s);
      }
      ReplaySame(rows, before, a, b);
      if last.TableReset? {
        assert Resets(changes, |changes| - 1, last.snapshot);
      }
    }
  }

  // ---- what changes touch ----

  predicate TouchesRow(c: ChangeKind, id: RowId) {
    (c.Upsert? || c.Delete?) && c.table == id.table && c.key == id.key
  }

  ghost predicate Touches(effects: seq<ChangeKind>, id: RowId) {
    exists i :: 0 <= i < |effects| && TouchesRow(effects[i], id)
  }

  ghost predicate ResetsTable(effects: seq<ChangeKind>, table: Text) {
    exists i :: 0 <= i < |effects| && effects[i].TableReset? && effects[i].table == table
  }

  predicate SameAt(a: Rows, b: Rows, id: RowId) {
    (id in a <==> id in b) && (id in a ==> a[id] == b[id])
  }

  /** The effects name every row that changed. */
  ghost predicate Accounts(effects: seq<ChangeKind>, before: Rows, after: Rows) {
    forall id :: SameAt(before, after, id) || Touches(effects, id) || ResetsTable(effects, id.table)
  }

  lemma TouchesMore(effects: seq<ChangeKind>, i: nat)
    requires i < |effects|
    ensures forall id :: Touches(effects[..i + 1], id) <==> Touches(effects[..i], id) || TouchesRow(effects[i], id)
    ensures forall t :: ResetsTable(effects[..i + 1], t) <==>
            ResetsTable(effects[..i], t) || (effects[i].TableReset? && effects[i].table == t)
  {
    var p, q := effects[..i], effects[..i + 1];
    assert q == p + [effects[i]];
    forall id ensures Touches(q, id) <==> Touches(p, id) || TouchesRow(effects[i], id) {
      if j :| 0 <= j < |p| && TouchesRow(p[j], id) {
        assert TouchesRow(q[j], id);
      }
      if TouchesRow(effects[i], id) {
        assert TouchesRow(q[i], id);
      }
      if j :| 0 <= j < |q| && TouchesRow(q[j], id) {
        assert j < i ==> TouchesRow(p[j], id);
      }
    }
    forall t ensures ResetsTable(q, t) <==> ResetsTable(p, t) || (effects[i].TableReset? && effects[i].table == t) {
      if j :| 0 <= j < |p| && p[j].TableReset? && p[j].table == t {
        assert q[j].TableReset? && q[j].table == t;
      }
      if effects[i].TableReset? && effects[i].table == t {
        assert q[i].TableReset? && q[i].table == t;
      }
    }
  }

  lemma {:induction false} ReplayAccounts(rows: Rows, changes: seq<ChangeKind>, images: map<Text, Image>)
    ensures Accounts(changes, rows, Replay(rows, changes, images))
  {
    if changes != [] {
      var n := |changes| - 1;
      ReplayAccounts(rows, changes[..n], images);
      TouchesMore(changes, n);
      assert changes[..n + 1] == changes;
      var mid, after := Replay(rows, changes[..n], images), Replay(rows, changes, images);
      forall id ensures SameAt(rows, after, id) || Touches(changes, id) || ResetsTable(changes, id.table) {
        assert SameAt(rows, mid, id) || Touches(changes[..n], id) || ResetsTable(changes[..n], id.table);
        assert SameAt(mid, after, id) || TouchesRow(changes[n], id)
          || (changes[n].TableReset? && changes[n].table == id.table);
      }
    }
  }

  // ---- values in rows ----

  /** A path into a row: `scalar` if it selects at most one value, `plain` if it also transforms nothing. */
  datatype Path = Path(name: Bytes, scalar: bool, plain: bool)

  /** What a path finds in a row. */
  datatype Found = Unreadable | Nothing | Value(value: Bytes)

  type Reader = (Bytes, Path) -> Found
}
