/** The number of the last change of every row (src/lastwrite.rs). */
module LastWrite {
  import opened Prelude
  import opened ChangeCodec
  import opened Journal
  import opened RowTables

  type Last = map<RowId, nat>

  function Without(last: Last, table: Text): Last {
    map id | id in last && id.table != table :: last[id]
  }

  function Stamped(last: Last, table: Text, keys: set<Text>, at: nat): Last {
    last + map k | k in keys :: RowId(table, k) := at
  }

  function WithKeys(last: Last, table: Text, keys: set<Text>, at: nat): Last {
    Stamped(Without(last, table), table, keys, at)
  }

  lemma StampedMore(last: Last, table: Text, keys: set<Text>, k: Text, at: nat)
    ensures Stamped(last, table, keys + {k}, at) == Stamped(last, table, keys, at)[RowId(table, k) := at]
  {
  }

  /** One change: a reset stamps every row of its image. */
  function FoldOne(last: Last, c: ChangeKind, at: nat, images: map<Text, Image>): Last {
    match c
    case Upsert(t, k, _) => last[RowId(t, k) := at]
    case Delete(t, k) => last - {RowId(t, k)}
    case TableReset(t, s) => WithKeys(last, t, if s in images then images[s].rows.Keys else {}, at)
    case BlobPut(_, _, _, _) => last
    case BlobDelete(_, _, _, _) => last
  }

  /** All changes ever made, from the first on. */
  function Fold(changes: seq<ChangeKind>, images: map<Text, Image>): Last {
    if changes == [] then map[]
    else FoldOne(Fold(changes[..|changes| - 1], images), changes[|changes| - 1], |changes|, images)
  }

  /** The rows with a last write are exactly the rows there are. */
  lemma {:induction false} FoldKeys(changes: seq<ChangeKind>, images: map<Text, Image>)
    ensures Fold(changes, images).Keys == Replay(map[], changes, images).Keys
  {
    if changes != [] {
      FoldKeys(changes[..|changes| - 1], images);
      KeysFollow(Fold(changes[..|changes| - 1], images), Replay(map[], changes[..|changes| - 1], images),
        changes[|changes| - 1], |changes|, images);
    }
  }

  lemma KeysFollow(last: Last, rows: Rows, c: ChangeKind, at: nat, images: map<Text, Image>)
    requires last.Keys == rows.Keys
    ensures FoldOne(last, c, at, images).Keys == Apply(rows, c, images).Keys
  {
  }

  /** The row's last write is the number of the last change that made it what it is. */
  lemma {:induction false} FoldBound(changes: seq<ChangeKind>, images: map<Text, Image>, id: RowId)
    requires id in Fold(changes, images)
    ensures 1 <= Fold(changes, images)[id] <= |changes|
    ensures About(changes[Fold(changes, images)[id] - 1], id)
    ensures forall k :: Fold(changes, images)[id] <= k < |changes| ==> !About(changes[k], id)
  {
    var n := |changes| - 1;
    var before := changes[..n];
    if About(changes[n], id) {
      assert Fold(changes, images)[id] == n + 1;
    } else {
      assert id in Fold(before, images) && Fold(changes, images)[id] == Fold(before, images)[id];
      FoldBound(before, images, id);
      assert forall k :: 0 <= k < n ==> before[k] == changes[k];
    }
  }

  /** The change is about the row, or about its whole table. */
  predicate About(c: ChangeKind, id: RowId) {
    TouchesRow(c, id) || (c.TableReset? && c.table == id.table)
  }

  /** The effects of a transaction that starts after `head`. */
  function FoldOn(last: Last, effects: seq<ChangeKind>, head: nat, images: map<Text, Image>): Last {
    if effects == [] then last
    else FoldOne(FoldOn(last, effects[..|effects| - 1], head, images), effects[|effects| - 1], head + |effects|, images)
  }

  lemma {:induction false} FoldJoins(changes: seq<ChangeKind>, effects: seq<ChangeKind>, images: map<Text, Image>)
    ensures Fold(changes + effects, images) == FoldOn(Fold(changes, images), effects, |changes|, images)
  {
    if effects == [] {
      assert changes + effects == changes;
    } else {
      FoldJoins(changes, effects[..|effects| - 1], images);
      assert (changes + effects)[..|changes + effects| - 1] == changes + effects[..|effects| - 1];
    }
  }

  lemma {:induction false} FoldSame(changes: seq<ChangeKind>, a: map<Text, Image>, b: map<Text, Image>)
    requires forall i, s :: Resets(changes, i, s) ==> s in a && s in b && a[s] == b[s]
    ensures Fold(changes, a) == Fold(changes, b)
  {
    if changes != [] {
      var before, last := changes[..|changes| - 1], changes[|changes| - 1];
      forall i, s | Resets(before, i, s) ensures s in a && s in b && a[s] == b[s] {
        assert Resets(changes, i, s);
      }
      FoldSame(before, a, b);
      if last.TableReset? {
        assert Resets(changes, |changes| - 1, last.snapshot);
      }
    }
  }

  /** A reset shows its table as it is. */
  predicate ImageTrue(c: ChangeKind, images: map<Text, Image>, rows: Rows) {
    c.TableReset? ==> c.snapshot in images && images[c.snapshot].rows == TableOf(rows, c.table)
  }

  /** Every reset shows its table as the transaction leaves it. */
  ghost predicate ImagesCurrent(effects: seq<ChangeKind>, images: map<Text, Image>, rows: Rows) {
    forall i :: 0 <= i < |effects| ==> ImageTrue(effects[i], images, rows)
  }

  /** The table in a write transaction. */
  class LastWriteTx {
    var last: Last

    constructor (last: Last)
      ensures this.last == last
    {
      this.last := last;
    }

    method Forget(table: Text)
      modifies this
      ensures last == Without(old(last), table)
    {
      var left := last.Keys;
      while left != {}
        invariant forall id :: id in last <==> id in old(last) && (id.table != table || id in left)
        invariant forall id :: id in last ==> last[id] == old(last)[id]
        decreases |left|
      {
        var id :| id in left;
        if id.table == table {
          last := last - {id};
        }
        left := left - {id};
      }
    }

    method StampKeys(table: Text, keys: set<Text>, at: nat)
      modifies this
      ensures last == Stamped(old(last), table, keys, at)
    {
      var left := keys;
      while left != {}
        invariant left <= keys
        invariant last == Stamped(old(last), table, keys - left, at)
        decreases |left|
      {
        var k :| k in left;
        StampedMore(old(last), table, keys - left, k, at);
        assert keys - (left - {k}) == keys - left + {k};
        last := last[RowId(table, k) := at];
        left := left - {k};
      }
      assert keys - {} == keys;
    }

    /** Forget a table, then stamp the rows it has now. */
    method Reset(table: Text, at: nat, rows: Rows)
      modifies this
      ensures last == WithKeys(old(last), table, TableOf(rows, table).Keys, at)
    {
      Forget(table);
      StampKeys(table, TableOf(rows, table).Keys, at);
    }

    method Stamp(c: ChangeKind, at: nat, rows: Rows, ghost images: map<Text, Image>)
      requires ImageTrue(c, images, rows)
      modifies this
      ensures last == FoldOne(old(last), c, at, images)
    {
      match c {
        case Upsert(t, k, _) => last := last[RowId(t, k) := at];
        case Delete(t, k) => last := last - {RowId(t, k)};
        case TableReset(t, _) => Reset(t, at, rows);
        case BlobPut(_, _, _, _) =>
        case BlobDelete(_, _, _, _) =>
      }
    }

    /** Stamp the effects of a transaction with the numbers they are about to get. */
    method StampAll(effects: seq<ChangeKind>, head: nat, rows: Rows, ghost images: map<Text, Image>)
      requires ImagesCurrent(effects, images, rows)
      modifies this
      ensures last == FoldOn(old(last), effects, head, images)
    {
      var i := 0;
      while i < |effects|
        invariant i <= |effects|
        invariant last == FoldOn(old(last), effects[..i], head, images)
      {
        assert effects[..i + 1][..i] == effects[..i];
        Stamp(effects[i], head + i + 1, rows, images);
        i := i + 1;
      }
      assert effects[..|effects|] == effects;
    }
  }
}
