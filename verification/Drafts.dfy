/**
 What a transaction does to the user tables before it commits (src/repository.rs:721-794,
 src/journal_blob.rs:33-74, 123-157): rows and attachment references change in place, and every change
 is noted for the log.
 */
module Drafts {
  import opened Prelude
  import opened ChangeCodec
  import opened Journal
  import opened RowTables
  import opened LastWrite

  type Refs = map<RowId, BlobRef>

  /** The committed tables. */
  datatype Db = Db(user: Rows, refs: Refs, last: Last, log: Log)

  /** The tables inside a transaction, and the changes noted so far. */
  datatype Draft = Draft(user: Rows, refs: Refs, images: map<Text, Image>, resets: nat, effects: seq<ChangeKind>)

  function Start(db: Db): Draft {
    Draft(db.user, db.refs, db.log.images, db.log.resets, [])
  }

  // ---- references ----

  function ApplyRef(refs: Refs, c: ChangeKind): Refs {
    match c
    case BlobPut(t, k, id, n) => refs[RowId(t, k) := BlobRef(id, n)]
    case BlobDelete(t, k, _, _) => refs - {RowId(t, k)}
    case Upsert(_, _, _) => refs
    case Delete(_, _) => refs
    case TableReset(_, _) => refs
  }

  function ReplayRefs(refs: Refs, changes: seq<ChangeKind>): Refs {
    if changes == [] then refs else ApplyRef(ReplayRefs(refs, changes[..|changes| - 1]), changes[|changes| - 1])
  }

  /** A deleted attachment was the one the row had. */
  predicate TrueDelete(refs: Refs, c: ChangeKind) {
    c.BlobDelete? ==> RowId(c.table, c.key) in refs && refs[RowId(c.table, c.key)] == BlobRef(c.blobId, c.size)
  }

  ghost predicate DeletesTrue(refs: Refs, changes: seq<ChangeKind>) {
    changes == [] || (DeletesTrue(refs, changes[..|changes| - 1])
      && TrueDelete(ReplayRefs(refs, changes[..|changes| - 1]), changes[|changes| - 1]))
  }

  /** The references are what the changes noted make of them. */
  ghost predicate RefsFollow(before: Refs, changes: seq<ChangeKind>, after: Refs) {
    after == ReplayRefs(before, changes) && DeletesTrue(before, changes)
  }

  function RefsOf(refs: Refs, table: Text): map<Text, BlobRef> {
    map k | k in KeysOf(refs.Keys, table) :: refs[RowId(table, k)]
  }

  // ---- a faithful draft ----

  predicate RefsTrue(c: ChangeKind, images: map<Text, Image>, refs: Refs) {
    c.TableReset? ==> c.snapshot in images && images[c.snapshot].refs == RefsOf(refs, c.table)
  }

  /** Every reset shows the references of its table as the transaction leaves them. */
  ghost predicate RefsCurrent(effects: seq<ChangeKind>, images: map<Text, Image>, refs: Refs) {
    forall i :: 0 <= i < |effects| ==> RefsTrue(effects[i], images, refs)
  }

  ghost predicate SameOutside(a: Rows, b: Rows, tables: set<Text>) {
    forall id: RowId :: id.table in tables || SameAt(a, b, id)
  }

  ghost predicate NoneCaptured(effects: seq<ChangeKind>, tables: set<Text>) {
    forall t :: t in tables ==> !ResetsTable(effects, t)
  }

  /** The changes noted say what was done, except to `tables`, which are still to be captured. */
  ghost predicate Tells(db: Db, d: Draft, tables: set<Text>) {
    && SameOutside(d.user, Replay(db.user, d.effects, d.images), tables)
    && RefsFollow(db.refs, d.effects, d.refs)
    && ImagesCurrent(d.effects, d.images, d.user)
    && RefsCurrent(d.effects, d.images, d.refs)
    && NoneCaptured(d.effects, tables)
  }

  ghost predicate Pending(db: Db, d: Draft, tables: set<Text>) {
    Draftable(db.log, d.effects, d.images, d.resets) && Tells(db, d, tables)
  }

  /** Replaying the changes noted gives exactly the tables of the draft. */
  ghost predicate Good(db: Db, d: Draft) {
    && Draftable(db.log, d.effects, d.images, d.resets)
    && d.user == Replay(db.user, d.effects, d.images)
    && RefsFollow(db.refs, d.effects, d.refs)
    && ImagesCurrent(d.effects, d.images, d.user)
    && RefsCurrent(d.effects, d.images, d.refs)
  }

  lemma StartIsGood(db: Db)
    ensures Good(db, Start(db))
  {
  }

  lemma SameEverywhere(a: Rows, b: Rows)
    requires forall id :: SameAt(a, b, id)
    ensures a == b
  {
    forall id ensures id in a <==> id in b {
      assert SameAt(a, b, id);
    }
    forall id | id in a ensures a[id] == b[id] {
      assert SameAt(a, b, id);
    }
  }

  lemma NothingPending(db: Db, d: Draft)
    requires Pending(db, d, {})
    ensures Good(db, d)
  {
    SameEverywhere(d.user, Replay(db.user, d.effects, d.images));
  }

  predicate NoResets(effects: seq<ChangeKind>) {
    forall i :: 0 <= i < |effects| ==> !effects[i].TableReset?
  }

  lemma PendingMore(db: Db, d: Draft, tables: set<Text>, more: set<Text>)
    requires Pending(db, d, tables) && NoResets(d.effects)
    ensures Pending(db, d, tables + more)
  {
  }

  // ---- one change noted ----

  lemma NoNewNames(db: Db, d: Draft, c: ChangeKind)
    requires Draftable(db.log, d.effects, d.images, d.resets) && !c.TableReset?
    ensures Draftable(db.log, d.effects + [c], d.images, d.resets)
  {
    var e := d.effects + [c];
    forall i, s ensures Resets(e, i, s) <==> Resets(d.effects, i, s) {
    }
    forall s ensures NamedAmong(e, s) <==> NamedAmong(d.effects, s) {
      if i :| Resets(d.effects, i, s) {
        assert Resets(e, i, s);
      }
      if i :| Resets(e, i, s) {
        assert Resets(d.effects, i, s);
      }
    }
  }

  lemma ReplayNext(rows: Rows, effects: seq<ChangeKind>, c: ChangeKind, images: map<Text, Image>)
    ensures Replay(rows, effects + [c], images) == Apply(Replay(rows, effects, images), c, images)
  {
    assert (effects + [c])[..|effects|] == effects;
  }

  lemma RefsFollowNext(before: Refs, effects: seq<ChangeKind>, c: ChangeKind, after: Refs)
    requires RefsFollow(before, effects, after) && TrueDelete(after, c)
    ensures RefsFollow(before, effects + [c], ApplyRef(after, c))
  {
    assert (effects + [c])[..|effects|] == effects;
  }

  lemma NoResetsMore(effects: seq<ChangeKind>, c: ChangeKind)
    requires NoResets(effects) && !c.TableReset?
    ensures NoResets(effects + [c])
  {
  }

  lemma NoResetsCurrent(effects: seq<ChangeKind>, images: map<Text, Image>, user: Rows, refs: Refs)
    requires NoResets(effects)
    ensures ImagesCurrent(effects, images, user) && RefsCurrent(effects, images, refs)
  {
  }

  /** Noting a change to a row, or to a reference, keeps the draft good while nothing is captured. */
  lemma NoteKeeps(db: Db, d: Draft, c: ChangeKind)
    requires Good(db, d) && NoResets(d.effects) && !c.TableReset? && TrueDelete(d.refs, c)
    ensures Good(db, d.(user := Apply(d.user, c, d.images), refs := ApplyRef(d.refs, c), effects := d.effects + [c]))
    ensures NoResets(d.effects + [c])
  {
    NoNewNames(db, d, c);
    NoResetsMore(d.effects, c);
    NoResetsCurrent(d.effects + [c], d.images, Apply(d.user, c, d.images), ApplyRef(d.refs, c));
    ReplayNext(db.user, d.effects, c, d.images);
    RefsFollowNext(db.refs, d.effects, c, d.refs);
  }

  lemma ResetsTableMore(effects: seq<ChangeKind>, c: ChangeKind, table: Text)
    ensures ResetsTable(effects + [c], table) <==> ResetsTable(effects, table) || (c.TableReset? && c.table == table)
  {
    var e := effects + [c];
    TouchesMore(e, |effects|);
    assert e[..|effects|] == effects && e[..|effects| + 1] == e;
  }

  lemma ImagesCurrentMore(effects: seq<ChangeKind>, c: ChangeKind, images: map<Text, Image>, user: Rows)
    requires ImagesCurrent(effects, images, user) && !c.TableReset?
    ensures ImagesCurrent(effects + [c], images, user)
  {
  }

  /** Changing the references of a table not captured yet leaves the images true. */
  lemma RefsCurrentMore(effects: seq<ChangeKind>, c: ChangeKind, images: map<Text, Image>, refs: Refs)
    requires RefsCurrent(effects, images, refs) && (c.BlobPut? || c.BlobDelete?) && !ResetsTable(effects, c.table)
    ensures RefsCurrent(effects + [c], images, ApplyRef(refs, c))
  {
    var e, now := effects + [c], ApplyRef(refs, c);
    forall i | 0 <= i < |e| ensures RefsTrue(e[i], images, now) {
      if e[i].TableReset? {
        assert e[i] == effects[i] && RefsTrue(effects[i], images, refs);
        OtherTable(refs, c, e[i].table);
      }
    }
  }

  lemma OtherTable(refs: Refs, c: ChangeKind, table: Text)
    requires (c.BlobPut? || c.BlobDelete?) && c.table != table
    ensures RefsOf(ApplyRef(refs, c), table) == RefsOf(refs, table)
  {
  }

  /** A reference of a table not captured yet may change, with its change noted. */
  lemma NoteRef(db: Db, d: Draft, tables: set<Text>, c: ChangeKind)
    requires Pending(db, d, tables) && (c.BlobPut? || c.BlobDelete?) && !ResetsTable(d.effects, c.table)
             && TrueDelete(d.refs, c)
    ensures Pending(db, d.(refs := ApplyRef(d.refs, c), effects := d.effects + [c]), tables)
  {
    NoNewNames(db, d, c);
    ReplayNext(db.user, d.effects, c, d.images);
    RefsFollowNext(db.refs, d.effects, c, d.refs);
    ImagesCurrentMore(d.effects, c, d.images, d.user);
    RefsCurrentMore(d.effects, c, d.images, d.refs);
    forall t | t in tables ensures !ResetsTable(d.effects + [c], t) {
      ResetsTableMore(d.effects, c, t);
    }
  }

  /** Rows of a table still to be captured may change without note. */
  lemma RowsMayChange(db: Db, d: Draft, tables: set<Text>, user: Rows)
    requires Pending(db, d, tables)
    requires SameOutside(d.user, user, tables)
    ensures Pending(db, d.(user := user), tables)
  {
    var n := d.(user := user);
    forall id: RowId ensures id.table in tables || SameAt(user, Replay(db.user, d.effects, d.images), id) {
      assert id.table in tables
        || (SameAt(d.user, user, id) && SameAt(d.user, Replay(db.user, d.effects, d.images), id));
    }
    forall i | 0 <= i < |d.effects| ensures ImageTrue(d.effects[i], d.images, user) {
      var c := d.effects[i];
      assert ImageTrue(c, d.images, d.user);
      if c.TableReset? {
        assert c.table !in tables;
        SameTable(d.user, user, c.table);
      }
    }
  }

  lemma SameTable(a: Rows, b: Rows, table: Text)
    requires forall id: RowId :: id.table == table ==> SameAt(a, b, id)
    ensures TableOf(a, table) == TableOf(b, table)
  {
    forall k ensures SameAt(a, b, RowId(table, k)) {
    }
  }

  // ---- capturing a table ----

  function ImageOf(d: Draft, table: Text): Image {
    Image(TableOf(d.user, table), RefsOf(d.refs, table))
  }

  /** A table captured under a name. */
  function WithImage(d: Draft, table: Text, s: Text, image: Image): Draft {
    Draft(d.user, d.refs, d.images[s := image], d.resets + 1, d.effects + [TableReset(table, s)])
  }

  lemma NewNameIsNew(db: Db, d: Draft)
    requires Imaged(db.log) && Draftable(db.log, d.effects, d.images, d.resets)
    ensures ResetName(d.resets + 1) !in d.images
    ensures !NamedAmong(d.effects, ResetName(d.resets + 1))
  {
    var s := ResetName(d.resets + 1);
    forall i ensures !Resets(d.effects, i, s) {
      if Resets(d.effects, i, s) {
        var g :| db.log.resets < g <= d.resets && s == ResetName(g);
        ResetNamesDiffer(g, d.resets + 1);
      }
    }
    if s in db.log.images {
      var g :| 0 < g <= db.log.resets && s == ResetName(g);
      ResetNamesDiffer(g, d.resets + 1);
    }
  }

  lemma OneMoreReset(log: Log, effects: seq<ChangeKind>, images: map<Text, Image>, resets: nat, table: Text, s: Text,
                     image: Image)
    requires Draftable(log, effects, images, resets) && s == ResetName(resets + 1) && s !in images
             && !NamedAmong(effects, s)
    ensures Draftable(log, effects + [TableReset(table, s)], images[s := image], resets + 1)
  {
    var more := effects + [TableReset(table, s)];
    forall i, x ensures Resets(more, i, x) <==> Resets(effects, i, x) || (i == |effects| && x == s) {
    }
    forall x ensures NamedAmong(more, x) <==> NamedAmong(effects, x) || x == s {
      OneMoreName(effects, table, s, x);
    }
    forall i, x | Resets(more, i, x) ensures NamedWithin(x, log.resets, resets + 1) {
      if Resets(effects, i, x) {
        var g :| log.resets < g <= resets && x == ResetName(g);
      }
    }
  }

  lemma OneMoreName(effects: seq<ChangeKind>, table: Text, s: Text, x: Text)
    ensures NamedAmong(effects + [TableReset(table, s)], x) <==> NamedAmong(effects, x) || x == s
  {
    var more := effects + [TableReset(table, s)];
    if i :| Resets(effects, i, x) {
      assert Resets(more, i, x);
    }
    if x == s {
      assert Resets(more, |effects|, x);
    }
    if i :| Resets(more, i, x) {
      assert i < |effects| ==> Resets(effects, i, x);
    }
  }

  lemma StaysTrue(c: ChangeKind, images: map<Text, Image>, s: Text, image: Image, user: Rows, refs: Refs)
    requires ImageTrue(c, images, user) && RefsTrue(c, images, refs) && (c.TableReset? ==> c.snapshot != s)
    ensures ImageTrue(c, images[s := image], user) && RefsTrue(c, images[s := image], refs)
  {
  }

  lemma CurrentWith(effects: seq<ChangeKind>, images: map<Text, Image>, s: Text, image: Image, table: Text, user: Rows,
                    refs: Refs)
    requires !NamedAmong(effects, s) && ImagesCurrent(effects, images, user) && RefsCurrent(effects, images, refs)
    requires ImageTrue(TableReset(table, s), images[s := image], user)
             && RefsTrue(TableReset(table, s), images[s := image], refs)
    ensures var e := effects + [TableReset(table, s)];
            ImagesCurrent(e, images[s := image], user) && RefsCurrent(e, images[s := image], refs)
  {
    var e := effects + [TableReset(table, s)];
    forall i | 0 <= i < |e|
      ensures ImageTrue(e[i], images[s := image], user) && RefsTrue(e[i], images[s := image], refs)
    {
      if i < |effects| {
        assert e[i].TableReset? && e[i].snapshot == s ==> Resets(effects, i, s);
        assert e[i] == effects[i];
        StaysTrue(effects[i], images, s, image, user, refs);
      } else {
        assert e[i] == TableReset(table, s);
      }
    }
  }

  lemma ReplayCaptured(user: Rows, effects: seq<ChangeKind>, images: map<Text, Image>, s: Text, image: Image,
                       table: Text)
    requires !NamedAmong(effects, s) && forall x :: NamedAmong(effects, x) ==> x in images
    ensures Replay(user, effects + [TableReset(table, s)], images[s := image]) ==
            WithTable(Replay(user, effects, images), table, image.rows)
  {
    var now := images[s := image];
    forall i, x | Resets(effects, i, x) ensures x in images && x in now && images[x] == now[x] {
      assert NamedAmong(effects, x);
    }
    ReplaySame(user, effects, images, now);
    ReplayNext(user, effects, TableReset(table, s), now);
  }

  lemma CaptureRows(db: Db, d: Draft, tables: set<Text>, table: Text, s: Text, image: Image)
    requires SameOutside(d.user, Replay(db.user, d.effects, d.images), tables) && NoneCaptured(d.effects, tables)
    requires !NamedAmong(d.effects, s) && forall x :: NamedAmong(d.effects, x) ==> x in d.images
    requires image.rows == TableOf(d.user, table)
    ensures var e, now := d.effects + [TableReset(table, s)], d.images[s := image];
            SameOutside(d.user, Replay(db.user, e, now), tables - {table}) && NoneCaptured(e, tables - {table})
  {
    ReplayCaptured(db.user, d.effects, d.images, s, image, table);
    OneTableLess(d.user, Replay(db.user, d.effects, d.images), tables, table);
    OneCaptured(d.effects, tables, table, s);
  }

  lemma CaptureRefs(db: Db, d: Draft, table: Text, s: Text, image: Image)
    requires ImagesCurrent(d.effects, d.images, d.user) && RefsCurrent(d.effects, d.images, d.refs)
             && RefsFollow(db.refs, d.effects, d.refs)
    requires !NamedAmong(d.effects, s)
    requires image.rows == TableOf(d.user, table) && image.refs == RefsOf(d.refs, table)
    ensures var e, now := d.effects + [TableReset(table, s)], d.images[s := image];
            ImagesCurrent(e, now, d.user) && RefsCurrent(e, now, d.refs) && RefsFollow(db.refs, e, d.refs)
  {
    CurrentWith(d.effects, d.images, s, image, table, d.user, d.refs);
    RefsFollowNext(db.refs, d.effects, TableReset(table, s), d.refs);
  }

  lemma OneCaptured(effects: seq<ChangeKind>, tables: set<Text>, table: Text, s: Text)
    requires NoneCaptured(effects, tables)
    ensures NoneCaptured(effects + [TableReset(table, s)], tables - {table})
  {
    forall t | t in tables - {table} ensures !ResetsTable(effects + [TableReset(table, s)], t) {
      ResetsTableMore(effects, TableReset(table, s), t);
    }
  }

  /** With a table captured, one table less is pending. */
  lemma CaptureKeeps(db: Db, d: Draft, tables: set<Text>, table: Text)
    requires Imaged(db.log) && Pending(db, d, tables) && table in tables
    ensures Pending(db, WithImage(d, table, ResetName(d.resets + 1), ImageOf(d, table)), tables - {table})
  {
    NewNameIsNew(db, d);
    CaptureAs(db, d, tables, table, ResetName(d.resets + 1), ImageOf(d, table));
  }

  lemma CaptureAs(db: Db, d: Draft, tables: set<Text>, table: Text, s: Text, image: Image)
    requires Pending(db, d, tables) && table in tables
    requires s == ResetName(d.resets + 1) && s !in d.images && !NamedAmong(d.effects, s)
    requires image.rows == TableOf(d.user, table) && image.refs == RefsOf(d.refs, table)
    ensures Pending(db, WithImage(d, table, s, image), tables - {table})
  {
    ResetDraftable(db.log, d, table, s, image, WithImage(d, table, s, image));
    NamesHaveImages(db.log, d);
    CaptureImage(db, d, tables, table, s, image);
  }

  lemma ResetDraftable(log: Log, d: Draft, table: Text, s: Text, image: Image, c: Draft)
    requires Draftable(log, d.effects, d.images, d.resets) && c == WithImage(d, table, s, image)
    requires s == ResetName(d.resets + 1) && s !in d.images && !NamedAmong(d.effects, s)
    ensures Draftable(log, c.effects, c.images, c.resets)
  {
    OneMoreReset(log, d.effects, d.images, d.resets, table, s, image);
  }

  lemma NamesHaveImages(log: Log, d: Draft)
    requires Draftable(log, d.effects, d.images, d.resets)
    ensures forall x :: NamedAmong(d.effects, x) ==> x in d.images
  {
  }

  lemma CaptureImage(db: Db, d: Draft, tables: set<Text>, table: Text, s: Text, image: Image)
    requires Tells(db, d, tables) && table in tables
    requires !NamedAmong(d.effects, s) && forall x :: NamedAmong(d.effects, x) ==> x in d.images
    requires image.rows == TableOf(d.user, table) && image.refs == RefsOf(d.refs, table)
    ensures Tells(db, WithImage(d, table, s, image), tables - {table})
  {
    CaptureRows(db, d, tables, table, s, image);
    CaptureRefs(db, d, table, s, image);
  }

  lemma OneTableLess(user: Rows, was: Rows, tables: set<Text>, table: Text)
    requires SameOutside(user, was, tables)
    ensures SameOutside(user, WithTable(was, table, TableOf(user, table)), tables - {table})
  {
    forall id: RowId
      ensures id.table in tables - {table} || SameAt(user, WithTable(was, table, TableOf(user, table)), id)
    {
      TableRow(user, was, table, id);
      assert id.table in tables || SameAt(user, was, id);
    }
  }

  lemma TableRow(user: Rows, was: Rows, table: Text, id: RowId)
    ensures var now := WithTable(was, table, TableOf(user, table));
            if id.table == table then SameAt(user, now, id) else SameAt(was, now, id)
  {
  }
}
