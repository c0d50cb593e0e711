/** The bodies of the writing transactions (src/repository.rs:721-794, src/journal_blob.rs:33-74, 123-157). */
module Work {
  import opened Prelude
  import opened ChangeCodec
  import opened Journal
  import opened RowTables
  import opened LastWrite
  import opened Drafts

  datatype RowWrite = RowWrite(id: RowId, value: Bytes)

  // ---- writes and deletes, one after the other ----

  function Noted(d: Draft, c: ChangeKind): Draft {
    d.(user := Apply(d.user, c, d.images), refs := ApplyRef(d.refs, c), effects := d.effects + [c])
  }

  function WriteOne(d: Draft, w: RowWrite): Draft {
    Noted(d, Upsert(w.id.table, w.id.key, w.value))
  }

  function WriteAll(d: Draft, writes: seq<RowWrite>): Draft {
    if writes == [] then d else WriteOne(WriteAll(d, writes[..|writes| - 1]), writes[|writes| - 1])
  }

  function DeleteRow(d: Draft, id: RowId): Draft {
    if id in d.user then Noted(d, Delete(id.table, id.key)) else d
  }

  function DropRef(d: Draft, id: RowId): Draft {
    if id in d.refs then Noted(d, BlobDelete(id.table, id.key, d.refs[id].id, d.refs[id].size)) else d
  }

  /** A row goes, and in an attachment table its reference too; only what was there is noted. */
  function DeleteOne(d: Draft, blobs: set<Text>, id: RowId): Draft {
    if id.table in blobs then DropRef(DeleteRow(d, id), id) else DeleteRow(d, id)
  }

  function DeleteAll(d: Draft, blobs: set<Text>, deletes: seq<RowId>): Draft {
    if deletes == [] then d else DeleteOne(DeleteAll(d, blobs, deletes[..|deletes| - 1]), blobs, deletes[|deletes| - 1])
  }

  /** A row of an attachment table may be written only if it has an attachment. */
  predicate Allowed(refs: Refs, blobs: set<Text>, writes: seq<RowWrite>) {
    forall i :: 0 <= i < |writes| && writes[i].id.table in blobs ==> writes[i].id in refs
  }

  function Applied(d: Draft, blobs: set<Text>, writes: seq<RowWrite>, deletes: seq<RowId>): Draft {
    DeleteAll(WriteAll(d, writes), blobs, deletes)
  }

  lemma {:induction false} WriteAllKeeps(db: Db, d: Draft, writes: seq<RowWrite>)
    requires Good(db, d) && NoResets(d.effects)
    ensures Good(db, WriteAll(d, writes)) && NoResets(WriteAll(d, writes).effects)
    ensures WriteAll(d, writes).refs == d.refs
  {
    if writes != [] {
      var before, w := WriteAll(d, writes[..|writes| - 1]), writes[|writes| - 1];
      WriteAllKeeps(db, d, writes[..|writes| - 1]);
      NoteKeeps(db, before, Upsert(w.id.table, w.id.key, w.value));
    }
  }

  lemma DeleteRowKeeps(db: Db, d: Draft, id: RowId)
    requires Good(db, d) && NoResets(d.effects)
    ensures Good(db, DeleteRow(d, id)) && NoResets(DeleteRow(d, id).effects)
  {
    if id in d.user {
      NoteKeeps(db, d, Delete(id.table, id.key));
    }
  }

  lemma DropRefKeeps(db: Db, d: Draft, id: RowId)
    requires Good(db, d) && NoResets(d.effects)
    ensures Good(db, DropRef(d, id)) && NoResets(DropRef(d, id).effects)
  {
    if id in d.refs {
      NoteKeeps(db, d, BlobDelete(id.table, id.key, d.refs[id].id, d.refs[id].size));
    }
  }

  lemma DeleteOneKeeps(db: Db, d: Draft, blobs: set<Text>, id: RowId)
    requires Good(db, d) && NoResets(d.effects)
    ensures Good(db, DeleteOne(d, blobs, id)) && NoResets(DeleteOne(d, blobs, id).effects)
  {
    DeleteRowKeeps(db, d, id);
    if id.table in blobs {
      DropRefKeeps(db, DeleteRow(d, id), id);
    }
  }

  lemma {:induction false} DeleteAllKeeps(db: Db, d: Draft, blobs: set<Text>, deletes: seq<RowId>)
    requires Good(db, d) && NoResets(d.effects)
    ensures Good(db, DeleteAll(d, blobs, deletes)) && NoResets(DeleteAll(d, blobs, deletes).effects)
  {
    if deletes != [] {
      DeleteAllKeeps(db, d, blobs, deletes[..|deletes| - 1]);
      DeleteOneKeeps(db, DeleteAll(d, blobs, deletes[..|deletes| - 1]), blobs, deletes[|deletes| - 1]);
    }
  }

  /** Writes and deletes are noted truly. */
  lemma AppliedIsGood(db: Db, blobs: set<Text>, writes: seq<RowWrite>, deletes: seq<RowId>)
    ensures Good(db, Applied(Start(db), blobs, writes, deletes))
            && NoResets(Applied(Start(db), blobs, writes, deletes).effects)
  {
    StartIsGood(db);
    WriteAllKeeps(db, Start(db), writes);
    DeleteAllKeeps(db, WriteAll(Start(db), writes), blobs, deletes);
  }

  /** For each delete, whether there was something to delete. */
  function WereThere(d: Draft, blobs: set<Text>, deletes: seq<RowId>): seq<bool> {
    if deletes == [] then []
    else
      var before, id := DeleteAll(d, blobs, deletes[..|deletes| - 1]), deletes[|deletes| - 1];
      WereThere(d, blobs, deletes[..|deletes| - 1]) + [id in before.user || (id.table in blobs && id in before.refs)]
  }

  /** A written attachment put in, and the row that describes it. */
  function WithBlob(d: Draft, id: RowId, ref: BlobRef, metadata: Option<Bytes>): Draft {
    var put := Noted(d, BlobPut(id.table, id.key, ref.id, ref.size));
    if metadata.Some? then WriteOne(put, RowWrite(id, metadata.value)) else put
  }

  lemma PublishedBlobIsGood(db: Db, id: RowId, ref: BlobRef, metadata: Option<Bytes>)
    ensures var d := WithBlob(Start(db), id, ref, metadata);
            && Good(db, d) && |d.effects| <= 2 && Puts(d.effects) == [(id, ref)] && d.refs == db.refs[id := ref]
            && d.user == if metadata.Some? then db.user[id := metadata.value] else db.user
  {
    StartIsGood(db);
    var c := BlobPut(id.table, id.key, ref.id, ref.size);
    NoteKeeps(db, Start(db), c);
    PutsMore([], c);
    if metadata.Some? {
      NoteKeeps(db, Noted(Start(db), c), Upsert(id.table, id.key, metadata.value));
      PutsMore([c], Upsert(id.table, id.key, metadata.value));
    }
  }

  // ---- whole tables ----

  function Entries(entries: seq<(Text, Bytes)>): map<Text, Bytes> {
    if entries == [] then map[]
    else Entries(entries[..|entries| - 1])[entries[|entries| - 1].0 := entries[|entries| - 1].1]
  }

  function Removed(rows: Rows, deletes: seq<RowId>): Rows {
    if deletes == [] then rows else Removed(rows, deletes[..|deletes| - 1]) - {deletes[|deletes| - 1]}
  }

  /** The references left after deletes, and after attachments are put in. */
  function RemovedRefs(refs: Refs, blobs: set<Text>, deletes: seq<RowId>): Refs {
    if deletes == [] then refs
    else
      var before, id := RemovedRefs(refs, blobs, deletes[..|deletes| - 1]), deletes[|deletes| - 1];
      if id.table in blobs then before - {id} else before
  }

  function PutRefs(refs: Refs, prepared: seq<(RowId, BlobRef)>): Refs {
    if prepared == [] then refs
    else PutRefs(refs, prepared[..|prepared| - 1])[prepared[|prepared| - 1].0 := prepared[|prepared| - 1].1]
  }

  function Put(rows: Rows, writes: seq<RowWrite>): Rows {
    if writes == [] then rows
    else Put(rows, writes[..|writes| - 1])[writes[|writes| - 1].id := writes[|writes| - 1].value]
  }

  function TablesOf(writes: seq<RowWrite>, deletes: seq<RowId>): set<Text> {
    (set i | 0 <= i < |writes| :: writes[i].id.table) + (set i | 0 <= i < |deletes| :: deletes[i].table)
  }

  lemma EntryPut(rows: Rows, table: Text, content: map<Text, Bytes>, k: Text, v: Bytes)
    ensures WithTable(rows, table, content[k := v]) == WithTable(rows, table, content)[RowId(table, k) := v]
  {
  }

  /** The attachments the changes put in, in order. */
  function Puts(effects: seq<ChangeKind>): seq<(RowId, BlobRef)> {
    if effects == [] then []
    else
      var c := effects[|effects| - 1];
      Puts(effects[..|effects| - 1]) + if c.BlobPut? then [(RowId(c.table, c.key), BlobRef(c.blobId, c.size))] else []
  }

  lemma PutsMore(effects: seq<ChangeKind>, c: ChangeKind)
    ensures Puts(effects + [c]) ==
            Puts(effects) + if c.BlobPut? then [(RowId(c.table, c.key), BlobRef(c.blobId, c.size))] else []
  {
    assert (effects + [c])[..|effects|] == effects;
  }

  lemma {:induction false} PutIsListed(effects: seq<ChangeKind>, i: nat)
    requires i < |effects| && effects[i].BlobPut?
    ensures (RowId(effects[i].table, effects[i].key), BlobRef(effects[i].blobId, effects[i].size)) in Puts(effects)
  {
    if i < |effects| - 1 {
      PutIsListed(effects[..|effects| - 1], i);
    }
  }

  /** Writes and deletes put no attachment in. */
  lemma {:induction false} WritesPutNothing(d: Draft, writes: seq<RowWrite>)
    ensures Puts(WriteAll(d, writes).effects) == Puts(d.effects)
  {
    if writes != [] {
      var before, w := WriteAll(d, writes[..|writes| - 1]), writes[|writes| - 1];
      WritesPutNothing(d, writes[..|writes| - 1]);
      PutsMore(before.effects, Upsert(w.id.table, w.id.key, w.value));
    }
  }

  lemma RowPutsNothing(d: Draft, id: RowId)
    ensures Puts(DeleteRow(d, id).effects) == Puts(d.effects)
  {
    PutsMore(d.effects, Delete(id.table, id.key));
  }

  lemma RefPutsNothing(d: Draft, id: RowId)
    ensures Puts(DropRef(d, id).effects) == Puts(d.effects)
  {
    if id in d.refs {
      PutsMore(d.effects, BlobDelete(id.table, id.key, d.refs[id].id, d.refs[id].size));
    }
  }

  lemma DeletePutsNothing(d: Draft, blobs: set<Text>, id: RowId)
    ensures Puts(DeleteOne(d, blobs, id).effects) == Puts(d.effects)
  {
    RowPutsNothing(d, id);
    RefPutsNothing(DeleteRow(d, id), id);
  }

  lemma {:induction false} DeletesPutNothing(d: Draft, blobs: set<Text>, deletes: seq<RowId>)
    ensures Puts(DeleteAll(d, blobs, deletes).effects) == Puts(d.effects)
  {
    if deletes != [] {
      DeletesPutNothing(d, blobs, deletes[..|deletes| - 1]);
      DeletePutsNothing(DeleteAll(d, blobs, deletes[..|deletes| - 1]), blobs, deletes[|deletes| - 1]);
    }
  }

  ghost predicate SameResets(a: seq<ChangeKind>, b: seq<ChangeKind>) {
    forall t :: ResetsTable(a, t) <==> ResetsTable(b, t)
  }

  lemma SameResetsMore(effects: seq<ChangeKind>, c: ChangeKind)
    requires !c.TableReset?
    ensures SameResets(effects + [c], effects)
  {
    forall t ensures ResetsTable(effects + [c], t) <==> ResetsTable(effects, t) {
      ResetsTableMore(effects, c, t);
    }
  }

  /** All but `keys` of the references of a table are looked at. */
  ghost predicate Sifted(before: Refs, now: Refs, user: Rows, table: Text, keys: set<RowId>) {
    && (forall id :: id in keys ==> id in now && id.table == table)
    && (forall id :: id in now <==> id in before && (id.table != table || id in keys || id in user))
    && (forall id :: id in now ==> now[id] == before[id])
  }

  lemma SiftStart(refs: Refs, user: Rows, table: Text)
    ensures Sifted(refs, refs, user, table, set id | id in refs && id.table == table)
  {
  }

  lemma SiftEnd(before: Refs, now: Refs, user: Rows, table: Text)
    requires Sifted(before, now, user, table, {})
    ensures now == WithoutOrphans(before, user, table)
  {
  }

  lemma SiftOne(before: Refs, now: Refs, user: Rows, table: Text, keys: set<RowId>, id: RowId)
    requires Sifted(before, now, user, table, keys) && id in keys
    ensures id in now && Sifted(before, if id in user then now else now - {id}, user, table, keys - {id})
  {
  }

  /** The references without those of a table that have no row. */
  function WithoutOrphans(refs: Refs, user: Rows, table: Text): Refs {
    map id | id in refs && (id.table != table || id in user) :: refs[id]
  }

  lemma CapturedResets(effects: seq<ChangeKind>, table: Text, s: Text)
    ensures forall t :: ResetsTable(effects + [TableReset(table, s)], t) <==> ResetsTable(effects, t) || t == table
  {
    forall t ensures ResetsTable(effects + [TableReset(table, s)], t) <==> ResetsTable(effects, t) || t == table {
      ResetsTableMore(effects, TableReset(table, s), t);
    }
  }

  lemma NoEntries(rows: Rows, table: Text)
    ensures WithTable(rows, table, map[]) == WithoutTable(rows, table)
  {
  }

  /** Every row of an attachment table has its attachment. */
  ghost predicate Attached(user: Rows, refs: Refs, table: Text) {
    forall id :: id in user && id.table == table ==> id in refs
  }

  /** The tables in a write transaction. */
  // ---- when tables can be published ----

  /** A table can be replaced: every row of an attachment table has its attachment, and there is a name. */
  ghost predicate Replaceable(db: Db, blobs: set<Text>, table: Text, entries: seq<(Text, Bytes)>) {
    && db.log.resets + 1 < U64
    && (table in blobs ==> Attached(WithTable(db.user, table, Entries(entries)), db.refs, table))
  }

  ghost predicate AllAttached(user: Rows, refs: Refs, blobs: set<Text>, tables: set<Text>) {
    forall t :: t in tables && t in blobs ==> Attached(user, refs, t)
  }

  /** Tables can be rewritten: every row of theirs has its attachment, and there are names. */
  ghost predicate Rewritable(db: Db, blobs: set<Text>, writes: seq<RowWrite>, deletes: seq<RowId>,
                             prepared: seq<(RowId, BlobRef)>)
  {
    var tables := TablesOf(writes, deletes);
    && (tables == {} || db.log.resets + |tables| < U64)
    && AllAttached(Put(Removed(db.user, deletes), writes), PutRefs(RemovedRefs(db.refs, blobs, deletes), prepared),
         blobs, tables)
  }

  /** The references without those of `tables` that have no row. */
  function WithoutAll(refs: Refs, user: Rows, tables: set<Text>): Refs {
    map id | id in refs && (id.table !in tables || id in user) :: refs[id]
  }

  /** Of `tables`, all but `left` are published. */
  ghost predicate Publishing(before: Refs, refs: Refs, user: Rows, blobs: set<Text>, tables: set<Text>, left: set<Text>)
  {
    refs == WithoutAll(before, user, (tables - left) * blobs) && AllAttached(user, before, blobs, tables - left)
  }

  /** Dropping references without a row does not matter to the rows of other tables. */
  lemma PublishingNext(before: Refs, refs: Refs, user: Rows, blobs: set<Text>, tables: set<Text>, left: set<Text>,
                       t: Text)
    requires Publishing(before, refs, user, blobs, tables, left) && t in left && left <= tables
    ensures Attached(user, refs, t) <==> Attached(user, before, t)
    ensures (t in blobs ==> Attached(user, refs, t)) ==>
              Publishing(before, if t in blobs then WithoutOrphans(refs, user, t) else refs, user, blobs, tables,
                left - {t})
  {
    var next := if t in blobs then WithoutOrphans(refs, user, t) else refs;
    assert (tables - (left - {t})) == (tables - left) + {t};
    assert next == WithoutAll(before, user, (tables - (left - {t})) * blobs);
  }

  lemma PublishingStart(refs: Refs, user: Rows, blobs: set<Text>, tables: set<Text>)
    ensures Publishing(refs, refs, user, blobs, tables, tables)
  {
    assert tables - tables == {};
  }

  lemma PublishingEnd(before: Refs, refs: Refs, user: Rows, blobs: set<Text>, tables: set<Text>)
    requires Publishing(before, refs, user, blobs, tables, {})
    ensures refs == WithoutAll(before, user, tables * blobs) && AllAttached(user, before, blobs, tables)
  {
    assert tables - {} == tables;
  }

  class WorkTx {
    const blobs: set<Text>
    var user: Rows
    var refs: Refs
    var images: map<Text, Image>
    var resets: nat
    var effects: seq<ChangeKind>

    function View(): Draft
      reads this
    {
      Draft(user, refs, images, resets, effects)
    }

    constructor (db: Db, blobs: set<Text>)
      ensures View() == Start(db) && this.blobs == blobs
    {
      this.blobs := blobs;
      user, refs, images, resets, effects := db.user, db.refs, db.log.images, db.log.resets, [];
    }

    method WriteRows(writes: seq<RowWrite>) returns (ok: bool)
      modifies this`user, this`effects
      ensures ok <==> Allowed(old(refs), blobs, writes)
      ensures ok ==> View() == WriteAll(old(View()), writes)
    {
      var i := 0;
      while i < |writes|
        invariant i <= |writes| && Allowed(refs, blobs, writes[..i])
        invariant View() == WriteAll(old(View()), writes[..i])
      {
        assert writes[..i + 1][..i] == writes[..i];
        var w := writes[i];
        if w.id.table in blobs && w.id !in refs {
          return false;
        }
        user := user[w.id := w.value];
        effects := effects + [Upsert(w.id.table, w.id.key, w.value)];
        i := i + 1;
      }
      assert writes[..|writes|] == writes;
      ok := true;
    }

    method PutRef(id: RowId, ref: BlobRef)
      modifies this`refs, this`effects
      ensures View() == Noted(old(View()), BlobPut(id.table, id.key, ref.id, ref.size))
    {
      refs := refs[id := ref];
      effects := effects + [BlobPut(id.table, id.key, ref.id, ref.size)];
    }

    /** Publish a written attachment, and the row that describes it. */
    method PublishBlob(id: RowId, ref: BlobRef, metadata: Option<Bytes>)
      modifies this`user, this`refs, this`effects
      ensures View() == WithBlob(old(View()), id, ref, metadata)
    {
      PutRef(id, ref);
      if metadata.Some? {
        user := user[id := metadata.value];
        effects := effects + [Upsert(id.table, id.key, metadata.value)];
      }
    }

    method RemoveRef(id: RowId) returns (removed: bool)
      modifies this`refs, this`effects
      ensures View() == DropRef(old(View()), id) && removed == (id in old(refs))
    {
      if id !in refs {
        return false;
      }
      var was := refs[id];
      refs := refs - {id};
      effects := effects + [BlobDelete(id.table, id.key, was.id, was.size)];
      removed := true;
    }

    method DeleteRowAt(id: RowId) returns (removed: bool)
      modifies this`user, this`refs, this`effects
      ensures View() == DeleteOne(old(View()), blobs, id)
      ensures removed == (id in old(user) || (id.table in blobs && id in old(refs)))
    {
      var exists_ := id in user;
      user := user - {id};
      if exists_ {
        effects := effects + [Delete(id.table, id.key)];
      }
      var blob := false;
      assert View() == DeleteRow(old(View()), id);
      if id.table in blobs {
        blob := RemoveRef(id);
      }
      removed := exists_ || blob;
    }

    method DeleteRows(deletes: seq<RowId>) returns (removed: seq<bool>)
      modifies this`user, this`refs, this`effects
      ensures View() == DeleteAll(old(View()), blobs, deletes)
      ensures removed == WereThere(old(View()), blobs, deletes)
    {
      removed := [];
      var i := 0;
      while i < |deletes|
        invariant i <= |deletes|
        invariant View() == DeleteAll(old(View()), blobs, deletes[..i])
        invariant removed == WereThere(old(View()), blobs, deletes[..i])
      {
        assert deletes[..i + 1][..i] == deletes[..i];
        var r := DeleteRowAt(deletes[i]);
        removed := removed + [r];
        i := i + 1;
      }
      assert deletes[..|deletes|] == deletes;
    }

    method CheckBlobRows(table: Text) returns (ok: bool)
      ensures ok <==> Attached(user, refs, table)
    {
      var left := set id | id in user && id.table == table;
      while left != {}
        invariant forall id :: id in left ==> id in user && id.table == table
        invariant forall id :: id in user && id.table == table && id !in left ==> id in refs
        decreases |left|
      {
        var id :| id in left;
        if id !in refs {
          return false;
        }
        left := left - {id};
      }
      ok := true;
    }

    /** Note that an attachment is gone. */
    method DropOrphan(id: RowId, ghost db: Db, ghost tables: set<Text>)
      requires Pending(db, View(), tables) && id.table in tables && id in refs
      modifies this`refs, this`effects
      ensures Pending(db, View(), tables) && refs == old(refs) - {id}
      ensures SameResets(effects, old(effects)) && Puts(effects) == Puts(old(effects))
      ensures effects == old(effects) + [BlobDelete(id.table, id.key, old(refs)[id].id, old(refs)[id].size)]
    {
      ghost var c := BlobDelete(id.table, id.key, refs[id].id, refs[id].size);
      NoteRef(db, View(), tables, c);
      SameResetsMore(effects, c);
      PutsMore(effects, c);
      var _ := RemoveRef(id);
    }

    method DropOrphans(table: Text, ghost db: Db, ghost tables: set<Text>)
      requires Pending(db, View(), tables) && table in tables
      modifies this`refs, this`effects
      ensures Pending(db, View(), tables)
      ensures refs == WithoutOrphans(old(refs), user, table)
      ensures SameResets(effects, old(effects)) && Puts(effects) == Puts(old(effects))
    {
      ghost var before, was := refs, effects;
      var keys := set id | id in refs && id.table == table;
      SiftStart(refs, user, table);
      while keys != {}
        invariant Pending(db, View(), tables) && SameResets(effects, was) && Puts(effects) == Puts(was)
        invariant Sifted(before, refs, user, table, keys)
        decreases |keys|
      {
        var id :| id in keys;
        SiftOne(before, refs, user, table, keys, id);
        keys := keys - {id};
        if id !in user {
          DropOrphan(id, db, tables);
        }
      }
      SiftEnd(before, refs, user, table);
    }

    /** Every row of an attachment table must have its attachment; attachments without a row go. */
    method ValidateBlobRows(table: Text, ghost db: Db, ghost tables: set<Text>) returns (ok: bool)
      requires Pending(db, View(), tables) && table in tables
      modifies this`refs, this`effects
      ensures ok <==> (table in blobs ==> Attached(user, old(refs), table))
      ensures Pending(db, View(), tables) && SameResets(effects, old(effects)) && Puts(effects) == Puts(old(effects))
      ensures refs == if ok && table in blobs then WithoutOrphans(old(refs), user, table) else old(refs)
    {
      if table !in blobs {
        return true;
      }
      ok := CheckBlobRows(table);
      if ok {
        DropOrphans(table, db, tables);
      }
    }

    method CopyRows(table: Text) returns (out: map<Text, Bytes>)
      ensures out == TableOf(user, table)
    {
      out := map[];
      var left := user.Keys;
      while left != {}
        invariant left <= user.Keys
        invariant forall k :: k in out <==> RowId(table, k) in user && RowId(table, k) !in left
        invariant forall k :: k in out ==> out[k] == user[RowId(table, k)]
        decreases |left|
      {
        var id :| id in left;
        left := left - {id};
        if id.table == table {
          out := out[id.key := user[id]];
          assert id == RowId(table, id.key);
        }
      }
    }

    method CopyRefs(table: Text) returns (out: map<Text, BlobRef>)
      ensures out == RefsOf(refs, table)
    {
      out := map[];
      var left := refs.Keys;
      while left != {}
        invariant left <= refs.Keys
        invariant forall k :: k in out <==> RowId(table, k) in refs && RowId(table, k) !in left
        invariant forall k :: k in out ==> out[k] == refs[RowId(table, k)]
        decreases |left|
      {
        var id :| id in left;
        left := left - {id};
        if id.table == table {
          out := out[id.key := refs[id]];
          assert id == RowId(table, id.key);
        }
      }
    }

    method CopyImage(table: Text) returns (image: Image)
      ensures image == ImageOf(View(), table)
    {
      var rows := CopyRows(table);
      var held := CopyRefs(table);
      image := Image(rows, held);
    }

    /** Copy a table, with its references, under a new name, and note the reset. */
    method CaptureReset(table: Text) returns (ok: bool)
      modifies this`images, this`resets, this`effects
      ensures ok <==> old(resets) + 1 < U64
      ensures ok ==> View() == WithImage(old(View()), table, ResetName(old(resets) + 1), ImageOf(old(View()), table))
    {
      if resets + 1 >= U64 {
        return false;
      }
      var image := CopyImage(table);
      PutImage(table, image);
      ok := true;
    }

    method PutImage(table: Text, image: Image)
      modifies this`images, this`resets, this`effects
      ensures View() == WithImage(old(View()), table, ResetName(old(resets) + 1), image)
    {
      resets := resets + 1;
      images := images[ResetName(resets) := image];
      effects := effects + [TableReset(table, ResetName(resets))];
    }

    method LoadTable(table: Text, entries: seq<(Text, Bytes)>)
      modifies this`user
      ensures user == WithTable(old(user), table, Entries(entries))
    {
      NoEntries(user, table);
      user := WithoutTable(user, table);
      var i := 0;
      while i < |entries|
        invariant i <= |entries|
        invariant user == WithTable(old(user), table, Entries(entries[..i]))
      {
        assert entries[..i + 1][..i] == entries[..i];
        EntryPut(old(user), table, Entries(entries[..i]), entries[i].0, entries[i].1);
        user := user[RowId(table, entries[i].0) := entries[i].1];
        i := i + 1;
      }
      assert entries[..|entries|] == entries;
    }

    /** Capture a table that is pending. */
    method Publish(table: Text, ghost db: Db, ghost tables: set<Text>) returns (ok: bool)
      requires Imaged(db.log) && Pending(db, View(), tables) && table in tables
      modifies this`refs, this`images, this`resets, this`effects
      ensures ok <==> (table in blobs ==> Attached(user, old(refs), table)) && old(resets) + 1 < U64
      ensures ok ==> Pending(db, View(), tables - {table}) && resets == old(resets) + 1
      ensures ok ==> refs == if table in blobs then WithoutOrphans(old(refs), user, table) else old(refs)
      ensures ok ==> forall t :: ResetsTable(effects, t) <==> ResetsTable(old(effects), t) || t == table
      ensures ok ==> Puts(effects) == Puts(old(effects))
    {
      ok := ValidateBlobRows(table, db, tables);
      if !ok {
        return;
      }
      CaptureKeeps(db, View(), tables, table);
      CapturedResets(effects, table, ResetName(resets + 1));
      PutsMore(effects, TableReset(table, ResetName(resets + 1)));
      ok := CaptureReset(table);
    }

    /** Put `entries` in place of a table, and capture it. */
    method ReplaceTable(table: Text, entries: seq<(Text, Bytes)>, ghost db: Db) returns (ok: bool)
      requires Imaged(db.log) && View() == Start(db)
      modifies this
      ensures ok ==> Good(db, View()) && user == WithTable(db.user, table, Entries(entries))
      ensures ok ==> (forall t :: ResetsTable(effects, t) <==> t == table) && Puts(effects) == []
      ensures ok <==> Replaceable(db, blobs, table, entries)
      ensures ok ==> refs == if table in blobs then WithoutOrphans(db.refs, user, table) else db.refs
    {
      LoadTable(table, entries);
      LoadedIsPending(db, table, user);
      NoResetsAnywhere(effects);
      ok := Publish(table, db, {table});
      if ok {
        assert {table} - {table} == {};
        NothingPending(db, View());
      }
    }

    /** Rows and references of pending tables go. */
    method RemovePending(deletes: seq<RowId>, ghost db: Db, ghost tables: set<Text>)
      requires Pending(db, View(), tables) && NoResets(effects)
      requires forall i :: 0 <= i < |deletes| ==> deletes[i].table in tables
      modifies this`user, this`refs, this`effects
      ensures Pending(db, View(), tables) && NoResets(effects) && user == Removed(old(user), deletes)
      ensures Puts(effects) == Puts(old(effects)) && refs == RemovedRefs(old(refs), blobs, deletes)
    {
      var i := 0;
      while i < |deletes|
        invariant i <= |deletes|
        invariant Pending(db, View(), tables) && NoResets(effects) && user == Removed(old(user), deletes[..i])
        invariant Puts(effects) == Puts(old(effects)) && refs == RemovedRefs(old(refs), blobs, deletes[..i])
      {
        assert deletes[..i + 1][..i] == deletes[..i];
        var id := deletes[i];
        assert id !in refs ==> refs - {id} == refs;
        RowsMayChange(db, View(), tables, user - {id});
        user := user - {id};
        if id.table in blobs && id in refs {
          NoResetsMore(effects, BlobDelete(id.table, id.key, refs[id].id, refs[id].size));
          DropOrphan(id, db, tables);
        }
        i := i + 1;
      }
      assert deletes[..|deletes|] == deletes;
    }

    method PutPrepared(prepared: seq<(RowId, BlobRef)>, ghost db: Db, ghost tables: set<Text>)
      requires Pending(db, View(), tables) && NoResets(effects)
      modifies this`refs, this`effects
      ensures Pending(db, View(), tables) && NoResets(effects)
      ensures Puts(effects) == Puts(old(effects)) + prepared && refs == PutRefs(old(refs), prepared)
    {
      var i := 0;
      while i < |prepared|
        invariant i <= |prepared|
        invariant Pending(db, View(), tables) && NoResets(effects)
        invariant Puts(effects) == Puts(old(effects)) + prepared[..i] && refs == PutRefs(old(refs), prepared[..i])
      {
        var (id, ref) := prepared[i];
        ghost var c := BlobPut(id.table, id.key, ref.id, ref.size);
        NoResetsNone(effects, id.table);
        NoteRef(db, View(), tables, c);
        NoResetsMore(effects, c);
        PutsMore(effects, c);
        assert prepared[..i + 1] == prepared[..i] + [(id, ref)] && prepared[..i + 1][..i] == prepared[..i];
        PutRef(id, ref);
        i := i + 1;
      }
      assert prepared[..|prepared|] == prepared;
    }

    method WritePending(writes: seq<RowWrite>, ghost db: Db, ghost tables: set<Text>)
      requires Pending(db, View(), tables)
      requires forall i :: 0 <= i < |writes| ==> writes[i].id.table in tables
      modifies this`user
      ensures Pending(db, View(), tables) && user == Put(old(user), writes)
    {
      var i := 0;
      while i < |writes|
        invariant i <= |writes|
        invariant Pending(db, View(), tables) && user == Put(old(user), writes[..i])
      {
        assert writes[..i + 1][..i] == writes[..i];
        RowsMayChange(db, View(), tables, user[writes[i].id := writes[i].value]);
        user := user[writes[i].id := writes[i].value];
        i := i + 1;
      }
      assert writes[..|writes|] == writes;
    }

    method PublishAll(tables: set<Text>, ghost db: Db) returns (ok: bool)
      requires Imaged(db.log) && Pending(db, View(), tables) && NoResets(effects)
      modifies this`refs, this`images, this`resets, this`effects
      ensures ok ==> Pending(db, View(), {})
      ensures ok ==> (forall t :: ResetsTable(effects, t) <==> t in tables) && Puts(effects) == Puts(old(effects))
      ensures ok <==> (tables == {} || old(resets) + |tables| < U64) && AllAttached(user, old(refs), blobs, tables)
      ensures ok ==> refs == WithoutAll(old(refs), user, tables * blobs)
    {
      ghost var before, was, puts := refs, resets, Puts(effects);
      var left := tables;
      NoResetsAnywhere(effects);
      PublishingStart(refs, user, blobs, tables);
      while left != {}
        invariant left <= tables && Pending(db, View(), left) && resets + |left| == was + |tables|
        invariant (forall t :: ResetsTable(effects, t) <==> t in tables - left) && Puts(effects) == puts
        invariant Publishing(before, refs, user, blobs, tables, left) && (left != tables ==> resets < U64)
        decreases |left|
      {
        var t :| t in left;
        PublishingNext(before, refs, user, blobs, tables, left, t);
        ok := Publish(t, db, left);
        if !ok {
          return;
        }
        left := left - {t};
      }
      PublishingEnd(before, refs, user, blobs, tables);
      ok := true;
    }

    /** Change rows of several tables, and capture each of these tables once. */
    method Rewrite(writes: seq<RowWrite>, deletes: seq<RowId>, prepared: seq<(RowId, BlobRef)>, ghost db: Db)
      returns (ok: bool)
      requires Imaged(db.log) && View() == Start(db)
      modifies this
      ensures ok ==> Good(db, View()) && user == Put(Removed(db.user, deletes), writes)
      ensures ok ==> forall t :: ResetsTable(effects, t) <==> t in TablesOf(writes, deletes)
      ensures ok ==> Puts(effects) == prepared
      ensures ok <==> Rewritable(db, blobs, writes, deletes, prepared)
      ensures ok ==> refs == WithoutAll(PutRefs(RemovedRefs(db.refs, blobs, deletes), prepared), user,
                                        TablesOf(writes, deletes) * blobs)
    {
      var tables := TablesOf(writes, deletes);
      StartIsPending(db, tables);
      RemovePending(deletes, db, tables);
      PutPrepared(prepared, db, tables);
      WritePending(writes, db, tables);
      ok := PublishAll(tables, db);
      if ok {
        NothingPending(db, View());
      }
    }
  }

  lemma NoResetsNone(effects: seq<ChangeKind>, table: Text)
    requires NoResets(effects)
    ensures !ResetsTable(effects, table)
  {
  }

  lemma NoResetsAnywhere(effects: seq<ChangeKind>)
    requires NoResets(effects)
    ensures forall t :: !ResetsTable(effects, t)
  {
  }

  lemma StartIsPending(db: Db, tables: set<Text>)
    ensures Pending(db, Start(db), tables)
  {
    StartIsGood(db);
    PendingMore(db, Start(db), {}, tables);
    assert {} + tables == tables;
  }

  lemma LoadedIsPending(db: Db, table: Text, user: Rows)
    requires SameOutside(db.user, user, {table})
    ensures Pending(db, Start(db).(user := user), {table})
  {
    StartIsPending(db, {table});
    RowsMayChange(db, Start(db), {table}, user);
  }
}
