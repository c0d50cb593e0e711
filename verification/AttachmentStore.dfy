/**
 A database with its attachment files (src/journal_blob.rs:77-122, src/repository.rs:781-794): an
 attachment's file is written under a new name before the transaction that names it, whether that
 transaction goes through, is refused, or is never reached.
 */
module AttachmentStore {
  import opened Prelude
  import opened ChangeCodec
  import opened Journal
  import opened RowTables
  import opened Drafts
  import opened Work
  import opened WorkLaws
  import opened Replaying
  import opened Batches
  import opened Attachments
  import Repository
  import Consumers

  const SLASH := 0x2F
  const BACKSLASH := 0x5C
  const COLON := 0x3A
  const DOT := 0x2E

  /** An attachment to write: its row, the new name of its file, and its size. */
  datatype Attachment = Attachment(row: RowId, name: Text, size: nat)

  function FileOf(a: Attachment): FileId {
    FileId(a.row.table, a.name)
  }

  function RefOf(a: Attachment): (RowId, BlobRef) {
    (a.row, BlobRef(a.name, a.size))
  }

  function RefsFor(attachments: seq<Attachment>): (r: seq<(RowId, BlobRef)>)
    ensures |r| == |attachments| && forall i :: 0 <= i < |r| ==> r[i] == RefOf(attachments[i])
  {
    seq(|attachments|, i requires 0 <= i < |attachments| => RefOf(attachments[i]))
  }

  /** The files of `attachments` added. */
  function WithFiles(files: Files, attachments: seq<Attachment>): Files {
    if attachments == [] then files
    else
      var last := attachments[|attachments| - 1];
      WithFiles(files, attachments[..|attachments| - 1])[FileOf(last) := last.size]
  }

  predicate Among(attachments: seq<Attachment>, f: FileId) {
    exists i :: 0 <= i < |attachments| && FileOf(attachments[i]) == f
  }

  /** A table name that is one component of a path. */
  predicate PathSafe(table: Text) {
    table != [] && SLASH !in table && BACKSLASH !in table && COLON !in table && table != [DOT] && table != [DOT, DOT]
  }

  predicate Attachable(blobs: set<Text>, table: Text) {
    !Reserved(table) && PathSafe(table) && table in blobs
  }

  /** The row has an attachment whose file can be opened. */
  predicate Readable(refs: Refs, row: RowId) {
    row in refs && PathSafe(row.table) && PathSafe(refs[row].id)
  }

  /** Every name is new, as random names are. */
  ghost predicate NewNames(files: Files, attachments: seq<Attachment>) {
    && (forall i :: 0 <= i < |attachments| ==> FileOf(attachments[i]) !in files)
    && (forall i, j :: 0 <= i < j < |attachments| ==> FileOf(attachments[i]) != FileOf(attachments[j]))
  }

  lemma {:induction false} WithFilesIs(files: Files, attachments: seq<Attachment>)
    requires NewNames(files, attachments)
    ensures AllKnown(WithFiles(files, attachments), RefsFor(attachments))
    ensures forall f :: f in WithFiles(files, attachments) ==> f in files || Among(attachments, f)
  {
    if attachments != [] {
      var before, last := attachments[..|attachments| - 1], attachments[|attachments| - 1];
      WithFilesIs(files, before);
      forall i | 0 <= i < |attachments|
        ensures Known(WithFiles(files, attachments), attachments[i].row.table, RefOf(attachments[i]).1)
      {
        assert i < |before| ==> RefsFor(before)[i] == RefOf(attachments[i]) && FileOf(attachments[i]) != FileOf(last);
      }
      forall f | f in WithFiles(files, attachments) ensures f in files || Among(attachments, f) {
        if f != FileOf(last) && f !in files {
          var i :| 0 <= i < |before| && FileOf(before[i]) == f;
          assert FileOf(attachments[i]) == f;
        }
      }
    }
  }

  /** The first `n` files are written. */
  ghost predicate Prepared(before: Files, attachments: seq<Attachment>, n: nat, files: Files,
                           refs: seq<(RowId, BlobRef)>)
  {
    && n <= |attachments|
    && files == WithFiles(before, attachments[..n])
    && refs == RefsFor(attachments[..n])
  }

  /** The next name is still free. */
  lemma PreparedNext(before: Files, attachments: seq<Attachment>, n: nat, files: Files, refs: seq<(RowId, BlobRef)>)
    requires NewNames(before, attachments) && n < |attachments| && Prepared(before, attachments, n, files, refs)
    ensures var a := attachments[n];
            && FileOf(a) !in files
            && Prepared(before, attachments, n + 1, files[FileOf(a) := a.size], refs + [RefOf(a)])
  {
    WithFilesIs(before, attachments[..n]);
    assert attachments[..n + 1][..n] == attachments[..n];
    OneMoreRef(attachments, n);
  }

  lemma OneMoreRef(attachments: seq<Attachment>, n: nat)
    requires n < |attachments|
    ensures RefsFor(attachments[..n + 1]) == RefsFor(attachments[..n]) + [RefOf(attachments[n])]
  {
  }

  ghost predicate AllKnown(files: Files, refs: seq<(RowId, BlobRef)>) {
    forall i :: 0 <= i < |refs| ==> Known(files, refs[i].0.table, refs[i].1)
  }

  /** What the changes put in is what was written. */
  lemma PutsAreKnown(files: Files, effects: seq<ChangeKind>, refs: seq<(RowId, BlobRef)>)
    requires Puts(effects) == refs && AllKnown(files, refs)
    ensures PutsKnown(files, effects)
  {
    forall i | 0 <= i < |effects| && effects[i].BlobPut?
      ensures Known(files, effects[i].table, BlobRef(effects[i].blobId, effects[i].size))
    {
      PutIsListed(effects, i);
    }
  }

  lemma DraftBacked(db: Db, past: Past, d: Draft, max: Option<nat>, files: Files, refs: seq<(RowId, BlobRef)>)
    requires Inv(db, past) && Good(db, d) && Backed(db, files) && Puts(d.effects) == refs && AllKnown(files, refs)
    ensures Backed(Replaying.Publish(db, d, max), files)
  {
    PutsAreKnown(files, d.effects, refs);
    CommitBacked(db, past, d, max, files);
  }

  lemma AppliedPutsNothing(db: Db, blobs: set<Text>, writes: seq<RowWrite>, deletes: seq<RowId>)
    ensures Puts(Applied(Start(db), blobs, writes, deletes).effects) == []
  {
    WritesPutNothing(Start(db), writes);
    DeletesPutNothing(WriteAll(Start(db), writes), blobs, deletes);
  }

  class Store {
    const manager: Repository.Manager
    const files: FileStore

    ghost function State(): Disk
      reads this, manager, manager.journal, files
    {
      Disk(World(manager.View(), manager.journal.max, manager.past), files.files)
    }

    /** The database is sound, every file it names is there, and rows of attachment tables have attachments. */
    ghost predicate Valid()
      reads this, manager, manager.journal, files
    {
      manager.Valid() && DiskInv(State()) && RowsAttached(manager.user, manager.refs, manager.blobs)
    }

    constructor (read: Reader, blobs: set<Text>, database: Bytes, max: Option<nat>)
      ensures Valid() && manager.View() == FreshDb() && files.files == map[]
      ensures fresh(manager) && fresh(manager.journal) && fresh(files)
    {
      manager := new Repository.Manager(read, blobs, database, max);
      files := new FileStore();
      new;
      FreshDisk(max);
    }

    /**
     Write the file of an attachment under a new name, where its table can have attachments. A stop after
     this leaves a file that nothing names.
     */
    method Prepare(a: Attachment) returns (r: Result<BlobRef, Repository.DbError>)
      requires Valid() && FileOf(a) !in files.files
      modifies files
      ensures Valid() && (r.Ok? <==> Attachable(manager.blobs, a.row.table))
      ensures r.Ok? ==> r.value == RefOf(a).1 && files.files == old(files.files)[FileOf(a) := a.size]
      ensures r.Err? ==> files.files == old(files.files)
    {
      if Reserved(a.row.table) {
        return Err(Repository.ReservedTable);
      }
      if !PathSafe(a.row.table) {
        return Err(Repository.BadPath);
      }
      if a.row.table !in manager.blobs {
        return Err(Repository.NoAttachment);
      }
      MoreFiles(manager.View(), files.files, FileOf(a), a.size);
      files.WriteNew(FileOf(a), a.size);
      r := Ok(BlobRef(a.name, a.size));
    }

    /**
     Write a copy of a row's current attachment, of this database or another, under a new name. A source
     that has the attachment has its file, so a copy never fails for want of it, and is of the same size.
     */
    method PrepareCopy(source: Store, from: RowId, row: RowId, name: Text)
      returns (r: Result<BlobRef, Repository.DbError>)
      requires Valid() && source.Valid() && FileId(row.table, name) !in files.files
      modifies files
      ensures Valid() && (r.Ok? <==> Attachable(manager.blobs, row.table) && Readable(source.manager.refs, from))
      ensures r.Ok? ==> r.value == BlobRef(name, source.manager.refs[from].size)
      ensures files.files ==
              if r.Ok? then old(files.files)[FileId(row.table, name) := r.value.size] else old(files.files)
    {
      if Reserved(row.table) {
        return Err(Repository.ReservedTable);
      }
      if row.table !in manager.blobs || !PathSafe(row.table) {
        return Err(Repository.BadPath);
      }
      if from !in source.manager.refs {
        return Err(Repository.NoAttachment);
      }
      var ref := source.manager.refs[from];
      if !PathSafe(from.table) || !PathSafe(ref.id) {
        return Err(Repository.BadPath);
      }
      assert Known(source.files.files, from.table, ref);
      var size := source.files.files[FileId(from.table, ref.id)];
      r := Prepare(Attachment(row, name, size));
    }

    /** Copy an attachment, then name the copy. */
    method Copy(source: Store, from: RowId, row: RowId, name: Text) returns (r: Result<(), Repository.DbError>)
      requires Valid() && source.Valid() && FileId(row.table, name) !in files.files
      requires manager.journal.log.head + 2 < U64 - 1
      modifies files, manager`user, manager`refs, manager`last, manager`forward, manager`reverse, manager`past
      modifies manager.journal`log
      ensures Valid()
      ensures r.Ok? ==> old(Readable(source.manager.refs, from))
                        && manager.refs == old(manager.refs)[row := BlobRef(name, old(source.manager.refs)[from].size)]
      ensures r.Err? ==> manager.View() == old(manager.View())
    {
      var ref := PrepareCopy(source, from, row, name);
      if ref.Err? {
        return Err(ref.error);
      }
      r := Name(row, ref.value, None);
    }

    /** Write files one after the other, up to the first that is refused. */
    method PrepareAll(attachments: seq<Attachment>)
      returns (n: nat, prepared: seq<(RowId, BlobRef)>, refused: Option<Repository.DbError>)
      requires Valid() && NewNames(files.files, attachments)
      modifies files
      ensures Valid() && Prepared(old(files.files), attachments, n, files.files, prepared)
      ensures forall i :: 0 <= i < n ==> Attachable(manager.blobs, attachments[i].row.table)
      ensures if refused.None? then n == |attachments|
              else n < |attachments| && !Attachable(manager.blobs, attachments[n].row.table)
    {
      ghost var before := files.files;
      n, prepared := 0, [];
      while n < |attachments|
        invariant Valid() && Prepared(before, attachments, n, files.files, prepared)
        invariant forall i :: 0 <= i < n ==> Attachable(manager.blobs, attachments[i].row.table)
      {
        var a := attachments[n];
        PreparedNext(before, attachments, n, files.files, prepared);
        var ref := Prepare(a);
        if ref.Err? {
          return n, prepared, Some(ref.error);
        }
        n, prepared := n + 1, prepared + [(a.row, ref.value)];
      }
      refused := None;
    }

    /** Write an attachment's file, then publish it with the row that describes it. */
    method Publish(a: Attachment, metadata: Option<Bytes>) returns (r: Result<(), Repository.DbError>)
      requires Valid() && FileOf(a) !in files.files && manager.journal.log.head + 2 < U64 - 1
      modifies files, manager`user, manager`refs, manager`last, manager`forward, manager`reverse, manager`past
      modifies manager.journal`log
      ensures Valid()
      ensures r.Ok? ==> manager.refs == old(manager.refs)[a.row := RefOf(a).1]
      ensures r.Err? ==> manager.View() == old(manager.View())
      ensures files.files ==
              if Attachable(manager.blobs, a.row.table) then old(files.files)[FileOf(a) := a.size] else old(files.files)
    {
      var ref := Prepare(a);
      if ref.Err? {
        return Err(ref.error);
      }
      r := Name(a.row, ref.value, metadata);
    }

    /** Publish an attachment whose file is written. */
    method Name(row: RowId, ref: BlobRef, metadata: Option<Bytes>) returns (r: Result<(), Repository.DbError>)
      requires Valid() && AllKnown(files.files, [(row, ref)]) && manager.journal.log.head + 2 < U64 - 1
      modifies manager`user, manager`refs, manager`last, manager`forward, manager`reverse, manager`past
      modifies manager.journal`log
      ensures Valid()
      ensures r.Ok? ==> manager.refs == old(manager.refs)[row := ref]
      ensures r.Err? ==> manager.View() == old(manager.View())
    {
      ghost var db, past := manager.View(), manager.past;
      ghost var draft;
      r, draft := manager.PublishBlob(row, ref, metadata);
      if r.Ok? {
        DraftBacked(db, past, draft, manager.journal.max, files.files, [(row, ref)]);
      }
    }

    /** Write the files of several attachments, then rewrite the tables that name them. */
    method Rewrite(writes: seq<RowWrite>, deletes: seq<RowId>, attachments: seq<Attachment>)
      returns (r: Result<(), Repository.DbError>)
      requires Valid() && NewNames(files.files, attachments)
      modifies files, manager`user, manager`refs, manager`last, manager`forward, manager`reverse, manager`past
      modifies manager.journal`log
      ensures Valid()
      ensures r.Ok? ==> manager.user == Put(Removed(old(manager.user), deletes), writes)
      ensures r.Ok? ==> files.files == WithFiles(old(files.files), attachments)
      ensures r.Err? ==> manager.View() == old(manager.View())
    {
      WithFilesIs(files.files, attachments);
      var n, prepared, refused := PrepareAll(attachments);
      if refused.Some? {
        return Err(refused.value);
      }
      assert attachments[..n] == attachments;
      r := NameAll(writes, deletes, prepared);
    }

    method NameAll(writes: seq<RowWrite>, deletes: seq<RowId>, prepared: seq<(RowId, BlobRef)>)
      returns (r: Result<(), Repository.DbError>)
      requires Valid() && AllKnown(files.files, prepared)
      modifies manager`user, manager`refs, manager`last, manager`forward, manager`reverse, manager`past
      modifies manager.journal`log
      ensures Valid()
      ensures r.Ok? ==> manager.user == Put(Removed(old(manager.user), deletes), writes)
      ensures r.Err? ==> manager.View() == old(manager.View())
    {
      ghost var db, past := manager.View(), manager.past;
      ghost var draft;
      r, draft := manager.RewriteTables(writes, deletes, prepared);
      if r.Ok? {
        RewroteAttached(db, manager.blobs, writes, deletes, prepared);
        DraftBacked(db, past, draft, manager.journal.max, files.files, prepared);
      }
    }

    /** A table put in place of another only lets go of attachments. */
    method ReplaceTable(table: Text, entries: seq<(Text, Bytes)>) returns (r: Result<(), Repository.DbError>)
      requires Valid()
      modifies manager`user, manager`refs, manager`last, manager`forward, manager`reverse, manager`past
      modifies manager.journal`log
      ensures Valid()
      ensures r.Ok? ==> manager.user == WithTable(old(manager.user), table, Entries(entries))
      ensures r.Err? ==> manager.View() == old(manager.View())
    {
      ghost var db, past := manager.View(), manager.past;
      ghost var draft;
      r, draft := manager.ReplaceTable(table, entries);
      if r.Ok? {
        ReplacedAttached(db, manager.blobs, table, entries);
        DraftBacked(db, past, draft, manager.journal.max, files.files, []);
      }
    }

    /** Writes and deletes name no new file. */
    method Apply(writes: seq<RowWrite>, deletes: seq<RowId>) returns (r: Result<seq<bool>, Repository.DbError>)
      requires Valid() && manager.journal.log.head + |writes| + 2 * |deletes| < U64 - 1
      modifies manager`user, manager`refs, manager`last, manager`forward, manager`reverse, manager`past
      modifies manager.journal`log
      ensures Valid()
      ensures var a := Atomic(manager.Checks(), old(manager.View()), writes, deletes);
              (r.Ok? <==> a.Some?) && manager.View() == (if a.Some? then a.value else old(manager.View()))
    {
      ghost var db, past := manager.View(), manager.past;
      ghost var d := Applied(Start(db), manager.blobs, writes, deletes);
      AppliedIsGood(db, manager.blobs, writes, deletes);
      AppliedPutsNothing(db, manager.blobs, writes, deletes);
      r := manager.ApplyChanges(writes, deletes);
      if r.Ok? {
        TookAttached(db.user, db.refs, manager.blobs, writes, deletes, manager.user, manager.refs);
        DraftBacked(db, past, d, manager.journal.max, files.files, []);
      }
    }

    /** Acknowledging only lets go of names. */
    method Ack(token: Consumers.Token, upto: nat) returns (r: Result<(), Consumers.JournalError>)
      requires Valid()
      modifies manager.journal`log
      ensures Valid()
      ensures var journal, op := manager.journal, Consumers.Ack(token, upto);
              && journal.log == Consumers.Step(old(journal.log), journal.database, journal.max, op)
              && (r.Ok? <==> Consumers.Body(old(journal.log), journal.database, op).Ok?)
    {
      var journal := manager.journal;
      RequestBacked(manager.View(), journal.database, journal.max, Consumers.Ack(token, upto), files.files);
      r := manager.Ack(token, upto);
    }

    /** The clean-up at open finds every named file, and leaves in the attachment folders exactly these. */
    method Reconcile() returns (ok: bool)
      requires Valid()
      modifies files
      ensures Valid() && ok
      ensures forall f: FileId :: f.table in manager.blobs ==> (f in files.files <==> NamesFile(manager.View(), f))
    {
      forall f | NamesFile(manager.View(), f) ensures f in files.files {
        BackedIsThere(manager.View(), files.files, f);
      }
      NamedStaysBacked(manager.View(), manager.blobs, files.files);
      ok := files.Reconcile(manager.View(), manager.blobs);
    }
  }
}
