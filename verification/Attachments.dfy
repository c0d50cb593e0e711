/**
 Attachment files and the references to them (src/journal_blob.rs:33-157, 295-401), in a plain store:
 a file is written before the transaction that names it, and unnamed files go when a database is opened.
 */
module Attachments {
  import opened Prelude
  import opened ChangeCodec
  import opened Journal
  import opened RowTables
  import opened LastWrite
  import opened Drafts
  import opened Replaying
  import Consumers

  /** A file in the folder of a table. */
  datatype FileId = FileId(table: Text, name: Text)

  /** The files there are, and their sizes. */
  type Files = map<FileId, nat>

  // ---- what is named ----

  predicate RefNames(refs: Refs, row: RowId, f: FileId) {
    row in refs && f == FileId(row.table, refs[row].id)
  }

  predicate ChangeNames(c: ChangeKind, f: FileId) {
    (c.BlobPut? || c.BlobDelete?) && f == FileId(c.table, c.blobId)
  }

  predicate ImageNames(log: Log, k: nat, key: Text, f: FileId) {
    && k in log.changes && log.changes[k].TableReset? && log.changes[k].snapshot in log.images
    && key in log.images[log.changes[k].snapshot].refs
    && f == FileId(log.changes[k].table, log.images[log.changes[k].snapshot].refs[key].id)
  }

  /** A current reference, a retained change, or a retained reset image names the file. */
  ghost predicate NamesFile(db: Db, f: FileId) {
    || (exists row :: RefNames(db.refs, row, f))
    || (exists k :: k in db.log.changes && ChangeNames(db.log.changes[k], f))
    || (exists k, key :: ImageNames(db.log, k, key, f))
  }

  // ---- what is there ----

  predicate Known(files: Files, table: Text, ref: BlobRef) {
    FileId(table, ref.id) in files && files[FileId(table, ref.id)] == ref.size
  }

  ghost predicate RefsBacked(files: Files, refs: Refs) {
    forall row :: row in refs ==> Known(files, row.table, refs[row])
  }

  predicate ChangeBacked(files: Files, c: ChangeKind) {
    c.BlobPut? || c.BlobDelete? ==> Known(files, c.table, BlobRef(c.blobId, c.size))
  }

  ghost predicate ImageBacked(files: Files, c: ChangeKind, images: map<Text, Image>) {
    c.TableReset? && c.snapshot in images ==>
      forall key :: key in images[c.snapshot].refs ==> Known(files, c.table, images[c.snapshot].refs[key])
  }

  /** Everything named is there, with the size it was named with. */
  ghost predicate Backed(db: Db, files: Files) {
    && RefsBacked(files, db.refs)
    && (forall k :: k in db.log.changes ==> ChangeBacked(files, db.log.changes[k]))
    && (forall k :: k in db.log.changes ==> ImageBacked(files, db.log.changes[k], db.log.images))
  }

  lemma BackedIsThere(db: Db, files: Files, f: FileId)
    requires Backed(db, files) && NamesFile(db, f)
    ensures f in files
  {
    if k, key :| ImageNames(db.log, k, key, f) {
      assert ImageBacked(files, db.log.changes[k], db.log.images);
    } else if k :| k in db.log.changes && ChangeNames(db.log.changes[k], f) {
      assert ChangeBacked(files, db.log.changes[k]);
    }
  }

  // ---- a commit ----

  /** Every attachment a transaction puts in has its file. */
  ghost predicate PutsKnown(files: Files, effects: seq<ChangeKind>) {
    forall i :: 0 <= i < |effects| && effects[i].BlobPut? ==>
      Known(files, effects[i].table, BlobRef(effects[i].blobId, effects[i].size))
  }

  lemma {:induction false} EffectsBacked(files: Files, refs: Refs, effects: seq<ChangeKind>)
    requires RefsBacked(files, refs) && DeletesTrue(refs, effects) && PutsKnown(files, effects)
    ensures RefsBacked(files, ReplayRefs(refs, effects))
    ensures forall i :: 0 <= i < |effects| ==> ChangeBacked(files, effects[i])
  {
    if effects != [] {
      var before := effects[..|effects| - 1];
      EffectsBacked(files, refs, before);
      forall i | 0 <= i < |effects| ensures ChangeBacked(files, effects[i]) {
        assert i < |before| ==> effects[i] == before[i];
      }
    }
  }

  lemma NewImageBacked(files: Files, refs: Refs, c: ChangeKind, images: map<Text, Image>)
    requires RefsBacked(files, refs) && RefsTrue(c, images, refs)
    ensures ImageBacked(files, c, images)
  {
  }

  lemma CommitBacked(db: Db, past: Past, d: Draft, max: Option<nat>, files: Files)
    requires Inv(db, past) && Good(db, d) && Backed(db, files) && PutsKnown(files, d.effects)
    ensures Backed(Publish(db, d, max), files)
  {
    var a := Append(db.log, d.effects).(images := d.images, resets := d.resets);
    var t := Publish(db, d, max);
    EffectsBacked(files, db.refs, d.effects);
    SettledRecalls(a, max);
    forall k | k in t.log.changes
      ensures ChangeBacked(files, t.log.changes[k]) && ImageBacked(files, t.log.changes[k], t.log.images)
    {
      AppendedRow(db.log, d.effects, k);
      if db.log.head < k <= db.log.head + |d.effects| {
        assert RefsTrue(d.effects[k - db.log.head - 1], d.images, d.refs);
        NewImageBacked(files, d.refs, d.effects[k - db.log.head - 1], d.images);
      } else {
        OldImageBacked(db, d, k, files);
      }
    }
  }

  lemma OldImageBacked(db: Db, d: Draft, k: nat, files: Files)
    requires LogInv(db.log) && Draftable(db.log, d.effects, d.images, d.resets) && Backed(db, files)
             && k in db.log.changes
    ensures ImageBacked(files, db.log.changes[k], d.images)
  {
    var c := db.log.changes[k];
    if c.TableReset? {
      assert IsReset(db.log.changes, k, c.snapshot);
      assert ImageBacked(files, c, db.log.images);
    }
  }

  // ---- runs ----

  datatype Event =
    | WriteFile(file: FileId, size: nat)
    | Change(op: Op)
    | Reconcile

  datatype Disk = Disk(world: World, files: Files)

  /** The files that are named, and those in folders that are not ours. */
  ghost function Wanted(db: Db, blobs: set<Text>, files: Files): Files {
    map f | f in files && (f.table !in blobs || NamesFile(db, f)) :: files[f]
  }

  ghost function Happen(d: Disk, database: Bytes, blobs: set<Text>, e: Event): Disk {
    match e
    case WriteFile(f, n) => d.(files := d.files[f := n])
    case Change(op) => d.(world := Do(d.world, database, op))
    case Reconcile => d.(files := Wanted(d.world.db, blobs, d.files))
  }

  /** A file gets a new name; a transaction only names files that are written. */
  ghost predicate CanHappen(d: Disk, e: Event) {
    && (e.WriteFile? ==> e.file !in d.files)
    && (e.Change? ==> Possible(d.world, e.op) && (e.op.Commit? ==> PutsKnown(d.files, e.op.draft.effects)))
  }

  ghost predicate CanRun(d: Disk, database: Bytes, blobs: set<Text>, run: seq<Event>)
    decreases |run|
  {
    run == [] || (CanHappen(d, run[0]) && CanRun(Happen(d, database, blobs, run[0]), database, blobs, run[1..]))
  }

  ghost function AfterRun(d: Disk, database: Bytes, blobs: set<Text>, run: seq<Event>): Disk
    decreases |run|
  {
    if run == [] then d else AfterRun(Happen(d, database, blobs, run[0]), database, blobs, run[1..])
  }

  ghost predicate DiskInv(d: Disk) {
    Inv(d.world.db, d.world.past) && Backed(d.world.db, d.files)
  }

  lemma ConsumeBacked(log: Log, next: Log, db: Db, files: Files)
    requires Backed(db, files) && db.log == log
    requires forall k :: k in next.changes ==> k in log.changes && next.changes[k] == log.changes[k]
    requires forall s :: s in next.images ==> s in log.images && next.images[s] == log.images[s]
    ensures Backed(db.(log := next), files)
  {
    forall k | k in next.changes ensures ImageBacked(files, next.changes[k], next.images) {
      assert ImageBacked(files, log.changes[k], log.images);
    }
  }

  lemma NamedStaysBacked(db: Db, blobs: set<Text>, files: Files)
    requires Backed(db, files)
    ensures Backed(db, Wanted(db, blobs, files))
  {
    var kept := Wanted(db, blobs, files);
    forall row | row in db.refs ensures Known(kept, row.table, db.refs[row]) {
      assert RefNames(db.refs, row, FileId(row.table, db.refs[row].id));
    }
    forall k | k in db.log.changes ensures ChangeBacked(kept, db.log.changes[k]) {
      var c := db.log.changes[k];
      assert ChangeBacked(files, c);
      if c.BlobPut? || c.BlobDelete? {
        assert ChangeNames(c, FileId(c.table, c.blobId));
      }
    }
    forall k | k in db.log.changes ensures ImageBacked(kept, db.log.changes[k], db.log.images) {
      ImageStaysBacked(db, blobs, files, k);
    }
  }

  lemma ImageStaysBacked(db: Db, blobs: set<Text>, files: Files, k: nat)
    requires Backed(db, files) && k in db.log.changes
    ensures ImageBacked(Wanted(db, blobs, files), db.log.changes[k], db.log.images)
  {
    var c := db.log.changes[k];
    assert ImageBacked(files, c, db.log.images);
    if c.TableReset? && c.snapshot in db.log.images {
      forall key | key in db.log.images[c.snapshot].refs
        ensures Known(Wanted(db, blobs, files), c.table, db.log.images[c.snapshot].refs[key])
      {
        assert ImageNames(db.log, k, key, FileId(c.table, db.log.images[c.snapshot].refs[key].id));
      }
    }
  }

  lemma RequestBacked(db: Db, database: Bytes, max: Option<nat>, op: Consumers.LogOp, files: Files)
    requires Backed(db, files) && !op.Write?
    ensures Backed(db.(log := Consumers.Step(db.log, database, max, op)), files)
  {
    var b := Consumers.Body(db.log, database, op);
    if b.Ok? {
      SettledRecalls(b.value, max);
      ConsumeBacked(db.log, Settled(b.value, max), db, files);
    }
  }

  lemma SettledBacked(db: Db, max: Option<nat>, files: Files)
    requires Backed(db, files)
    ensures Backed(db.(log := Settled(db.log, max)), files)
  {
    SettledRecalls(db.log, max);
    ConsumeBacked(db.log, Settled(db.log, max), db, files);
  }

  lemma ChangeKeeps(d: Disk, database: Bytes, blobs: set<Text>, op: Op)
    requires DiskInv(d) && CanHappen(d, Change(op))
    ensures DiskInv(Happen(d, database, blobs, Change(op)))
  {
    var w := d.world;
    DoKeeps(w, database, op);
    match op {
      case Commit(x) => CommitBacked(w.db, w.past, x, w.max, d.files);
      case Consume(o) => RequestBacked(w.db, database, w.max, o, d.files);
      case Retain(max) => SettledBacked(w.db, max, d.files);
    }
  }

  lemma HappenKeeps(d: Disk, database: Bytes, blobs: set<Text>, e: Event)
    requires DiskInv(d) && CanHappen(d, e)
    ensures DiskInv(Happen(d, database, blobs, e))
  {
    match e {
      case WriteFile(f, n) =>
        MoreFiles(d.world.db, d.files, f, n);
      case Change(op) =>
        ChangeKeeps(d, database, blobs, op);
      case Reconcile =>
        NamedStaysBacked(d.world.db, blobs, d.files);
    }
  }

  lemma MoreFiles(db: Db, files: Files, f: FileId, n: nat)
    requires Backed(db, files) && f !in files
    ensures Backed(db, files[f := n])
  {
    forall k | k in db.log.changes
      ensures ChangeBacked(files[f := n], db.log.changes[k])
              && ImageBacked(files[f := n], db.log.changes[k], db.log.images)
    {
      assert ChangeBacked(files, db.log.changes[k]) && ImageBacked(files, db.log.changes[k], db.log.images);
    }
  }

  /**
   In every run, stops between writing a file and naming it included, every file that a reference, a
   retained change or a retained image names is there, with its size.
   */
  lemma {:induction false} NamedFilesAreThere(d: Disk, database: Bytes, blobs: set<Text>, run: seq<Event>)
    requires DiskInv(d) && CanRun(d, database, blobs, run)
    ensures DiskInv(AfterRun(d, database, blobs, run))
    ensures forall f :: NamesFile(AfterRun(d, database, blobs, run).world.db, f) ==>
            f in AfterRun(d, database, blobs, run).files
    decreases |run|
  {
    if run != [] {
      HappenKeeps(d, database, blobs, run[0]);
      NamedFilesAreThere(Happen(d, database, blobs, run[0]), database, blobs, run[1..]);
    } else {
      forall f | NamesFile(d.world.db, f) ensures f in d.files {
        BackedIsThere(d.world.db, d.files, f);
      }
    }
  }

  lemma FreshDisk(max: Option<nat>)
    ensures DiskInv(Disk(World(FreshDb(), max, FreshPast()), map[]))
  {
    FreshInv();
  }

  // ---- cleaning up ----

  /** The files of a database. */
  class FileStore {
    var files: Files

    constructor ()
      ensures files == map[]
    {
      files := map[];
    }

    /** Write a file under a new name; nothing names it yet. */
    method WriteNew(f: FileId, size: nat)
      requires f !in files
      modifies this
      ensures files == old(files)[f := size]
    {
      files := files[f := size];
    }

    method CollectRefs(refs: Refs) returns (keep: set<FileId>)
      ensures forall f :: f in keep <==> exists row :: RefNames(refs, row, f)
    {
      keep := {};
      var left := refs.Keys;
      while left != {}
        invariant left <= refs.Keys
        invariant forall row :: row in refs && row !in left ==> FileId(row.table, refs[row].id) in keep
        invariant forall f :: f in keep ==> exists row :: RefNames(refs, row, f)
        decreases |left|
      {
        var row :| row in left;
        assert RefNames(refs, row, FileId(row.table, refs[row].id));
        keep := keep + {FileId(row.table, refs[row].id)};
        left := left - {row};
      }
    }

    method CollectImage(table: Text, refs: map<Text, BlobRef>) returns (keep: set<FileId>)
      ensures forall f :: f in keep <==> exists key :: key in refs && f == FileId(table, refs[key].id)
    {
      keep := {};
      var left := refs.Keys;
      while left != {}
        invariant left <= refs.Keys
        invariant forall key :: key in refs && key !in left ==> FileId(table, refs[key].id) in keep
        invariant forall f :: f in keep ==> exists key :: key in refs && f == FileId(table, refs[key].id)
        decreases |left|
      {
        var key :| key in left;
        keep := keep + {FileId(table, refs[key].id)};
        left := left - {key};
      }
    }

    /** The files one retained change names. */
    method CollectChange(log: Log, k: nat) returns (keep: set<FileId>)
      requires k in log.changes
      ensures forall f :: f in keep <==> ChangeNames(log.changes[k], f) || exists key :: ImageNames(log, k, key, f)
    {
      match log.changes[k] {
        case BlobPut(t, _, id, _) => keep := {FileId(t, id)};
        case BlobDelete(t, _, id, _) => keep := {FileId(t, id)};
        case TableReset(t, s) =>
          if s !in log.images {
            return {};
          }
          keep := CollectImage(t, log.images[s].refs);
          forall f ensures f in keep <==> exists key :: ImageNames(log, k, key, f) {
            if f in keep {
              var key :| key in log.images[s].refs && f == FileId(t, log.images[s].refs[key].id);
              assert ImageNames(log, k, key, f);
            }
          }
        case Upsert(_, _, _) => keep := {};
        case Delete(_, _) => keep := {};
      }
    }

    method CollectChanges(log: Log) returns (keep: set<FileId>)
      ensures forall f :: f in keep <==> exists k :: LogNames(log, k, f)
    {
      keep := {};
      var left := log.changes.Keys;
      while left != {}
        invariant left <= log.changes.Keys
        invariant forall k, f :: LogNames(log, k, f) && k !in left ==> f in keep
        invariant forall f :: f in keep ==> exists k :: LogNames(log, k, f)
        decreases |left|
      {
        var k :| k in left;
        var more := CollectChange(log, k);
        assert forall f :: f in more <==> LogNames(log, k, f);
        keep := keep + more;
        left := left - {k};
      }
    }

    /**
     At open: everything named must be there; then, in the folders of the registered attachment tables,
     every file that nothing names goes, and no other.
     */
    method Reconcile(db: Db, blobs: set<Text>) returns (ok: bool)
      modifies this
      ensures ok <==> forall f :: NamesFile(db, f) ==> f in old(files)
      ensures files == if ok then Wanted(db, blobs, old(files)) else old(files)
      ensures ok ==> forall f: FileId :: f.table in blobs ==> (f in files <==> NamesFile(db, f))
    {
      var a := CollectRefs(db.refs);
      var b := CollectChanges(db.log);
      var keep := a + b;
      NamesSplit(db);
      if !(keep <= files.Keys) {
        return false;
      }
      RemoveOthers(keep, blobs);
      assert files == Wanted(db, blobs, old(files));
      ok := true;
    }

    method RemoveOthers(keep: set<FileId>, blobs: set<Text>)
      modifies this
      ensures files == map f | f in old(files) && (f.table !in blobs || f in keep) :: old(files)[f]
    {
      var left := files.Keys;
      while left != {}
        invariant left <= old(files).Keys
        invariant forall f :: f in files <==> f in old(files) && (f.table !in blobs || f in keep || f in left)
        invariant forall f :: f in files ==> files[f] == old(files)[f]
        decreases |left|
      {
        var f :| f in left;
        if f.table in blobs && f !in keep {
          files := files - {f};
        }
        left := left - {f};
      }
    }
  }

  ghost predicate LogNames(log: Log, k: nat, f: FileId) {
    k in log.changes && (ChangeNames(log.changes[k], f) || exists key :: ImageNames(log, k, key, f))
  }

  lemma NamesSplit(db: Db)
    ensures forall f :: NamesFile(db, f) <==>
            (exists row :: RefNames(db.refs, row, f)) || (exists k :: LogNames(db.log, k, f))
  {
    forall f
      ensures NamesFile(db, f) <==> (exists row :: RefNames(db.refs, row, f)) || (exists k :: LogNames(db.log, k, f))
    {
      if k, key :| ImageNames(db.log, k, key, f) {
        assert LogNames(db.log, k, f);
      } else if k :| k in db.log.changes && ChangeNames(db.log.changes[k], f) {
        assert LogNames(db.log, k, f);
      }
      if k :| LogNames(db.log, k, f) {
        if !ChangeNames(db.log.changes[k], f) {
          var key :| ImageNames(db.log, k, key, f);
        }
      }
    }
  }
}
