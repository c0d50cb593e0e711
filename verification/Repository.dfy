/**
 The write side of a database (src/journal.rs:243-296, src/repository.rs:666-794): every transaction runs
 its body on a copy of the tables, is checked, numbered and settled, and is published whole or dropped.
 */
module Repository {
  import opened Prelude
  import opened ChangeCodec
  import opened Journal
  import opened JournalTx
  import opened RowTables
  import opened LastWrite
  import opened Drafts
  import opened Work
  import opened WorkLaws
  import opened Replaying
  import opened Batches
  import Consumers
  import UniqueIndex
  import IdContract

  datatype DbError = ReservedTable | NoAttachment | IdMismatch | NotUnique | Overflow | BadPath

  /** At most one effect for a write and two for a delete. */
  lemma {:induction false} DeletesAreShort(d: Draft, blobs: set<Text>, deletes: seq<RowId>)
    ensures |DeleteAll(d, blobs, deletes).effects| <= |d.effects| + 2 * |deletes|
  {
    if deletes != [] {
      DeletesAreShort(d, blobs, deletes[..|deletes| - 1]);
    }
  }

  lemma {:induction false} WritesAreShort(d: Draft, writes: seq<RowWrite>)
    ensures |WriteAll(d, writes).effects| == |d.effects| + |writes|
  {
    if writes != [] {
      WritesAreShort(d, writes[..|writes| - 1]);
    }
  }

  lemma AppliedIsShort(d: Draft, blobs: set<Text>, writes: seq<RowWrite>, deletes: seq<RowId>)
    ensures |Applied(d, blobs, writes, deletes).effects| <= |d.effects| + |writes| + 2 * |deletes|
  {
    WritesAreShort(d, writes);
    DeletesAreShort(WriteAll(d, writes), blobs, deletes);
  }

  /** The changes fit the counters of the log, and leave its head below the last number. */
  ghost predicate Numberable(log: Log, d: Draft) {
    Fits(log, d.effects) && log.head + |d.effects| < U64 - 1
  }

  /** The log tells the whole story of the rows, the index is theirs, and they keep their contracts. */
  ghost predicate Sane(db: Db, past: Past, read: Reader, defs: UniqueIndex.Definitions,
                       forward: UniqueIndex.Forward, reverse: UniqueIndex.Reverse, contracts: IdContract.Contracts) {
    && Inv(db, past)
    && UniqueIndex.Indexed(read, defs, db.user, forward, reverse)
    && IdContract.Holds(read, contracts, db.user)
  }

  /** A name the database keeps for itself. */
  predicate Kept(table: Text) {
    [95, 95] <= table
  }

  /** Writes and deletes are of user tables, and a row of an attachment table has its attachment. */
  predicate Admissible(refs: Refs, blobs: set<Text>, writes: seq<RowWrite>, deletes: seq<RowId>) {
    && (forall i :: 0 <= i < |writes| ==>
          !Kept(writes[i].id.table) && (writes[i].id.table in blobs ==> writes[i].id in refs))
    && (forall i :: 0 <= i < |deletes| ==> !Kept(deletes[i].table))
  }

  /**
   A transaction of writes and deletes goes through exactly if it is admissible, what it writes holds its
   keys, the rows it leaves are distinct under the constraints, and the counters have room.
   */
  ghost predicate Accepts(rules: Rules, db: Db, writes: seq<RowWrite>, deletes: seq<RowId>) {
    var d := Applied(Start(db), rules.blobs, writes, deletes);
    && Admissible(db.refs, rules.blobs, writes, deletes)
    && (forall i :: 0 <= i < |writes| ==>
          IdContract.OwnKey(rules.read, rules.contracts, writes[i].id.table, writes[i].id.key, writes[i].value))
    && UniqueIndex.AllDistinct(rules.read, rules.defs, d.user)
    && Fits(db.log, d.effects)
  }

  lemma AtomicMeans(rules: Rules, db: Db, writes: seq<RowWrite>, deletes: seq<RowId>)
    ensures Atomic(rules, db, writes, deletes).Some? <==> Accepts(rules, db, writes, deletes)
  {
    var d := Applied(Start(db), rules.blobs, writes, deletes);
    forall t ensures Reserved(t) <==> Kept(t) {
      ReservedMeans(t);
    }
    UniqueIndex.CleanMeans(rules.read, rules.defs, d.user);
    OwnKeysMean(rules, db, writes, deletes);
  }

  lemma ReservedMeans(table: Text)
    ensures Reserved(table) <==> Kept(table)
  {
    if Reserved(table) {
      assert table[..2] == [95, 95];
    }
  }

  lemma OwnKeysMean(rules: Rules, db: Db, writes: seq<RowWrite>, deletes: seq<RowId>)
    ensures var d := Applied(Start(db), rules.blobs, writes, deletes);
            IdContract.AllSound(rules.read, rules.contracts, d.effects, d.images) <==>
            forall i :: 0 <= i < |writes| ==>
              IdContract.OwnKey(rules.read, rules.contracts, writes[i].id.table, writes[i].id.key, writes[i].value)
  {
    var d := Applied(Start(db), rules.blobs, writes, deletes);
    AppliedLogs(db, rules.blobs, writes, deletes);
    LoggedUpserts(db.user, db.refs, rules.blobs, writes, deletes, d.effects);
    IdContract.SoundMeans(rules.read, rules.contracts, d.effects, d.images);
    forall i | 0 <= i < |writes|
      ensures Upsert(writes[i].id.table, writes[i].id.key, writes[i].value) in d.effects
    {
      assert d.effects[i] == Upsert(writes[i].id.table, writes[i].id.key, writes[i].value);
    }
  }

  lemma LoggedUpserts(user: Rows, refs: Refs, blobs: set<Text>, writes: seq<RowWrite>, deletes: seq<RowId>,
                      effects: seq<ChangeKind>)
    requires Logs(user, refs, blobs, writes, deletes, effects)
    ensures forall t, k, v :: Upsert(t, k, v) in effects <==> RowWrite(RowId(t, k), v) in writes
    ensures forall t, s :: TableReset(t, s) !in effects
  {
    var tail := effects[|writes|..];
    forall c ensures c in effects <==> c in effects[..|writes|] || c in tail {
      assert effects == effects[..|writes|] + tail;
    }
    forall t, k, v ensures Upsert(t, k, v) in effects <==> RowWrite(RowId(t, k), v) in writes {
      if RowWrite(RowId(t, k), v) in writes {
        var i :| 0 <= i < |writes| && writes[i] == RowWrite(RowId(t, k), v);
        assert effects[i] == Upsert(t, k, v);
      }
      if Upsert(t, k, v) in effects {
        var i :| 0 <= i < |writes| && effects[..|writes|][i] == Upsert(t, k, v);
        assert writes[i] == RowWrite(RowId(t, k), v);
      }
    }
  }

  class Manager {
    const read: Reader
    const blobs: set<Text>
    const journal: Consumers.JournalStore
    var user: Rows
    var refs: Refs
    var last: Last
    var defs: UniqueIndex.Definitions
    var forward: UniqueIndex.Forward
    var reverse: UniqueIndex.Reverse
    var contracts: IdContract.Contracts
    ghost var past: Past

    function View(): Db
      reads this, journal
    {
      Db(user, refs, last, journal.log)
    }

    ghost function Checks(): Rules
      reads this, journal
    {
      Rules(read, blobs, defs, contracts, journal.max)
    }

    ghost predicate Valid()
      reads this, journal
    {
      Sane(View(), past, read, defs, forward, reverse, contracts)
    }

    /** A new database. */
    constructor (read: Reader, blobs: set<Text>, database: Bytes, max: Option<nat>)
      ensures Valid() && fresh(journal) && View() == FreshDb() && past == FreshPast()
      ensures this.read == read && this.blobs == blobs && journal.max == max && defs == map[] && contracts == map[]
    {
      this.read, this.blobs := read, blobs;
      journal := new Consumers.JournalStore(database, max);
      user, refs, last := map[], map[], map[];
      defs, forward, reverse, contracts := map[], map[], map[], map[];
      past := FreshPast();
      new;
      FreshInv();
      assert UniqueIndex.Rebuilt(read, defs, user) == map[];
    }

    /** Check the ids a transaction writes, and bring the unique index to its rows. */
    method Check(d: Draft) returns (r: Result<(UniqueIndex.Forward, UniqueIndex.Reverse), DbError>)
      requires Valid() && Good(View(), d)
      ensures r.Ok? <==> Passes(Checks(), d)
      ensures r.Ok? ==> UniqueIndex.Indexed(read, defs, d.user, r.value.0, r.value.1)
    {
      GoodImages(View(), d);
      var ids := IdContract.Validate(read, contracts, d.effects, d.images);
      if ids.Err? {
        return Err(IdMismatch);
      }
      var index := new UniqueIndex.UniqueTx(defs, forward, reverse);
      ReplayAccounts(user, d.effects, d.images);
      var unique := index.Validate(read, d.effects, d.user, user);
      if unique.Err? {
        return Err(NotUnique);
      }
      r := Ok((index.forward, index.reverse));
    }

    method Stamp(d: Draft) returns (stamped: Last)
      requires Good(View(), d)
      ensures stamped == FoldOn(last, d.effects, journal.log.head, d.images)
    {
      var stamps := new LastWriteTx(last);
      stamps.StampAll(d.effects, journal.log.head, d.user, d.images);
      stamped := stamps.last;
    }

    /** Number and settle. */
    method Number(d: Draft) returns (ok: bool)
      requires LogInv(journal.log) && Good(View(), d) && journal.log.head + |d.effects| < U64 - 1
      modifies journal`log
      ensures ok <==> Fits(old(journal.log), d.effects)
      ensures journal.log == if ok then Committed(old(journal.log), d.effects, d.images, d.resets, journal.max)
              else old(journal.log)
    {
      GoodImages(View(), d);
      var events;
      ok, events := journal.Commit(d.effects, d.images, d.resets);
    }

    /** The end of every write transaction: check, stamp, number, settle, and publish. */
    method Commit(d: Draft) returns (r: Result<(), DbError>)
      requires Valid() && Good(View(), d) && journal.log.head + |d.effects| < U64 - 1
      modifies this`user, this`refs, this`last, this`forward, this`reverse, this`past, journal`log
      ensures Valid()
      ensures r.Ok? <==> Passes(Checks(), d) && Fits(old(journal.log), d.effects)
      ensures r.Ok? ==> View() == Publish(old(View()), d, journal.max) && past == Extended(old(past), d)
      ensures r.Err? ==> View() == old(View()) && past == old(past)
    {
      var index := Check(d);
      if index.Err? {
        return Err(index.error);
      }
      var ok := PublishDraft(d, index.value.0, index.value.1);
      r := if ok then Ok(()) else Err(Overflow);
    }

    /** A checked transaction is stamped, numbered, settled and published. */
    method PublishDraft(d: Draft, forward: UniqueIndex.Forward, reverse: UniqueIndex.Reverse) returns (ok: bool)
      requires Valid() && Good(View(), d) && journal.log.head + |d.effects| < U64 - 1
      requires IdContract.AllSound(read, contracts, d.effects, d.images)
               && UniqueIndex.Indexed(read, defs, d.user, forward, reverse)
      modifies this`user, this`refs, this`last, this`forward, this`reverse, this`past, journal`log
      ensures Valid() && ok == Fits(old(journal.log), d.effects)
      ensures ok ==> View() == Publish(old(View()), d, journal.max) && past == Extended(old(past), d)
      ensures !ok ==> View() == old(View()) && past == old(past)
    {
      var stamped := Stamp(d);
      ghost var next := Publish(View(), d, journal.max);
      Published(View(), past, d, journal.max, read, defs, forward, reverse, contracts);
      ok := Number(d);
      if ok {
        Install(d, stamped, forward, reverse, next, Extended(past, d));
      }
    }

    method Install(d: Draft, stamped: Last, forward: UniqueIndex.Forward, reverse: UniqueIndex.Reverse, ghost next: Db,
                   ghost story: Past)
      requires next == Db(d.user, d.refs, stamped, journal.log)
      requires Sane(next, story, read, defs, forward, reverse, contracts)
      modifies this`user, this`refs, this`last, this`forward, this`reverse, this`past
      ensures Valid() && View() == next && past == story
    {
      user, refs, last := d.user, d.refs, stamped;
      this.forward, this.reverse := forward, reverse;
      past := story;
      assert View() == next;
    }

    // ---- rows ----

    method CheckNames(writes: seq<RowWrite>, deletes: seq<RowId>) returns (ok: bool)
      ensures ok <==> Open(writes, deletes)
    {
      var i := 0;
      while i < |writes|
        invariant i <= |writes| && forall j :: 0 <= j < i ==> !Reserved(writes[j].id.table)
      {
        if Reserved(writes[i].id.table) {
          return false;
        }
        i := i + 1;
      }
      i := 0;
      while i < |deletes|
        invariant i <= |deletes| && forall j :: 0 <= j < i ==> !Reserved(deletes[j].table)
      {
        if Reserved(deletes[i].table) {
          return false;
        }
        i := i + 1;
      }
      ok := true;
    }

    /** The body of a transaction of writes and deletes. */
    method Draw(writes: seq<RowWrite>, deletes: seq<RowId>) returns (d: Option<Draft>, removed: seq<bool>)
      ensures d == if Allowed(refs, blobs, writes) then Some(Applied(Start(View()), blobs, writes, deletes)) else None
      ensures d.Some? ==> removed == WereThere(WriteAll(Start(View()), writes), blobs, deletes)
    {
      var tx := new WorkTx(View(), blobs);
      var ok := tx.WriteRows(writes);
      if !ok {
        return None, [];
      }
      removed := tx.DeleteRows(deletes);
      d := Some(tx.View());
    }

    /**
     Writes, then deletes, in one transaction, whole or not at all; it tells for each delete whether there
     was something.
     */
    method ApplyChanges(writes: seq<RowWrite>, deletes: seq<RowId>) returns (r: Result<seq<bool>, DbError>)
      requires Valid() && journal.log.head + |writes| + 2 * |deletes| < U64 - 1
      modifies this`user, this`refs, this`last, this`forward, this`reverse, this`past, journal`log
      ensures Valid()
      ensures var a := Atomic(Checks(), old(View()), writes, deletes);
              (r.Ok? <==> a.Some?) && View() == (if a.Some? then a.value else old(View()))
      ensures past == if r.Ok? then Extended(old(past), Applied(Start(old(View())), blobs, writes, deletes))
              else old(past)
      ensures r.Ok? <==> Accepts(Checks(), old(View()), writes, deletes)
      ensures r.Ok? ==> Took(old(user), old(refs), blobs, writes, deletes, user, refs)
                        && Answers(old(user), old(refs), blobs, writes, deletes, r.value)
    {
      ghost var rules, db := Checks(), View();
      AppliedTakes(db, blobs, writes, deletes);
      AppliedAnswers(db, blobs, writes, deletes);
      AtomicMeans(rules, db, writes, deletes);
      r := Transact(writes, deletes);
    }

    method Transact(writes: seq<RowWrite>, deletes: seq<RowId>) returns (r: Result<seq<bool>, DbError>)
      requires Valid() && journal.log.head + |writes| + 2 * |deletes| < U64 - 1
      modifies this`user, this`refs, this`last, this`forward, this`reverse, this`past, journal`log
      ensures Valid()
      ensures var a := Atomic(Checks(), old(View()), writes, deletes);
              (r.Ok? <==> a.Some?) && View() == (if a.Some? then a.value else old(View()))
      ensures past == if r.Ok? then Extended(old(past), Applied(Start(old(View())), blobs, writes, deletes))
              else old(past)
      ensures r.Ok? ==> r.value == WereThere(WriteAll(Start(old(View())), writes), blobs, deletes)
    {
      var open := CheckNames(writes, deletes);
      if !open {
        return Err(ReservedTable);
      }
      var d, removed := Draw(writes, deletes);
      if d.None? {
        return Err(NoAttachment);
      }
      AppliedIsGood(View(), blobs, writes, deletes);
      AppliedIsShort(Start(View()), blobs, writes, deletes);
      var done := Commit(d.value);
      r := if done.Ok? then Ok(removed) else Err(done.error);
    }

    // ---- batches ----

    /** One chunk of a batch; the rest of the batch runs from where it leaves off. */
    method CommitChunk(c: Chunk) returns (ok: bool)
      requires Valid() && journal.log.head + |c.writes| + 2 * |c.deletes| < U64 - 1
      modifies this`user, this`refs, this`last, this`forward, this`reverse, this`past, journal`log
      ensures Valid()
      ensures var a := Atomic(Checks(), old(View()), c.writes, c.deletes);
              (ok <==> a.Some?) && View() == (if a.Some? then a.value else old(View()))
      ensures journal.log.head <= old(journal.log.head) + |c.writes| + 2 * |c.deletes|
    {
      ghost var rules, db := Checks(), View();
      AtomicIsShort(rules, db, c.writes, c.deletes);
      var r := ApplyChanges(c.writes, c.deletes);
      ok := r.Ok?;
    }

    method CommitWrites(writes: seq<RowWrite>, limit: nat) returns (ok: bool)
      requires Valid() && limit >= 1 && journal.log.head + |writes| < U64 - 1
      modifies this`user, this`refs, this`last, this`forward, this`reverse, this`past, journal`log
      ensures Valid()
      ensures Went(Checks(), old(View()), WriteChunks(writes, limit), View(), ok)
      ensures journal.log.head <= old(journal.log.head) + |writes|
    {
      ghost var rules, start, n := Checks(), View(), 0;
      var offset := 0;
      while offset < |writes|
        invariant offset <= |writes| && Valid() && Checks() == rules
        invariant journal.log.head <= old(journal.log.head) + offset
        invariant Going(rules, start, WriteChunks(writes, limit), n, View(), WriteChunks(writes[offset..], limit))
        decreases |writes| - offset
      {
        var end := Min(offset + limit, |writes|);
        GoingOn(rules, start, WriteChunks(writes, limit), n, View(), WriteChunks(writes[offset..], limit));
        NextWrites(writes, offset, limit);
        ok := CommitChunk(Chunk(writes[offset..end], []));
        if !ok {
          return;
        }
        offset := end;
        n := n + 1;
      }
      ok := true;
    }

    method CommitDeletes(deletes: seq<RowId>, limit: nat) returns (ok: bool)
      requires Valid() && limit >= 1 && journal.log.head + 2 * |deletes| < U64 - 1
      modifies this`user, this`refs, this`last, this`forward, this`reverse, this`past, journal`log
      ensures Valid()
      ensures Went(Checks(), old(View()), DeleteChunks(deletes, limit), View(), ok)
    {
      ghost var rules, start, n := Checks(), View(), 0;
      var offset := 0;
      while offset < |deletes|
        invariant offset <= |deletes| && Valid() && Checks() == rules
        invariant journal.log.head <= old(journal.log.head) + 2 * offset
        invariant Going(rules, start, DeleteChunks(deletes, limit), n, View(), DeleteChunks(deletes[offset..], limit))
        decreases |deletes| - offset
      {
        var end := Min(offset + limit, |deletes|);
        GoingOn(rules, start, DeleteChunks(deletes, limit), n, View(), DeleteChunks(deletes[offset..], limit));
        NextDeletes(deletes, offset, limit);
        ok := CommitChunk(Chunk([], deletes[offset..end]));
        if !ok {
          return;
        }
        offset := end;
        n := n + 1;
      }
      ok := true;
    }

    /**
     A batch of any size: within the limit one transaction, else the writes in bounded transactions and
     then the deletes, stopping at the first that fails.
     */
    method CommitBatch(writes: seq<RowWrite>, deletes: seq<RowId>, limit: nat) returns (ok: bool)
      requires Valid() && limit >= 1 && journal.log.head + |writes| + 2 * |deletes| < U64 - 1
      modifies this`user, this`refs, this`last, this`forward, this`reverse, this`past, journal`log
      ensures Valid()
      ensures var x := RunChunks(Checks(), old(View()), Chunks(writes, deletes, limit));
              View() == x.db && (ok <==> x.done == |Chunks(writes, deletes, limit)|)
      ensures Cuts(Chunks(writes, deletes, limit), writes, deletes, limit)
    {
      ChunksCut(writes, deletes, limit);
      if |writes| + |deletes| > limit {
        ghost var rules, db := Checks(), View();
        ghost var a, b := WriteChunks(writes, limit), DeleteChunks(deletes, limit);
        ChunksJoin(rules, db, a, b);
        FailureKeepsPrefix(rules, RunChunks(rules, db, a).db, b);
        ok := CommitWrites(writes, limit);
        if ok {
          ok := CommitDeletes(deletes, limit);
        }
        return;
      }
      SingleChunk(Checks(), View(), Chunk(writes, deletes));
      ok := CommitChunk(Chunk(writes, deletes));
    }

    // ---- whole tables ----

    /** Put `entries` in place of a table, with one image of it for the log. */
    method ReplaceTable(table: Text, entries: seq<(Text, Bytes)>) returns (r: Result<(), DbError>, ghost draft: Draft)
      requires Valid()
      modifies this`user, this`refs, this`last, this`forward, this`reverse, this`past, journal`log
      ensures Valid()
      ensures !Reserved(table) && Replaceable(old(View()), blobs, table, entries) ==>
              Good(old(View()), draft) && draft.user == WithTable(old(user), table, Entries(entries))
              && Puts(draft.effects) == []
              && draft.refs == if table in blobs then WithoutOrphans(old(refs), draft.user, table) else old(refs)
      ensures r.Ok? <==> !Reserved(table) && Replaceable(old(View()), blobs, table, entries) && Passes(Checks(), draft)
                         && Numberable(old(journal.log), draft)
      ensures r.Ok? ==> View() == Publish(old(View()), draft, journal.max) && journal.log.head > old(journal.log.head)
      ensures r.Err? ==> View() == old(View()) && past == old(past)
    {
      draft := Start(View());
      if Reserved(table) {
        return Err(ReservedTable), draft;
      }
      var d := DrawTable(table, entries);
      if d.None? {
        return Err(NoAttachment), draft;
      }
      draft := d.value;
      if journal.log.head + |d.value.effects| >= U64 - 1 {
        return Err(Overflow), draft;
      }
      NumberedAfter(journal.log, d.value.effects, d.value.images, d.value.resets, journal.max);
      r := Commit(d.value);
    }

    method DrawTable(table: Text, entries: seq<(Text, Bytes)>) returns (d: Option<Draft>)
      requires Valid()
      ensures d.Some? <==> Replaceable(View(), blobs, table, entries)
      ensures d.Some? ==> Good(View(), d.value) && d.value.user == WithTable(user, table, Entries(entries))
      ensures d.Some? ==>
              d.value.refs == if table in blobs then WithoutOrphans(refs, d.value.user, table) else refs
      ensures d.Some? ==> ResetsTable(d.value.effects, table) && Puts(d.value.effects) == []
    {
      var tx := new WorkTx(View(), blobs);
      var ok := tx.ReplaceTable(table, entries, View());
      d := if ok then Some(tx.View()) else None;
    }

    /** Change rows of several tables, each of them captured once. */
    method RewriteTables(writes: seq<RowWrite>, deletes: seq<RowId>, prepared: seq<(RowId, BlobRef)>)
      returns (r: Result<(), DbError>, ghost draft: Draft)
      requires Valid()
      modifies this`user, this`refs, this`last, this`forward, this`reverse, this`past, journal`log
      ensures Valid()
      ensures Open(writes, deletes) && Rewritable(old(View()), blobs, writes, deletes, prepared) ==>
              Good(old(View()), draft) && draft.user == Put(Removed(old(user), deletes), writes)
              && Puts(draft.effects) == prepared
              && draft.refs == WithoutAll(PutRefs(RemovedRefs(old(refs), blobs, deletes), prepared), draft.user,
                                          TablesOf(writes, deletes) * blobs)
      ensures r.Ok? <==> Open(writes, deletes) && Rewritable(old(View()), blobs, writes, deletes, prepared)
                         && Passes(Checks(), draft) && Numberable(old(journal.log), draft)
      ensures r.Ok? ==> View() == Publish(old(View()), draft, journal.max)
      ensures r.Err? ==> View() == old(View()) && past == old(past)
    {
      draft := Start(View());
      var open := CheckNames(writes, deletes);
      if !open {
        return Err(ReservedTable), draft;
      }
      var d := DrawRewrite(writes, deletes, prepared);
      if d.None? {
        return Err(NoAttachment), draft;
      }
      draft := d.value;
      if journal.log.head + |d.value.effects| >= U64 - 1 {
        return Err(Overflow), draft;
      }
      r := Commit(d.value);
    }

    method DrawRewrite(writes: seq<RowWrite>, deletes: seq<RowId>, prepared: seq<(RowId, BlobRef)>)
      returns (d: Option<Draft>)
      requires Valid()
      ensures d.Some? <==> Rewritable(View(), blobs, writes, deletes, prepared)
      ensures d.Some? ==> Good(View(), d.value) && d.value.user == Put(Removed(user, deletes), writes)
      ensures d.Some? ==> d.value.refs == WithoutAll(PutRefs(RemovedRefs(refs, blobs, deletes), prepared), d.value.user,
                                                     TablesOf(writes, deletes) * blobs)
      ensures d.Some? ==> Puts(d.value.effects) == prepared
    {
      var tx := new WorkTx(View(), blobs);
      var ok := tx.Rewrite(writes, deletes, prepared, View());
      d := if ok then Some(tx.View()) else None;
    }

    /** Publish an attachment whose file is written, with the row that describes it. */
    method PublishBlob(id: RowId, ref: BlobRef, metadata: Option<Bytes>)
      returns (r: Result<(), DbError>, ghost draft: Draft)
      requires Valid() && journal.log.head + 2 < U64 - 1
      modifies this`user, this`refs, this`last, this`forward, this`reverse, this`past, journal`log
      ensures Valid()
      ensures r.Ok? ==> refs == old(refs)[id := ref]
      ensures r.Ok? ==> user == if metadata.Some? then old(user)[id := metadata.value] else old(user)
      ensures r.Ok? ==> Good(old(View()), draft) && View() == Publish(old(View()), draft, journal.max)
      ensures r.Ok? ==> Puts(draft.effects) == [(id, ref)]
      ensures r.Err? ==> View() == old(View()) && past == old(past)
    {
      var d := DrawBlob(id, ref, metadata);
      draft := d;
      r := Commit(d);
    }

    method DrawBlob(id: RowId, ref: BlobRef, metadata: Option<Bytes>) returns (d: Draft)
      ensures Good(View(), d) && |d.effects| <= 2 && Puts(d.effects) == [(id, ref)]
      ensures d.refs == refs[id := ref] && d.user == if metadata.Some? then user[id := metadata.value] else user
    {
      var tx := new WorkTx(View(), blobs);
      PublishedBlobIsGood(View(), id, ref, metadata);
      tx.PublishBlob(id, ref, metadata);
      d := tx.View();
    }

    // ---- consumers ----

    /** Acknowledging moves nothing but the log, and the log still tells the whole story. */
    method Ack(token: Consumers.Token, upto: nat) returns (r: Result<(), Consumers.JournalError>)
      requires Valid()
      modifies journal`log
      ensures Valid() && journal.log == Consumers.Step(old(journal.log), journal.database, journal.max,
                                                       Consumers.Ack(token, upto))
      ensures r.Ok? <==> Consumers.Body(old(journal.log), journal.database, Consumers.Ack(token, upto)).Ok?
    {
      ghost var log := journal.log;
      ConsumeRecalls(log, journal.database, journal.max, Consumers.Ack(token, upto), past);
      r := journal.Ack(token, upto);
      LogMoved(user, refs, last, log, journal.log, past);
    }

    method Register(name: Text, internal: bool) returns (r: Result<Consumers.Token, Consumers.JournalError>)
      requires Valid()
      modifies journal`log
      ensures Valid() && journal.log == Consumers.Step(old(journal.log), journal.database, journal.max,
                                                       Consumers.Register(name, internal))
    {
      ghost var log := journal.log;
      ConsumeRecalls(log, journal.database, journal.max, Consumers.Register(name, internal), past);
      r := journal.Register(name, internal);
      LogMoved(user, refs, last, log, journal.log, past);
    }

    // ---- configuration ----

    method ConfigureUnique(configured: seq<(Text, seq<UniqueIndex.Unique>)>)
      returns (r: Result<(), UniqueIndex.UniqueError>)
      requires Valid()
      modifies this`defs, this`forward, this`reverse
      ensures Valid()
      ensures r.Ok? <==> forall i :: 0 <= i < |configured| ==>
              UniqueIndex.Acceptable(read, old(defs), configured[i], user)
      ensures defs == if r.Ok? then UniqueIndex.Configured(old(defs), configured, |configured|) else old(defs)
    {
      var index := new UniqueIndex.UniqueTx(defs, forward, reverse);
      r := index.Configure(read, configured, user);
      if r.Ok? {
        defs, forward, reverse := index.defs, index.forward, index.reverse;
      }
    }

    method ConfigureIds(configured: seq<(Text, Path)>) returns (r: Result<(), IdContract.IdError>)
      requires Valid()
      modifies this`contracts
      ensures Valid()
      ensures r.Ok? <==> IdContract.AllAcceptable(read, old(contracts), configured, user)
      ensures r.Ok? <==> IdContract.AllMet(read, configured, user)
    {
      var next := IdContract.Configure(read, contracts, configured, user);
      if next.Err? {
        return Err(next.error);
      }
      contracts := next.value;
      r := Ok(());
    }
  }

  lemma LogMoved(user: Rows, refs: Refs, last: Last, log: Log, next: Log, past: Past)
    requires Inv(Db(user, refs, last, log), past) && LogInv(next) && Recalls(next, past) && Complete(next, past)
    ensures Inv(Db(user, refs, last, next), past)
  {
  }

  /** Running `chunks` from `start` ended at `now`, all through or not. */
  ghost predicate Went(rules: Rules, start: Db, chunks: seq<Chunk>, now: Db, ok: bool) {
    var x := RunChunks(rules, start, chunks);
    now == x.db && (ok <==> x.done == |chunks|)
  }

  /** Of `chunks`, `n` are through, which led from `start` to `now`, and `rest` are still to run. */
  ghost predicate Going(rules: Rules, start: Db, chunks: seq<Chunk>, n: nat, now: Db, rest: seq<Chunk>) {
    var x := RunChunks(rules, now, rest);
    RunChunks(rules, start, chunks) == Ended(x.db, n + x.done) && |chunks| == n + |rest|
  }

  lemma GoingOn(rules: Rules, start: Db, chunks: seq<Chunk>, n: nat, now: Db, rest: seq<Chunk>)
    requires Going(rules, start, chunks, n, now, rest)
    ensures rest == [] ==> Went(rules, start, chunks, now, true)
    ensures rest != [] ==>
      var next := Atomic(rules, now, rest[0].writes, rest[0].deletes);
      if next.None? then Went(rules, start, chunks, now, false)
      else Going(rules, start, chunks, n + 1, next.value, rest[1..])
  {
  }

  lemma NextWrites(writes: seq<RowWrite>, offset: nat, limit: nat)
    requires limit >= 1 && offset < |writes|
    ensures var end := Min(offset + limit, |writes|);
            var chunks := WriteChunks(writes[offset..], limit);
            chunks != [] && chunks[0] == Chunk(writes[offset..end], [])
              && chunks[1..] == WriteChunks(writes[end..], limit)
  {
    var rest, end := writes[offset..], Min(offset + limit, |writes|);
    var k := Min(limit, |rest|);
    assert rest[..k] == writes[offset..end] && rest[k..] == writes[end..];
  }

  lemma NextDeletes(deletes: seq<RowId>, offset: nat, limit: nat)
    requires limit >= 1 && offset < |deletes|
    ensures var end := Min(offset + limit, |deletes|);
            var chunks := DeleteChunks(deletes[offset..], limit);
            chunks != [] && chunks[0] == Chunk([], deletes[offset..end])
              && chunks[1..] == DeleteChunks(deletes[end..], limit)
  {
    var rest, end := deletes[offset..], Min(offset + limit, |deletes|);
    var k := Min(limit, |rest|);
    assert rest[..k] == deletes[offset..end] && rest[k..] == deletes[end..];
  }

  lemma SingleChunk(rules: Rules, db: Db, c: Chunk)
    ensures var next := Atomic(rules, db, c.writes, c.deletes);
            RunChunks(rules, db, [c]) == if next.None? then Ended(db, 0) else Ended(next.value, 1)
  {
    assert [c][1..] == [];
  }

  lemma AtomicIsShort(rules: Rules, db: Db, writes: seq<RowWrite>, deletes: seq<RowId>)
    ensures var a := Atomic(rules, db, writes, deletes);
            a.Some? ==> db.log.head <= a.value.log.head <= db.log.head + |writes| + 2 * |deletes|
  {
    var d := Applied(Start(db), rules.blobs, writes, deletes);
    AppliedIsShort(Start(db), rules.blobs, writes, deletes);
    NumberedAfter(db.log, d.effects, d.images, d.resets, rules.max);
  }

  lemma Published(db: Db, past: Past, d: Draft, max: Option<nat>, read: Reader, defs: UniqueIndex.Definitions,
                  forward: UniqueIndex.Forward, reverse: UniqueIndex.Reverse, contracts: IdContract.Contracts)
    requires Inv(db, past) && Good(db, d) && IdContract.Holds(read, contracts, db.user)
    requires IdContract.AllSound(read, contracts, d.effects, d.images)
    requires UniqueIndex.Indexed(read, defs, d.user, forward, reverse)
    ensures Sane(Publish(db, d, max), Extended(past, d), read, defs, forward, reverse, contracts)
  {
    PublishKeeps(db, past, d, max);
    IdContract.SoundKeeps(read, contracts, db.user, d.effects, d.images);
  }

  lemma GoodImages(db: Db, d: Draft)
    requires Good(db, d)
    ensures forall i, s :: Resets(d.effects, i, s) ==> s in d.images
    ensures Consumers.Allowed(db.log, Consumers.Write(d.effects, d.images, d.resets)) <==>
            db.log.head + |d.effects| < U64 - 1
  {
    forall i, s | Resets(d.effects, i, s) ensures s in d.images {
      assert NamedAmong(d.effects, s);
    }
  }
}
