/** Batches cut into bounded transactions (src/repository.rs:676-719), against the single transaction. */
module Batches {
  import opened Prelude
  import opened ChangeCodec
  import opened Journal
  import opened JournalTx
  import opened RowTables
  import opened LastWrite
  import opened Drafts
  import opened Work
  import opened Replaying
  import UniqueIndex
  import IdContract

  /** What every transaction of a database is checked against. */
  datatype Rules = Rules(
    read: Reader,
    blobs: set<Text>,
    defs: UniqueIndex.Definitions,
    contracts: IdContract.Contracts,
    max: Option<nat>)

  /** A name starting with "__" belongs to the database. */
  predicate Reserved(table: Text) {
    |table| >= 2 && table[0] == 95 && table[1] == 95
  }

  predicate Open(writes: seq<RowWrite>, deletes: seq<RowId>) {
    && (forall i :: 0 <= i < |writes| ==> !Reserved(writes[i].id.table))
    && (forall i :: 0 <= i < |deletes| ==> !Reserved(deletes[i].table))
  }

  /** The checks at the end of a transaction. */
  ghost predicate Passes(rules: Rules, d: Draft) {
    IdContract.AllSound(rules.read, rules.contracts, d.effects, d.images)
      && UniqueIndex.Clean(rules.read, rules.defs, d.user)
  }

  /** The database after one transaction of writes and deletes, if it goes through. */
  ghost function Atomic(rules: Rules, db: Db, writes: seq<RowWrite>, deletes: seq<RowId>): Option<Db> {
    var d := Applied(Start(db), rules.blobs, writes, deletes);
    if Open(writes, deletes) && Allowed(db.refs, rules.blobs, writes) && Passes(rules, d) && Fits(db.log, d.effects)
    then Some(Publish(db, d, rules.max)) else None
  }

  // ---- chunks ----

  datatype Chunk = Chunk(writes: seq<RowWrite>, deletes: seq<RowId>)

  function WriteChunks(writes: seq<RowWrite>, limit: nat): seq<Chunk>
    requires limit >= 1
  {
    if writes == [] then []
    else [Chunk(writes[..Min(limit, |writes|)], [])] + WriteChunks(writes[Min(limit, |writes|)..], limit)
  }

  function DeleteChunks(deletes: seq<RowId>, limit: nat): seq<Chunk>
    requires limit >= 1
  {
    if deletes == [] then []
    else [Chunk([], deletes[..Min(limit, |deletes|)])] + DeleteChunks(deletes[Min(limit, |deletes|)..], limit)
  }

  /** A batch within the limit is one transaction; a larger one writes first, then deletes. */
  function Chunks(writes: seq<RowWrite>, deletes: seq<RowId>, limit: nat): seq<Chunk>
    requires limit >= 1
  {
    if |writes| + |deletes| <= limit then [Chunk(writes, deletes)]
    else WriteChunks(writes, limit) + DeleteChunks(deletes, limit)
  }

  /** Where a list of transactions ends: the database, and how many of them went through. */
  datatype Ended = Ended(db: Db, done: nat)

  /** Transactions one after the other, until one fails. */
  ghost function RunChunks(rules: Rules, db: Db, chunks: seq<Chunk>): Ended
    decreases |chunks|
  {
    if chunks == [] then Ended(db, 0)
    else
      var next := Atomic(rules, db, chunks[0].writes, chunks[0].deletes);
      if next.None? then Ended(db, 0)
      else
        var rest := RunChunks(rules, next.value, chunks[1..]);
        Ended(rest.db, rest.done + 1)
  }

  lemma {:induction false} ChunksJoin(rules: Rules, db: Db, a: seq<Chunk>, b: seq<Chunk>)
    ensures var x := RunChunks(rules, db, a);
            x.done <= |a|
            && RunChunks(rules, db, a + b) ==
               if x.done < |a| then x else var y := RunChunks(rules, x.db, b); Ended(y.db, |a| + y.done)
    decreases |a|
  {
    if a == [] {
      assert a + b == b;
    } else {
      assert (a + b)[1..] == a[1..] + b;
      var next := Atomic(rules, db, a[0].writes, a[0].deletes);
      if next.Some? {
        ChunksJoin(rules, next.value, a[1..], b);
      }
    }
  }

  /** A failure leaves exactly the effect of the chunks completed before it. */
  lemma {:induction false} FailureKeepsPrefix(rules: Rules, db: Db, chunks: seq<Chunk>)
    ensures var x := RunChunks(rules, db, chunks);
            && x.done <= |chunks|
            && RunChunks(rules, db, chunks[..x.done]) == x
            && (x.done < |chunks| ==> Atomic(rules, x.db, chunks[x.done].writes, chunks[x.done].deletes).None?)
    decreases |chunks|
  {
    if chunks != [] {
      var next := Atomic(rules, db, chunks[0].writes, chunks[0].deletes);
      if next.Some? {
        FailureKeepsPrefix(rules, next.value, chunks[1..]);
        var n := RunChunks(rules, db, chunks).done;
        assert chunks[..n][1..] == chunks[1..][..n - 1];
        assert chunks[..n] != [] && chunks[..n][0] == chunks[0];
      }
    }
  }

  function JoinedWrites(chunks: seq<Chunk>): seq<RowWrite> {
    if chunks == [] then [] else chunks[0].writes + JoinedWrites(chunks[1..])
  }

  function JoinedDeletes(chunks: seq<Chunk>): seq<RowId> {
    if chunks == [] then [] else chunks[0].deletes + JoinedDeletes(chunks[1..])
  }

  /**
   The chunks are the batch, cut into parts within the limit, with no write after a delete of an earlier
   chunk; a batch within the limit is not cut.
   */
  ghost predicate Cuts(chunks: seq<Chunk>, writes: seq<RowWrite>, deletes: seq<RowId>, limit: nat) {
    && JoinedWrites(chunks) == writes && JoinedDeletes(chunks) == deletes
    && (forall i :: 0 <= i < |chunks| ==> |chunks[i].writes| + |chunks[i].deletes| <= limit)
    && (forall i, j :: 0 <= i < j < |chunks| && chunks[i].deletes != [] ==> chunks[j].writes == [])
    && (|writes| + |deletes| <= limit ==> chunks == [Chunk(writes, deletes)])
  }

  lemma {:induction false} WriteChunksCover(writes: seq<RowWrite>, limit: nat)
    requires limit >= 1
    ensures var chunks := WriteChunks(writes, limit);
            && JoinedWrites(chunks) == writes && JoinedDeletes(chunks) == []
            && (forall i :: 0 <= i < |chunks| ==> chunks[i].deletes == [] && |chunks[i].writes| <= limit)
    decreases |writes|
  {
    if writes != [] {
      var k := Min(limit, |writes|);
      WriteChunksCover(writes[k..], limit);
      assert writes == writes[..k] + writes[k..];
      assert WriteChunks(writes, limit)[1..] == WriteChunks(writes[k..], limit);
    }
  }

  lemma {:induction false} DeleteChunksCover(deletes: seq<RowId>, limit: nat)
    requires limit >= 1
    ensures var chunks := DeleteChunks(deletes, limit);
            && JoinedWrites(chunks) == [] && JoinedDeletes(chunks) == deletes
            && (forall i :: 0 <= i < |chunks| ==> chunks[i].writes == [] && |chunks[i].deletes| <= limit)
    decreases |deletes|
  {
    if deletes != [] {
      var k := Min(limit, |deletes|);
      DeleteChunksCover(deletes[k..], limit);
      assert deletes == deletes[..k] + deletes[k..];
      assert DeleteChunks(deletes, limit)[1..] == DeleteChunks(deletes[k..], limit);
    }
  }

  lemma {:induction false} JoinedAll(a: seq<Chunk>, b: seq<Chunk>)
    ensures JoinedWrites(a + b) == JoinedWrites(a) + JoinedWrites(b)
    ensures JoinedDeletes(a + b) == JoinedDeletes(a) + JoinedDeletes(b)
    decreases |a|
  {
    if a == [] {
      assert a + b == b;
    } else {
      JoinedAll(a[1..], b);
      assert (a + b)[1..] == a[1..] + b;
    }
  }

  lemma ChunksCut(writes: seq<RowWrite>, deletes: seq<RowId>, limit: nat)
    requires limit >= 1
    ensures Cuts(Chunks(writes, deletes, limit), writes, deletes, limit)
  {
    if |writes| + |deletes| > limit {
      WriteChunksCover(writes, limit);
      DeleteChunksCover(deletes, limit);
      JoinedAll(WriteChunks(writes, limit), DeleteChunks(deletes, limit));
    } else {
      assert [Chunk(writes, deletes)][1..] == [];
    }
  }

  // ---- what writes and deletes do, apart from where they start ----

  /** A draft of nothing but rows and references. */
  function Bare(user: Rows, refs: Refs): Draft {
    Draft(user, refs, map[], 0, [])
  }

  lemma {:induction false} WritesBare(d: Draft, writes: seq<RowWrite>)
    ensures var b := WriteAll(Bare(d.user, d.refs), writes);
            var r := WriteAll(d, writes);
            r.user == b.user && r.refs == b.refs && r.effects == d.effects + b.effects && NoResets(b.effects)
  {
    if writes != [] {
      WritesBare(d, writes[..|writes| - 1]);
    }
  }

  lemma DeleteBare(d: Draft, e: Draft, blobs: set<Text>, id: RowId, start: seq<ChangeKind>)
    requires d.user == e.user && d.refs == e.refs && d.effects == start + e.effects && NoResets(e.effects)
    ensures var x, y := DeleteOne(d, blobs, id), DeleteOne(e, blobs, id);
            x.user == y.user && x.refs == y.refs && x.effects == start + y.effects && NoResets(y.effects)
  {
    var x, y := DeleteRow(d, id), DeleteRow(e, id);
    assert x.user == y.user && x.refs == y.refs && x.effects == start + y.effects && NoResets(y.effects);
  }

  lemma {:induction false} DeletesBare(d: Draft, blobs: set<Text>, deletes: seq<RowId>)
    ensures var b := DeleteAll(Bare(d.user, d.refs), blobs, deletes);
            var r := DeleteAll(d, blobs, deletes);
            r.user == b.user && r.refs == b.refs && r.effects == d.effects + b.effects && NoResets(b.effects)
  {
    if deletes != [] {
      var before := deletes[..|deletes| - 1];
      DeletesBare(d, blobs, before);
      DeleteBare(DeleteAll(d, blobs, before), DeleteAll(Bare(d.user, d.refs), blobs, before), blobs,
        deletes[|deletes| - 1], d.effects);
    }
  }

  lemma {:induction false} WritesJoin(d: Draft, a: seq<RowWrite>, b: seq<RowWrite>)
    ensures WriteAll(d, a + b) == WriteAll(WriteAll(d, a), b)
  {
    if b == [] {
      assert a + b == a;
    } else {
      WritesJoin(d, a, b[..|b| - 1]);
      assert (a + b)[..|a + b| - 1] == a + b[..|b| - 1];
    }
  }

  lemma {:induction false} DeletesJoin(d: Draft, blobs: set<Text>, a: seq<RowId>, b: seq<RowId>)
    ensures DeleteAll(d, blobs, a + b) == DeleteAll(DeleteAll(d, blobs, a), blobs, b)
  {
    if b == [] {
      assert a + b == a;
    } else {
      DeletesJoin(d, blobs, a, b[..|b| - 1]);
      assert (a + b)[..|a + b| - 1] == a + b[..|b| - 1];
    }
  }

  // ---- from one database to another ----

  /** The log of `t` holds the rows of `db` and then `effects`, numbered on, as far as it still holds them. */
  ghost predicate Numbered(db: Log, t: Log, effects: seq<ChangeKind>) {
    && t.head == db.head + |effects|
    && (forall k :: k in t.changes && k <= db.head ==> k in db.changes && t.changes[k] == db.changes[k])
    && (forall k :: k in t.changes && db.head < k <= t.head ==> t.changes[k] == effects[k - db.head - 1])
  }

  lemma NumberedTwice(a: Log, b: Log, c: Log, x: seq<ChangeKind>, y: seq<ChangeKind>)
    requires Numbered(a, b, x) && Numbered(b, c, y)
    ensures Numbered(a, c, x + y)
  {
  }

  lemma NumberedAfter(log: Log, effects: seq<ChangeKind>, images: map<Text, Image>, resets: nat, max: Option<nat>)
    ensures Numbered(log, Committed(log, effects, images, resets, max), effects)
  {
    var a := Append(log, effects).(images := images, resets := resets);
    var t := Settled(a, max);
    AppendFrame(log, effects);
    SettledRecalls(a, max);
    forall k | k in t.changes && k <= t.head
      ensures if k <= log.head then k in log.changes && t.changes[k] == log.changes[k]
              else t.changes[k] == effects[k - log.head - 1]
    {
      AppendedRow(log, effects, k);
    }
  }

  /** `t` holds what `effects` made of `db`, numbered on, and all they wrote holds its own key. */
  ghost predicate Reached(rules: Rules, db: Db, t: Db, user: Rows, refs: Refs, effects: seq<ChangeKind>) {
    && t.user == user && t.refs == refs
    && Numbered(db.log, t.log, effects)
    && t.last == FoldOn(db.last, effects, db.log.head, map[])
    && NoResets(effects) && IdContract.AllSound(rules.read, rules.contracts, effects, map[])
  }

  lemma {:induction false} FoldOnJoins(last: Last, a: seq<ChangeKind>, b: seq<ChangeKind>, head: nat,
                                       images: map<Text, Image>)
    ensures FoldOn(last, a + b, head, images) == FoldOn(FoldOn(last, a, head, images), b, head + |a|, images)
  {
    if b == [] {
      assert a + b == a;
    } else {
      FoldOnJoins(last, a, b[..|b| - 1], head, images);
      assert (a + b)[..|a + b| - 1] == a + b[..|b| - 1];
    }
  }

  lemma ReachedTwice(rules: Rules, db: Db, s: Db, t: Db, u: Rows, r: Refs, a: seq<ChangeKind>, v: Rows, q: Refs,
                     b: seq<ChangeKind>)
    requires Reached(rules, db, s, u, r, a) && Reached(rules, s, t, v, q, b)
    ensures Reached(rules, db, t, v, q, a + b)
  {
    FoldOnJoins(db.last, a, b, db.log.head, map[]);
    NumberedTwice(db.log, s.log, t.log, a, b);
    forall i | 0 <= i < |a + b| ensures IdContract.Sound(rules.read, rules.contracts, (a + b)[i], map[]) {
    }
  }

  lemma ImagesDoNotMatter(rules: Rules, db: Db, d: Draft)
    requires NoResets(d.effects)
    ensures IdContract.AllSound(rules.read, rules.contracts, d.effects, d.images) <==>
            IdContract.AllSound(rules.read, rules.contracts, d.effects, map[])
    ensures FoldOn(db.last, d.effects, db.log.head, d.images) == FoldOn(db.last, d.effects, db.log.head, map[])
  {
    forall i | 0 <= i < |d.effects|
      ensures IdContract.Sound(rules.read, rules.contracts, d.effects[i], d.images) <==>
              IdContract.Sound(rules.read, rules.contracts, d.effects[i], map[])
    {
    }
    FoldOnSame(db.last, d.effects, db.log.head, d.images, map[]);
  }

  /** One transaction reaches what its writes and deletes make of the rows. */
  lemma AtomicReaches(rules: Rules, db: Db, writes: seq<RowWrite>, deletes: seq<RowId>)
    requires Atomic(rules, db, writes, deletes).Some?
    ensures var t := Atomic(rules, db, writes, deletes).value;
            var b := Applied(Bare(db.user, db.refs), rules.blobs, writes, deletes);
            Reached(rules, db, t, b.user, b.refs, b.effects) && UniqueIndex.Clean(rules.read, rules.defs, t.user)
  {
    var d := Applied(Start(db), rules.blobs, writes, deletes);
    BareApplied(rules, db, writes, deletes);
    ImagesDoNotMatter(rules, db, d);
    NumberedAfter(db.log, d.effects, d.images, d.resets, rules.max);
  }

  lemma BareApplied(rules: Rules, db: Db, writes: seq<RowWrite>, deletes: seq<RowId>)
    ensures var b := Applied(Bare(db.user, db.refs), rules.blobs, writes, deletes);
            var d := Applied(Start(db), rules.blobs, writes, deletes);
            d.user == b.user && d.refs == b.refs && d.effects == b.effects && NoResets(b.effects)
  {
    WritesBare(Start(db), writes);
    var w, v := WriteAll(Start(db), writes), WriteAll(Bare(db.user, db.refs), writes);
    DeletesBare(w, rules.blobs, deletes);
    DeletesBare(v, rules.blobs, deletes);
    assert w.effects == v.effects;
    var x := DeleteAll(Bare(v.user, v.refs), rules.blobs, deletes);
    assert NoResets(v.effects + x.effects);
  }

  // ---- the two phases ----

  ghost predicate AllDone(rules: Rules, db: Db, chunks: seq<Chunk>) {
    RunChunks(rules, db, chunks).done == |chunks|
  }

  lemma FirstOfAll(rules: Rules, db: Db, chunks: seq<Chunk>)
    requires AllDone(rules, db, chunks) && chunks != []
    ensures var next := Atomic(rules, db, chunks[0].writes, chunks[0].deletes);
            next.Some? && AllDone(rules, next.value, chunks[1..])
            && RunChunks(rules, db, chunks).db == RunChunks(rules, next.value, chunks[1..]).db
  {
  }

  /** `writes` were allowed, and made `t` of `db`. */
  ghost predicate Written(rules: Rules, db: Db, t: Db, writes: seq<RowWrite>) {
    var b := WriteAll(Bare(db.user, db.refs), writes);
    && Reached(rules, db, t, b.user, b.refs, b.effects)
    && Open(writes, []) && Allowed(db.refs, rules.blobs, writes)
    && (writes != [] ==> UniqueIndex.Clean(rules.read, rules.defs, t.user))
  }

  lemma AtomicWrites(rules: Rules, db: Db, writes: seq<RowWrite>)
    requires Atomic(rules, db, writes, []).Some?
    ensures Written(rules, db, Atomic(rules, db, writes, []).value, writes)
  {
    AtomicReaches(rules, db, writes, []);
  }

  lemma NothingWritten(rules: Rules, db: Db)
    ensures Written(rules, db, db, []) && Deleted(rules, db, db, [])
  {
  }

  lemma WritesCompose(rules: Rules, db: Db, next: Db, t: Db, first: seq<RowWrite>, rest: seq<RowWrite>)
    requires Written(rules, db, next, first) && Written(rules, next, t, rest)
    requires first != [] && (rest == [] ==> t == next)
    ensures Written(rules, db, t, first + rest)
  {
    var one := WriteAll(Bare(db.user, db.refs), first);
    var two := WriteAll(Bare(next.user, next.refs), rest);
    ReachedTwice(rules, db, next, t, one.user, one.refs, one.effects, two.user, two.refs, two.effects);
    WritesJoin(Bare(db.user, db.refs), first, rest);
    WritesBare(one, rest);
    WritesKeepRefs(Bare(db.user, db.refs), first);
  }

  /** The first chunk of writes went through, and the rest runs on from there. */
  lemma FirstWrites(rules: Rules, db: Db, writes: seq<RowWrite>, limit: nat, k: nat) returns (next: Db)
    requires limit >= 1 && writes != [] && k == Min(limit, |writes|) && AllDone(rules, db, WriteChunks(writes, limit))
    ensures Written(rules, db, next, writes[..k]) && AllDone(rules, next, WriteChunks(writes[k..], limit))
    ensures RunChunks(rules, db, WriteChunks(writes, limit)).db ==
            RunChunks(rules, next, WriteChunks(writes[k..], limit)).db
  {
    var chunks := WriteChunks(writes, limit);
    assert chunks[1..] == WriteChunks(writes[k..], limit);
    FirstOfAll(rules, db, chunks);
    AtomicWrites(rules, db, writes[..k]);
    next := Atomic(rules, db, writes[..k], []).value;
  }

  lemma {:induction false} WritePhase(rules: Rules, db: Db, writes: seq<RowWrite>, limit: nat)
    requires limit >= 1 && AllDone(rules, db, WriteChunks(writes, limit))
    ensures Written(rules, db, RunChunks(rules, db, WriteChunks(writes, limit)).db, writes)
    decreases |writes|
  {
    if writes == [] {
      NothingWritten(rules, db);
    } else {
      var k := Min(limit, |writes|);
      var next := FirstWrites(rules, db, writes, limit, k);
      WritePhase(rules, next, writes[k..], limit);
      JoinWrites(rules, db, next, RunChunks(rules, db, WriteChunks(writes, limit)).db, writes, k);
    }
  }

  lemma JoinWrites(rules: Rules, db: Db, next: Db, t: Db, writes: seq<RowWrite>, k: nat)
    requires 0 < k <= |writes| && Written(rules, db, next, writes[..k]) && Written(rules, next, t, writes[k..])
    requires writes[k..] == [] ==> t == next
    ensures Written(rules, db, t, writes)
  {
    WritesCompose(rules, db, next, t, writes[..k], writes[k..]);
    assert writes == writes[..k] + writes[k..];
  }

  lemma {:induction false} WritesKeepRefs(d: Draft, writes: seq<RowWrite>)
    ensures WriteAll(d, writes).refs == d.refs
  {
    if writes != [] {
      WritesKeepRefs(d, writes[..|writes| - 1]);
    }
  }

  /** `deletes` made `t` of `db`. */
  ghost predicate Deleted(rules: Rules, db: Db, t: Db, deletes: seq<RowId>) {
    var b := DeleteAll(Bare(db.user, db.refs), rules.blobs, deletes);
    && Reached(rules, db, t, b.user, b.refs, b.effects) && Open([], deletes)
    && (deletes != [] ==> UniqueIndex.Clean(rules.read, rules.defs, t.user))
  }

  lemma AtomicDeletes(rules: Rules, db: Db, deletes: seq<RowId>)
    requires Atomic(rules, db, [], deletes).Some?
    ensures Deleted(rules, db, Atomic(rules, db, [], deletes).value, deletes)
  {
    AtomicReaches(rules, db, [], deletes);
  }

  lemma DeletesCompose(rules: Rules, db: Db, next: Db, t: Db, first: seq<RowId>, rest: seq<RowId>)
    requires Deleted(rules, db, next, first) && Deleted(rules, next, t, rest)
    requires first != [] && (rest == [] ==> t == next)
    ensures Deleted(rules, db, t, first + rest)
  {
    var one := DeleteAll(Bare(db.user, db.refs), rules.blobs, first);
    var two := DeleteAll(Bare(next.user, next.refs), rules.blobs, rest);
    ReachedTwice(rules, db, next, t, one.user, one.refs, one.effects, two.user, two.refs, two.effects);
    DeletesJoin(Bare(db.user, db.refs), rules.blobs, first, rest);
    DeletesBare(one, rules.blobs, rest);
  }

  lemma FirstDeletes(rules: Rules, db: Db, deletes: seq<RowId>, limit: nat, k: nat) returns (next: Db)
    requires limit >= 1 && deletes != [] && k == Min(limit, |deletes|)
             && AllDone(rules, db, DeleteChunks(deletes, limit))
    ensures Deleted(rules, db, next, deletes[..k]) && AllDone(rules, next, DeleteChunks(deletes[k..], limit))
    ensures RunChunks(rules, db, DeleteChunks(deletes, limit)).db ==
            RunChunks(rules, next, DeleteChunks(deletes[k..], limit)).db
  {
    var chunks := DeleteChunks(deletes, limit);
    assert chunks[1..] == DeleteChunks(deletes[k..], limit);
    FirstOfAll(rules, db, chunks);
    AtomicDeletes(rules, db, deletes[..k]);
    next := Atomic(rules, db, [], deletes[..k]).value;
  }

  lemma {:induction false} DeletePhase(rules: Rules, db: Db, deletes: seq<RowId>, limit: nat)
    requires limit >= 1 && AllDone(rules, db, DeleteChunks(deletes, limit))
    ensures Deleted(rules, db, RunChunks(rules, db, DeleteChunks(deletes, limit)).db, deletes)
    decreases |deletes|
  {
    if deletes == [] {
      NothingWritten(rules, db);
    } else {
      var k := Min(limit, |deletes|);
      var next := FirstDeletes(rules, db, deletes, limit, k);
      DeletePhase(rules, next, deletes[k..], limit);
      JoinDeletes(rules, db, next, RunChunks(rules, db, DeleteChunks(deletes, limit)).db, deletes, k);
    }
  }

  lemma JoinDeletes(rules: Rules, db: Db, next: Db, t: Db, deletes: seq<RowId>, k: nat)
    requires 0 < k <= |deletes| && Deleted(rules, db, next, deletes[..k]) && Deleted(rules, next, t, deletes[k..])
    requires deletes[k..] == [] ==> t == next
    ensures Deleted(rules, db, t, deletes)
  {
    DeletesCompose(rules, db, next, t, deletes[..k], deletes[k..]);
    assert deletes == deletes[..k] + deletes[k..];
  }

  /** A batch that went through in chunks reached what its writes and deletes make of the rows. */
  lemma ChunksReach(rules: Rules, db: Db, writes: seq<RowWrite>, deletes: seq<RowId>, limit: nat)
    requires limit >= 1 && AllDone(rules, db, Chunks(writes, deletes, limit))
    ensures var t := RunChunks(rules, db, Chunks(writes, deletes, limit)).db;
            var b := Applied(Bare(db.user, db.refs), rules.blobs, writes, deletes);
            && Reached(rules, db, t, b.user, b.refs, b.effects) && UniqueIndex.Clean(rules.read, rules.defs, t.user)
            && Open(writes, deletes) && Allowed(db.refs, rules.blobs, writes)
  {
    var chunks := Chunks(writes, deletes, limit);
    if |writes| + |deletes| <= limit {
      FirstOfAll(rules, db, chunks);
      AtomicReaches(rules, db, writes, deletes);
      assert chunks[1..] == [];
    } else {
      var a, b := WriteChunks(writes, limit), DeleteChunks(deletes, limit);
      ChunksJoin(rules, db, a, b);
      var mid := RunChunks(rules, db, a).db;
      FailureKeepsPrefix(rules, mid, b);
      WritePhase(rules, db, writes, limit);
      DeletePhase(rules, mid, deletes, limit);
      var one := WriteAll(Bare(db.user, db.refs), writes);
      var two := DeleteAll(Bare(mid.user, mid.refs), rules.blobs, deletes);
      ReachedTwice(rules, db, mid, RunChunks(rules, db, chunks).db, one.user, one.refs, one.effects, two.user, two.refs,
        two.effects);
      WritesKeepRefs(Bare(db.user, db.refs), writes);
      DeletesBare(one, rules.blobs, deletes);
    }
  }

  /**
   If a batch goes through in chunks, of whatever limit, the single transaction passes the same checks,
   and, unless it overflows a counter, both leave the same rows, references, numbers and last writes.
   */
  lemma ChunkedIsAtomic(rules: Rules, db: Db, writes: seq<RowWrite>, deletes: seq<RowId>, limit: nat)
    requires limit >= 1 && AllDone(rules, db, Chunks(writes, deletes, limit))
    ensures var t := RunChunks(rules, db, Chunks(writes, deletes, limit)).db;
            var d := Applied(Start(db), rules.blobs, writes, deletes);
            var a := Atomic(rules, db, writes, deletes);
            && Passes(rules, d) && (a.Some? <==> Fits(db.log, d.effects))
            && Numbered(db.log, t.log, d.effects)
            && (a.Some? ==>
                  a.value.user == t.user && a.value.refs == t.refs && a.value.last == t.last
                  && Numbered(db.log, a.value.log, d.effects))
  {
    var d := Applied(Start(db), rules.blobs, writes, deletes);
    ChunksReach(rules, db, writes, deletes, limit);
    BareApplied(rules, db, writes, deletes);
    ImagesDoNotMatter(rules, db, d);
    NumberedAfter(db.log, d.effects, d.images, d.resets, rules.max);
  }
}
