/**
 What transactions of writes and deletes do, row by row (src/repository.rs:721-794): the last write to a row
 counts, deleted rows are gone with their attachments, and everything else is as it was.
 */
module WorkLaws {
  import opened Prelude
  import opened ChangeCodec
  import opened Journal
  import opened RowTables
  import opened Drafts
  import opened Work

  /** Write number `i` is the last to its row. */
  predicate LastTo(writes: seq<RowWrite>, i: int) {
    0 <= i < |writes| && forall j :: i < j < |writes| ==> writes[j].id != writes[i].id
  }

  predicate Writes(writes: seq<RowWrite>, id: RowId) {
    exists i :: 0 <= i < |writes| && writes[i].id == id
  }

  /** Rows that are written hold what was written last, and all others are as they were. */
  ghost predicate SetTo(before: Rows, writes: seq<RowWrite>, after: Rows) {
    && (forall i :: LastTo(writes, i) ==> writes[i].id in after && after[writes[i].id] == writes[i].value)
    && (forall id :: !Writes(writes, id) ==> SameAt(before, after, id))
  }

  lemma {:induction false} WriteAllSets(d: Draft, writes: seq<RowWrite>)
    ensures SetTo(d.user, writes, WriteAll(d, writes).user) && WriteAll(d, writes).refs == d.refs
  {
    if writes != [] {
      var before := writes[..|writes| - 1];
      WriteAllSets(d, before);
      SetNext(d.user, writes, WriteAll(d, before).user);
    }
  }

  lemma {:induction false} PutSets(rows: Rows, writes: seq<RowWrite>)
    ensures SetTo(rows, writes, Put(rows, writes))
  {
    if writes != [] {
      var before := writes[..|writes| - 1];
      PutSets(rows, before);
      SetNext(rows, writes, Put(rows, before));
    }
  }

  lemma SetNext(before: Rows, writes: seq<RowWrite>, mid: Rows)
    requires writes != [] && SetTo(before, writes[..|writes| - 1], mid)
    ensures var w := writes[|writes| - 1]; SetTo(before, writes, mid[w.id := w.value])
  {
    var first, w := writes[..|writes| - 1], writes[|writes| - 1];
    var after := mid[w.id := w.value];
    forall i | LastTo(writes, i) ensures writes[i].id in after && after[writes[i].id] == writes[i].value {
      if i < |first| {
        assert first[i] == writes[i];
        assert LastTo(first, i);
      }
    }
    forall id | !Writes(writes, id) ensures SameAt(before, after, id) {
      assert forall i :: 0 <= i < |first| ==> first[i] == writes[i];
      assert writes[|writes| - 1].id != id;
      assert !Writes(first, id);
    }
  }

  /** Deleted rows are gone, and all others are as they were. */
  ghost predicate GoneFrom(before: Rows, deletes: seq<RowId>, after: Rows) {
    forall id :: if id in deletes then id !in after else SameAt(before, after, id)
  }

  /** So are the attachments of deleted rows, in attachment tables. */
  ghost predicate LetGo(before: Refs, blobs: set<Text>, deletes: seq<RowId>, after: Refs) {
    && (forall id :: id in after <==> id in before && !(id in deletes && id.table in blobs))
    && (forall id :: id in after ==> after[id] == before[id])
  }

  lemma DeleteOneMeans(d: Draft, blobs: set<Text>, id: RowId)
    ensures var t := DeleteOne(d, blobs, id);
            && t.user == d.user - {id}
            && t.refs == if id.table in blobs then d.refs - {id} else d.refs
  {
  }

  lemma {:induction false} DeleteAllRemoves(d: Draft, blobs: set<Text>, deletes: seq<RowId>)
    ensures var t := DeleteAll(d, blobs, deletes);
            GoneFrom(d.user, deletes, t.user) && LetGo(d.refs, blobs, deletes, t.refs)
  {
    if deletes != [] {
      var before := deletes[..|deletes| - 1];
      DeleteAllRemoves(d, blobs, before);
      DeleteOneMeans(DeleteAll(d, blobs, before), blobs, deletes[|deletes| - 1]);
      assert deletes == before + [deletes[|deletes| - 1]];
    }
  }

  lemma {:induction false} RemovedMeans(rows: Rows, deletes: seq<RowId>)
    ensures GoneFrom(rows, deletes, Removed(rows, deletes))
  {
    if deletes != [] {
      RemovedMeans(rows, deletes[..|deletes| - 1]);
      assert deletes == deletes[..|deletes| - 1] + [deletes[|deletes| - 1]];
    }
  }

  lemma {:induction false} RemovedRefsMean(refs: Refs, blobs: set<Text>, deletes: seq<RowId>)
    ensures LetGo(refs, blobs, deletes, RemovedRefs(refs, blobs, deletes))
  {
    if deletes != [] {
      RemovedRefsMean(refs, blobs, deletes[..|deletes| - 1]);
      assert deletes == deletes[..|deletes| - 1] + [deletes[|deletes| - 1]];
    }
  }

  // ---- the answers ----

  /** A delete finds something exactly the first time, if the row is there, was written, or has its attachment. */
  ghost predicate Finds(user: Rows, refs: Refs, blobs: set<Text>, writes: seq<RowWrite>, deletes: seq<RowId>, i: nat)
    requires i < |deletes|
  {
    var id := deletes[i];
    id !in deletes[..i] && (id in user || Writes(writes, id) || (id.table in blobs && id in refs))
  }

  ghost predicate Answers(user: Rows, refs: Refs, blobs: set<Text>, writes: seq<RowWrite>, deletes: seq<RowId>,
                          answers: seq<bool>)
  {
    |answers| == |deletes|
    && forall i :: 0 <= i < |deletes| ==> (answers[i] <==> Finds(user, refs, blobs, writes, deletes, i))
  }

  lemma {:induction false} WereThereMeans(d: Draft, blobs: set<Text>, deletes: seq<RowId>)
    ensures Answers(d.user, d.refs, blobs, [], deletes, WereThere(d, blobs, deletes))
  {
    if deletes != [] {
      var before, id := deletes[..|deletes| - 1], deletes[|deletes| - 1];
      WereThereMeans(d, blobs, before);
      DeleteAllRemoves(d, blobs, before);
      var answers := WereThere(d, blobs, deletes);
      forall i | 0 <= i < |deletes|
        ensures answers[i] <==> Finds(d.user, d.refs, blobs, [], deletes, i)
      {
        if i < |before| {
          assert before[i] == deletes[i] && before[..i] == deletes[..i];
        } else {
          assert SameAt(d.user, DeleteAll(d, blobs, before).user, id) || id in before;
        }
      }
    }
  }

  // ---- the changes noted ----

  predicate Gone(refs: Refs, blobs: set<Text>, done: set<RowId>, id: RowId, ref: BlobRef) {
    id in done && id.table in blobs && id in refs && refs[id] == ref
  }

  /** One change for each row among `rows`, and each attachment among `files`, that was there; and nothing else. */
  ghost predicate Notes(there: set<RowId>, refs: Refs, blobs: set<Text>, rows: set<RowId>, files: set<RowId>,
                        tail: seq<ChangeKind>)
  {
    && (forall c :: c in tail ==> c.Delete? || c.BlobDelete?)
    && (forall i, j :: 0 <= i < j < |tail| ==> tail[i] != tail[j])
    && (forall t, k :: Delete(t, k) in tail <==> RowId(t, k) in rows && RowId(t, k) in there)
    && (forall t, k, b, n :: BlobDelete(t, k, b, n) in tail <==> Gone(refs, blobs, files, RowId(t, k), BlobRef(b, n)))
  }

  lemma NoteRow(there: set<RowId>, refs: Refs, blobs: set<Text>, rows: set<RowId>, files: set<RowId>,
                tail: seq<ChangeKind>, id: RowId)
    requires Notes(there, refs, blobs, rows, files, tail)
    ensures Notes(there, refs, blobs, rows + {id}, files, tail + RowNote(there, rows, id))
  {
    if id !in there || id in rows {
      assert tail + [] == tail;
    }
  }

  lemma NoteFile(there: set<RowId>, refs: Refs, blobs: set<Text>, rows: set<RowId>, files: set<RowId>,
                 tail: seq<ChangeKind>, id: RowId)
    requires Notes(there, refs, blobs, rows, files, tail)
    ensures Notes(there, refs, blobs, rows, files + {id}, tail + FileNote(refs, blobs, files, id))
  {
    if !(id.table in blobs && id in refs && id !in files) {
      assert tail + [] == tail;
    }
  }

  function Ids(deletes: seq<RowId>): set<RowId> {
    set id | id in deletes
  }

  function RowNote(there: set<RowId>, done: set<RowId>, id: RowId): seq<ChangeKind> {
    if id in there && id !in done then [Delete(id.table, id.key)] else []
  }

  function FileNote(refs: Refs, blobs: set<Text>, done: set<RowId>, id: RowId): seq<ChangeKind> {
    if id.table in blobs && id in refs && id !in done
    then [BlobDelete(id.table, id.key, refs[id].id, refs[id].size)] else []
  }

  /** One more delete notes what earlier ones have not. */
  lemma DeleteOneNotes(d: Draft, mid: Draft, blobs: set<Text>, before: seq<RowId>, id: RowId)
    requires GoneFrom(d.user, before, mid.user) && LetGo(d.refs, blobs, before, mid.refs)
    ensures DeleteOne(mid, blobs, id).effects ==
            mid.effects + (RowNote(d.user.Keys, Ids(before), id) + FileNote(d.refs, blobs, Ids(before), id))
  {
    assert id !in before ==> SameAt(d.user, mid.user, id);
    assert mid.effects + [] == mid.effects;
  }

  /** The deletes of a transaction note exactly what they delete, once. */
  lemma {:induction false} DeletesAreNoted(d: Draft, blobs: set<Text>, deletes: seq<RowId>)
    returns (tail: seq<ChangeKind>)
    ensures DeleteAll(d, blobs, deletes).effects == d.effects + tail
    ensures Notes(d.user.Keys, d.refs, blobs, Ids(deletes), Ids(deletes), tail)
  {
    tail := [];
    if deletes == [] {
      assert d.effects + [] == d.effects;
    } else {
      var before, id := deletes[..|deletes| - 1], deletes[|deletes| - 1];
      assert deletes == before + [id];
      assert Ids(deletes) == Ids(before) + {id};
      var first := DeletesAreNoted(d, blobs, before);
      tail := DeletesNext(d, blobs, before, id, first);
    }
  }

  lemma DeletesNext(d: Draft, blobs: set<Text>, before: seq<RowId>, id: RowId, first: seq<ChangeKind>)
    returns (tail: seq<ChangeKind>)
    requires DeleteAll(d, blobs, before).effects == d.effects + first
    requires Notes(d.user.Keys, d.refs, blobs, Ids(before), Ids(before), first)
    ensures DeleteOne(DeleteAll(d, blobs, before), blobs, id).effects == d.effects + tail
    ensures Notes(d.user.Keys, d.refs, blobs, Ids(before) + {id}, Ids(before) + {id}, tail)
  {
    var mid, ids := DeleteAll(d, blobs, before), Ids(before);
    var more := RowNote(d.user.Keys, ids, id) + FileNote(d.refs, blobs, ids, id);
    NoteBoth(d.user.Keys, d.refs, blobs, ids, first, id);
    tail := first + more;
    DeleteAllRemoves(d, blobs, before);
    DeleteOneNotes(d, mid, blobs, before, id);
    assert mid.effects + more == d.effects + tail;
  }

  lemma NoteBoth(there: set<RowId>, refs: Refs, blobs: set<Text>, ids: set<RowId>, tail: seq<ChangeKind>, id: RowId)
    requires Notes(there, refs, blobs, ids, ids, tail)
    ensures Notes(there, refs, blobs, ids + {id}, ids + {id},
                  tail + (RowNote(there, ids, id) + FileNote(refs, blobs, ids, id)))
  {
    var more, some := RowNote(there, ids, id), FileNote(refs, blobs, ids, id);
    NoteRow(there, refs, blobs, ids, ids, tail, id);
    NoteFile(there, refs, blobs, ids + {id}, ids, tail + more, id);
    assert (tail + more) + some == tail + (more + some);
  }

  lemma {:induction false} WritesAreNoted(d: Draft, writes: seq<RowWrite>)
    ensures |WriteAll(d, writes).effects| == |d.effects| + |writes|
    ensures d.effects <= WriteAll(d, writes).effects
    ensures forall i :: 0 <= i < |writes| ==>
              WriteAll(d, writes).effects[|d.effects| + i]
              == Upsert(writes[i].id.table, writes[i].id.key, writes[i].value)
  {
    if writes != [] {
      WritesAreNoted(d, writes[..|writes| - 1]);
    }
  }

  // ---- a transaction of writes and deletes ----

  /** Deleted rows and their attachments are gone, rows written last hold that, and all else is as it was. */
  ghost predicate Took(user: Rows, refs: Refs, blobs: set<Text>, writes: seq<RowWrite>, deletes: seq<RowId>,
                       afterUser: Rows, afterRefs: Refs)
  {
    && (forall id :: id in deletes ==> id !in afterUser)
    && (forall i :: LastTo(writes, i) && writes[i].id !in deletes ==>
          writes[i].id in afterUser && afterUser[writes[i].id] == writes[i].value)
    && (forall id :: id !in deletes && !Writes(writes, id) ==> SameAt(user, afterUser, id))
    && LetGo(refs, blobs, deletes, afterRefs)
  }

  function WrittenTo(writes: seq<RowWrite>): set<RowId> {
    set i | 0 <= i < |writes| :: writes[i].id
  }

  /** It logs the writes in order, and then what was deleted, once each. */
  ghost predicate Logs(user: Rows, refs: Refs, blobs: set<Text>, writes: seq<RowWrite>, deletes: seq<RowId>,
                       effects: seq<ChangeKind>)
  {
    && |writes| <= |effects|
    && (forall i :: 0 <= i < |writes| ==> effects[i] == Upsert(writes[i].id.table, writes[i].id.key, writes[i].value))
    && Notes(user.Keys + WrittenTo(writes), refs, blobs, Ids(deletes), Ids(deletes), effects[|writes|..])
  }

  lemma AppliedMeans(db: Db, blobs: set<Text>, writes: seq<RowWrite>, deletes: seq<RowId>)
    ensures var d := Applied(Start(db), blobs, writes, deletes);
            && Took(db.user, db.refs, blobs, writes, deletes, d.user, d.refs)
            && Logs(db.user, db.refs, blobs, writes, deletes, d.effects)
    ensures Answers(db.user, db.refs, blobs, writes, deletes, WereThere(WriteAll(Start(db), writes), blobs, deletes))
  {
    AppliedTakes(db, blobs, writes, deletes);
    AppliedLogs(db, blobs, writes, deletes);
    AppliedAnswers(db, blobs, writes, deletes);
  }

  lemma AppliedAnswers(db: Db, blobs: set<Text>, writes: seq<RowWrite>, deletes: seq<RowId>)
    ensures Answers(db.user, db.refs, blobs, writes, deletes, WereThere(WriteAll(Start(db), writes), blobs, deletes))
  {
    var w := WriteAll(Start(db), writes);
    WriteAllSets(Start(db), writes);
    WrittenIds(db.user, writes, w.user);
    WereThereMeans(w, blobs, deletes);
    var answers := WereThere(w, blobs, deletes);
    forall i | 0 <= i < |deletes| ensures answers[i] <==> Finds(db.user, db.refs, blobs, writes, deletes, i) {
      assert answers[i] <==> Finds(w.user, w.refs, blobs, [], deletes, i);
    }
  }

  lemma AppliedLogs(db: Db, blobs: set<Text>, writes: seq<RowWrite>, deletes: seq<RowId>)
    ensures Logs(db.user, db.refs, blobs, writes, deletes, Applied(Start(db), blobs, writes, deletes).effects)
  {
    var w := WriteAll(Start(db), writes);
    WrittenKeys(db, writes);
    WriteAllSets(Start(db), writes);
    WritesAreNoted(Start(db), writes);
    var tail := DeletesAreNoted(w, blobs, deletes);
    LogsJoin(db.user, db.refs, blobs, writes, deletes, w.effects, tail);
  }

  lemma WrittenKeys(db: Db, writes: seq<RowWrite>)
    ensures WriteAll(Start(db), writes).user.Keys == db.user.Keys + WrittenTo(writes)
  {
    WriteAllSets(Start(db), writes);
    WrittenIds(db.user, writes, WriteAll(Start(db), writes).user);
  }

  lemma LogsJoin(user: Rows, refs: Refs, blobs: set<Text>, writes: seq<RowWrite>, deletes: seq<RowId>,
                 first: seq<ChangeKind>, tail: seq<ChangeKind>)
    requires |first| == |writes|
    requires forall i :: 0 <= i < |writes| ==> first[i] == Upsert(writes[i].id.table, writes[i].id.key, writes[i].value)
    requires Notes(user.Keys + WrittenTo(writes), refs, blobs, Ids(deletes), Ids(deletes), tail)
    ensures Logs(user, refs, blobs, writes, deletes, first + tail)
  {
    assert (first + tail)[|writes|..] == tail;
  }

  lemma AppliedTakes(db: Db, blobs: set<Text>, writes: seq<RowWrite>, deletes: seq<RowId>)
    ensures var d := Applied(Start(db), blobs, writes, deletes);
            Took(db.user, db.refs, blobs, writes, deletes, d.user, d.refs)
  {
    var w, d := WriteAll(Start(db), writes), Applied(Start(db), blobs, writes, deletes);
    WriteAllSets(Start(db), writes);
    DeleteAllRemoves(w, blobs, deletes);
    forall i | LastTo(writes, i) && writes[i].id !in deletes
      ensures writes[i].id in d.user && d.user[writes[i].id] == writes[i].value
    {
      assert SameAt(w.user, d.user, writes[i].id);
    }
    forall id | id !in deletes && !Writes(writes, id) ensures SameAt(db.user, d.user, id) {
      assert SameAt(w.user, d.user, id) && SameAt(db.user, w.user, id);
    }
  }

  lemma {:induction false} SomeLast(writes: seq<RowWrite>, id: RowId) returns (i: int)
    requires Writes(writes, id)
    ensures LastTo(writes, i) && writes[i].id == id
  {
    i := |writes| - 1;
    if writes[i].id != id {
      var first := writes[..i];
      assert forall j :: 0 <= j < |first| ==> first[j] == writes[j];
      i := SomeLast(first, id);
    }
  }

  lemma WrittenIds(before: Rows, writes: seq<RowWrite>, after: Rows)
    requires SetTo(before, writes, after)
    ensures forall id :: id in after <==> id in before || Writes(writes, id)
  {
    forall id ensures id in after <==> id in before || Writes(writes, id) {
      if Writes(writes, id) {
        var i := SomeLast(writes, id);
      } else {
        assert SameAt(before, after, id);
      }
    }
  }

  // ---- whole tables ----

  /** Pair number `i` is the last for its key. */
  predicate LastFor<K(==), V>(pairs: seq<(K, V)>, i: int) {
    0 <= i < |pairs| && forall j :: i < j < |pairs| ==> pairs[j].0 != pairs[i].0
  }

  predicate IsFor<K(==), V>(pairs: seq<(K, V)>, key: K) {
    exists i :: 0 <= i < |pairs| && pairs[i].0 == key
  }

  /** Keys hold what is put there last, and all others what they held. */
  ghost predicate Filled<K(!new), V>(before: map<K, V>, pairs: seq<(K, V)>, after: map<K, V>) {
    && (forall i :: LastFor(pairs, i) ==> pairs[i].0 in after && after[pairs[i].0] == pairs[i].1)
    && (forall k :: !IsFor(pairs, k) ==> (k in after <==> k in before) && (k in after ==> after[k] == before[k]))
  }

  lemma FilledNext<K(!new), V>(before: map<K, V>, pairs: seq<(K, V)>, mid: map<K, V>)
    requires pairs != [] && Filled(before, pairs[..|pairs| - 1], mid)
    ensures var (k, v) := pairs[|pairs| - 1]; Filled(before, pairs, mid[k := v])
  {
    var first := pairs[..|pairs| - 1];
    var (k, v) := pairs[|pairs| - 1];
    var after := mid[k := v];
    forall i | LastFor(pairs, i) ensures pairs[i].0 in after && after[pairs[i].0] == pairs[i].1 {
      if i < |first| {
        assert first[i] == pairs[i];
        assert LastFor(first, i);
      }
    }
    forall key | !IsFor(pairs, key)
      ensures (key in after <==> key in before) && (key in after ==> after[key] == before[key])
    {
      assert forall i :: 0 <= i < |first| ==> first[i] == pairs[i];
      assert pairs[|pairs| - 1].0 != key;
      assert !IsFor(first, key);
    }
  }

  /** The table holds the entries, the last for each key, and no other row; other tables are as they were. */
  ghost predicate Replaced(before: Rows, table: Text, entries: seq<(Text, Bytes)>, after: Rows) {
    && (forall i :: LastFor(entries, i) ==>
          RowId(table, entries[i].0) in after && after[RowId(table, entries[i].0)] == entries[i].1)
    && (forall k :: !IsFor(entries, k) ==> RowId(table, k) !in after)
    && (forall id: RowId :: id.table != table ==> SameAt(before, after, id))
  }

  lemma {:induction false} EntriesMean(entries: seq<(Text, Bytes)>)
    ensures Filled(map[], entries, Entries(entries))
  {
    if entries != [] {
      EntriesMean(entries[..|entries| - 1]);
      FilledNext(map[], entries, Entries(entries[..|entries| - 1]));
    }
  }

  lemma WithTableAt(rows: Rows, table: Text, content: map<Text, Bytes>, id: RowId)
    ensures var after := WithTable(rows, table, content);
            if id.table != table then SameAt(rows, after, id)
            else (id in after <==> id.key in content) && (id in after ==> after[id] == content[id.key])
  {
  }

  lemma ReplacedMeans(rows: Rows, table: Text, entries: seq<(Text, Bytes)>)
    ensures Replaced(rows, table, entries, WithTable(rows, table, Entries(entries)))
  {
    EntriesMean(entries);
    var after := WithTable(rows, table, Entries(entries));
    forall i | LastFor(entries, i)
      ensures RowId(table, entries[i].0) in after && after[RowId(table, entries[i].0)] == entries[i].1
    {
      WithTableAt(rows, table, Entries(entries), RowId(table, entries[i].0));
    }
    forall k | !IsFor(entries, k) ensures RowId(table, k) !in after {
      WithTableAt(rows, table, Entries(entries), RowId(table, k));
    }
    forall id: RowId | id.table != table ensures SameAt(rows, after, id) {
      WithTableAt(rows, table, Entries(entries), id);
    }
  }

  /** Rows written last hold that, others that are deleted are gone, and all else is as it was. */
  ghost predicate Rewrote(before: Rows, writes: seq<RowWrite>, deletes: seq<RowId>, after: Rows) {
    && (forall i :: LastTo(writes, i) ==> writes[i].id in after && after[writes[i].id] == writes[i].value)
    && (forall id :: !Writes(writes, id) && id in deletes ==> id !in after)
    && (forall id :: !Writes(writes, id) && id !in deletes ==> SameAt(before, after, id))
  }

  lemma RewroteMeans(rows: Rows, writes: seq<RowWrite>, deletes: seq<RowId>)
    ensures Rewrote(rows, writes, deletes, Put(Removed(rows, deletes), writes))
  {
    var mid, after := Removed(rows, deletes), Put(Removed(rows, deletes), writes);
    RemovedMeans(rows, deletes);
    PutSets(mid, writes);
    forall id | !Writes(writes, id) && id in deletes ensures id !in after {
      assert SameAt(mid, after, id);
    }
    forall id | !Writes(writes, id) && id !in deletes ensures SameAt(rows, after, id) {
      assert SameAt(mid, after, id) && SameAt(rows, mid, id);
    }
  }

  // ---- attachments ----

  /** A row has the attachment put in last for it, or the one it had. */
  lemma {:induction false} PutRefsMean(refs: Refs, prepared: seq<(RowId, BlobRef)>)
    ensures Filled(refs, prepared, PutRefs(refs, prepared))
  {
    if prepared != [] {
      PutRefsMean(refs, prepared[..|prepared| - 1]);
      FilledNext(refs, prepared, PutRefs(refs, prepared[..|prepared| - 1]));
    }
  }

  /** Of the references of `tables`, exactly those of rows there are stay; all others stay. */
  lemma OrphansMean(refs: Refs, user: Rows, tables: set<Text>, id: RowId)
    ensures id in WithoutAll(refs, user, tables) <==> id in refs && (id.table in tables ==> id in user)
    ensures id in WithoutAll(refs, user, tables) ==> WithoutAll(refs, user, tables)[id] == refs[id]
    ensures forall t :: WithoutOrphans(refs, user, t) == WithoutAll(refs, user, {t})
  {
  }

  // ---- every row of an attachment table has its attachment ----

  ghost predicate RowsAttached(user: Rows, refs: Refs, blobs: set<Text>) {
    forall id :: id in user && id.table in blobs ==> id in refs
  }

  lemma TookAttached(user: Rows, refs: Refs, blobs: set<Text>, writes: seq<RowWrite>, deletes: seq<RowId>,
                     afterUser: Rows, afterRefs: Refs)
    requires RowsAttached(user, refs, blobs) && Allowed(refs, blobs, writes)
    requires Took(user, refs, blobs, writes, deletes, afterUser, afterRefs)
    ensures RowsAttached(afterUser, afterRefs, blobs)
  {
    forall id | id in afterUser && id.table in blobs ensures id in afterRefs {
      if Writes(writes, id) {
        var i :| 0 <= i < |writes| && writes[i].id == id;
      } else {
        assert SameAt(user, afterUser, id);
      }
    }
  }

  lemma ReplacedAttached(db: Db, blobs: set<Text>, table: Text, entries: seq<(Text, Bytes)>)
    requires RowsAttached(db.user, db.refs, blobs) && Replaceable(db, blobs, table, entries)
    ensures var user := WithTable(db.user, table, Entries(entries));
            RowsAttached(user, if table in blobs then WithoutOrphans(db.refs, user, table) else db.refs, blobs)
  {
    var user := WithTable(db.user, table, Entries(entries));
    forall id | id in user && id.table in blobs
      ensures id in if table in blobs then WithoutOrphans(db.refs, user, table) else db.refs
    {
      WithTableAt(db.user, table, Entries(entries), id);
    }
  }

  lemma RewroteAttached(db: Db, blobs: set<Text>, writes: seq<RowWrite>, deletes: seq<RowId>,
                        prepared: seq<(RowId, BlobRef)>)
    requires RowsAttached(db.user, db.refs, blobs) && Rewritable(db, blobs, writes, deletes, prepared)
    ensures var user := Put(Removed(db.user, deletes), writes);
            var refs := PutRefs(RemovedRefs(db.refs, blobs, deletes), prepared);
            RowsAttached(user, WithoutAll(refs, user, TablesOf(writes, deletes) * blobs), blobs)
  {
    var user, tables := Put(Removed(db.user, deletes), writes), TablesOf(writes, deletes);
    var mid := RemovedRefs(db.refs, blobs, deletes);
    var refs := PutRefs(mid, prepared);
    RewroteMeans(db.user, writes, deletes);
    RemovedRefsMean(db.refs, blobs, deletes);
    PutKeeps(mid, prepared);
    forall id | id in user && id.table in blobs ensures id in refs {
      if id.table !in tables {
        OtherTable(db.user, writes, deletes, id);
      } else {
        assert Attached(user, refs, id.table);
      }
    }
  }

  lemma OtherTable(rows: Rows, writes: seq<RowWrite>, deletes: seq<RowId>, id: RowId)
    requires id.table !in TablesOf(writes, deletes)
    ensures id !in deletes && SameAt(rows, Put(Removed(rows, deletes), writes), id)
  {
    RewroteMeans(rows, writes, deletes);
    assert forall i :: 0 <= i < |deletes| ==> deletes[i].table in TablesOf(writes, deletes);
    assert forall i :: 0 <= i < |writes| ==> writes[i].id.table in TablesOf(writes, deletes);
  }

  lemma {:induction false} PutKeeps(refs: Refs, prepared: seq<(RowId, BlobRef)>)
    ensures forall id :: id in refs ==> id in PutRefs(refs, prepared)
  {
    if prepared != [] {
      PutKeeps(refs, prepared[..|prepared| - 1]);
    }
  }

  /** The image of a table holds its rows and its references, key by key, and nothing else. */
  lemma ImageMeans(d: Draft, table: Text, key: Text)
    ensures var image, id := ImageOf(d, table), RowId(table, key);
            && (key in image.rows <==> id in d.user) && (key in image.rows ==> image.rows[key] == d.user[id])
            && (key in image.refs <==> id in d.refs) && (key in image.refs ==> image.refs[key] == d.refs[id])
  {
  }
}
