/**
 What the log is for (src/journal.rs:565-701, src/repository.rs:721-794): from any earlier state it
 still covers, replaying the retained changes gives exactly the rows of now.
 */
module Replaying {
  import opened Prelude
  import opened ChangeCodec
  import opened Journal
  import opened JournalTx
  import opened Consumers
  import opened RowTables
  import opened LastWrite
  import opened Drafts

  /** A transaction published. */
  ghost function Publish(db: Db, d: Draft, max: Option<nat>): Db {
    Db(d.user, d.refs, FoldOn(db.last, d.effects, db.log.head, d.images),
      Committed(db.log, d.effects, d.images, d.resets, max))
  }

  // ---- everything that ever happened ----

  /** All changes ever committed, all images ever captured, and the rows at every commit boundary. */
  datatype Past = Past(changes: seq<ChangeKind>, images: map<Text, Image>, marks: map<nat, Rows>)

  /** The log holds a part of the past, as it was. */
  ghost predicate Recalls(log: Log, past: Past) {
    && |past.changes| == log.head
    && (forall k :: k in log.changes ==> 1 <= k <= log.head && log.changes[k] == past.changes[k - 1])
    && (forall s :: s in log.images ==> s in past.images && log.images[s] == past.images[s])
  }

  /** Every reset ever has its image in the past, under a name used up. */
  ghost predicate Complete(log: Log, past: Past) {
    && (forall s :: NamedAmong(past.changes, s) ==> s in past.images)
    && (forall s :: s in past.images ==> NamedWithin(s, 0, log.resets))
  }

  ghost predicate MarkHolds(user: Rows, past: Past, m: nat) {
    m in past.marks && m <= |past.changes| && Replay(past.marks[m], past.changes[m..], past.images) == user
  }

  ghost predicate Marked(user: Rows, past: Past) {
    && (forall m :: m in past.marks ==> MarkHolds(user, past, m))
    && |past.changes| in past.marks
    && 0 in past.marks && past.marks[0] == map[]
  }

  ghost predicate Inv(db: Db, past: Past) {
    && LogInv(db.log) && Recalls(db.log, past) && Complete(db.log, past)
    && Marked(db.user, past)
    && db.last == Fold(past.changes, past.images)
  }

  function FreshDb(): Db {
    Db(map[], map[], map[], Empty())
  }

  function FreshPast(): Past {
    Past([], map[], map[0 := map[]])
  }

  lemma FreshInv()
    ensures Inv(FreshDb(), FreshPast())
  {
    EmptyKeeps();
  }

  function Extended(past: Past, d: Draft): Past {
    Past(past.changes + d.effects, past.images + d.images, past.marks[|past.changes| + |d.effects| := d.user])
  }

  // ---- a commit ----

  lemma SettledRecalls(log: Log, max: Option<nat>)
    ensures var t := Settled(log, max);
            && t.head == log.head && t.resets == log.resets
            && (forall k :: k in t.changes ==> k in log.changes && t.changes[k] == log.changes[k])
            && (forall s :: s in t.images ==> s in log.images && t.images[s] == log.images[s])
  {
  }

  lemma ImagesAgree(db: Db, past: Past, d: Draft, s: Text)
    requires Recalls(db.log, past) && Complete(db.log, past) && Draftable(db.log, d.effects, d.images, d.resets)
    requires s in past.images && s in d.images
    ensures past.images[s] == d.images[s]
  {
    if s !in db.log.images {
      var i :| Resets(d.effects, i, s);
      NamesApart(s, 0, db.log.resets, d.resets);
    }
  }

  lemma AppendRecalls(db: Db, past: Past, d: Draft)
    requires Ordered(db.log) && Recalls(db.log, past) && Complete(db.log, past)
             && Draftable(db.log, d.effects, d.images, d.resets)
    ensures Recalls(Append(db.log, d.effects).(images := d.images, resets := d.resets), Extended(past, d))
  {
    var a, p := Append(db.log, d.effects), Extended(past, d);
    AppendFrame(db.log, d.effects);
    forall k | k in a.changes ensures 1 <= k <= a.head && a.changes[k] == p.changes[k - 1] {
      RowRecalled(db.log, past.changes, d.effects, k);
    }
  }

  lemma RowRecalled(log: Log, changes: seq<ChangeKind>, effects: seq<ChangeKind>, k: nat)
    requires |changes| == log.head && k in Append(log, effects).changes
    requires forall i :: i in log.changes ==> 1 <= i <= log.head && log.changes[i] == changes[i - 1]
    ensures 1 <= k <= log.head + |effects| && Append(log, effects).changes[k] == (changes + effects)[k - 1]
  {
    AppendedRow(log, effects, k);
  }

  lemma ExtendedComplete(db: Db, past: Past, d: Draft)
    requires Complete(db.log, past) && Imaged(db.log) && Draftable(db.log, d.effects, d.images, d.resets)
    ensures Complete(db.log.(resets := d.resets), Extended(past, d))
  {
    var p := Extended(past, d);
    forall s | NamedAmong(p.changes, s) ensures s in p.images {
      var i :| Resets(p.changes, i, s);
      if i < |past.changes| {
        assert Resets(past.changes, i, s);
      } else {
        assert Resets(d.effects, i - |past.changes|, s);
        assert NamedAmong(d.effects, s);
      }
    }
    forall s | s in p.images ensures NamedWithin(s, 0, d.resets) {
      if s in past.images || s in db.log.images {
        var g :| 0 < g <= db.log.resets && s == ResetName(g);
      } else {
        var i :| Resets(d.effects, i, s);
        var g :| db.log.resets < g <= d.resets && s == ResetName(g);
      }
    }
  }

  lemma PastReplaysSame(db: Db, past: Past, d: Draft, rows: Rows, m: nat)
    requires Recalls(db.log, past) && Complete(db.log, past) && Draftable(db.log, d.effects, d.images, d.resets)
             && m <= |past.changes|
    ensures Replay(rows, past.changes[m..], past.images + d.images) == Replay(rows, past.changes[m..], past.images)
  {
    var p := past.images + d.images;
    forall i, s | Resets(past.changes[m..], i, s) ensures s in p && s in past.images && p[s] == past.images[s] {
      assert Resets(past.changes, m + i, s);
      assert NamedAmong(past.changes, s);
      if s in d.images {
        ImagesAgree(db, past, d, s);
      }
    }
    ReplaySame(rows, past.changes[m..], p, past.images);
  }

  lemma EffectsReplaySame(db: Db, past: Past, d: Draft, rows: Rows)
    requires Draftable(db.log, d.effects, d.images, d.resets)
    ensures Replay(rows, d.effects, past.images + d.images) == Replay(rows, d.effects, d.images)
  {
    forall i, s | Resets(d.effects, i, s) ensures s in d.images {
      assert NamedAmong(d.effects, s);
    }
    ReplaySame(rows, d.effects, past.images + d.images, d.images);
  }

  /** Every mark still leads to the rows of now. */
  lemma MarkStays(db: Db, past: Past, d: Draft, m: nat)
    requires Recalls(db.log, past) && Complete(db.log, past) && Good(db, d)
    requires MarkHolds(db.user, past, m)
    ensures m != |past.changes| + |d.effects| ==> MarkHolds(d.user, Extended(past, d), m)
  {
    var p := Extended(past, d);
    PastReplaysSame(db, past, d, past.marks[m], m);
    EffectsReplaySame(db, past, d, db.user);
    ReplayJoins(past.marks[m], past.changes[m..], d.effects, p.images);
    assert p.changes[m..] == past.changes[m..] + d.effects;
  }

  lemma NewMarkHolds(past: Past, d: Draft)
    ensures MarkHolds(d.user, Extended(past, d), |past.changes| + |d.effects|)
  {
    var p := Extended(past, d);
    assert p.changes[|p.changes|..] == [];
  }

  /** A commit without changes finds its mark already there. */
  lemma SameMark(db: Db, past: Past, d: Draft)
    requires Inv(db, past) && Good(db, d) && d.effects == []
    ensures Extended(past, d).marks == past.marks
  {
    assert MarkHolds(db.user, past, db.log.head);
    assert past.changes[|past.changes|..] == [];
  }

  lemma {:induction false} FoldOnSame(last: Last, effects: seq<ChangeKind>, head: nat, a: map<Text, Image>,
                                      b: map<Text, Image>)
    requires forall i, s :: Resets(effects, i, s) ==> s in a && s in b && a[s] == b[s]
    ensures FoldOn(last, effects, head, a) == FoldOn(last, effects, head, b)
  {
    if effects != [] {
      var before, c := effects[..|effects| - 1], effects[|effects| - 1];
      forall i, s | Resets(before, i, s) ensures s in a && s in b && a[s] == b[s] {
        assert Resets(effects, i, s);
      }
      FoldOnSame(last, before, head, a, b);
      if c.TableReset? {
        assert Resets(effects, |effects| - 1, c.snapshot);
      }
    }
  }

  lemma LastStays(db: Db, past: Past, d: Draft)
    requires Recalls(db.log, past) && Complete(db.log, past) && Draftable(db.log, d.effects, d.images, d.resets)
    requires db.last == Fold(past.changes, past.images)
    ensures FoldOn(db.last, d.effects, db.log.head, d.images) == Fold(past.changes + d.effects, past.images + d.images)
  {
    var p := past.images + d.images;
    forall i, s | Resets(past.changes, i, s) ensures s in p && s in past.images && p[s] == past.images[s] {
      assert NamedAmong(past.changes, s);
      if s in d.images {
        ImagesAgree(db, past, d, s);
      }
    }
    FoldSame(past.changes, p, past.images);
    forall i, s | Resets(d.effects, i, s) ensures s in d.images {
      assert NamedAmong(d.effects, s);
    }
    FoldOnSame(db.last, d.effects, db.log.head, d.images, p);
    FoldJoins(past.changes, d.effects, p);
  }

  lemma PublishRecalls(db: Db, past: Past, d: Draft, max: Option<nat>)
    requires LogInv(db.log) && Recalls(db.log, past) && Complete(db.log, past)
             && Draftable(db.log, d.effects, d.images, d.resets)
    ensures var log := Committed(db.log, d.effects, d.images, d.resets, max);
            LogInv(log) && Recalls(log, Extended(past, d)) && Complete(log, Extended(past, d))
              && log.head == db.log.head + |d.effects|
  {
    var a := Append(db.log, d.effects).(images := d.images, resets := d.resets);
    AppendFrame(db.log, d.effects);
    AppendKeeps(db.log, d.effects, d.images, d.resets);
    SettledKeeps(a, max);
    SettledRecalls(a, max);
    AppendRecalls(db, past, d);
    ExtendedComplete(db, past, d);
  }

  lemma MarksStay(db: Db, past: Past, d: Draft)
    requires Inv(db, past) && Good(db, d)
    ensures Marked(d.user, Extended(past, d))
  {
    var p := Extended(past, d);
    forall m | m in p.marks ensures MarkHolds(d.user, p, m) {
      AnyMarkStays(db, past, d, m);
    }
    if d.effects == [] {
      SameMark(db, past, d);
    }
  }

  lemma AnyMarkStays(db: Db, past: Past, d: Draft, m: nat)
    requires Recalls(db.log, past) && Complete(db.log, past) && Marked(db.user, past) && Good(db, d)
    requires m in Extended(past, d).marks
    ensures MarkHolds(d.user, Extended(past, d), m)
  {
    NewMarkHolds(past, d);
    if m != |past.changes| + |d.effects| {
      assert MarkHolds(db.user, past, m);
      MarkStays(db, past, d, m);
    }
  }

  /** A commit keeps everything. */
  lemma PublishKeeps(db: Db, past: Past, d: Draft, max: Option<nat>)
    requires Inv(db, past) && Good(db, d)
    ensures Inv(Publish(db, d, max), Extended(past, d))
  {
    PublishRecalls(db, past, d, max);
    LastStays(db, past, d);
    MarksStay(db, past, d);
  }

  // ---- runs ----

  datatype Op = Commit(draft: Draft) | Consume(op: LogOp) | Retain(max: Option<nat>)

  datatype World = World(db: Db, max: Option<nat>, past: Past)

  /** A transaction that would overflow a counter is dropped; so is one a consumer's request fails in. */
  ghost function Do(w: World, database: Bytes, op: Op): World {
    match op
    case Commit(d) =>
      if Fits(w.db.log, d.effects) then w.(db := Publish(w.db, d, w.max), past := Extended(w.past, d)) else w
    case Consume(o) => w.(db := w.db.(log := Step(w.db.log, database, w.max, o)))
    case Retain(max) => w.(db := w.db.(log := Settled(w.db.log, max)), max := max)
  }

  ghost predicate Possible(w: World, op: Op) {
    && (op.Commit? ==> Good(w.db, op.draft) && w.db.log.head + |op.draft.effects| < U64 - 1)
    && (op.Consume? ==> !op.op.Write?)
  }

  ghost predicate PossibleRun(w: World, database: Bytes, run: seq<Op>)
    decreases |run|
  {
    run == [] || (Possible(w, run[0]) && PossibleRun(Do(w, database, run[0]), database, run[1..]))
  }

  ghost function After(w: World, database: Bytes, run: seq<Op>): World
    decreases |run|
  {
    if run == [] then w else After(Do(w, database, run[0]), database, run[1..])
  }

  lemma ConsumeRecalls(log: Log, database: Bytes, max: Option<nat>, op: LogOp, past: Past)
    requires LogInv(log) && Recalls(log, past) && Complete(log, past) && !op.Write?
    ensures var t := Step(log, database, max, op); LogInv(t) && Recalls(t, past) && Complete(t, past)
  {
    StepKeeps(log, database, max, op);
    if Body(log, database, op).Ok? {
      SettledRecalls(Body(log, database, op).value, max);
    }
  }

  lemma DoKeeps(w: World, database: Bytes, op: Op)
    requires Inv(w.db, w.past) && Possible(w, op)
    ensures Inv(Do(w, database, op).db, Do(w, database, op).past)
  {
    match op {
      case Commit(d) => PublishKeeps(w.db, w.past, d, w.max);
      case Consume(o) => ConsumeRecalls(w.db.log, database, w.max, o, w.past);
      case Retain(max) =>
        SettledKeeps(w.db.log, max);
        SettledRecalls(w.db.log, max);
    }
  }

  /** `b` remembers all `a` did. */
  ghost predicate Remembers(a: Past, b: Past) {
    && (forall m :: m in a.marks ==> m in b.marks && b.marks[m] == a.marks[m])
    && (forall s :: s in a.images ==> s in b.images && b.images[s] == a.images[s])
    && a.changes <= b.changes
  }

  lemma ExtendedRemembers(db: Db, past: Past, d: Draft)
    requires Inv(db, past) && Good(db, d)
    ensures Remembers(past, Extended(past, d))
  {
    var p := Extended(past, d);
    forall s | s in past.images ensures s in p.images && p.images[s] == past.images[s] {
      if s in d.images {
        ImagesAgree(db, past, d, s);
      }
    }
    assert forall m :: m in past.marks ==> m <= |past.changes|;
    if d.effects == [] {
      SameMark(db, past, d);
    }
  }

  lemma {:induction false} RunKeeps(w: World, database: Bytes, run: seq<Op>)
    requires Inv(w.db, w.past) && PossibleRun(w, database, run)
    ensures var t := After(w, database, run); Inv(t.db, t.past) && Remembers(w.past, t.past)
    decreases |run|
  {
    if run != [] {
      var next := Do(w, database, run[0]);
      DoKeeps(w, database, run[0]);
      if run[0].Commit? {
        ExtendedRemembers(w.db, w.past, run[0].draft);
      }
      RunKeeps(next, database, run[1..]);
    }
  }

  // ---- the promise ----

  /** The retained changes after `m`. */
  function Retained(log: Log, m: nat): seq<ChangeKind>
    requires m <= log.head && forall k :: m < k <= log.head ==> k in log.changes
  {
    seq(log.head - m, i requires 0 <= i < log.head - m => log.changes[m + 1 + i])
  }

  lemma RetainedIsPast(db: Db, past: Past, m: nat)
    requires Inv(db, past) && db.log.floor - 1 <= m <= db.log.head
    ensures forall rows ::
              Replay(rows, Retained(db.log, m), db.log.images) == Replay(rows, past.changes[m..], past.images)
  {
    var r := Retained(db.log, m);
    RetainedChanges(db.log, past, m);
    forall i, s | Resets(r, i, s) ensures s in db.log.images && s in past.images && db.log.images[s] == past.images[s] {
      assert IsReset(db.log.changes, m + 1 + i, s);
    }
    forall rows ensures Replay(rows, r, db.log.images) == Replay(rows, r, past.images) {
      ReplaySame(rows, r, db.log.images, past.images);
    }
  }

  lemma RetainedChanges(log: Log, past: Past, m: nat)
    requires Ordered(log) && Recalls(log, past) && log.floor - 1 <= m <= log.head
    ensures Retained(log, m) == past.changes[m..]
  {
  }

  /**
   In every run, from every earlier state the floor still covers, replaying the changes retained since,
   with the images retained, on the rows of then gives exactly the rows of now.
   */
  lemma ReplayGivesNow(w: World, database: Bytes, run: seq<Op>)
    requires Inv(w.db, w.past) && PossibleRun(w, database, run)
    ensures var t := After(w, database, run).db;
            && LogInv(t.log) && w.db.log.head <= t.log.head
            && (t.log.floor - 1 <= w.db.log.head ==>
                  Replay(w.db.user, Retained(t.log, w.db.log.head), t.log.images) == t.user)
  {
    var t := After(w, database, run);
    RunKeeps(w, database, run);
    var m := w.db.log.head;
    assert MarkHolds(w.db.user, w.past, m);
    assert w.past.changes[m..] == [];
    assert w.past.marks[m] == w.db.user;
    assert MarkHolds(t.db.user, t.past, m);
    if t.db.log.floor - 1 <= m {
      RetainedIsPast(t.db, t.past, m);
    }
  }

  /** An image is there exactly while a retained record names it, and never changes. */
  lemma ImagesNeverChange(w: World, database: Bytes, run: seq<Op>, s: Text)
    requires Inv(w.db, w.past) && PossibleRun(w, database, run)
    ensures var t := After(w, database, run).db;
            && (s in t.log.images <==> Named(t.log.changes, s))
            && (s in w.db.log.images && s in t.log.images ==> t.log.images[s] == w.db.log.images[s])
  {
    RunKeeps(w, database, run);
  }

  /** The last writes are those of all changes ever made, pruned or not, and of exactly the rows there are. */
  lemma LastWriteIsWhole(w: World, database: Bytes, run: seq<Op>)
    requires Inv(w.db, w.past) && PossibleRun(w, database, run)
    ensures var t := After(w, database, run);
            t.db.last == Fold(t.past.changes, t.past.images) && t.db.last.Keys == t.db.user.Keys
  {
    var t := After(w, database, run);
    RunKeeps(w, database, run);
    assert MarkHolds(t.db.user, t.past, 0);
    assert t.past.changes[0..] == t.past.changes;
    FoldKeys(t.past.changes, t.past.images);
  }
}
