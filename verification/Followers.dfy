/**
 A copy kept up to date through the log (src/journal.rs:565-740, src/indexes/worker.rs:215-250): a client
 copies the rows at the head, pulls the changes since, reads the image of each reset, and acknowledges.
 */
module Followers {
  import opened Prelude
  import opened ChangeCodec
  import opened Journal
  import opened Consumers
  import opened JournalTx
  import opened RowTables
  import opened Drafts
  import opened Replaying
  import Repository

  // ---- the rows at an earlier point ----

  /** The rows after the first `m` changes ever made. */
  function RowsAt(past: Past, m: nat): Rows
    requires m <= |past.changes|
  {
    Replay(map[], past.changes[..m], past.images)
  }

  lemma RowsAtHead(db: Db, past: Past)
    requires Inv(db, past)
    ensures |past.changes| == db.log.head && RowsAt(past, db.log.head) == db.user
  {
    assert MarkHolds(db.user, past, 0);
    assert past.changes[..|past.changes|] == past.changes == past.changes[0..];
  }

  lemma RowsAtNext(past: Past, m: nat, n: nat)
    requires m <= n <= |past.changes|
    ensures RowsAt(past, n) == Replay(RowsAt(past, m), past.changes[m..n], past.images)
  {
    ReplayJoins(map[], past.changes[..m], past.changes[m..n], past.images);
    assert past.changes[..n] == past.changes[..m] + past.changes[m..n];
  }

  /** The past never changes. */
  lemma RowsAtStays(log: Log, a: Past, b: Past, m: nat)
    requires Complete(log, a) && Remembers(a, b) && m <= |a.changes|
    ensures RowsAt(b, m) == RowsAt(a, m)
  {
    var changes := a.changes[..m];
    assert b.changes[..m] == changes;
    forall i, s | Resets(changes, i, s) ensures s in a.images && s in b.images && b.images[s] == a.images[s] {
      assert Resets(a.changes, i, s);
      assert NamedAmong(a.changes, s);
    }
    ReplaySame(map[], changes, a.images, b.images);
  }

  /** In every run, what the rows were when the head was where it was is what the first changes give. */
  lemma RowsOfThen(w: World, database: Bytes, run: seq<Op>)
    requires Inv(w.db, w.past) && PossibleRun(w, database, run)
    ensures var t := Replaying.After(w, database, run);
            w.db.log.head <= |t.past.changes| && RowsAt(t.past, w.db.log.head) == w.db.user
  {
    Replaying.RunKeeps(w, database, run);
    RowsAtHead(w.db, w.past);
    RowsAtStays(w.db.log, w.past, Replaying.After(w, database, run).past, w.db.log.head);
  }

  // ---- pulling ----

  /** A client: its token, its copy of the rows, and the change the copy is up to. */
  datatype Client = Client(token: Token, rows: Rows, at: nat)

  predicate CanRead(log: Log, at: nat) {
    log.floor - 1 <= at <= log.head
  }

  /** At most `limit` of the retained changes after `at`. */
  function Next(log: Log, at: nat, limit: nat): seq<ChangeKind>
    requires Ordered(log) && CanRead(log, at)
  {
    Retained(log, at)[..Min(limit, log.head - at)]
  }

  function Pulled(log: Log, c: Client, limit: nat): Client
    requires Ordered(log) && CanRead(log, c.at)
  {
    c.(rows := Replay(c.rows, Next(log, c.at, limit), log.images), at := c.at + Min(limit, log.head - c.at))
  }

  /** The copy is the rows as of the change it is up to. */
  ghost predicate Copies(past: Past, c: Client) {
    c.at <= |past.changes| && c.rows == RowsAt(past, c.at)
  }

  /** While the token is current, it has acknowledged no more than the copy has. */
  predicate Acked(log: Log, database: Bytes, c: Client) {
    var k := CheckToken(c.token, database, log.consumers);
    k.Ok? ==> k.value.acked <= c.at
  }

  ghost predicate Following(w: World, database: Bytes, c: Client) {
    Copies(w.past, c) && Acked(w.db.log, database, c) && c.token.generation <= w.db.log.generation
  }

  lemma NextIsPast(log: Log, past: Past, at: nat, limit: nat)
    requires LogInv(log) && Recalls(log, past) && CanRead(log, at)
    ensures Next(log, at, limit) == past.changes[at..at + Min(limit, log.head - at)]
  {
    RetainedChanges(log, past, at);
  }

  lemma PulledCopies(log: Log, past: Past, c: Client, limit: nat)
    requires LogInv(log) && Recalls(log, past) && Copies(past, c) && CanRead(log, c.at)
    ensures Copies(past, Pulled(log, c, limit))
  {
    NextIsPast(log, past, c.at, limit);
    NextReplays(log, past, c.rows, c.at, limit);
    RowsAtNext(past, c.at, c.at + Min(limit, log.head - c.at));
  }

  /** The images the log retains are those the past remembers. */
  lemma NextReplays(log: Log, past: Past, rows: Rows, at: nat, limit: nat)
    requires LogInv(log) && Recalls(log, past) && CanRead(log, at)
    ensures Replay(rows, Next(log, at, limit), log.images) == Replay(rows, Next(log, at, limit), past.images)
  {
    var next := Next(log, at, limit);
    forall i, s | Resets(next, i, s) ensures s in log.images && s in past.images && log.images[s] == past.images[s] {
      assert next[i] == log.changes[at + 1 + i];
      assert IsReset(log.changes, at + 1 + i, s);
    }
    ReplaySame(rows, next, log.images, past.images);
  }

  // ---- what others do ----

  /** An acknowledgement with this very token. */
  predicate AcksFor(op: Op, token: Token) {
    op.Consume? && op.op.Ack? && op.op.token.name == token.name && op.op.token.generation == token.generation
  }

  lemma BodyAcked(log: Log, database: Bytes, op: LogOp, c: Client)
    requires Acked(log, database, c) && c.token.generation <= log.generation && Body(log, database, op).Ok?
    requires AcksFor(Consume(op), c.token) ==> op.upto <= c.at
    ensures Acked(Body(log, database, op).value, database, c)
            && log.generation <= Body(log, database, op).value.generation
  {
    if op.Write? {
      AppendFrame(log, op.effects);
    }
  }

  lemma SettledAcked(log: Log, database: Bytes, max: Option<nat>, c: Client)
    requires Acked(log, database, c)
    ensures Acked(Settled(log, max), database, c) && Settled(log, max).generation == log.generation
  {
  }

  lemma OpFollows(w: World, database: Bytes, op: Op, c: Client)
    requires Inv(w.db, w.past) && Possible(w, op) && Following(w, database, c)
    requires AcksFor(op, c.token) ==> op.op.upto <= c.at
    ensures Following(Do(w, database, op), database, c)
  {
    match op {
      case Commit(d) =>
        if Fits(w.db.log, d.effects) {
          ExtendedRemembers(w.db, w.past, d);
          RowsAtStays(w.db.log, w.past, Extended(w.past, d), c.at);
          BodyAcked(w.db.log, database, Write(d.effects, d.images, d.resets), c);
          SettledAcked(Append(w.db.log, d.effects).(images := d.images, resets := d.resets), database, w.max, c);
        }
      case Consume(o) =>
        if Body(w.db.log, database, o).Ok? {
          BodyAcked(w.db.log, database, o, c);
          SettledAcked(Body(w.db.log, database, o).value, database, w.max, c);
        }
      case Retain(max) =>
        SettledAcked(w.db.log, database, max, c);
    }
  }

  // ---- runs ----

  /** What happens around one client: anything else, a pull, or an acknowledgement of all it has. */
  datatype Move = Other(op: Op) | Pull(limit: nat) | Confirm

  ghost predicate CanPull(w: World, database: Bytes, c: Client) {
    CheckToken(c.token, database, w.db.log.consumers).Ok?
  }

  /** While its token is current, the log reaches back to where a client is. */
  lemma LogReaches(w: World, database: Bytes, c: Client)
    requires Inv(w.db, w.past) && Following(w, database, c)
    ensures c.at <= w.db.log.head && (CanPull(w, database, c) ==> CanRead(w.db.log, c.at))
  {
    if CanPull(w, database, c) {
      CurrentTokenReads(w.db.log, database, c.token, c.at);
    }
  }

  /** A client whose token is current can read on, and reaches the rows of now with the head. */
  lemma PullFollows(w: World, database: Bytes, c: Client, limit: nat)
    requires Inv(w.db, w.past) && Following(w, database, c)
    ensures CanPull(w, database, c) ==>
              && CanRead(w.db.log, c.at) && Following(w, database, Pulled(w.db.log, c, limit))
              && (Pulled(w.db.log, c, limit).at == w.db.log.head ==> Pulled(w.db.log, c, limit).rows == w.db.user)
  {
    RowsAtHead(w.db, w.past);
    LogReaches(w, database, c);
    if CanPull(w, database, c) {
      PulledCopies(w.db.log, w.past, c, limit);
    }
  }

  ghost function Confirmed(c: Client): Op {
    Consume(Ack(c.token, c.at))
  }

  ghost function MoveWorld(w: World, database: Bytes, c: Client, m: Move): World {
    match m
    case Other(op) => Do(w, database, op)
    case Pull(_) => w
    case Confirm => Do(w, database, Confirmed(c))
  }

  /** A pull with a refused token changes nothing. */
  ghost function MoveClient(w: World, database: Bytes, c: Client, m: Move): Client
    requires Inv(w.db, w.past) && Following(w, database, c)
  {
    if m.Pull? && CanPull(w, database, c) then
      CurrentTokenReads(w.db.log, database, c.token, c.at);
      Pulled(w.db.log, c, m.limit)
    else c
  }

  ghost predicate CanMove(w: World, c: Client, m: Move) {
    m.Other? ==> Possible(w, m.op) && !AcksFor(m.op, c.token)
  }

  lemma MoveFollows(w: World, database: Bytes, c: Client, m: Move)
    requires Inv(w.db, w.past) && Following(w, database, c) && CanMove(w, c, m)
    ensures var t := MoveWorld(w, database, c, m);
            Inv(t.db, t.past) && Following(t, database, MoveClient(w, database, c, m))
  {
    match m {
      case Other(op) =>
        DoKeeps(w, database, op);
        OpFollows(w, database, op, c);
      case Pull(limit) =>
        PullFollows(w, database, c, limit);
      case Confirm =>
        DoKeeps(w, database, Confirmed(c));
        OpFollows(w, database, Confirmed(c), c);
    }
  }

  ghost predicate CanMoveAll(w: World, database: Bytes, c: Client, moves: seq<Move>)
    requires Inv(w.db, w.past) && Following(w, database, c)
    decreases |moves|
  {
    moves == [] || (CanMove(w, c, moves[0]) &&
      (MoveFollows(w, database, c, moves[0]);
       CanMoveAll(MoveWorld(w, database, c, moves[0]), database, MoveClient(w, database, c, moves[0]), moves[1..])))
  }

  /** Where a run of moves leaves the database and the client. */
  ghost function Moved(w: World, database: Bytes, c: Client, moves: seq<Move>): (World, Client)
    requires Inv(w.db, w.past) && Following(w, database, c) && CanMoveAll(w, database, c, moves)
    decreases |moves|
  {
    if moves == [] then (w, c)
    else
      MoveFollows(w, database, c, moves[0]);
      Moved(MoveWorld(w, database, c, moves[0]), database, MoveClient(w, database, c, moves[0]), moves[1..])
  }

  /**
   Whatever else happens to the database in between, a client that pulls and acknowledges always holds the
   rows as of the change it is up to; and while its token is not refused, the log still reaches it, and
   one more pull of everything makes its copy the rows of now.
   */
  lemma {:induction false} CopyNeverStrays(w: World, database: Bytes, c: Client, moves: seq<Move>)
    requires Inv(w.db, w.past) && Following(w, database, c) && CanMoveAll(w, database, c, moves)
    ensures var (t, e) := Moved(w, database, c, moves);
            && Inv(t.db, t.past) && Copies(t.past, e)
            && (CanPull(t, database, e) ==>
                  && CanRead(t.db.log, e.at)
                  && Pulled(t.db.log, e, t.db.log.head).rows == t.db.user)
    decreases |moves|
  {
    if moves != [] {
      MoveFollows(w, database, c, moves[0]);
      CopyNeverStrays(MoveWorld(w, database, c, moves[0]), database, MoveClient(w, database, c, moves[0]), moves[1..]);
    } else {
      PullFollows(w, database, c, w.db.log.head);
    }
  }

  /** A client that copies the rows at the head, whatever its token. */
  lemma StartsFollowing(w: World, database: Bytes, token: Token)
    requires Inv(w.db, w.past) && token.generation <= w.db.log.generation
    ensures Following(w, database, Client(token, w.db.user, w.db.log.head))
  {
    RowsAtHead(w.db, w.past);
    if CheckToken(token, database, w.db.log.consumers).Ok? {
      assert Tracks(w.db.log, w.db.log.consumers[token.name]);
    }
  }

  predicate IsLogged(log: Log, c: Change) {
    c.at in log.changes && c.kind == log.changes[c.at]
  }

  /** What a read gives are the next changes. */
  lemma ReadIsNext(log: Log, at: nat, limit: nat, changes: seq<Change>)
    requires Ordered(log) && CanRead(log, at) && |changes| == Min(limit, log.head - at)
    requires forall i :: 0 <= i < |changes| ==>
             at + 1 + i in log.changes && changes[i] == Change(at + 1 + i, log.changes[at + 1 + i])
    ensures AreLogged(log, changes, Next(log, at, limit))
  {
  }

  ghost predicate AreLogged(log: Log, changes: seq<Change>, next: seq<ChangeKind>) {
    |changes| == |next| && forall i :: 0 <= i < |changes| ==> IsLogged(log, changes[i]) && changes[i].kind == next[i]
  }

  // ---- a follower ----

  class Follower {
    const manager: Repository.Manager
    const token: Token
    var rows: Rows
    var at: nat

    function View(): Client
      reads this
    {
      Client(token, rows, at)
    }

    ghost function Around(): World
      reads manager, manager.journal
    {
      World(manager.View(), manager.journal.max, manager.past)
    }

    ghost predicate Valid()
      reads this, manager, manager.journal
    {
      manager.Valid() && Following(Around(), manager.journal.database, View())
    }

    /** Copy the rows at the head. */
    constructor (manager: Repository.Manager, token: Token)
      requires manager.Valid() && token.generation <= manager.journal.log.generation
      ensures Valid() && this.manager == manager && this.token == token && rows == manager.user
    {
      this.manager, this.token := manager, token;
      rows, at := manager.user, manager.journal.log.head;
      new;
      StartsFollowing(Around(), manager.journal.database, token);
    }

    /** Apply one change; the rows of a reset are read through the log. */
    method ApplyChange(change: Change) returns (ok: bool)
      requires manager.journal.Valid()
      requires CheckToken(token, manager.journal.database, manager.journal.log.consumers).Ok?
      requires IsLogged(manager.journal.log, change)
      modifies this`rows
      ensures ok && rows == Apply(old(rows), change.kind, manager.journal.log.images)
    {
      match change.kind {
        case Upsert(t, k, v) => rows := rows[RowId(t, k) := v];
        case Delete(t, k) => rows := rows - {RowId(t, k)};
        case TableReset(t, s) =>
          var content := manager.journal.ReadReset(token, change.at);
          if content.Err? {
            return false;
          }
          rows := WithTable(rows, t, content.value);
        case BlobPut(_, _, _, _) =>
        case BlobDelete(_, _, _, _) =>
      }
      ok := true;
    }

    /** Apply the changes read, in their order. */
    method ApplyAll(changes: seq<Change>, ghost next: seq<ChangeKind>)
      requires manager.journal.Valid() && AreLogged(manager.journal.log, changes, next)
      requires CheckToken(token, manager.journal.database, manager.journal.log.consumers).Ok?
      modifies this`rows
      ensures rows == Replay(old(rows), next, manager.journal.log.images)
    {
      ghost var before := rows;
      var i := 0;
      while i < |changes|
        invariant i <= |changes|
        invariant rows == Replay(before, next[..i], manager.journal.log.images)
      {
        assert next[..i + 1][..i] == next[..i];
        var ok := ApplyChange(changes[i]);
        i := i + 1;
      }
      assert next[..i] == next;
    }

    method Fetch(limit: nat) returns (r: Result<seq<Change>, JournalError>)
      requires Valid()
      ensures var k := CheckToken(token, manager.journal.database, manager.journal.log.consumers);
              if k.Err? then r == Err(k.error)
              else r.Ok? && CanRead(manager.journal.log, at)
                   && AreLogged(manager.journal.log, r.value, Next(manager.journal.log, at, limit))
    {
      LogReaches(Around(), manager.journal.database, View());
      r := manager.journal.ReadChanges(token, at, limit);
      if r.Ok? {
        ReadIsNext(manager.journal.log, at, limit, r.value);
      }
    }

    /**
     Read at most `limit` changes and apply them. It is refused exactly when the token is: never because
     the log no longer reaches back far enough.
     */
    method Pull(limit: nat) returns (r: Result<nat, JournalError>)
      requires Valid()
      modifies this`rows, this`at
      ensures Valid()
      ensures var k := CheckToken(token, manager.journal.database, manager.journal.log.consumers);
              if k.Err? then r == Err(k.error) && View() == old(View())
              else r.Ok? && CanRead(manager.journal.log, old(at))
                   && View() == Pulled(manager.journal.log, old(View()), limit)
      ensures r.Ok? && at == manager.journal.log.head ==> rows == manager.user
    {
      ghost var log, before := manager.journal.log, View();
      PullFollows(Around(), manager.journal.database, before, limit);
      var read := Fetch(limit);
      if read.Err? {
        return Err(read.error);
      }
      ApplyAll(read.value, Next(log, at, limit));
      at := at + |read.value|;
      r := Ok(|read.value|);
      assert View() == Pulled(log, before, limit);
    }

    /** Acknowledge all that is applied: refused exactly when the token is. */
    method Confirm() returns (r: Result<(), JournalError>)
      requires Valid()
      modifies manager.journal`log
      ensures Valid()
      ensures r.Ok? <==> CheckToken(token, manager.journal.database, old(manager.journal.log.consumers)).Ok?
    {
      RowsAtHead(manager.View(), manager.past);
      OpFollows(Around(), manager.journal.database, Confirmed(View()), View());
      r := manager.Ack(token, at);
    }
  }
}
