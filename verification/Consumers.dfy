/**
 Consumers of the log, their tokens, and every transaction on it (src/journal.rs:243-296, 428-440, 541-784).
 */
module Consumers {
  import opened Prelude
  import opened ChangeCodec
  import opened Journal
  import opened JournalTx

  datatype Token = Token(database: Bytes, name: Text, generation: nat)

  datatype JournalError = Expired | NeedsRebuild | Invalid

  /** "__indexer" */
  const INDEXER: Text := [95, 95, 105, 110, 100, 101, 120, 101, 114]

  /** The consumer a token stands for. */
  function CheckToken(token: Token, database: Bytes, consumers: map<Text, Consumer>): Result<Consumer, JournalError> {
    if token.name !in consumers then Err(Expired)
    else
      var c := consumers[token.name];
      if token.database != database || token.generation != c.generation || !c.active then Err(Expired)
      else if c.needsRebuild then Err(NeedsRebuild)
      else Ok(c)
  }

  // ---- every transaction on the log ----

  datatype LogOp =
    | Write(effects: seq<ChangeKind>, images: map<Text, Image>, resets: nat)
    | Register(name: Text, internal: bool)
    | Ack(token: Token, upto: nat)
    | Unregister(name: Text)
    | DisableIndexer

  function Registered(log: Log, name: Text, internal: bool): Log {
    log.(generation := log.generation + 1,
         consumers := log.consumers[name := Consumer(log.generation + 1, log.head, true, internal, false)])
  }

  /** The body of a transaction; an error drops it whole. */
  function Body(log: Log, database: Bytes, op: LogOp): Result<Log, JournalError> {
    match op
    case Write(effects, images, resets) =>
      if Fits(log, effects) then Ok(Append(log, effects).(images := images, resets := resets)) else Err(Invalid)
    case Register(name, internal) =>
      if name == []
         || (!internal && name in log.consumers && log.consumers[name].internal)
         || log.generation + 1 >= U64
      then Err(Invalid)
      else Ok(Registered(log, name, internal))
    case Ack(token, upto) =>
      var c := CheckToken(token, database, log.consumers);
      if c.Err? then Err(c.error)
      else if upto < c.value.acked || upto > log.head then Err(Invalid)
      else Ok(log.(consumers := log.consumers[token.name := c.value.(acked := upto)]))
    case Unregister(name) =>
      if name in log.consumers && log.consumers[name].internal then Err(Invalid)
      else Ok(log.(consumers := log.consumers - {name}))
    case DisableIndexer =>
      if INDEXER in log.consumers && log.consumers[INDEXER].internal
      then Ok(log.(consumers := log.consumers[INDEXER := log.consumers[INDEXER].(active := false)]))
      else Ok(log)
  }

  ghost function Step(log: Log, database: Bytes, max: Option<nat>, op: LogOp): Log {
    var b := Body(log, database, op);
    if b.Ok? then Settled(b.value, max) else log
  }

  /** A write brings the images its resets name; the head stays below the largest u64. */
  ghost predicate Allowed(log: Log, op: LogOp) {
    op.Write? ==> Draftable(log, op.effects, op.images, op.resets) && log.head + |op.effects| < U64 - 1
  }

  lemma BodyKeeps(log: Log, database: Bytes, op: LogOp)
    requires LogInv(log) && Allowed(log, op) && Body(log, database, op).Ok?
    ensures LogInv(Body(log, database, op).value)
  {
    var b := Body(log, database, op).value;
    if op.Write? {
      AppendKeeps(log, op.effects, op.images, op.resets);
    } else {
      forall n | n in b.consumers ensures Tracks(b, b.consumers[n]) {
        BodyKeepsTrack(log, database, op, n);
      }
      BodyKeepsGenerations(log, database, op);
    }
  }

  lemma BodyKeepsTrack(log: Log, database: Bytes, op: LogOp, n: Text)
    requires LogInv(log) && !op.Write? && Body(log, database, op).Ok? && n in Body(log, database, op).value.consumers
    ensures Tracks(Body(log, database, op).value, Body(log, database, op).value.consumers[n])
  {
    if n in log.consumers {
      assert Tracks(log, log.consumers[n]);
    }
  }

  lemma BodyKeepsGenerations(log: Log, database: Bytes, op: LogOp)
    requires LogInv(log) && !op.Write? && Body(log, database, op).Ok?
    ensures var cs := Body(log, database, op).value.consumers;
            forall n, m :: n in cs && m in cs && cs[n].generation == cs[m].generation ==> n == m
  {
    var cs := Body(log, database, op).value.consumers;
    forall n, m | n in cs && m in cs && cs[n].generation == cs[m].generation ensures n == m {
      if op.Register? {
        assert n != op.name ==> Tracks(log, log.consumers[n]);
        assert m != op.name ==> Tracks(log, log.consumers[m]);
      }
    }
  }

  /** Every transaction keeps the log in order and, with a budget, within it. */
  lemma StepKeeps(log: Log, database: Bytes, max: Option<nat>, op: LogOp)
    requires LogInv(log) && Allowed(log, op)
    ensures LogInv(Step(log, database, max, op))
    ensures Body(log, database, op).Ok? && max.Some? ==> Step(log, database, max, op).bytes <= max.value
  {
    if Body(log, database, op).Ok? {
      BodyKeeps(log, database, op);
      SettledKeeps(Body(log, database, op).value, max);
    }
  }

  // ---- runs ----

  datatype Action = Transact(op: LogOp) | SetRetention(max: Option<nat>)

  datatype State = State(log: Log, max: Option<nat>)

  ghost function Act(s: State, database: Bytes, a: Action): State {
    match a
    case Transact(op) => s.(log := Step(s.log, database, s.max, op))
    case SetRetention(max) => State(Settled(s.log, max), max)
  }

  ghost predicate AllowedRun(s: State, database: Bytes, run: seq<Action>)
    decreases |run|
  {
    run == [] || ((run[0].Transact? ==> Allowed(s.log, run[0].op))
      && AllowedRun(Act(s, database, run[0]), database, run[1..]))
  }

  ghost function Reached(s: State, database: Bytes, run: seq<Action>): State
    decreases |run|
  {
    if run == [] then s else Reached(Act(s, database, run[0]), database, run[1..])
  }

  lemma ActKeeps(s: State, database: Bytes, a: Action)
    requires LogInv(s.log) && (a.Transact? ==> Allowed(s.log, a.op))
    ensures LogInv(Act(s, database, a).log)
  {
    match a
    case Transact(op) => StepKeeps(s.log, database, s.max, op);
    case SetRetention(max) => SettledKeeps(s.log, max);
  }

  /**
   In every reachable state the keys are exactly floor..head, the size is the sum of the rows, every
   active consumer stands between floor - 1 and the head, and each image has its record.
   */
  lemma {:induction false} RunKeeps(s: State, database: Bytes, run: seq<Action>)
    requires LogInv(s.log) && AllowedRun(s, database, run)
    ensures LogInv(Reached(s, database, run).log)
    decreases |run|
  {
    if run != [] {
      ActKeeps(s, database, run[0]);
      RunKeeps(Act(s, database, run[0]), database, run[1..]);
    }
  }

  lemma EmptyKeeps()
    ensures LogInv(Empty())
  {
  }

  // ---- expired tokens ----

  /** A token of this database that was issued, and whose registration is over. */
  predicate Dead(log: Log, token: Token) {
    && token.generation <= log.generation
    && (token.name in log.consumers ==>
          log.consumers[token.name].generation != token.generation || !log.consumers[token.name].active)
  }

  /** Of the tokens issued so far, exactly the dead ones are refused as expired. */
  lemma DeadIsExpired(log: Log, database: Bytes, token: Token)
    requires token.database == database && token.generation <= log.generation
    ensures Dead(log, token) <==> CheckToken(token, database, log.consumers) == Err(Expired)
  {
  }

  /** Registering issues a token for this database, which is current until the transaction settles. */
  lemma RegisterIssues(log: Log, database: Bytes, name: Text, internal: bool)
    requires Body(log, database, Register(name, internal)).Ok?
    ensures var b := Body(log, database, Register(name, internal)).value;
            CheckToken(Token(database, name, b.generation), database, b.consumers) == Ok(b.consumers[name])
    ensures forall t: Token :: t.generation <= log.generation && t.name == name ==>
            Dead(Body(log, database, Register(name, internal)).value, t)
  {
  }

  lemma SettlingKeepsDead(log: Log, max: Option<nat>, token: Token)
    requires Dead(log, token)
    ensures Dead(Settled(log, max), token)
  {
  }

  lemma BodyKeepsDead(log: Log, database: Bytes, op: LogOp, token: Token)
    requires Dead(log, token) && Body(log, database, op).Ok?
    ensures Dead(Body(log, database, op).value, token)
  {
    if op.Write? {
      AppendFrame(log, op.effects);
    }
  }

  lemma ActKeepsDead(s: State, database: Bytes, a: Action, token: Token)
    requires Dead(s.log, token)
    ensures Dead(Act(s, database, a).log, token)
  {
    match a {
      case Transact(op) =>
        if Body(s.log, database, op).Ok? {
          BodyKeepsDead(s.log, database, op, token);
          SettlingKeepsDead(Body(s.log, database, op).value, s.max, token);
        }
      case SetRetention(max) =>
        SettlingKeepsDead(s.log, max, token);
    }
  }

  lemma {:induction false} DeadStays(s: State, database: Bytes, run: seq<Action>, token: Token)
    requires Dead(s.log, token)
    ensures Dead(Reached(s, database, run).log, token)
    decreases |run|
  {
    if run != [] {
      ActKeepsDead(s, database, run[0], token);
      DeadStays(Act(s, database, run[0]), database, run[1..], token);
    }
  }

  /** An issued token, once refused as expired, is refused as expired after every further run. */
  lemma ExpiredForever(s: State, database: Bytes, run: seq<Action>, token: Token)
    requires token.generation <= s.log.generation
    requires CheckToken(token, database, s.log.consumers) == Err(Expired)
    ensures CheckToken(token, database, Reached(s, database, run).log.consumers) == Err(Expired)
  {
    if token.database == database {
      DeadIsExpired(s.log, database, token);
      DeadStays(s, database, run, token);
      DeadIsExpired(Reached(s, database, run).log, database, token);
    }
  }

  // ---- what each transaction does to the consumers ----

  /** The token of a registration that stands, of this database. */
  predicate Stands(token: Token, database: Bytes, consumers: map<Text, Consumer>) {
    && token.database == database && token.name in consumers
    && consumers[token.name].generation == token.generation && consumers[token.name].active
  }

  /** A token is good if its registration stands and needs no rebuild; otherwise it says which. */
  lemma TokenMeans(token: Token, database: Bytes, consumers: map<Text, Consumer>)
    ensures CheckToken(token, database, consumers) ==
            if !Stands(token, database, consumers) then Err(Expired)
            else if consumers[token.name].needsRebuild then Err(NeedsRebuild)
            else Ok(consumers[token.name])
  {
  }

  /** What the budget makes of a token: expired for an external consumer, to be rebuilt for an internal one. */
  lemma JudgedTokens(log: Log, max: nat, consumers: map<Text, Consumer>, database: Bytes, token: Token)
    requires Judged(log, max, consumers) && Stands(token, database, log.consumers)
    ensures var c, r := log.consumers[token.name], CheckToken(token, database, consumers);
            if SumAfter(log.changes, c.acked, log.head) <= max then r == CheckToken(token, database, log.consumers)
            else r == Err(if c.internal then NeedsRebuild else Expired)
  {
    assert JudgedOne(log, max, log.consumers[token.name], consumers[token.name]);
  }

  /** `before` with these consumers, judged by the budget, and only what they have still to read. */
  ghost predicate Resettled(before: Log, consumers: map<Text, Consumer>, max: Option<nat>, after: Log) {
    && after.resets == before.resets && after.head == before.head
    && (if max.None? then after.consumers == consumers
        else Judged(before.(consumers := consumers), max.value, after.consumers))
    && KeepsUnread(before.(generation := after.generation), after)
  }

  lemma SettledIsResettled(before: Log, log: Log, max: Option<nat>)
    requires LogInv(log) && log == before.(consumers := log.consumers, generation := log.generation)
    ensures Resettled(before, log.consumers, max, Settled(log, max)) && Settled(log, max).generation == log.generation
  {
    SettledKeepsUnread(log, max);
    SameUnread(before.(generation := log.generation), log, Settled(log, max));
    SettledJudges(log, if max.Some? then max.value else 0);
    if max.Some? {
      SameJudgement(before.(consumers := log.consumers), log, max.value, Settled(log, max).consumers);
    }
  }

  lemma SameUnread(a: Log, b: Log, after: Log)
    requires KeepsUnread(b, after) && a.changes == b.changes && a.head == b.head && a.resets == b.resets
    requires a.generation == b.generation
    ensures KeepsUnread(a, after)
  {
  }

  lemma SameJudgement(a: Log, b: Log, max: nat, consumers: map<Text, Consumer>)
    requires Judged(b, max, consumers) && a.changes == b.changes && a.head == b.head && a.consumers == b.consumers
    ensures Judged(a, max, consumers)
  {
    forall n | n in a.consumers ensures JudgedOne(a, max, a.consumers[n], consumers[n]) {
      assert JudgedOne(b, max, b.consumers[n], consumers[n]);
    }
  }

  /** Acknowledging is refused backwards, past the head, and for a token that is not good. */
  predicate CanAck(log: Log, database: Bytes, token: Token, upto: nat) {
    && Stands(token, database, log.consumers) && !log.consumers[token.name].needsRebuild
    && log.consumers[token.name].acked <= upto <= log.head
  }

  /** It moves the consumer, and nothing else of it. */
  lemma AckMeans(log: Log, database: Bytes, max: Option<nat>, token: Token, upto: nat)
    requires LogInv(log)
    ensures Body(log, database, Ack(token, upto)).Ok? <==> CanAck(log, database, token, upto)
    ensures var t := Step(log, database, max, Ack(token, upto));
            if CanAck(log, database, token, upto) then
              var c := log.consumers[token.name];
              var moved := Consumer(c.generation, upto, true, c.internal, false);
              && Resettled(log, log.consumers[token.name := moved], max, t)
              && t.generation == log.generation
            else t == log
  {
    TokenMeans(token, database, log.consumers);
    if CanAck(log, database, token, upto) {
      BodyKeeps(log, database, Ack(token, upto));
      SettledIsResettled(log, Body(log, database, Ack(token, upto)).value, max);
    }
  }

  predicate CanRegister(log: Log, name: Text, internal: bool) {
    && name != [] && log.generation + 1 < U64
    && (name in log.consumers && log.consumers[name].internal ==> internal)
  }

  /** A registration stands at the head under a generation never used, in place of any other of its name. */
  lemma RegisterMeans(log: Log, database: Bytes, max: Option<nat>, name: Text, internal: bool)
    requires LogInv(log)
    ensures Body(log, database, Register(name, internal)).Ok? <==> CanRegister(log, name, internal)
    ensures var t := Step(log, database, max, Register(name, internal));
            if CanRegister(log, name, internal) then
              var c := Consumer(log.generation + 1, log.head, true, internal, false);
              && Resettled(log, log.consumers[name := c], max, t) && t.generation == log.generation + 1
              && name in t.consumers && t.consumers[name] == c
            else t == log
  {
    if CanRegister(log, name, internal) {
      var b := Body(log, database, Register(name, internal)).value;
      BodyKeeps(log, database, Register(name, internal));
      SettledIsResettled(log, b, max);
      SettledJudges(b, if max.Some? then max.value else 0);
      if max.Some? {
        assert JudgedOne(b, max.value, b.consumers[name], Settled(b, max).consumers[name]);
      }
    }
  }

  /** Unregistering removes the consumer; the library's own stay. */
  lemma UnregisterMeans(log: Log, database: Bytes, max: Option<nat>, name: Text)
    requires LogInv(log)
    ensures Body(log, database, Unregister(name)).Ok? <==> !(name in log.consumers && log.consumers[name].internal)
    ensures var t := Step(log, database, max, Unregister(name));
            if name in log.consumers && log.consumers[name].internal then t == log
            else && Resettled(log, log.consumers - {name}, max, t) && t.generation == log.generation
                 && name !in t.consumers
  {
    if !(name in log.consumers && log.consumers[name].internal) {
      BodyKeeps(log, database, Unregister(name));
      SettledIsResettled(log, Body(log, database, Unregister(name)).value, max);
    }
  }

  /** Disabling makes the library's indexer inactive, and changes no other field of it. */
  lemma DisableMeans(log: Log, database: Bytes, max: Option<nat>)
    requires LogInv(log)
    ensures var t := Step(log, database, max, DisableIndexer);
            if INDEXER in log.consumers && log.consumers[INDEXER].internal then
              var c := log.consumers[INDEXER];
              var off := Consumer(c.generation, c.acked, false, true, c.needsRebuild);
              Resettled(log, log.consumers[INDEXER := off], max, t) && t.generation == log.generation
            else Resettled(log, log.consumers, max, t) && t.generation == log.generation
  {
    BodyKeeps(log, database, DisableIndexer);
    SettledIsResettled(log, Body(log, database, DisableIndexer).value, max);
  }

  // ---- acknowledgements over runs ----

  /** While the registration of this generation stands, it has acknowledged at least `upto`. */
  predicate AckedTo(log: Log, token: Token, upto: nat) {
    && token.generation <= log.generation && upto <= log.head
    && (token.name in log.consumers && log.consumers[token.name].generation == token.generation ==>
          log.consumers[token.name].acked >= upto)
  }

  lemma SettlingKeepsAcked(log: Log, max: Option<nat>, token: Token, upto: nat)
    requires AckedTo(log, token, upto)
    ensures AckedTo(Settled(log, max), token, upto)
  {
  }

  lemma BodyKeepsAcked(log: Log, database: Bytes, op: LogOp, token: Token, upto: nat)
    requires AckedTo(log, token, upto) && Body(log, database, op).Ok?
    ensures AckedTo(Body(log, database, op).value, token, upto)
  {
    if op.Write? {
      AppendFrame(log, op.effects);
    }
  }

  lemma {:induction false} AckedStays(s: State, database: Bytes, run: seq<Action>, token: Token, upto: nat)
    requires AckedTo(s.log, token, upto)
    ensures AckedTo(Reached(s, database, run).log, token, upto)
    decreases |run|
  {
    if run != [] {
      match run[0] {
        case Transact(op) =>
          if Body(s.log, database, op).Ok? {
            BodyKeepsAcked(s.log, database, op, token, upto);
            SettlingKeepsAcked(Body(s.log, database, op).value, s.max, token, upto);
          }
        case SetRetention(max) =>
          SettlingKeepsAcked(s.log, max, token, upto);
      }
      AckedStays(Act(s, database, run[0]), database, run[1..], token, upto);
    }
  }

  /** After an accepted acknowledgement, and whatever follows, a smaller one with the same token is refused. */
  lemma NoAckBackwards(s: State, database: Bytes, token: Token, upto: nat, run: seq<Action>, less: nat)
    requires LogInv(s.log) && CanAck(s.log, database, token, upto) && less < upto
    ensures var t := Reached(Act(s, database, Transact(Ack(token, upto))), database, run).log;
            Body(t, database, Ack(token, less)).Err?
            && (CheckToken(token, database, t.consumers).Ok? ==> Body(t, database, Ack(token, less)) == Err(Invalid))
  {
    var next := Act(s, database, Transact(Ack(token, upto)));
    AckReaches(s.log, database, s.max, token, upto);
    AckedStays(next, database, run, token, upto);
    AckedRefuses(Reached(next, database, run).log, database, token, upto, less);
  }

  lemma AckReaches(log: Log, database: Bytes, max: Option<nat>, token: Token, upto: nat)
    requires LogInv(log) && CanAck(log, database, token, upto)
    ensures AckedTo(Step(log, database, max, Ack(token, upto)), token, upto)
  {
    TokenMeans(token, database, log.consumers);
    assert Tracks(log, log.consumers[token.name]);
    SettlingKeepsAcked(Body(log, database, Ack(token, upto)).value, max, token, upto);
  }

  lemma AckedRefuses(log: Log, database: Bytes, token: Token, upto: nat, less: nat)
    requires AckedTo(log, token, upto) && less < upto
    ensures Body(log, database, Ack(token, less)).Err?
    ensures CheckToken(token, database, log.consumers).Ok? ==> Body(log, database, Ack(token, less)) == Err(Invalid)
  {
  }

  // ---- the store ----

  /** A change with its number. */
  datatype Change = Change(at: nat, kind: ChangeKind)

  lemma SettledAgain(log: Log, max: Option<nat>)
    requires LogInv(log)
    ensures LogInv(PruneAcked(log)) && Settled(PruneAcked(log), max) == Settled(log, max)
  {
    PrunedSize(log);
    LowWaterBounds(log);
    if max.Some? {
      SettledPruned(log, max.value);
    } else {
      LowWaterOfPruned(log, LowWater(log));
      PruneTwice(log, LowWater(log), LowWater(log));
    }
  }

  lemma {:induction false} AppendCommutes(log: Log, effects: seq<ChangeKind>, images: map<Text, Image>, resets: nat)
    ensures Append(log.(images := images, resets := resets), effects) ==
            Append(log, effects).(images := images, resets := resets)
  {
    if effects != [] {
      AppendCommutes(log, effects[..|effects| - 1], images, resets);
    }
  }

  /** With its images in place first, a write appends to the log as its body says. */
  lemma WritePrepared(log: Log, effects: seq<ChangeKind>, images: map<Text, Image>, resets: nat)
    requires LogInv(log) && Draftable(log, effects, images, resets)
    ensures var p := log.(images := images, resets := resets);
            && Ordered(p) && LogInv(Append(p, effects))
            && Append(p, effects) == Append(log, effects).(images := images, resets := resets)
            && (Fits(p, effects) <==> Fits(log, effects))
  {
    AppendKeeps(log, effects, images, resets);
    AppendCommutes(log, effects, images, resets);
  }

  lemma SettledFrame(log: Log, max: Option<nat>)
    ensures Settled(log, max).generation == log.generation
  {
  }

  /** A current token that reads on from where it acknowledged, or later, is never told it is too late. */
  lemma CurrentTokenReads(log: Log, database: Bytes, token: Token, after: nat)
    requires LogInv(log) && CheckToken(token, database, log.consumers).Ok?
    requires CheckToken(token, database, log.consumers).value.acked <= after
    ensures log.floor - 1 <= after
  {
    assert Tracks(log, log.consumers[token.name]);
  }

  /** The log of a database, between transactions. */
  class JournalStore {
    const database: Bytes
    var log: Log
    var max: Option<nat>

    ghost predicate Valid()
      reads this
    {
      LogInv(log)
    }

    constructor (database: Bytes, max: Option<nat>)
      ensures Valid() && log == Empty() && this.max == max && this.database == database
    {
      this.database := database;
      this.max := max;
      log := Empty();
    }

    method Commit(effects: seq<ChangeKind>, images: map<Text, Image>, resets: nat)
      returns (ok: bool, events: seq<LibraryEvent>)
      requires Valid() && Allowed(log, Write(effects, images, resets))
      modifies this`log
      ensures Valid() && log == Step(old(log), database, max, Write(effects, images, resets))
      ensures ok == Body(old(log), database, Write(effects, images, resets)).Ok?
      ensures var b := Body(old(log), database, Write(effects, images, resets));
              b.Ok? && max.Some? ==> Reports(events, b.value, Over(b.value, max.value))
    {
      StepKeeps(log, database, max, Write(effects, images, resets));
      WritePrepared(log, effects, images, resets);
      var tx := new JournalTx(log);
      tx.images, tx.resets := images, resets;
      ok, events := tx.Finish(effects, max);
      if ok {
        log := tx.View();
      }
    }

    method Register(name: Text, internal: bool) returns (r: Result<Token, JournalError>)
      requires Valid()
      modifies this`log
      ensures Valid() && log == Step(old(log), database, max, LogOp.Register(name, internal))
      ensures r == if Body(old(log), database, LogOp.Register(name, internal)).Ok?
                   then Ok(Token(database, name, log.generation)) else Err(Invalid)
      ensures r.Ok? ==> log.generation == old(log).generation + 1
      ensures r.Ok? <==> CanRegister(old(log), name, internal)
      ensures r.Ok? ==> r.value == Token(database, name, old(log).generation + 1)
                        && CheckToken(r.value, database, log.consumers)
                           == Ok(Consumer(old(log).generation + 1, old(log).head, true, internal, false))
      ensures r.Ok? ==> var c := Consumer(old(log).generation + 1, old(log).head, true, internal, false);
                        Resettled(old(log), old(log).consumers[name := c], max, log)
      ensures r.Err? ==> log == old(log)
    {
      RegisterMeans(log, database, max, name, internal);
      StepKeeps(log, database, max, LogOp.Register(name, internal));
      if name == [] {
        return Err(Invalid);
      }
      var tx := new JournalTx(log);
      if !internal && name in tx.consumers && tx.consumers[name].internal {
        return Err(Invalid);
      }
      if tx.generation + 1 >= U64 {
        return Err(Invalid);
      }
      Enter(name, internal);
      r := Ok(Token(database, name, log.generation));
    }

    /** A new registration, at the head, under a new generation. */
    method Enter(name: Text, internal: bool)
      requires Valid() && Body(log, database, LogOp.Register(name, internal)).Ok?
      modifies this`log
      ensures log == Settled(Registered(old(log), name, internal), max)
      ensures log.generation == old(log).generation + 1
    {
      var tx := new JournalTx(log);
      tx.generation := tx.generation + 1;
      tx.consumers := tx.consumers[name := Consumer(tx.generation, tx.head, true, internal, false)];
      assert tx.View() == Registered(log, name, internal);
      BodyKeeps(log, database, LogOp.Register(name, internal));
      SettledFrame(tx.View(), max);
      var ok, _ := tx.Finish([], max);
      log := tx.View();
    }

    method Ack(token: Token, upto: nat) returns (r: Result<(), JournalError>)
      requires Valid()
      modifies this`log
      ensures Valid() && log == Step(old(log), database, max, LogOp.Ack(token, upto))
      ensures r == var b := Body(old(log), database, LogOp.Ack(token, upto)); if b.Ok? then Ok(()) else Err(b.error)
      ensures r.Ok? <==> CanAck(old(log), database, token, upto)
      ensures r.Ok? ==> var c := old(log).consumers[token.name];
                        var moved := Consumer(c.generation, upto, true, c.internal, false);
                        Resettled(old(log), old(log).consumers[token.name := moved], max, log)
      ensures r.Err? ==> log == old(log)
    {
      AckMeans(log, database, max, token, upto);
      StepKeeps(log, database, max, LogOp.Ack(token, upto));
      var c := CheckToken(token, database, log.consumers);
      if c.Err? {
        return Err(c.error);
      }
      if upto < c.value.acked || upto > log.head {
        return Err(Invalid);
      }
      BodyKeeps(log, database, LogOp.Ack(token, upto));
      Replace(log.consumers[token.name := c.value.(acked := upto)], true);
      r := Ok(());
    }

    /** A transaction that changes the consumers; some prune before they settle. */
    method Replace(consumers: map<Text, Consumer>, prune: bool)
      requires Valid() && LogInv(log.(consumers := consumers))
      modifies this`log
      ensures log == Settled(old(log).(consumers := consumers), max)
    {
      var tx := new JournalTx(log);
      tx.consumers := consumers;
      SettledAgain(tx.View(), max);
      if prune {
        tx.PruneToAcked();
      }
      var ok, _ := tx.Finish([], max);
      log := tx.View();
    }

    method Unregister(name: Text) returns (r: Result<(), JournalError>)
      requires Valid()
      modifies this`log
      ensures Valid() && log == Step(old(log), database, max, LogOp.Unregister(name))
      ensures r == if Body(old(log), database, LogOp.Unregister(name)).Ok? then Ok(()) else Err(Invalid)
      ensures r.Err? <==> name in old(log).consumers && old(log).consumers[name].internal
      ensures r.Ok? ==> Resettled(old(log), old(log).consumers - {name}, max, log) && name !in log.consumers
    {
      UnregisterMeans(log, database, max, name);
      StepKeeps(log, database, max, LogOp.Unregister(name));
      if name in log.consumers && log.consumers[name].internal {
        return Err(Invalid);
      }
      BodyKeeps(log, database, LogOp.Unregister(name));
      Replace(log.consumers - {name}, true);
      r := Ok(());
    }

    method DisableIndex()
      requires Valid()
      modifies this`log
      ensures Valid() && log == Step(old(log), database, max, DisableIndexer)
      ensures if INDEXER in old(log).consumers && old(log).consumers[INDEXER].internal then
                var c := old(log).consumers[INDEXER];
                var off := Consumer(c.generation, c.acked, false, true, c.needsRebuild);
                Resettled(old(log), old(log).consumers[INDEXER := off], max, log)
              else Resettled(old(log), old(log).consumers, max, log)
    {
      DisableMeans(log, database, max);
      StepKeeps(log, database, max, DisableIndexer);
      var consumers := log.consumers;
      if INDEXER in consumers && consumers[INDEXER].internal {
        consumers := consumers[INDEXER := consumers[INDEXER].(active := false)];
      }
      BodyKeeps(log, database, DisableIndexer);
      Replace(consumers, false);
    }

    method SetBudget(max: Option<nat>)
      requires Valid()
      modifies this
      ensures Valid() && State(log, this.max) == Act(State(old(log), old(this.max)), database, SetRetention(max))
    {
      SettledKeeps(log, max);
      this.max := max;
      var tx := new JournalTx(log);
      var ok, _ := tx.Finish([], max);
      log := tx.View();
    }

    /**
     The changes after `after`, at most `limit`: the token must be current, `after` not before the floor
     and not past the head; what comes back is gap-free from `after + 1` on.
     */
    method ReadChanges(token: Token, after: nat, limit: nat) returns (r: Result<seq<Change>, JournalError>)
      requires Valid()
      ensures var c := CheckToken(token, database, log.consumers);
              if c.Err? then r == Err(c.error)
              else if after < log.floor - 1 then r == Err(Expired)
              else if after > log.head then r == Err(Invalid)
              else r.Ok? && |r.value| == Min(limit, log.head - after)
                   && forall i :: 0 <= i < |r.value| ==>
                     after + 1 + i in log.changes && r.value[i] == Change(after + 1 + i, log.changes[after + 1 + i])
    {
      var c := CheckToken(token, database, log.consumers);
      if c.Err? {
        return Err(c.error);
      }
      if after < log.floor - 1 {
        return Err(Expired);
      }
      if after > log.head {
        return Err(Invalid);
      }
      var out: seq<Change> := [];
      var left := set k | k in log.changes && k > after;
      while left != {} && |out| < limit
        invariant |out| <= log.head - after && |out| <= limit
        invariant forall k :: k in left <==> after + |out| < k <= log.head
        invariant forall i :: 0 <= i < |out| ==>
                  after + 1 + i in log.changes && out[i] == Change(after + 1 + i, log.changes[after + 1 + i])
      {
        var k := Smallest(left);
        assert after + |out| + 1 in left;
        out := out + [Change(k, log.changes[k])];
        left := left - {k};
      }
      if |out| < limit {
        assert log.head > after + |out| ==> log.head in left;
      }
      r := Ok(out);
    }

    /** The rows of a retained reset: refused for a record no longer there, or one that is no reset. */
    method ReadReset(token: Token, at: nat) returns (r: Result<map<Text, Bytes>, JournalError>)
      requires Valid()
      ensures var c := CheckToken(token, database, log.consumers);
              if c.Err? then r == Err(c.error)
              else if at < log.floor || at > log.head then r == Err(Expired)
              else if !log.changes[at].TableReset? then r == Err(Invalid)
              else log.changes[at].snapshot in log.images && r == Ok(log.images[log.changes[at].snapshot].rows)
    {
      var c := CheckToken(token, database, log.consumers);
      if c.Err? {
        return Err(c.error);
      }
      if at !in log.changes {
        return Err(Expired);
      }
      if !log.changes[at].TableReset? {
        return Err(Invalid);
      }
      assert IsReset(log.changes, at, log.changes[at].snapshot);
      r := Ok(log.images[log.changes[at].snapshot].rows);
    }
  }
}
