/**
 The log's tables inside one write transaction (src/journal.rs:216-296, 441-539), changed row by row.
 */
module JournalTx {
  import opened Prelude
  import opened ChangeCodec
  import opened Journal

  datatype LibraryEvent =
    | IndexRebuildRequired(name: Text, lastAcked: nat)
    | ConsumerExpired(name: Text, lastAcked: nat)

  function EventOf(n: Text, c: Consumer): LibraryEvent {
    if c.internal then IndexRebuildRequired(n, c.acked) else ConsumerExpired(n, c.acked)
  }

  /** One event for each of `names`, telling where it stood. */
  ghost predicate Reports(events: seq<LibraryEvent>, log: Log, names: set<Text>) {
    && names <= log.consumers.Keys
    && |events| == |names|
    && (forall n :: n in names ==> EventOf(n, log.consumers[n]) in events)
  }

  /** Everyone over the budget is announced, with the number it stood at, and nobody else. */
  ghost predicate Announced(events: seq<LibraryEvent>, log: Log, max: nat) {
    && (forall n :: n in log.consumers && OverBudget(log, max, log.consumers[n]) ==>
          (if log.consumers[n].internal then IndexRebuildRequired(n, log.consumers[n].acked)
           else ConsumerExpired(n, log.consumers[n].acked)) in events)
    && |events| == |Over(log, max)|
  }

  lemma ReportsAnnounce(events: seq<LibraryEvent>, log: Log, max: nat)
    requires Reports(events, log, Over(log, max))
    ensures Announced(events, log, max)
  {
  }

  lemma ReportsOne(events: seq<LibraryEvent>, log: Log, names: set<Text>, n: Text)
    requires Reports(events, log, names) && n in log.consumers && n !in names
    ensures Reports(events + [EventOf(n, log.consumers[n])], log, names + {n})
  {
  }

  /** The counters of the log do not overflow. */
  predicate Fits(log: Log, effects: seq<ChangeKind>) {
    effects == [] || (Append(log, effects).head < U64 && Append(log, effects).bytes < U64)
  }

  // ---- one pruned row ----

  /** The rows from `p` on, what they count for, and their images. */
  ghost predicate PrunedTo(log: Log, p: nat, changes: map<nat, ChangeKind>, bytes: nat, images: map<Text, Image>) {
    && 1 <= p && log.floor <= p <= log.head + 1
    && changes == After(log.changes, p - 1)
    && bytes == SumAfter(log.changes, p - 1, log.head)
    && images == Kept(log.images, changes)
  }

  lemma PrunedStart(log: Log)
    requires LogInv(log)
    ensures PrunedTo(log, log.floor, log.changes, log.bytes, log.images)
  {
    assert After(log.changes, log.floor - 1) == log.changes;
    assert Kept(log.images, log.changes) == log.images;
  }

  lemma FirstRow(log: Log, p: nat, changes: map<nat, ChangeKind>, bytes: nat, images: map<Text, Image>)
    requires Ordered(log) && PrunedTo(log, p, changes, bytes, images)
    ensures changes.Keys == {} <==> p == log.head + 1
    ensures changes.Keys != {} ==> Smallest(changes.Keys) == p
  {
    if p <= log.head {
      assert p in changes.Keys;
    }
  }

  function RemoveImage(images: map<Text, Image>, c: ChangeKind): map<Text, Image> {
    if c.TableReset? then images - {c.snapshot} else images
  }

  /** Without its first row, the log names the same images but that row's. */
  lemma NamedAfterRow(log: Log, p: nat, s: Text)
    requires LogInv(log) && log.floor <= p <= log.head
    ensures Named(After(log.changes, p), s) <==> Named(After(log.changes, p - 1), s) && !IsReset(log.changes, p, s)
  {
    var wide, narrow := After(log.changes, p - 1), After(log.changes, p);
    if k :| IsReset(narrow, k, s) {
      assert IsReset(wide, k, s) && IsReset(log.changes, k, s);
    }
    if k :| IsReset(wide, k, s) {
      assert k != p ==> IsReset(narrow, k, s);
      assert k == p ==> IsReset(log.changes, p, s);
    }
  }

  lemma KeptAfterRow(log: Log, p: nat)
    requires LogInv(log) && log.floor <= p <= log.head
    ensures Kept(log.images, After(log.changes, p)) ==
            RemoveImage(Kept(log.images, After(log.changes, p - 1)), log.changes[p])
  {
    forall s
      ensures Named(After(log.changes, p), s) <==>
              Named(After(log.changes, p - 1), s) && !IsReset(log.changes, p, s)
    {
      NamedAfterRow(log, p, s);
    }
  }

  /** Taking the first row off: its size was counted, and its image goes with it. */
  lemma PrunedNext(log: Log, p: nat, changes: map<nat, ChangeKind>, bytes: nat, images: map<Text, Image>)
    requires LogInv(log) && p <= log.head && PrunedTo(log, p, changes, bytes, images)
    ensures p in changes && Cost(changes[p]) <= bytes
    ensures PrunedTo(log, p + 1, changes - {p}, bytes - Cost(changes[p]), RemoveImage(images, changes[p]))
  {
    SumFirst(log.changes, p - 1, log.head);
    KeptAfterRow(log, p);
    assert changes - {p} == After(log.changes, p);
  }

  lemma PrunedEnd(log: Log, t: nat, p: nat, changes: map<nat, ChangeKind>, bytes: nat, images: map<Text, Image>)
    requires LogInv(log) && PrunedTo(log, p, changes, bytes, images)
    requires p == if t < log.floor then log.floor else t + 1
    ensures log.(changes := changes, floor := p, bytes := bytes, images := images) == PruneThrough(log, t)
  {
    PrunedStart(log);
  }

  // ---- one dropped consumer ----

  /** The consumers of `log` with `done` dropped, and its rows pruned up to `t`, no further than any of them reads. */
  ghost predicate Dropping(log: Log, max: nat, done: set<Text>, t: nat, now: Log) {
    && done <= Over(log, max)
    && log.floor - 1 <= t <= LowWater(DropSome(log, done))
    && now == PruneThrough(DropSome(log, done), t)
  }

  lemma DroppingStart(log: Log, max: nat)
    requires LogInv(log)
    ensures Dropping(log, max, {}, log.floor - 1, log)
  {
    assert DropSome(log, {}).consumers == log.consumers;
    LowWaterBounds(log);
  }

  lemma LowWaterOfPruned(log: Log, t: nat)
    ensures LowWater(PruneThrough(log, t)) == LowWater(log)
  {
  }

  lemma DroppingPruned(log: Log, max: nat, done: set<Text>, t: nat, now: Log)
    requires LogInv(log) && Dropping(log, max, done, t, now)
    ensures LogInv(now)
    ensures Dropping(log, max, done, LowWater(DropSome(log, done)), PruneAcked(now))
  {
    var d := DropSome(log, done);
    DropKeeps(log, done);
    LowWaterBounds(d);
    PruneKeeps(d, t);
    LowWaterOfPruned(d, t);
    PruneTwice(d, t, LowWater(d));
  }

  /** Once within the budget, exactly those over it were dropped. */
  lemma DroppingDone(log: Log, max: nat, done: set<Text>, t: nat, now: Log)
    requires LogInv(log) && Dropping(log, max, done, t, now) && now.bytes <= max
    requires t == LowWater(DropSome(log, done))
    ensures done == Over(log, max)
    ensures now == Settled(log, Some(max))
  {
    var d := DropSome(log, done);
    DropKeeps(log, done);
    LowWaterBounds(d);
    PrunedSize(d);
    assert now == PruneAcked(d);
    forall n | n in Over(log, max) ensures n in done {
      if n !in done {
        var c := log.consumers[n];
        assert d.consumers[n] == c;
        SumShrinks(log.changes, t, c.acked, log.head);
      }
    }
  }

  lemma DropOneMore(log: Log, done: set<Text>, n: Text)
    requires n in log.consumers && n !in done
    ensures DropSome(DropSome(log, done), {n}) == DropSome(log, done + {n})
    ensures DropSome(log, {n}) == log.(consumers := log.consumers[n := Dropped(log.consumers[n], log.head)])
  {
  }

  /** The consumer the pruned log stops at, while over the budget, is one over the budget, not yet dropped. */
  lemma WhoIsNext(log: Log, max: nat, done: set<Text>, t: nat, now: Log, n: Text)
    requires LogInv(log) && Dropping(log, max, done, t, now) && now.bytes > max
    requires t == LowWater(DropSome(log, done))
    requires n in now.consumers && now.consumers[n].active && now.consumers[n].acked == t
    ensures n in Over(log, max) && n !in done && now.consumers[n] == log.consumers[n]
  {
    var d := DropSome(log, done);
    DropKeeps(log, done);
    PrunedSize(d);
    assert now == PruneAcked(d) && d.consumers == now.consumers;
    assert SumAfter(log.changes, t, log.head) > max;
  }

  lemma DroppingNext(log: Log, max: nat, done: set<Text>, t: nat, now: Log, n: Text)
    requires LogInv(log) && Dropping(log, max, done, t, now)
    requires n in Over(log, max) && n !in done && now.consumers[n] == log.consumers[n]
    ensures var consumers := now.consumers[n := Dropped(now.consumers[n], now.head)];
            Dropping(log, max, done + {n}, t, now.(consumers := consumers))
  {
    var d := DropSome(log, done);
    DropKeeps(log, done);
    DropOneMore(log, done, n);
    DropRaises(d, {n});
    DropAfterPrune(d, t, {n});
    DropOneMore(now, {}, n);
  }

  /** While over the budget there is such a consumer. */
  lemma SomeoneIsBehind(log: Log, max: nat, done: set<Text>, t: nat, now: Log)
    requires LogInv(log) && Dropping(log, max, done, t, now) && now.bytes > max
    requires t == LowWater(DropSome(log, done))
    ensures exists n :: n in now.consumers && now.consumers[n].active && now.consumers[n].acked == LowWater(now)
    ensures LowWater(now) == t
  {
    var d := DropSome(log, done);
    DropKeeps(log, done);
    LowWaterBounds(d);
    PrunedSize(d);
    LowWaterOfPruned(d, t);
    assert now == PruneAcked(d);
    assert ActiveAcked(now.consumers) == {} ==> t == log.head;
  }

  /** Within the budget from the start, or not yet within it. */
  ghost predicate Unchanged(log: Log, max: nat, done: set<Text>, now: Log) {
    (now.bytes > max && log.bytes > max) || (now == log && done == {})
  }

  // ---- the tables ----

  class JournalTx {
    var changes: map<nat, ChangeKind>
    var head: nat
    var floor: nat
    var bytes: nat
    var images: map<Text, Image>
    var resets: nat
    var consumers: map<Text, Consumer>
    var generation: nat

    function View(): Log
      reads this
    {
      Log(changes, head, floor, bytes, images, resets, consumers, generation)
    }

    constructor (log: Log)
      ensures View() == log
    {
      changes, head, floor, bytes := log.changes, log.head, log.floor, log.bytes;
      images, resets, consumers, generation := log.images, log.resets, log.consumers, log.generation;
    }

    /** Take the first row, its size and its image off the tables; the accounting never fails. */
    method PopFirst(ghost log: Log, ghost p: nat)
      requires LogInv(log) && p <= log.head && PrunedTo(log, p, changes, bytes, images)
      modifies this`changes, this`bytes, this`images
      ensures PrunedTo(log, p + 1, changes, bytes, images)
    {
      FirstRow(log, p, changes, bytes, images);
      PrunedNext(log, p, changes, bytes, images);
      var k := Smallest(changes.Keys);
      var row := changes[k];
      changes := changes - {k};
      images := RemoveImage(images, row);
      bytes := bytes - Cost(row);
    }

    /** Drop the rows up to `t`, one after the other from the first. */
    method Prune(t: nat)
      requires LogInv(View()) && t <= head
      modifies this`changes, this`bytes, this`images, this`floor
      ensures View() == PruneThrough(old(View()), t)
    {
      ghost var log, p := View(), floor;
      PrunedStart(log);
      FirstRow(log, p, changes, bytes, images);
      while changes.Keys != {} && Smallest(changes.Keys) <= t
        invariant PrunedTo(log, p, changes, bytes, images)
        invariant changes.Keys == {} <==> p == head + 1
        invariant changes.Keys != {} ==> Smallest(changes.Keys) == p
        invariant floor == log.floor && (p <= t + 1 || p == floor)
        decreases head + 1 - p
      {
        PopFirst(log, p);
        p := p + 1;
        FirstRow(log, p, changes, bytes, images);
      }
      PrunedEnd(log, t, p, changes, bytes, images);
      floor := if changes.Keys == {} then head + 1 else Smallest(changes.Keys);
    }

    /** The least acknowledged position of an active consumer. */
    method LowestAcked() returns (w: nat)
      ensures w == LowWater(View())
    {
      var left := consumers.Keys;
      var found: Option<nat> := None;
      while left != {}
        invariant left <= consumers.Keys
        invariant found.Some? ==> found.value in ActiveAcked(consumers)
        invariant forall n :: n in consumers && n !in left && consumers[n].active ==>
                  found.Some? && found.value <= consumers[n].acked
        decreases |left|
      {
        var n :| n in left;
        left := left - {n};
        var c := consumers[n];
        if c.active && (found.None? || c.acked < found.value) {
          found := Some(c.acked);
        }
      }
      if found.None? {
        assert ActiveAcked(consumers) == {};
        return head;
      }
      w := found.value;
    }

    method PruneToAcked()
      requires LogInv(View())
      modifies this`changes, this`bytes, this`images, this`floor
      ensures View() == PruneAcked(old(View()))
    {
      LowWaterBounds(View());
      var w := LowestAcked();
      Prune(w);
    }

    /** Of the active consumers that stand at `min`, the one registered first. */
    method Oldest(min: nat) returns (r: Option<Text>)
      ensures r.Some? ==> r.value in consumers && consumers[r.value].active && consumers[r.value].acked == min
      ensures forall n :: n in consumers && consumers[n].active && consumers[n].acked == min ==>
                r.Some? && consumers[r.value].generation <= consumers[n].generation
    {
      var left := consumers.Keys;
      r := None;
      while left != {}
        invariant left <= consumers.Keys
        invariant r.Some? ==> r.value in consumers && consumers[r.value].active && consumers[r.value].acked == min
        invariant forall n :: n in consumers && n !in left && consumers[n].active && consumers[n].acked == min ==>
                    r.Some? && consumers[r.value].generation <= consumers[n].generation
        decreases |left|
      {
        var n :| n in left;
        left := left - {n};
        if consumers[n].active && consumers[n].acked == min
          && (r.None? || consumers[n].generation < consumers[r.value].generation)
        {
          r := Some(n);
        }
      }
    }

    /**
     Hold the log to its budget: exactly those whose unread rows exceed it are dropped and announced, and
     the log fits.
     */
    method Enforce(max: nat) returns (events: seq<LibraryEvent>)
      requires LogInv(View())
      modifies this`changes, this`bytes, this`images, this`floor, this`consumers
      ensures View() == if old(bytes) > max then Settled(old(View()), Some(max)) else old(View())
      ensures Reports(events, old(View()), if old(bytes) > max then Over(old(View()), max) else {})
      ensures Judged(old(View()), max, consumers) && bytes <= max && Announced(events, old(View()), max)
    {
      ghost var log := View();
      Verdicts(log, max);
      events := DropUntilFits(max);
      ReportsAnnounce(events, log, max);
    }

    /**
     Drop the consumer that is furthest behind until the log fits. It ends, since every turn leaves one
     consumer less that is over the budget, and it always finds one to drop.
     */
    method DropUntilFits(max: nat) returns (events: seq<LibraryEvent>)
      requires LogInv(View())
      modifies this`changes, this`bytes, this`images, this`floor, this`consumers
      ensures View() == if old(bytes) > max then Settled(old(View()), Some(max)) else old(View())
      ensures Reports(events, old(View()), if old(bytes) > max then Over(old(View()), max) else {})
    {
      ghost var log, done: set<Text> := View(), {};
      DroppingStart(log, max);
      ghost var t: nat := log.floor - 1;
      events := [];
      while bytes > max
        invariant Dropping(log, max, done, t, View()) && Reports(events, log, done)
        invariant Unchanged(log, max, done, View())
        decreases Over(log, max) - done
      {
        DroppingPruned(log, max, done, t, View());
        PruneToAcked();
        t := LowWater(DropSome(log, done));
        if bytes <= max {
          DroppingDone(log, max, done, t, View());
          break;
        }
        ghost var n;
        events, n := DropOldest(events, log, max, done, t);
        done := done + {n};
      }
    }

    /** One turn: there is a consumer to drop, the one that is furthest behind and was registered first. */
    method DropOldest(events: seq<LibraryEvent>, ghost log: Log, max: nat, ghost done: set<Text>, ghost t: nat)
      returns (more: seq<LibraryEvent>, ghost n: Text)
      requires LogInv(log) && Dropping(log, max, done, t, View()) && bytes > max
      requires t == LowWater(DropSome(log, done)) && Reports(events, log, done)
      modifies this`consumers
      ensures n in Over(log, max) && n !in done
      ensures Dropping(log, max, done + {n}, t, View()) && Reports(more, log, done + {n})
    {
      SomeoneIsBehind(log, max, done, t, View());
      var min := LowestAcked();
      var name := Oldest(min);
      n := name.value;
      WhoIsNext(log, max, done, t, View(), n);
      DroppingNext(log, max, done, t, View(), n);
      ReportsOne(events, log, done, n);
      var event := Drop(name.value);
      more := events + [event];
    }

    /** An external consumer becomes inactive; an internal one is flagged, and moved to the head. */
    method Drop(name: Text) returns (event: LibraryEvent)
      requires name in consumers
      modifies this`consumers
      ensures event == EventOf(name, old(consumers)[name])
      ensures consumers == old(consumers)[name := Dropped(old(consumers)[name], head)]
    {
      var oldest := consumers[name];
      if oldest.internal {
        event := IndexRebuildRequired(name, oldest.acked);
        oldest := oldest.(needsRebuild := true, acked := head);
      } else {
        oldest := oldest.(active := false);
        event := ConsumerExpired(name, oldest.acked);
      }
      consumers := consumers[name := oldest];
    }

    method AppendRow(c: ChangeKind) returns (ok: bool)
      modifies this`changes, this`head, this`bytes
      ensures ok <==> AppendOne(old(View()), c).head < U64 && AppendOne(old(View()), c).bytes < U64
      ensures ok ==> View() == AppendOne(old(View()), c)
    {
      if head + 1 >= U64 {
        return false;
      }
      head := head + 1;
      if bytes + Cost(c) >= U64 {
        return false;
      }
      bytes := bytes + Cost(c);
      changes := changes[head := c];
      ok := true;
    }

    /** Number the effects after the head, one row each; refused if a counter would overflow. */
    method AppendEffects(effects: seq<ChangeKind>) returns (ok: bool)
      modifies this`changes, this`head, this`bytes
      ensures ok ==> View() == Append(old(View()), effects)
      ensures ok <==> Fits(old(View()), effects)
    {
      ghost var log := View();
      var i := 0;
      while i < |effects|
        invariant 0 <= i <= |effects|
        invariant View() == Append(log, effects[..i])
        invariant i > 0 ==> head < U64 && bytes < U64
      {
        assert effects[..i + 1][..i] == effects[..i];
        AppendGrows(log, effects, i + 1);
        ok := AppendRow(effects[i]);
        if !ok {
          return;
        }
        i := i + 1;
      }
      assert effects[..|effects|] == effects;
      ok := true;
    }

    /** The end of a write transaction: append, find the floor, prune, and hold the log to its budget. */
    method Finish(effects: seq<ChangeKind>, max: Option<nat>) returns (ok: bool, events: seq<LibraryEvent>)
      requires Ordered(View()) && LogInv(Append(View(), effects))
      modifies this
      ensures ok <==> Fits(old(View()), effects)
      ensures ok ==> View() == Settled(Append(old(View()), effects), max)
      ensures ok && max.Some? ==>
              Reports(events, Append(old(View()), effects), Over(Append(old(View()), effects), max.value))
      ensures ok && max.Some? ==>
              Judged(Append(old(View()), effects), max.value, consumers)
              && Announced(events, Append(old(View()), effects), max.value)
      ensures ok && max.None? ==> consumers == Append(old(View()), effects).consumers
      ensures ok ==> KeepsUnread(Append(old(View()), effects), View())
    {
      events := [];
      ok := AppendEffects(effects);
      if ok {
        events := Settle(max);
      }
    }

    /** Find the floor, prune what all have read, and hold the log to its budget. */
    method Settle(max: Option<nat>) returns (events: seq<LibraryEvent>)
      requires LogInv(View())
      modifies this`changes, this`bytes, this`images, this`floor, this`consumers
      ensures View() == Settled(old(View()), max) && KeepsUnread(old(View()), View())
      ensures max.None? ==> consumers == old(consumers)
      ensures max.Some? ==> Reports(events, old(View()), Over(old(View()), max.value))
      ensures max.Some? ==> Judged(old(View()), max.value, consumers) && Announced(events, old(View()), max.value)
    {
      ghost var log := View();
      events := [];
      SettledKeepsUnread(log, max);
      SettledJudges(log, if max.Some? then max.value else 0);
      FloorOf(log);
      floor := if changes.Keys == {} then head + 1 else Smallest(changes.Keys);
      PrunedSize(log);
      PruneToAcked();
      if max.Some? {
        SettledPruned(log, max.value);
        OverPruned(log, max.value);
        events := Enforce(max.value);
        ReportsAnnounce(events, log, max.value);
      }
    }
  }

  lemma Verdicts(log: Log, max: nat)
    requires LogInv(log)
    ensures Judged(log, max, Settled(log, Some(max)).consumers) && Settled(log, Some(max)).bytes <= max
    ensures log.bytes <= max ==> Judged(log, max, log.consumers) && Over(log, max) == {}
  {
    SettledJudges(log, max);
    SettledKeeps(log, Some(max));
    if log.bytes <= max {
      NobodyOver(log, max);
      forall n | n in log.consumers ensures JudgedOne(log, max, log.consumers[n], log.consumers[n]) {
        assert n !in Over(log, max);
      }
    }
  }

  lemma {:induction false} AppendGrows(log: Log, effects: seq<ChangeKind>, n: nat)
    requires n <= |effects|
    ensures Append(log, effects[..n]).head <= Append(log, effects).head
    ensures Append(log, effects[..n]).bytes <= Append(log, effects).bytes
  {
    assert effects[..|effects|] == effects;
    if n < |effects| {
      AppendGrows(log, effects[..|effects| - 1], n);
      assert effects[..|effects| - 1][..n] == effects[..n];
    }
  }

  lemma FloorOf(log: Log)
    requires Ordered(log)
    ensures log.changes.Keys == {} <==> log.floor == log.head + 1
    ensures log.changes.Keys != {} ==> Smallest(log.changes.Keys) == log.floor
  {
    if log.floor <= log.head {
      assert log.floor in log.changes.Keys;
    }
  }

  /** Pruned to the budget, the log needs no more; pruned and still over it, the same consumers are over it. */
  lemma OverPruned(log: Log, max: nat)
    requires LogInv(log)
    ensures LogInv(PruneAcked(log)) && Over(PruneAcked(log), max) == Over(log, max)
    ensures PruneAcked(log).bytes <= max ==> Over(log, max) == {} && Settled(log, Some(max)) == PruneAcked(log)
    ensures PruneAcked(log).consumers == log.consumers
  {
    PrunedSize(log);
    PruneKeepsOver(log, LowWater(log), max);
    if PruneAcked(log).bytes <= max {
      NobodyOver(PruneAcked(log), max);
      assert DropSome(log, {}).consumers == log.consumers;
    }
  }
}
