/**
 The durable change log (src/journal.rs): numbered changes, the images of table resets, consumers with
 their acknowledged positions, and what pruning and the size budget leave of it. Rows are kept decoded;
 `ChangeCodec` shows that a row's bytes and its change determine each other.
 */
module Journal {
  import opened Prelude
  import opened ChangeCodec

  datatype BlobRef = BlobRef(id: Text, size: nat)

  /** The immutable copy a TableReset names: the table's rows, and its attachment references. */
  datatype Image = Image(rows: map<Text, Bytes>, refs: map<Text, BlobRef>)

  datatype Consumer = Consumer(generation: nat, acked: nat, active: bool, internal: bool, needsRebuild: bool)

  datatype Log = Log(
    changes: map<nat, ChangeKind>,
    head: nat,
    floor: nat,
    bytes: nat,
    images: map<Text, Image>,
    resets: nat,
    consumers: map<Text, Consumer>,
    generation: nat)

  function Empty(): Log {
    Log(map[], 0, 1, 0, map[], 0, map[], 0)
  }

  // ---- sizes ----

  /** What a row counts for: its key and its bytes. */
  function Cost(c: ChangeKind): nat {
    8 + |Encoded(c)|
  }

  function CostAt(changes: map<nat, ChangeKind>, k: nat): nat {
    if k in changes then Cost(changes[k]) else 0
  }

  /** The size of the rows after `after`, up to `head`. */
  function SumAfter(changes: map<nat, ChangeKind>, after: nat, head: nat): nat {
    if after >= head then 0 else SumAfter(changes, after, head - 1) + CostAt(changes, head)
  }

  lemma {:induction false} SumFirst(changes: map<nat, ChangeKind>, after: nat, head: nat)
    requires after < head
    ensures SumAfter(changes, after, head) == CostAt(changes, after + 1) + SumAfter(changes, after + 1, head)
  {
    if after + 1 < head {
      SumFirst(changes, after, head - 1);
    }
  }

  lemma {:induction false} SumSame(a: map<nat, ChangeKind>, b: map<nat, ChangeKind>, after: nat, head: nat)
    requires forall k :: after < k <= head ==> CostAt(a, k) == CostAt(b, k)
    ensures SumAfter(a, after, head) == SumAfter(b, after, head)
  {
    if after < head {
      SumSame(a, b, after, head - 1);
    }
  }

  lemma {:induction false} SumShrinks(changes: map<nat, ChangeKind>, a: nat, b: nat, head: nat)
    requires a <= b
    ensures SumAfter(changes, b, head) <= SumAfter(changes, a, head)
    decreases b - a
  {
    if a < b && a < head {
      SumFirst(changes, a, head);
      SumShrinks(changes, a + 1, b, head);
    }
  }

  // ---- invariants ----

  ghost predicate NoGap(changes: map<nat, ChangeKind>, floor: nat, head: nat) {
    forall k :: k in changes <==> floor <= k <= head
  }

  /** The keys are exactly floor..head, and the size is theirs. */
  ghost predicate Ordered(log: Log) {
    && 1 <= log.floor <= log.head + 1
    && NoGap(log.changes, log.floor, log.head)
    && log.bytes == SumAfter(log.changes, log.floor - 1, log.head)
  }

  ghost predicate Tracks(log: Log, c: Consumer) {
    c.acked <= log.head && 1 <= c.generation <= log.generation && (c.active ==> log.floor - 1 <= c.acked)
  }

  /** Every consumer is where the log still reaches it, and no two registrations share a generation. */
  ghost predicate Tracked(log: Log) {
    && (forall n :: n in log.consumers ==> Tracks(log, log.consumers[n]))
    && (forall n, m ::
          n in log.consumers && m in log.consumers && log.consumers[n].generation == log.consumers[m].generation ==>
          n == m)
  }

  /** The name of the image of the `g`-th reset: "__reset_" and the number. */
  function ResetName(g: nat): Text {
    [95, 95, 114, 101, 115, 101, 116, 95] + Decimal(g)
  }

  lemma ResetNamesDiffer(a: nat, b: nat)
    requires ResetName(a) == ResetName(b)
    ensures a == b
  {
    assert ResetName(a)[8..] == Decimal(a) && ResetName(b)[8..] == Decimal(b);
    DecimalInjective(a, b);
  }

  predicate IsReset(changes: map<nat, ChangeKind>, k: nat, s: Text) {
    k in changes && changes[k].TableReset? && changes[k].snapshot == s
  }

  ghost predicate Named(changes: map<nat, ChangeKind>, s: Text) {
    exists k :: IsReset(changes, k, s)
  }

  /** An image exists exactly while its record is retained, under a name of its own. */
  ghost predicate Imaged(log: Log) {
    && (forall s :: s in log.images <==> Named(log.changes, s))
    && (forall j, k, s :: IsReset(log.changes, j, s) && IsReset(log.changes, k, s) ==> j == k)
    && (forall s :: s in log.images ==> NamedWithin(s, 0, log.resets))
  }

  ghost predicate LogInv(log: Log) {
    Ordered(log) && Tracked(log) && Imaged(log)
  }

  // ---- pruning ----

  /** The rows after `t`. */
  function After(changes: map<nat, ChangeKind>, t: nat): map<nat, ChangeKind> {
    map k | k in changes && k > t :: changes[k]
  }

  /** The images whose record is not among those up to `t`. */
  ghost function Kept(images: map<Text, Image>, changes: map<nat, ChangeKind>): map<Text, Image> {
    map s | s in images && Named(changes, s) :: images[s]
  }

  /** The log without its rows up to `t`. */
  ghost function PruneThrough(log: Log, t: nat): Log {
    if t < log.floor then log
    else
      var changes := After(log.changes, t);
      log.(changes := changes, floor := t + 1, bytes := SumAfter(log.changes, t, log.head),
        images := Kept(log.images, changes))
  }

  function ActiveAcked(consumers: map<Text, Consumer>): set<nat> {
    set n | n in consumers && consumers[n].active :: consumers[n].acked
  }

  /** The least acknowledged position of an active consumer; the head if there is none. */
  function LowWater(log: Log): nat {
    var acked := ActiveAcked(log.consumers);
    if acked == {} then log.head else Smallest(acked)
  }

  lemma LowWaterBounds(log: Log)
    requires Ordered(log) && Tracked(log)
    ensures log.floor - 1 <= LowWater(log) <= log.head
    ensures forall n :: n in log.consumers && log.consumers[n].active ==> LowWater(log) <= log.consumers[n].acked
  {
    forall n | n in log.consumers && log.consumers[n].active ensures LowWater(log) <= log.consumers[n].acked {
      assert log.consumers[n].acked in ActiveAcked(log.consumers);
    }
  }

  ghost function PruneAcked(log: Log): Log {
    PruneThrough(log, LowWater(log))
  }

  lemma PruneKeepsOrder(log: Log, t: nat)
    requires Ordered(log) && t <= log.head
    ensures Ordered(PruneThrough(log, t))
    ensures PruneThrough(log, t).bytes <= log.bytes
  {
    if t >= log.floor {
      SumSame(After(log.changes, t), log.changes, t, log.head);
      SumShrinks(log.changes, log.floor - 1, t, log.head);
    }
  }

  lemma PruneKeepsImages(log: Log, t: nat)
    requires Imaged(log)
    ensures Imaged(PruneThrough(log, t))
    ensures forall s :: s in PruneThrough(log, t).images ==>
            s in log.images && PruneThrough(log, t).images[s] == log.images[s]
  {
    var p := PruneThrough(log, t);
    if t >= log.floor {
      forall k, s | IsReset(p.changes, k, s) ensures IsReset(log.changes, k, s) {
      }
      forall s | Named(p.changes, s) ensures s in log.images {
        var k :| IsReset(p.changes, k, s);
        assert IsReset(log.changes, k, s);
      }
    }
  }

  /** Pruning no further than every active consumer keeps the log in order. */
  lemma PruneKeeps(log: Log, t: nat)
    requires LogInv(log) && t <= log.head
    requires forall n :: n in log.consumers && log.consumers[n].active ==> t <= log.consumers[n].acked
    ensures LogInv(PruneThrough(log, t))
  {
    PruneKeepsOrder(log, t);
    PruneKeepsImages(log, t);
  }

  lemma PruneTwice(log: Log, t: nat, w: nat)
    requires Ordered(log) && t <= w <= log.head
    ensures PruneThrough(PruneThrough(log, t), w) == PruneThrough(log, w)
  {
    if t >= log.floor && w > t {
      var p := PruneThrough(log, t);
      assert After(p.changes, w) == After(log.changes, w);
      SumSame(p.changes, log.changes, w, log.head);
      forall s | Named(After(log.changes, w), s) ensures Named(After(log.changes, t), s) {
        var k :| IsReset(After(log.changes, w), k, s);
        assert IsReset(After(log.changes, t), k, s);
      }
      assert Kept(p.images, After(log.changes, w)) == Kept(log.images, After(log.changes, w));
    }
  }

  // ---- the size budget ----

  /** The rows a consumer has still to read exceed the budget. */
  predicate OverBudget(log: Log, max: nat, c: Consumer) {
    c.active && SumAfter(log.changes, c.acked, log.head) > max
  }

  /** An external consumer expires; an internal one is flagged and moved to the head. */
  function Dropped(c: Consumer, head: nat): Consumer {
    if c.internal then c.(needsRebuild := true, acked := head) else c.(active := false)
  }

  function DropSome(log: Log, names: set<Text>): Log {
    log.(consumers :=
           map n | n in log.consumers ::
             if n in names then Dropped(log.consumers[n], log.head) else log.consumers[n])
  }

  function Over(log: Log, max: nat): set<Text> {
    set n | n in log.consumers && OverBudget(log, max, log.consumers[n])
  }

  /** What a transaction leaves of the log: consumers over the budget dropped, and the rest pruned. */
  ghost function Settled(log: Log, max: Option<nat>): Log {
    PruneAcked(if max.Some? then DropSome(log, Over(log, max.value)) else log)
  }

  lemma DropKeeps(log: Log, names: set<Text>)
    requires LogInv(log)
    ensures LogInv(DropSome(log, names))
  {
    var d := DropSome(log, names);
    forall n | n in d.consumers ensures Tracks(d, d.consumers[n]) {
      assert Tracks(log, log.consumers[n]);
    }
  }

  lemma DropRaises(log: Log, names: set<Text>)
    requires LogInv(log)
    ensures LowWater(log) <= LowWater(DropSome(log, names))
  {
    var d := DropSome(log, names);
    LowWaterBounds(log);
    if ActiveAcked(d.consumers) != {} {
      var n :| n in d.consumers && d.consumers[n].active && d.consumers[n].acked == LowWater(d);
    }
  }

  /** The consumer the log is pruned to is over the budget exactly when the log is. */
  lemma PrunedSize(log: Log)
    requires LogInv(log)
    ensures PruneAcked(log).bytes == SumAfter(log.changes, LowWater(log), log.head)
    ensures LogInv(PruneAcked(log))
  {
    LowWaterBounds(log);
    PruneKeeps(log, LowWater(log));
  }

  /** After settling, the log is within the budget and in order, and nothing live is lost. */
  lemma SettledKeeps(log: Log, max: Option<nat>)
    requires LogInv(log)
    ensures LogInv(Settled(log, max))
    ensures max.Some? ==> Settled(log, max).bytes <= max.value
    ensures Settled(log, max).head == log.head
  {
    if max.Some? {
      var d := DropSome(log, Over(log, max.value));
      DropKeeps(log, Over(log, max.value));
      PrunedSize(d);
      if ActiveAcked(d.consumers) != {} {
        var n :| n in d.consumers && d.consumers[n].active && d.consumers[n].acked == LowWater(d);
      }
    } else {
      PrunedSize(log);
    }
  }

  /** What the budget makes of a consumer, field by field. */
  ghost predicate JudgedOne(log: Log, max: nat, c: Consumer, d: Consumer) {
    if !c.active || SumAfter(log.changes, c.acked, log.head) <= max then d == c
    else if c.internal then d == Consumer(c.generation, log.head, true, true, true)
    else d == Consumer(c.generation, c.acked, false, false, c.needsRebuild)
  }

  /**
   Exactly the active consumers whose unread rows exceed the budget are dropped: an external one becomes
   inactive, an internal one is flagged and stands at the head. All others are as they were.
   */
  ghost predicate Judged(log: Log, max: nat, consumers: map<Text, Consumer>) {
    && consumers.Keys == log.consumers.Keys
    && (forall n :: n in log.consumers ==> JudgedOne(log, max, log.consumers[n], consumers[n]))
  }

  lemma SettledJudges(log: Log, max: nat)
    ensures Judged(log, max, Settled(log, Some(max)).consumers)
    ensures Settled(log, None).consumers == log.consumers
  {
  }

  /** The least number an active consumer has acknowledged; the head if there is no active one. */
  ghost predicate IsLowest(consumers: map<Text, Consumer>, head: nat, w: nat) {
    && (forall n :: n in consumers && consumers[n].active ==> w <= consumers[n].acked)
    && ((exists n :: n in consumers && consumers[n].active && consumers[n].acked == w)
        || (w == head && forall n :: n in consumers ==> !consumers[n].active))
  }

  /** `after` holds the rows of `before` that some active consumer has still to read, and no others. */
  ghost predicate KeepsUnread(before: Log, after: Log) {
    && after.head == before.head && after.resets == before.resets && after.generation == before.generation
    && (exists w: nat :: IsLowest(after.consumers, after.head, w) && after.floor == w + 1)
    && (forall k :: k in after.changes <==> k in before.changes && k >= after.floor)
    && (forall k :: k in after.changes ==> after.changes[k] == before.changes[k])
  }

  lemma LowWaterIsLowest(log: Log)
    requires Ordered(log) && Tracked(log)
    ensures IsLowest(log.consumers, log.head, LowWater(log))
  {
    LowWaterBounds(log);
    var acked := ActiveAcked(log.consumers);
    assert forall n :: n in log.consumers && log.consumers[n].active ==> log.consumers[n].acked in acked;
    if acked != {} {
      assert LowWater(log) in acked;
    }
  }

  lemma PrunedKeepsUnread(log: Log)
    requires LogInv(log)
    ensures KeepsUnread(log, PruneAcked(log))
  {
    LowWaterBounds(log);
    LowWaterIsLowest(log);
    var w, t := LowWater(log), PruneAcked(log);
    assert IsLowest(t.consumers, t.head, w) && t.floor == w + 1;
  }

  /** Settling judges the consumers, and keeps exactly what is still to be read. */
  lemma SettledKeepsUnread(log: Log, max: Option<nat>)
    requires LogInv(log)
    ensures KeepsUnread(log, Settled(log, max))
  {
    if max.Some? {
      DropKeeps(log, Over(log, max.value));
      PrunedKeepsUnread(DropSome(log, Over(log, max.value)));
    } else {
      PrunedKeepsUnread(log);
    }
  }

  /** What a change counts for, by its parts: the number of the row, two bytes, three lengths and a size. */
  lemma CostMeans(c: ChangeKind)
    ensures Cost(c) == 42 + match c
              case Upsert(t, k, v) => |t| + |k| + |v|
              case Delete(t, k) => |t| + |k|
              case TableReset(t, s) => |t| + |s|
              case BlobPut(t, k, id, _) => |t| + |k| + |id|
              case BlobDelete(t, k, id, _) => |t| + |k| + |id|
  {
  }

  // ---- appending ----

  function AppendOne(log: Log, c: ChangeKind): Log {
    log.(changes := log.changes[log.head + 1 := c], head := log.head + 1, bytes := log.bytes + Cost(c))
  }

  /** The log with the effects of a transaction numbered after its head. */
  function Append(log: Log, effects: seq<ChangeKind>): Log {
    if effects == [] then log else AppendOne(Append(log, effects[..|effects| - 1]), effects[|effects| - 1])
  }

  lemma {:induction false} AppendFrame(log: Log, effects: seq<ChangeKind>)
    ensures var a := Append(log, effects);
            && a.head == log.head + |effects| && a.floor == log.floor
            && a.images == log.images && a.resets == log.resets && a.consumers == log.consumers
              && a.generation == log.generation
  {
    if effects != [] {
      AppendFrame(log, effects[..|effects| - 1]);
    }
  }

  /** The old rows stay, and the effects stand after them, in order. */
  lemma {:induction false} AppendedRow(log: Log, effects: seq<ChangeKind>, k: nat)
    ensures var changes := Append(log, effects).changes;
            && (log.head < k <= log.head + |effects| ==> k in changes && changes[k] == effects[k - log.head - 1])
            && (!(log.head < k <= log.head + |effects|) ==> (k in changes <==> k in log.changes))
            && (!(log.head < k <= log.head + |effects|) && k in changes ==> changes[k] == log.changes[k])
  {
    if effects != [] {
      var before := effects[..|effects| - 1];
      AppendFrame(log, before);
      AppendedRow(log, before, k);
    }
  }

  lemma SumWith(changes: map<nat, ChangeKind>, after: nat, head: nat, c: ChangeKind)
    requires after <= head
    ensures SumAfter(changes[head + 1 := c], after, head + 1) == SumAfter(changes, after, head) + Cost(c)
  {
    SumSame(changes, changes[head + 1 := c], after, head);
  }

  lemma AppendOneKeepsOrder(log: Log, c: ChangeKind)
    requires Ordered(log)
    ensures Ordered(AppendOne(log, c))
  {
    var a := AppendOne(log, c);
    KeysWith(log.changes, log.floor, log.head, c);
    SumWith(log.changes, log.floor - 1, log.head, c);
    assert a.bytes == SumAfter(a.changes, a.floor - 1, a.head);
  }

  lemma KeysWith(changes: map<nat, ChangeKind>, floor: nat, head: nat, c: ChangeKind)
    requires floor <= head + 1 && NoGap(changes, floor, head)
    ensures NoGap(changes[head + 1 := c], floor, head + 1)
  {
  }

  lemma {:induction false} AppendKeepsOrder(log: Log, effects: seq<ChangeKind>)
    requires Ordered(log)
    ensures Ordered(Append(log, effects))
  {
    if effects != [] {
      AppendKeepsOrder(log, effects[..|effects| - 1]);
      AppendOneKeepsOrder(Append(log, effects[..|effects| - 1]), effects[|effects| - 1]);
    }
  }

  predicate Resets(effects: seq<ChangeKind>, i: int, s: Text) {
    0 <= i < |effects| && effects[i].TableReset? && effects[i].snapshot == s
  }

  ghost predicate NamedAmong(effects: seq<ChangeKind>, s: Text) {
    exists i :: Resets(effects, i, s)
  }

  ghost predicate NamedWithin(s: Text, lo: nat, hi: nat) {
    exists g :: lo < g <= hi && s == ResetName(g)
  }

  /** A transaction may add images, each under a new name for one reset among its effects, and nothing else. */
  ghost predicate Draftable(log: Log, effects: seq<ChangeKind>, images: map<Text, Image>, resets: nat) {
    && log.resets <= resets
    && (forall s :: s in images <==> s in log.images || NamedAmong(effects, s))
    && (forall s :: s in log.images ==> s in images && images[s] == log.images[s])
    && (forall i, s :: Resets(effects, i, s) ==> NamedWithin(s, log.resets, resets))
    && (forall i, j, s :: Resets(effects, i, s) && Resets(effects, j, s) ==> i == j)
  }

  lemma AppendedReset(log: Log, effects: seq<ChangeKind>, k: nat, s: Text)
    requires Ordered(log)
    ensures IsReset(Append(log, effects).changes, k, s)
       <==> IsReset(log.changes, k, s) || Resets(effects, k - log.head - 1, s)
  {
    AppendedRow(log, effects, k);
  }

  lemma AppendedNames(log: Log, effects: seq<ChangeKind>, s: Text)
    requires Ordered(log)
    ensures Named(Append(log, effects).changes, s) <==> Named(log.changes, s) || NamedAmong(effects, s)
  {
    var changes := Append(log, effects).changes;
    if i :| Resets(effects, i, s) {
      AppendedReset(log, effects, log.head + 1 + i, s);
    }
    if k :| IsReset(log.changes, k, s) {
      AppendedReset(log, effects, k, s);
    }
    if k :| IsReset(changes, k, s) {
      AppendedReset(log, effects, k, s);
    }
  }

  /** A name from a later range is not one from an earlier range. */
  lemma NamesApart(s: Text, a: nat, b: nat, c: nat)
    requires b <= c
    ensures !(NamedWithin(s, a, b) && NamedWithin(s, b, c))
  {
    if NamedWithin(s, a, b) && NamedWithin(s, b, c) {
      var g :| a < g <= b && s == ResetName(g);
      var h :| b < h <= c && s == ResetName(h);
      ResetNamesDiffer(g, h);
    }
  }

  lemma OneReset(log: Log, effects: seq<ChangeKind>, images: map<Text, Image>, resets: nat, j: nat, k: nat, s: Text)
    requires Ordered(log) && Imaged(log) && Draftable(log, effects, images, resets)
    requires IsReset(Append(log, effects).changes, j, s) && IsReset(Append(log, effects).changes, k, s)
    ensures j == k
  {
    AppendedReset(log, effects, j, s);
    AppendedReset(log, effects, k, s);
    if IsReset(log.changes, j, s) || IsReset(log.changes, k, s) {
      assert Named(log.changes, s);
      NamesApart(s, 0, log.resets, resets);
    }
  }

  lemma AppendKeepsImages(log: Log, effects: seq<ChangeKind>, images: map<Text, Image>, resets: nat)
    requires Ordered(log) && Imaged(log) && Draftable(log, effects, images, resets)
    ensures Imaged(Append(log, effects).(images := images, resets := resets))
  {
    var a := Append(log, effects).(images := images, resets := resets);
    forall s ensures s in a.images <==> Named(a.changes, s) {
      AppendedNames(log, effects, s);
    }
    forall j, k, s | IsReset(a.changes, j, s) && IsReset(a.changes, k, s) ensures j == k {
      OneReset(log, effects, images, resets, j, k, s);
    }
    forall s | s in a.images ensures NamedWithin(s, 0, resets) {
      if s in log.images {
        var g :| 0 < g <= log.resets && s == ResetName(g);
      } else {
        var i :| Resets(effects, i, s);
        var g :| log.resets < g <= resets && s == ResetName(g);
      }
    }
  }

  /** Appending the effects of a transaction, with the images it made, keeps the log in order. */
  lemma AppendKeeps(log: Log, effects: seq<ChangeKind>, images: map<Text, Image>, resets: nat)
    requires LogInv(log) && Draftable(log, effects, images, resets)
    ensures LogInv(Append(log, effects).(images := images, resets := resets))
  {
    AppendFrame(log, effects);
    AppendKeepsOrder(log, effects);
    AppendKeepsImages(log, effects, images, resets);
    var a := Append(log, effects).(images := images, resets := resets);
    forall n | n in a.consumers ensures Tracks(a, a.consumers[n]) {
      assert Tracks(log, log.consumers[n]);
    }
  }

  /** The log after a transaction with these effects and images. */
  ghost function Committed(log: Log, effects: seq<ChangeKind>, images: map<Text, Image>, resets: nat,
                           max: Option<nat>): Log
  {
    Settled(Append(log, effects).(images := images, resets := resets), max)
  }

  // ---- settling in steps ----

  lemma SumsAgree(log: Log, t: nat, acked: nat)
    requires t <= acked
    ensures SumAfter(PruneThrough(log, t).changes, acked, log.head) == SumAfter(log.changes, acked, log.head)
  {
    SumSame(PruneThrough(log, t).changes, log.changes, acked, log.head);
  }

  /** Pruning does not change who is over the budget. */
  lemma PruneKeepsOver(log: Log, t: nat, max: nat)
    requires LogInv(log) && t <= LowWater(log)
    ensures Over(PruneThrough(log, t), max) == Over(log, max)
  {
    LowWaterBounds(log);
    forall n | n in log.consumers && log.consumers[n].active
      ensures SumAfter(PruneThrough(log, t).changes, log.consumers[n].acked, log.head) ==
              SumAfter(log.changes, log.consumers[n].acked, log.head)
    {
      SumsAgree(log, t, log.consumers[n].acked);
    }
  }

  lemma DropAfterPrune(log: Log, t: nat, names: set<Text>)
    ensures DropSome(PruneThrough(log, t), names) == PruneThrough(DropSome(log, names), t)
  {
  }

  /** Settling a log that was pruned first comes to the same. */
  lemma SettledPruned(log: Log, max: nat)
    requires LogInv(log)
    ensures Settled(PruneAcked(log), Some(max)) == Settled(log, Some(max))
  {
    var t, over := LowWater(log), Over(log, max);
    LowWaterBounds(log);
    PruneKeepsOver(log, t, max);
    DropAfterPrune(log, t, over);
    DropKeeps(log, over);
    DropRaises(log, over);
    LowWaterBounds(DropSome(log, over));
    PruneTwice(DropSome(log, over), t, LowWater(DropSome(log, over)));
  }

  /** Within the budget nobody is over it. */
  lemma NobodyOver(log: Log, max: nat)
    requires LogInv(log) && log.bytes <= max
    ensures Over(log, max) == {}
    ensures DropSome(log, {}) == log
  {
    forall n | n in log.consumers && log.consumers[n].active ensures !OverBudget(log, max, log.consumers[n]) {
      SumShrinks(log.changes, log.floor - 1, log.consumers[n].acked, log.head);
    }
    assert DropSome(log, {}).consumers == log.consumers;
  }
}
