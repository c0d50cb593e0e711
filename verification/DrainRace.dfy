/**
 One drain of the staged pages, interleaved with page writes from other threads
 (src/encrypted_store/backend.rs:611-712). Each lock hold and each file write is one step.
 */
module DrainRace {
  import opened Prelude

  /** No coalesced write is longer than this. */
  const WRITE_CHUNK: nat := 128

  /** A shared page: `id` is its identity (what `Arc::ptr_eq` compares), `page` its bytes. */
  datatype Shared = Shared(id: nat, page: Bytes)

  /** A drain in flight: its snapshot, and how many of its pages are in the file. */
  datatype Drain = Idle | Draining(batch: seq<(nat, Shared)>, written: nat)

  /** `newest` is what was last written to each page; the code does not have it. */
  datatype Race = Race(
    staged: map<nat, Shared>,
    file: map<nat, Bytes>,
    drain: Drain,
    nextId: nat,
    newest: map<nat, Bytes>)

  datatype Action = Stage(first: nat, pages: seq<Bytes>) | Begin(batch: seq<(nat, Shared)>) | WriteRun | Finish

  /** Where the run of consecutive blocks that starts at `i` ends, from `j` on. */
  function RunEnd(keys: seq<nat>, i: nat, j: nat): (r: nat)
    requires i < j <= |keys|
    ensures j <= r <= |keys|
    decreases |keys| - j
  {
    if j < |keys| && j - i < WRITE_CHUNK && keys[j] == keys[j - 1] + 1 then RunEnd(keys, i, j + 1) else j
  }

  /** One file write is at most a chunk of blocks that follow each other. */
  lemma {:induction false} RunIsConsecutive(keys: seq<nat>, i: nat, j: nat)
    requires i < j <= |keys| && j - i <= WRITE_CHUNK
    requires forall k :: i <= k < j ==> keys[k] == keys[i] + (k - i)
    ensures RunEnd(keys, i, j) - i <= WRITE_CHUNK
    ensures forall k :: i <= k < RunEnd(keys, i, j) ==> keys[k] == keys[i] + (k - i)
    decreases |keys| - j
  {
    if j < |keys| && j - i < WRITE_CHUNK && keys[j] == keys[j - 1] + 1 {
      RunIsConsecutive(keys, i, j + 1);
    }
  }

  function Keys(batch: seq<(nat, Shared)>): (ks: seq<nat>)
    ensures |ks| == |batch| && forall i :: 0 <= i < |ks| ==> ks[i] == batch[i].0
  {
    seq(|batch|, i requires 0 <= i < |batch| => batch[i].0)
  }

  /** `batch` lists the staged pages in order of block number. */
  ghost predicate Lists(batch: seq<(nat, Shared)>, staged: map<nat, Shared>) {
    && Ascending(batch)
    && (forall i :: 0 <= i < |batch| ==> batch[i].0 in staged && staged[batch[i].0] == batch[i].1)
    && (forall k :: k in staged ==> exists i :: 0 <= i < |batch| && batch[i].0 == k)
  }

  ghost predicate Enabled(s: Race, a: Action) {
    match a
    case Stage(first, pages) => forall i :: first <= i < first + |pages| ==> i in s.file
    case Begin(batch) => s.drain.Idle? && s.staged != map[] && Lists(batch, s.staged)
    case WriteRun => s.drain.Draining? && s.drain.written < |s.drain.batch|
    case Finish => s.drain.Draining? && s.drain.written == |s.drain.batch|
  }

  function StageAll(staged: map<nat, Shared>, first: nat, pages: seq<Bytes>, id: nat): (r: map<nat, Shared>)
    ensures forall i :: i in r <==> i in staged || first <= i < first + |pages|
    ensures forall i :: i in r ==>
            r[i] == if first <= i < first + |pages| then Shared(id + (i - first), pages[i - first]) else staged[i]
  {
    if pages == [] then staged
    else
      var n := |pages| - 1;
      StageAll(staged, first, pages[..n], id)[first + n := Shared(id + n, pages[n])]
  }

  function WriteAll(file: map<nat, Bytes>, part: seq<(nat, Shared)>): (r: map<nat, Bytes>)
    decreases |part|
  {
    if part == [] then file
    else WriteAll(file, part[..|part| - 1])[part[|part| - 1].0 := part[|part| - 1].1.page]
  }

  /** Drop from the staged pages those of the batch that are still the same shared page. */
  function Unstage(staged: map<nat, Shared>, batch: seq<(nat, Shared)>): map<nat, Shared> {
    map i | i in staged && !(exists k | 0 <= k < |batch| :: batch[k].0 == i && batch[k].1.id == staged[i].id) ::
      staged[i]
  }

  function Step(s: Race, a: Action): Race
    requires Enabled(s, a)
  {
    match a
    case Stage(first, pages) =>
      s.(staged := StageAll(s.staged, first, pages, s.nextId),
         nextId := s.nextId + |pages|,
         newest := map i | i in s.newest :: if first <= i < first + |pages| then pages[i - first] else s.newest[i])
    case Begin(batch) => s.(drain := Draining(batch, 0))
    case WriteRun =>
      var end := RunEnd(Keys(s.drain.batch), s.drain.written, s.drain.written + 1);
      s.(file := WriteAll(s.file, s.drain.batch[s.drain.written..end]), drain := s.drain.(written := end))
    case Finish => s.(staged := Unstage(s.staged, s.drain.batch), drain := Idle)
  }

  /** What a reader finds: the staged page, or the file when none is staged. */
  function ReadPage(s: Race, i: nat): Bytes
    requires i in s.file
  {
    if i in s.staged then s.staged[i].page else s.file[i]
  }

  ghost predicate NewestVisible(s: Race) {
    && s.newest.Keys == s.file.Keys
    && s.staged.Keys <= s.file.Keys
    && forall i :: i in s.file ==> ReadPage(s, i) == s.newest[i]
  }

  /** Every identity was handed out once. */
  ghost predicate Identities(s: Race) {
    && (forall i :: i in s.staged ==> s.staged[i].id < s.nextId)
    && (s.drain.Draining? ==> forall k :: 0 <= k < |s.drain.batch| ==> s.drain.batch[k].1.id < s.nextId)
  }

  /** A page of the drain is staged until the end; once written, the file has it unless it was written again. */
  ghost predicate DrainHolds(s: Race) {
    s.drain.Draining? ==>
      && s.drain.written <= |s.drain.batch|
      && Ascending(s.drain.batch)
      && (forall k :: 0 <= k < |s.drain.batch| ==>
                        var (i, held) := s.drain.batch[k];
                        && i in s.staged && i in s.file
                        && (s.staged[i].id == held.id ==> s.staged[i] == held)
                        && (s.staged[i].id == held.id && k < s.drain.written ==> s.file[i] == held.page))
  }

  ghost predicate Inv(s: Race) {
    NewestVisible(s) && Identities(s) && DrainHolds(s)
  }

  lemma {:induction false} WriteAllAt(file: map<nat, Bytes>, part: seq<(nat, Shared)>)
    requires forall i, j :: 0 <= i < j < |part| ==> part[i].0 != part[j].0
    requires forall i :: 0 <= i < |part| ==> part[i].0 in file
    ensures WriteAll(file, part).Keys == file.Keys
    ensures forall i :: 0 <= i < |part| ==> WriteAll(file, part)[part[i].0] == part[i].1.page
    ensures forall x :: x in file && (forall i :: 0 <= i < |part| ==> part[i].0 != x) ==>
            WriteAll(file, part)[x] == file[x]
  {
    if part != [] {
      var rest := part[..|part| - 1];
      WriteAllAt(file, rest);
      assert forall i :: 0 <= i < |rest| ==> rest[i] == part[i];
    }
  }

  ghost predicate Ascending(batch: seq<(nat, Shared)>) {
    forall i, j :: 0 <= i < j < |batch| ==> batch[i].0 < batch[j].0
  }

  lemma PartWrites(file: map<nat, Bytes>, batch: seq<(nat, Shared)>, w: nat, end: nat)
    requires w <= end <= |batch| && Ascending(batch)
    requires forall k :: 0 <= k < |batch| ==> batch[k].0 in file
    ensures var f := WriteAll(file, batch[w..end]);
            && f.Keys == file.Keys
            && (forall k :: w <= k < end ==> f[batch[k].0] == batch[k].1.page)
            && (forall k :: 0 <= k < w ==> f[batch[k].0] == file[batch[k].0])
            && (forall x :: x in file && (forall k :: w <= k < end ==> batch[k].0 != x) ==> f[x] == file[x])
  {
    var part := batch[w..end];
    assert forall i :: 0 <= i < |part| ==> part[i] == batch[w + i];
    WriteAllAt(file, part);
    forall k | w <= k < end ensures WriteAll(file, part)[batch[k].0] == batch[k].1.page {
      assert part[k - w] == batch[k];
    }
  }

  lemma RunWritesDrain(s: Race)
    requires Inv(s) && Enabled(s, WriteRun)
    ensures DrainHolds(Step(s, WriteRun))
  {
    var batch, w := s.drain.batch, s.drain.written;
    PartWrites(s.file, batch, w, RunEnd(Keys(batch), w, w + 1));
  }

  /** The blocks of a run are staged, so what a reader finds does not come from them. */
  lemma RunWritesVisible(s: Race)
    requires Inv(s) && Enabled(s, WriteRun)
    ensures NewestVisible(Step(s, WriteRun))
  {
    var batch, w := s.drain.batch, s.drain.written;
    PartWrites(s.file, batch, w, RunEnd(Keys(batch), w, w + 1));
  }

  lemma WriteRunKeeps(s: Race)
    requires Inv(s) && Enabled(s, WriteRun)
    ensures Inv(Step(s, WriteRun))
  {
    RunWritesDrain(s);
    RunWritesVisible(s);
  }

  lemma StageVisible(s: Race, first: nat, pages: seq<Bytes>)
    requires NewestVisible(s) && Enabled(s, Stage(first, pages))
    ensures NewestVisible(Step(s, Stage(first, pages)))
  {
  }

  lemma StageIdentities(s: Race, first: nat, pages: seq<Bytes>)
    requires Inv(s) && Enabled(s, Stage(first, pages))
    ensures Identities(Step(s, Stage(first, pages)))
  {
  }

  lemma StageDrain(s: Race, first: nat, pages: seq<Bytes>)
    requires Inv(s) && Enabled(s, Stage(first, pages))
    ensures DrainHolds(Step(s, Stage(first, pages)))
  {
  }

  lemma StageKeeps(s: Race, first: nat, pages: seq<Bytes>)
    requires Inv(s) && Enabled(s, Stage(first, pages))
    ensures Inv(Step(s, Stage(first, pages)))
  {
    StageVisible(s, first, pages);
    StageIdentities(s, first, pages);
    StageDrain(s, first, pages);
  }

  lemma FinishKeeps(s: Race)
    requires Inv(s) && Enabled(s, Finish)
    ensures Inv(Step(s, Finish))
  {
  }

  /** Every step keeps the invariant. */
  lemma StepKeeps(s: Race, a: Action)
    requires Inv(s) && Enabled(s, a)
    ensures Inv(Step(s, a))
  {
    match a
    case Stage(first, pages) => StageKeeps(s, first, pages);
    case Begin(batch) =>
    case WriteRun => WriteRunKeeps(s);
    case Finish => FinishKeeps(s);
  }

  ghost predicate IsRun(states: seq<Race>, actions: seq<Action>) {
    && |states| == |actions| + 1
    && forall i :: 0 <= i < |actions| ==> Enabled(states[i], actions[i]) && states[i + 1] == Step(states[i], actions[i])
  }

  /**
   However page writes fall between the snapshot, the file writes and the final removal of a drain,
   at every point every page reads as it was last written.
   */
  lemma {:induction false} NoPageIsLost(states: seq<Race>, actions: seq<Action>, k: nat)
    requires IsRun(states, actions) && k < |states|
    requires states[0].staged == map[] && states[0].drain.Idle? && states[0].newest == states[0].file
    ensures NewestVisible(states[k]) && Inv(states[k])
  {
    if k > 0 {
      NoPageIsLost(states, actions, k - 1);
      StepKeeps(states[k - 1], actions[k - 1]);
    }
  }

  /** A drain during which nothing is written again leaves nothing staged and every page in the file. */
  lemma QuietDrainEmpties(s: Race)
    requires Inv(s) && Enabled(s, Finish)
    requires forall i :: i in s.staged ==> exists k :: 0 <= k < |s.drain.batch| && s.drain.batch[k] == (i, s.staged[i])
    ensures Step(s, Finish).staged == map[] && Step(s, Finish).file == s.newest
  {
    var s' := Step(s, Finish);
    FinishKeeps(s);
    assert s'.staged == map[];
    assert s'.file == s'.newest;
  }
}
