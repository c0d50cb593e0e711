/**
 Pages staged in memory, and the values a drain works on (src/encrypted_store/backend.rs:597-712).
 */
module Staging {
  import opened Prelude
  import opened Layout
  import opened Cells
  import opened BlockFile
  import Plain = PlainArray
  import DrainRace

  /** Reaching this many staged pages starts a drain. */
  const PENDING_CAP_PAGES: nat := 1024

  /** A page shared between the staged map and a drain; two of them are the same only by identity. */
  class SharedPage {
    const data: Bytes

    constructor (data: Bytes)
      ensures this.data == data
    {
      this.data := data;
    }
  }

  ghost predicate Holds(pending: map<nat, SharedPage>, blocks: seq<Cell>) {
    forall i :: i in pending ==> i < |blocks| && |pending[i].data| == PAGE
  }

  /** The pages as written: staged ones first, the file's otherwise. */
  ghost function View(blocks: seq<Cell>, pending: map<nat, SharedPage>): (pages: seq<Bytes>)
    requires AllSealed(blocks) && Holds(pending, blocks)
    ensures |pages| == |blocks| && Plain.WholePages(pages)
    ensures forall i :: 0 <= i < |pages| ==> pages[i] == if i in pending then pending[i].data else blocks[i].plain
  {
    seq(|blocks|, i requires 0 <= i < |blocks| => if i in pending then pending[i].data else blocks[i].plain)
  }

  /** Blocks written at once are pages written at once. */
  lemma PutView(blocks: seq<Cell>, first: nat, data: Bytes)
    requires AllSealed(blocks) && |data| % PAGE == 0 && first + |data| / PAGE <= |blocks|
    ensures AllSealed(Overlay(blocks, first, SealPages(first, data)))
    ensures View(Overlay(blocks, first, SealPages(first, data)), map[]) ==
            Plain.PutPages(View(blocks, map[]), first, data)
  {
  }

  ghost predicate Inserted(before: map<nat, SharedPage>, after: map<nat, SharedPage>, first: nat, count: nat,
                           plain: Bytes)
    requires count * PAGE <= |plain|
  {
    && (forall b :: b in after <==> b in before || first <= b < first + count)
    && (forall b :: b in after && first <= b < first + count ==>
      after[b].data == plain[(b - first) * PAGE..(b - first + 1) * PAGE])
    && (forall b :: b in after && !(first <= b < first + count) ==> after[b] == before[b])
  }

  method Insert(pending: map<nat, SharedPage>, first: nat, plain: Bytes) returns (more: map<nat, SharedPage>)
    requires |plain| % PAGE == 0
    ensures Inserted(pending, more, first, |plain| / PAGE, plain)
  {
    more := pending;
    for i := 0 to |plain| / PAGE
      invariant Inserted(pending, more, first, i, plain)
    {
      var page := new SharedPage(plain[i * PAGE..(i + 1) * PAGE]);
      more := more[first + i := page];
    }
  }

  lemma StagedView(blocks: seq<Cell>, before: map<nat, SharedPage>, after: map<nat, SharedPage>, first: nat,
                   plain: Bytes)
    requires AllSealed(blocks) && Holds(before, blocks)
    requires |plain| % PAGE == 0 && first + |plain| / PAGE <= |blocks|
    requires Inserted(before, after, first, |plain| / PAGE, plain)
    ensures Holds(after, blocks)
    ensures View(blocks, after) == Plain.PutPages(View(blocks, before), first, plain)
  {
    forall b | b in after ensures b < |blocks| && |after[b].data| == PAGE {
    }
    var v, w := View(blocks, after), Plain.PutPages(View(blocks, before), first, plain);
    forall b | 0 <= b < |blocks| ensures v[b] == w[b] {
    }
  }

  ghost predicate Ascending(batch: seq<(nat, SharedPage)>) {
    forall i, j :: 0 <= i < j < |batch| ==> batch[i].0 < batch[j].0
  }

  ghost predicate InBatch(batch: seq<(nat, SharedPage)>, k: nat) {
    exists i :: 0 <= i < |batch| && batch[i].0 == k
  }

  /** `batch` is the staged map in order of block number. */
  ghost predicate Lists(batch: seq<(nat, SharedPage)>, pending: map<nat, SharedPage>) {
    && Ascending(batch)
    && (forall i :: 0 <= i < |batch| ==> batch[i].0 in pending && pending[batch[i].0] == batch[i].1)
    && (forall k :: k in pending ==> InBatch(batch, k))
  }

  /** Each page of the batch sealed for its own block number. */
  ghost predicate SealsOf(batch: seq<(nat, SharedPage)>, sealed: seq<Cell>) {
    |sealed| == |batch| && forall i :: 0 <= i < |batch| ==> sealed[i] == SealBlock(batch[i].0, batch[i].1.data)
  }

  /** Sealing the staged pages into the file does not change what the pages are. */
  lemma DrainedView(before: seq<Cell>, after: seq<Cell>, pending: map<nat, SharedPage>)
    requires AllSealed(before) && AllSealed(after) && |after| == |before| && Holds(pending, before)
    requires forall b :: 0 <= b < |after| ==>
               after[b] == if b in pending then SealBlock(b, pending[b].data) else before[b]
    ensures View(after, map[]) == View(before, pending)
  {
  }

  /** `after` is `before` with the first `n` pages of the batch sealed into it. */
  ghost predicate Partly(before: seq<Cell>, after: seq<Cell>, batch: seq<(nat, SharedPage)>, n: nat)
    requires n <= |batch|
  {
    && |after| == |before|
    && (forall k :: 0 <= k < n ==> batch[k].0 < |after| && after[batch[k].0] == SealBlock(batch[k].0, batch[k].1.data))
    && (forall b :: 0 <= b < |after| && !InBatch(batch[..n], b) ==> after[b] == before[b])
  }

  lemma RunWritten(before: seq<Cell>, after: seq<Cell>, batch: seq<(nat, SharedPage)>, sealed: seq<Cell>, i: nat,
                   j: nat)
    requires i < j <= |batch| && Ascending(batch) && SealsOf(batch, sealed)
    requires forall k :: 0 <= k < |batch| ==> batch[k].0 < |before|
    requires forall k :: i <= k < j ==> batch[k].0 == batch[i].0 + (k - i)
    requires Partly(before, after, batch, i)
    ensures batch[i].0 + (j - i) <= |after|
    ensures Partly(before, Overlay(after, batch[i].0, sealed[i..j]), batch, j)
  {
    var first := batch[i].0;
    assert batch[j - 1].0 == first + (j - 1 - i);
    var run := sealed[i..j];
    var laid := Overlay(after, first, run);
    forall k | 0 <= k < j ensures laid[batch[k].0] == SealBlock(batch[k].0, batch[k].1.data) {
      if k >= i {
        assert laid[batch[k].0] == run[k - i];
      }
    }
    forall b | first <= b < first + (j - i) ensures InBatch(batch[..j], b) {
      assert batch[..j][i + (b - first)].0 == b;
    }
    forall b | InBatch(batch[..i], b) ensures InBatch(batch[..j], b) {
      var k :| 0 <= k < i && batch[..i][k].0 == b;
      assert batch[..j][k].0 == b;
    }
  }

  lemma AllWritten(before: seq<Cell>, after: seq<Cell>, batch: seq<(nat, SharedPage)>, pending: map<nat, SharedPage>)
    requires Lists(batch, pending) && Partly(before, after, batch, |batch|)
    requires AllSealed(before) && Holds(pending, before)
    ensures forall b :: 0 <= b < |after| ==>
              after[b] == if b in pending then SealBlock(b, pending[b].data) else before[b]
    ensures AllSealed(after)
  {
    assert batch[..|batch|] == batch;
    forall b | 0 <= b < |after| ensures after[b] == if b in pending then SealBlock(b, pending[b].data) else before[b] {
      if b in pending {
        assert InBatch(batch, b);
      }
    }
  }

  /** All but `left` of the staged pages are listed, and what is left comes after them. */
  ghost predicate ListedBut(batch: seq<(nat, SharedPage)>, pending: map<nat, SharedPage>, left: set<nat>) {
    && left <= pending.Keys
    && Ascending(batch)
    && (forall i :: 0 <= i < |batch| ==> batch[i].0 in pending && pending[batch[i].0] == batch[i].1)
    && (forall i :: 0 <= i < |batch| ==> Below(batch[i].0, left))
    && (forall k :: k in pending && k !in left ==> InBatch(batch, k))
  }

  ghost predicate Below(n: nat, s: set<nat>) {
    forall k :: k in s ==> n < k
  }

  /** The staged pages in order of block number. */
  method Snapshot(pending: map<nat, SharedPage>) returns (batch: seq<(nat, SharedPage)>)
    ensures Lists(batch, pending)
  {
    batch := [];
    var left := pending.Keys;
    while left != {}
      invariant ListedBut(batch, pending, left)
      decreases |left|
    {
      var first := Smallest(left);
      ListOne(batch, pending, left, first);
      batch := batch + [(first, pending[first])];
      left := left - {first};
    }
  }

  lemma ListOne(batch: seq<(nat, SharedPage)>, pending: map<nat, SharedPage>, left: set<nat>, first: nat)
    requires ListedBut(batch, pending, left) && Least(first, left)
    ensures ListedBut(batch + [(first, pending[first])], pending, left - {first})
  {
    var more := batch + [(first, pending[first])];
    var rest := left - {first};
    forall i | 0 <= i < |more| ensures Below(more[i].0, rest) {
      assert i < |batch| ==> Below(batch[i].0, left);
    }
    forall i, j | 0 <= i < j < |more| ensures more[i].0 < more[j].0 {
      if j == |batch| {
        assert Below(batch[i].0, left);
      }
    }
    forall k | k in pending && k !in rest ensures InBatch(more, k) {
      if k == first {
        assert more[|batch|].0 == first;
      } else {
        var i :| 0 <= i < |batch| && batch[i].0 == k;
        assert more[i].0 == k;
      }
    }
  }

  /** Where the run of blocks that follow each other from `i` on ends. */
  method RunEnd(batch: seq<(nat, SharedPage)>, i: nat) returns (j: nat)
    requires i < |batch|
    ensures i < j <= |batch| && j - i <= DrainRace.WRITE_CHUNK
    ensures forall k :: i <= k < j ==> batch[k].0 == batch[i].0 + (k - i)
  {
    j := i + 1;
    while j < |batch| && j - i < DrainRace.WRITE_CHUNK && batch[j].0 == batch[j - 1].0 + 1
      invariant i < j <= |batch| && j - i <= DrainRace.WRITE_CHUNK
      invariant forall k :: i <= k < j ==> batch[k].0 == batch[i].0 + (k - i)
    {
      j := j + 1;
    }
  }

  /** Threads worth starting: one below 64 pages, otherwise at most one per 16 pages. */
  function WorkersFor(pages: nat, threads: nat): (w: nat)
    ensures w >= 1
  {
    if pages < 64 then 1 else var w := Min(threads, pages / 16); if w < 1 then 1 else w
  }

  /** Seal a batch in chunks, one per worker; how it is cut does not show in the result. */
  method SealAll(batch: seq<(nat, SharedPage)>, workers: nat) returns (sealed: seq<Cell>)
    requires workers >= 1
    ensures SealsOf(batch, sealed)
  {
    sealed := [];
    var per := (|batch| + workers - 1) / workers;
    while |sealed| < |batch|
      invariant |sealed| <= |batch|
      invariant forall i :: 0 <= i < |sealed| ==> sealed[i] == SealBlock(batch[i].0, batch[i].1.data)
      decreases |batch| - |sealed|
    {
      var end := Min(|sealed| + per, |batch|);
      assert per >= 1 by {
        Times(workers, per);
      }
      var chunk := SealChunk(batch[|sealed|..end]);
      ghost var start := |sealed|;
      sealed := sealed + chunk;
      assert forall i :: start <= i < end ==> sealed[i] == chunk[i - start];
    }
  }

  method SealChunk(pages: seq<(nat, SharedPage)>) returns (out: seq<Cell>)
    ensures SealsOf(pages, out)
  {
    out := [];
    for i := 0 to |pages|
      invariant |out| == i
      invariant forall k :: 0 <= k < i ==> out[k] == SealBlock(pages[k].0, pages[k].1.data)
    {
      out := out + [SealBlock(pages[i].0, pages[i].1.data)];
    }
  }
}
