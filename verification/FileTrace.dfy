/**
 Every write the encrypted layer makes to the file below, in order, each with what redb had written by
 then (src/encrypted_store/backend.rs:438-535, 656-712, 879-937); and what a stop between or within
 these writes leaves.
 */
module FileTrace {
  import opened Prelude
  import opened Layout
  import opened Cells
  import opened HeaderPieces
  import opened BlockFile
  import Plain = PlainArray

  /** One write to the file below, or a sync of it. */
  datatype FileWrite =
    | BlocksAt(first: nat, cells: seq<Cell>)
    | PieceAt(copy: nat, cell: Cell)
    | NewLength(len: nat)
    | NoiseArea
    | Synced

  /** A header write under way: the pieces it found, what it writes, and how many of its pieces are in place. */
  datatype HeaderCall = HeaderCall(pieces: seq<Cell>, after: Regions, done: nat)

  /** A write to the file: the file it met, and the header and the pages redb had written by then. */
  datatype Moment = Moment(before: Disk, write: FileWrite, header: Header, pages: seq<Bytes>, call: Option<HeaderCall>)

  function Applied(d: Disk, w: FileWrite, geo: Geometry): Disk {
    match w
    case BlocksAt(first, cells) => if d.Full? && first <= |d.blocks| then PutBlocks(d, first, cells) else d
    case PieceAt(copy, cell) => if d.Full? && copy < |d.pieces| then d.(pieces := d.pieces[copy := cell]) else d
    case NewLength(len) => Resize(d, len, geo)
    case NoiseArea => if d.Full? then d.(pieces := NOISE) else d
    case Synced => d
  }

  function BlocksOf(d: Disk): seq<Cell> {
    if d.Full? then d.blocks else []
  }

  // ---- what must be in place before each write ----

  /** The file holds exactly these pages. */
  ghost predicate Shown(blocks: seq<Cell>, pages: seq<Bytes>) {
    |blocks| == |pages| && forall i :: 0 <= i < |pages| ==> Open(blocks[i], BlockAad(i)) == Some(pages[i])
  }

  /** A page of the array; zeros past its end. */
  function PageAt(pages: seq<Bytes>, b: nat): Bytes {
    if b < |pages| then pages[b] else Zeros(PAGE)
  }

  /** Cells for blocks `first` on, each holding the page redb wrote there last. */
  ghost predicate Seals(cells: seq<Cell>, first: nat, pages: seq<Bytes>) {
    forall i :: 0 <= i < |cells| ==> cells[i] == SealBlock(first + i, PageAt(pages, first + i))
  }

  function WritesOf(h: Header, after: Regions, geo: Geometry): seq<PieceWrite>
    requires h.newest < 2 && geo.overhead <= MAX_OVERHEAD
  {
    PieceWrites(h, after, PIECE_LEN - geo.overhead)
  }

  /** The first `call.done` pieces of a header write are in place, and nothing else changed. */
  ghost predicate Midway(h: Header, call: HeaderCall, pieces: seq<Cell>, geo: Geometry) {
    && geo.overhead <= MAX_OVERHEAD
    && Agrees(h, call.pieces) && call.after.Sized() && h.stamp + 1 < U64
    && call.done <= |WritesOf(h, call.after, geo)|
    && pieces == Apply(call.pieces, WritesOf(h, call.after, geo)[..call.done])
  }

  predicate IsNext(h: Header, call: HeaderCall, w: PieceWrite, geo: Geometry)
    requires h.newest < 2 && geo.overhead <= MAX_OVERHEAD
  {
    call.done < |WritesOf(h, call.after, geo)| && WritesOf(h, call.after, geo)[call.done] == w
  }

  function SlotCount(before: Regions, after: Regions): nat {
    Count(before.slotA != after.slotA) + Count(before.slotB != after.slotB)
  }

  /** The three pieces of a header write follow each other. */
  lemma InOrder(h: Header, pieces: seq<Cell>, after: Regions, geo: Geometry)
    requires h.newest < 2 && geo.overhead <= MAX_OVERHEAD
    ensures var len, a, b := PIECE_LEN - geo.overhead, h.bytes.slotA != after.slotA, h.bytes.slotB != after.slotB;
            && |WritesOf(h, after, geo)| == WriteCount(h.bytes, after)
            && (a ==> IsNext(h, HeaderCall(pieces, after, 0), PieceWrite(2, SealSlot(1, after.slotA, len)), geo))
            && (b ==> IsNext(h, HeaderCall(pieces, after, Count(a)), PieceWrite(3, SealSlot(2, after.slotB, len)), geo))
            && (h.bytes.head != after.head ==>
                  IsNext(h, HeaderCall(pieces, after, SlotCount(h.bytes, after)),
                    PieceWrite(1 - h.newest, SealHead(Advanced(h, after), len)), geo))
  {
    WritesShape(h, after, PIECE_LEN - geo.overhead);
  }

  lemma MidwayStart(h: Header, pieces: seq<Cell>, after: Regions, geo: Geometry)
    requires geo.overhead <= MAX_OVERHEAD && Agrees(h, pieces) && after.Sized() && h.stamp + 1 < U64
    ensures Midway(h, HeaderCall(pieces, after, 0), pieces, geo)
  {
  }

  lemma MidwayNext(h: Header, call: HeaderCall, pieces: seq<Cell>, geo: Geometry, w: PieceWrite)
    requires Midway(h, call, pieces, geo) && IsNext(h, call, w, geo)
    ensures w.copy < |pieces|
            && Midway(h, HeaderCall(call.pieces, call.after, call.done + 1), pieces[w.copy := w.cell], geo)
  {
    CopyFits(h, call, geo);
    ApplyNext(call.pieces, WritesOf(h, call.after, geo), call.done);
  }

  lemma CopyFits(h: Header, call: HeaderCall, geo: Geometry)
    requires h.newest < 2 && geo.overhead <= MAX_OVERHEAD && call.done < |WritesOf(h, call.after, geo)|
    ensures WritesOf(h, call.after, geo)[call.done].copy < 4
  {
    WritesShape(h, call.after, PIECE_LEN - geo.overhead);
  }

  lemma ApplyNext(pieces: seq<Cell>, ws: seq<PieceWrite>, i: nat)
    requires i < |ws| && ws[i].copy < |pieces|
    ensures Apply(pieces, ws[..i + 1]) == Apply(pieces, ws[..i])[ws[i].copy := ws[i].cell]
  {
    assert ws[..i + 1][..i] == ws[..i];
  }

  lemma MidwayEnd(h: Header, call: HeaderCall, pieces: seq<Cell>, geo: Geometry)
    requires Midway(h, call, pieces, geo) && call.done == |WritesOf(h, call.after, geo)|
    ensures Agrees(Advanced(h, call.after), pieces)
  {
    ApplyWhole(call.pieces, WritesOf(h, call.after, geo), call.done);
    WholeWriteAgrees(h, call.pieces, call.after, PIECE_LEN - geo.overhead);
  }

  lemma ApplyWhole(pieces: seq<Cell>, ws: seq<PieceWrite>, n: nat)
    requires n == |ws|
    ensures Apply(pieces, ws[..n]) == Apply(pieces, ws)
  {
    assert ws[..n] == ws;
  }

  /** The next piece of a header write. */
  ghost predicate NextPiece(m: Moment, geo: Geometry)
    requires m.write.PieceAt?
  {
    && m.before.Full? && m.call.Some? && Midway(m.header, m.call.value, m.before.pieces, geo)
    && IsNext(m.header, m.call.value, PieceWrite(m.write.copy, m.write.cell), geo)
  }

  /**
   The order the layer keeps. A header piece reaches the file, a sync is done and the length changes
   only when the file holds every page redb has written; blocks are only ever written with the
   page redb wrote last.
   */
  ghost predicate Due(m: Moment, geo: Geometry) {
    && geo.overhead <= MAX_OVERHEAD && Plain.WholePages(m.pages)
    && match m.write
       case BlocksAt(first, cells) =>
         m.before.Full? && first <= |m.before.blocks| && Agrees(m.header, m.before.pieces)
           && Seals(cells, first, m.pages)
       case PieceAt(_, _) => NextPiece(m, geo) && Shown(m.before.blocks, m.pages)
       case NewLength(len) =>
         && (m.before.Full? ==> Agrees(m.header, m.before.pieces) && Shown(m.before.blocks, m.pages))
         && |BlocksOf(Resize(m.before, len, geo))| <= |BlocksOf(m.before)|
       case NoiseArea => m.before.Full? && m.before.blocks == [] && Agrees(m.header, m.before.pieces)
       case Synced => m.before.Full? ==> Agrees(m.header, m.before.pieces) && Shown(m.before.blocks, m.pages)
  }

  // ---- traces ----

  /** The file that write number `i` meets, and at the end the file that is left. */
  function Before(start: Disk, trace: seq<Moment>, i: nat, geo: Geometry): Disk
    requires i <= |trace|
  {
    if i == 0 then start else Applied(trace[i - 1].before, trace[i - 1].write, geo)
  }

  ghost predicate Link(start: Disk, trace: seq<Moment>, i: nat, geo: Geometry)
    requires i < |trace|
  {
    trace[i].before == Before(start, trace, i, geo) && Due(trace[i], geo)
  }

  /** From a file with every block sealed, the writes lead from `start` to `now`, each made when it was due. */
  ghost predicate Traced(start: Disk, trace: seq<Moment>, now: Disk, geo: Geometry) {
    && AllSealed(BlocksOf(start))
    && now == Before(start, trace, |trace|, geo)
    && (forall i :: 0 <= i < |trace| ==> Link(start, trace, i, geo))
  }

  lemma LinkAt(start: Disk, trace: seq<Moment>, now: Disk, geo: Geometry, i: nat)
    requires Traced(start, trace, now, geo) && i < |trace|
    ensures Due(trace[i], geo) && trace[i].before == Before(start, trace, i, geo)
    ensures Before(start, trace, i + 1, geo) == Applied(trace[i].before, trace[i].write, geo)
  {
    assert Link(start, trace, i, geo);
  }

  lemma TracedNext(start: Disk, trace: seq<Moment>, now: Disk, geo: Geometry, m: Moment)
    requires Traced(start, trace, now, geo) && m.before == now && Due(m, geo)
    ensures Traced(start, trace + [m], Applied(now, m.write, geo), geo)
  {
    var more := trace + [m];
    forall i | 0 <= i < |more| ensures Link(start, more, i, geo) {
      if i < |trace| {
        assert Link(start, trace, i, geo);
        assert more[i] == trace[i] && (i > 0 ==> more[i - 1] == trace[i - 1]);
      } else {
        assert i > 0 ==> more[i - 1] == trace[i - 1];
      }
    }
  }

  // ---- when the writes were made ----

  /** The array of a file that has just got its header area. */
  const FRESH: Logical := Logical(EMPTY_HEADER.bytes.Flat(), [])

  /** What redb had written at a write. */
  function StateOf(m: Moment): Logical {
    Logical(m.header.bytes.Flat(), m.pages)
  }

  predicate Among(m: Moment, x: Logical, y: Logical) {
    StateOf(m) == x || StateOf(m) == y
  }

  /** `after` goes on from `before`, with writes made when redb had written `x`, or `y`. */
  ghost predicate Grew(before: seq<Moment>, after: seq<Moment>, x: Logical, y: Logical) {
    before <= after && forall i :: |before| <= i < |after| ==> Among(after[i], x, y)
  }

  lemma GrewMore(from: seq<Moment>, trace: seq<Moment>, m: Moment, x: Logical)
    requires Grew(from, trace, x, x) && Among(m, x, x)
    ensures Grew(from, trace + [m], x, x)
  {
  }

  lemma GrewTwice(a: seq<Moment>, b: seq<Moment>, c: seq<Moment>, x: Logical, y: Logical)
    requires Grew(a, b, x, x) && Grew(b, c, y, y)
    ensures Grew(a, c, x, y) && (x == y ==> Grew(a, c, x, x))
  {
    forall i | |a| <= i < |c| ensures Among(c[i], x, y) {
      if i < |b| {
        assert b[i] == c[i] && Among(b[i], x, x);
      }
    }
  }

  // ---- pages since opening, a header write or a sync ----

  predicate Covers(m: Moment, b: nat) {
    m.write.BlocksAt? && m.write.first <= b < m.write.first + |m.write.cells|
  }

  /** The last block write about block `b`, from number `from` on and before `k`. */
  function LastTouch(trace: seq<Moment>, from: nat, k: nat, b: nat): (r: Option<nat>)
    requires from <= k <= |trace|
    ensures r.Some? ==> from <= r.value < k && Covers(trace[r.value], b)
    ensures forall x :: from <= x < k && (r.Some? ==> r.value < x) ==> !Covers(trace[x], b)
  {
    if k == from then None else if Covers(trace[k - 1], b) then Some(k - 1) else LastTouch(trace, from, k - 1, b)
  }

  /** What the blocks of a file hold. */
  function PagesOf(blocks: seq<Cell>): seq<Bytes> {
    seq(|blocks|, i requires 0 <= i < |blocks| => if blocks[i].Sealed? then blocks[i].plain else [])
  }

  /** The pages just before write number `from`: those the file was opened with, or redb had written. */
  function PagesAt(start: Disk, trace: seq<Moment>, from: nat): seq<Bytes>
    requires from <= |trace|
  {
    if from == 0 then PagesOf(BlocksOf(start)) else trace[from - 1].pages
  }

  /** The cell holds page `b` as it was before write `from`, or as the last block write about it since left it. */
  ghost predicate HoldsLast(start: Disk, trace: seq<Moment>, from: nat, k: nat, b: nat, cell: Cell)
    requires from <= k <= |trace|
  {
    var last := LastTouch(trace, from, k, b);
    var pages := if last.Some? then trace[last.value].pages else PagesAt(start, trace, from);
    Open(cell, BlockAad(b)) == Some(PageAt(pages, b))
  }

  /** The file is complete before write `from`: it was just opened, or a header piece or a sync was made. */
  predicate Barrier(trace: seq<Moment>, from: nat) {
    && from <= |trace|
    && (from > 0 ==> (trace[from - 1].write.PieceAt? || trace[from - 1].write.Synced?) && trace[from - 1].before.Full?)
  }

  /** Blocks that are not written keep their cells, or are cut off. */
  lemma BlocksAfter(m: Moment, geo: Geometry, b: nat)
    requires Due(m, geo) && b < |BlocksOf(Applied(m.before, m.write, geo))|
    ensures var was, now := BlocksOf(m.before), BlocksOf(Applied(m.before, m.write, geo));
            if Covers(m, b) then now[b] == m.write.cells[b - m.write.first] else b < |was| && now[b] == was[b]
  {
    if m.write.NewLength? {
      ResizedBlocks(m.before, m.write.len, geo, b);
    }
  }

  lemma ResizedBlocks(d: Disk, len: nat, geo: Geometry, b: nat)
    requires |BlocksOf(Resize(d, len, geo))| <= |BlocksOf(d)| && b < |BlocksOf(Resize(d, len, geo))|
    ensures BlocksOf(Resize(d, len, geo))[b] == BlocksOf(d)[b]
  {
  }

  lemma StillHolds(start: Disk, trace: seq<Moment>, from: nat, k: nat, b: nat, cell: Cell)
    requires from <= k < |trace| && HoldsLast(start, trace, from, k, b, cell) && !Covers(trace[k], b)
    ensures HoldsLast(start, trace, from, k + 1, b, cell)
  {
  }

  /** The cell of block `b` when write `k` is about to be made, if the file has it. */
  function CellAt(start: Disk, trace: seq<Moment>, geo: Geometry, k: nat, b: nat): Option<Cell>
    requires k <= |trace|
  {
    var blocks := BlocksOf(Before(start, trace, k, geo));
    if b < |blocks| then Some(blocks[b]) else None
  }

  lemma CellAfter(start: Disk, trace: seq<Moment>, now: Disk, geo: Geometry, from: nat, k: nat, b: nat)
    requires Traced(start, trace, now, geo) && from <= k < |trace| && CellAt(start, trace, geo, k + 1, b).Some?
    ensures !Covers(trace[k], b) ==> CellAt(start, trace, geo, k, b) == CellAt(start, trace, geo, k + 1, b)
    ensures Covers(trace[k], b) ==>
              HoldsLast(start, trace, from, k + 1, b, CellAt(start, trace, geo, k + 1, b).value)
  {
    LinkAt(start, trace, now, geo, k);
    BlocksAfter(trace[k], geo, b);
  }

  ghost predicate CellHolds(start: Disk, trace: seq<Moment>, geo: Geometry, from: nat, k: nat, b: nat)
    requires from <= k <= |trace|
  {
    CellAt(start, trace, geo, k, b).Some? ==>
      HoldsLast(start, trace, from, k, b, CellAt(start, trace, geo, k, b).value)
  }

  lemma NextHolds(start: Disk, trace: seq<Moment>, now: Disk, geo: Geometry, from: nat, k: nat, b: nat)
    requires Traced(start, trace, now, geo) && from <= k < |trace| && CellHolds(start, trace, geo, from, k, b)
    ensures CellHolds(start, trace, geo, from, k + 1, b)
  {
    if CellAt(start, trace, geo, k + 1, b).Some? {
      CellAfter(start, trace, now, geo, from, k, b);
      if !Covers(trace[k], b) {
        StillHolds(start, trace, from, k, b, CellAt(start, trace, geo, k, b).value);
      }
    }
  }

  /** A header piece and a sync leave the blocks as they are, and these show what redb had written. */
  lemma BarrierShows(m: Moment, geo: Geometry)
    requires Due(m, geo) && (m.write.PieceAt? || m.write.Synced?) && m.before.Full?
    ensures BlocksOf(Applied(m.before, m.write, geo)) == m.before.blocks && Shown(m.before.blocks, m.pages)
  {
  }

  lemma SealedShows(blocks: seq<Cell>)
    requires AllSealed(blocks)
    ensures Shown(blocks, PagesOf(blocks))
  {
  }

  lemma FirstHolds(start: Disk, trace: seq<Moment>, now: Disk, geo: Geometry, from: nat)
    requires Traced(start, trace, now, geo) && Barrier(trace, from)
    ensures Shown(BlocksOf(Before(start, trace, from, geo)), PagesAt(start, trace, from))
  {
    if from == 0 {
      SealedShows(BlocksOf(start));
    } else {
      LinkAt(start, trace, now, geo, from - 1);
      BarrierShows(trace[from - 1], geo);
    }
  }

  /** From opening, a header piece or a sync on, every block there is holds what the last write about it left. */
  lemma {:induction false} PagesSince(start: Disk, trace: seq<Moment>, now: Disk, geo: Geometry, from: nat, k: nat,
                                      b: nat)
    requires Traced(start, trace, now, geo) && Barrier(trace, from) && from <= k <= |trace|
    ensures CellHolds(start, trace, geo, from, k, b)
    decreases k
  {
    if k == from {
      FirstHolds(start, trace, now, geo, from);
    } else {
      PagesSince(start, trace, now, geo, from, k - 1, b);
      NextHolds(start, trace, now, geo, from, k - 1, b);
    }
  }

  // ---- stops ----

  /** A torn block: what it was, what it should have become, or nothing that opens. */
  predicate TornCell(cell: Cell, m: Moment, b: nat) {
    || !cell.Sealed?
    || (Covers(m, b) && cell == m.write.cells[b - m.write.first])
    || (b < |BlocksOf(m.before)| && cell == BlocksOf(m.before)[b])
  }

  /** What a stop while write `m` is made can leave: the file it met, or a part of the write. */
  ghost predicate Leaves(m: Moment, left: Disk, torn: bool) {
    if !torn then left == m.before
    else
      && m.before.Full? && left.Full?
      && match m.write
         case PieceAt(copy, _) => copy < |m.before.pieces|
           && left == m.before.(pieces := m.before.pieces[copy := Noise])
         case BlocksAt(first, cells) =>
           && left.pieces == m.before.pieces
           && |m.before.blocks| <= |left.blocks|
             && (|left.blocks| <= first + |cells| || |left.blocks| == |m.before.blocks|)
           && (forall b :: 0 <= b < |left.blocks| ==> if Covers(m, b) then TornCell(left.blocks[b], m, b)
             else b < |m.before.blocks| && left.blocks[b] == m.before.blocks[b])
         case NewLength(_) => false
         case NoiseArea => false
         case Synced => false
  }

  /** The header bytes opening the file then gives. */
  function Surviving(m: Moment, torn: bool): Regions {
    if m.write.PieceAt? && m.call.Some? then Survives(m.header.bytes, m.call.value.after, m.call.value.done, torn)
    else m.header.bytes
  }

  lemma CutIsLeft(m: Moment, geo: Geometry, left: Disk, torn: bool)
    requires Due(m, geo) && m.write.PieceAt? && Leaves(m, left, torn)
    ensures left.Full? && left.pieces == Cut(m.call.value.pieces, WritesOf(m.header, m.call.value.after, geo),
                                             m.call.value.done, torn)
  {
  }

  /**
   A stop at any write: opening the file gives the header of the completed writes, torn bytes 0..64 as
   they were before, and a torn commit slot as zeros.
   */
  lemma StopLoads(m: Moment, geo: Geometry, left: Disk, torn: bool)
    requires Due(m, geo) && m.before.Full? && Leaves(m, left, torn)
    ensures left.Full? && Pieces(left.pieces) && LoadHeader(left.pieces).bytes == Surviving(m, torn)
  {
    if m.write.PieceAt? {
      PieceStopLoads(m, geo, left, torn);
    }
  }

  lemma PieceStopLoads(m: Moment, geo: Geometry, left: Disk, torn: bool)
    requires Due(m, geo) && m.write.PieceAt? && Leaves(m, left, torn)
    ensures left.Full? && Pieces(left.pieces) && LoadHeader(left.pieces).bytes == Surviving(m, torn)
  {
    CutIsLeft(m, geo, left, torn);
    var h, call := m.header, m.call.value;
    CutLoads(h, call, geo, torn, left.pieces);
  }

  lemma CutLoads(h: Header, call: HeaderCall, geo: Geometry, torn: bool, left: seq<Cell>)
    requires geo.overhead <= MAX_OVERHEAD && Agrees(h, call.pieces) && call.after.Sized() && h.stamp + 1 < U64
    requires call.done <= |WritesOf(h, call.after, geo)|
    requires left == Cut(call.pieces, WritesOf(h, call.after, geo), call.done, torn)
    ensures Pieces(left) && LoadHeader(left).bytes == Survives(h.bytes, call.after, call.done, torn)
  {
    CrashLoads(h, call.pieces, call.after, PIECE_LEN - geo.overhead, call.done, torn);
  }

  /** The file has changed length from write `from` on, before `k`. */
  ghost predicate Shortened(trace: seq<Moment>, from: nat, k: nat) {
    exists x :: from <= x < k <= |trace| && trace[x].write.NewLength?
  }

  predicate TornIn(m: Moment, cell: Cell, torn: bool, b: nat) {
    torn && Covers(m, b) && TornCell(cell, m, b)
  }

  lemma LeftBlock(m: Moment, left: Disk, torn: bool, b: nat)
    requires Leaves(m, left, torn) && b < |BlocksOf(left)|
    ensures TornIn(m, BlocksOf(left)[b], torn, b)
            || (b < |BlocksOf(m.before)| && BlocksOf(left)[b] == BlocksOf(m.before)[b])
  {
  }

  /** The block holds the last page written to it since `from`, or belongs to the write torn at `k`. */
  ghost predicate Kept(start: Disk, trace: seq<Moment>, from: nat, k: nat, b: nat, cell: Cell, torn: bool)
    requires from <= k < |trace|
  {
    HoldsLast(start, trace, from, k, b, cell) || TornIn(trace[k], cell, torn, b)
  }

  /**
   A stop at any write. Since the file was opened, or since any header piece or sync, every page of then
   is still in the file unless the file was shortened, and every block holds the page of then or of the
   last block write about it; only a block of the very write that was torn may hold nothing.
   */
  lemma StopKeepsPages(start: Disk, trace: seq<Moment>, now: Disk, geo: Geometry, from: nat, k: nat, left: Disk,
                       torn: bool)
    requires Traced(start, trace, now, geo) && Barrier(trace, from) && from <= k < |trace|
    requires Leaves(trace[k], left, torn)
    ensures forall b :: 0 <= b < |BlocksOf(left)| ==> Kept(start, trace, from, k, b, BlocksOf(left)[b], torn)
    ensures !Shortened(trace, from, k) ==> |PagesAt(start, trace, from)| <= |BlocksOf(left)|
  {
    LinkAt(start, trace, now, geo, k);
    forall b | 0 <= b < |BlocksOf(left)| ensures Kept(start, trace, from, k, b, BlocksOf(left)[b], torn) {
      LeftBlock(trace[k], left, torn, b);
      if !TornIn(trace[k], BlocksOf(left)[b], torn, b) {
        PagesSince(start, trace, now, geo, from, k, b);
      }
    }
    if !Shortened(trace, from, k) {
      NeverShorter(start, trace, now, geo, from, k);
    }
  }

  lemma NotShorter(m: Moment, geo: Geometry)
    requires Due(m, geo) && !m.write.NewLength?
    ensures |BlocksOf(m.before)| <= |BlocksOf(Applied(m.before, m.write, geo))|
  {
  }

  lemma {:induction false} NeverShorter(start: Disk, trace: seq<Moment>, now: Disk, geo: Geometry, from: nat, k: nat)
    requires Traced(start, trace, now, geo) && Barrier(trace, from) && from <= k <= |trace|
    requires !Shortened(trace, from, k)
    ensures |PagesAt(start, trace, from)| <= |BlocksOf(Before(start, trace, k, geo))|
    decreases k
  {
    if k == from {
      FirstHolds(start, trace, now, geo, from);
    } else {
      LinkAt(start, trace, now, geo, k - 1);
      assert !trace[k - 1].write.NewLength?;
      NotShorter(trace[k - 1], geo);
      NeverShorter(start, trace, now, geo, from, k - 1);
    }
  }

  /** At every write, every block of the file is sealed under its own number. */
  lemma {:induction false} AlwaysSealed(start: Disk, trace: seq<Moment>, now: Disk, geo: Geometry, k: nat)
    requires Traced(start, trace, now, geo) && k <= |trace|
    ensures AllSealed(BlocksOf(Before(start, trace, k, geo)))
  {
    if k > 0 {
      AlwaysSealed(start, trace, now, geo, k - 1);
      LinkAt(start, trace, now, geo, k - 1);
      StaysSealed(trace[k - 1], geo);
    }
  }

  lemma StaysSealed(m: Moment, geo: Geometry)
    requires Due(m, geo) && AllSealed(BlocksOf(m.before))
    ensures AllSealed(BlocksOf(Applied(m.before, m.write, geo)))
  {
    var now := BlocksOf(Applied(m.before, m.write, geo));
    forall b | 0 <= b < |now| ensures now[b].Sealed? && now[b].aad == BlockAad(b) && |now[b].plain| == PAGE {
      BlocksAfter(m, geo, b);
    }
  }

  /** Unless a block write was torn, every block opens after a stop at any write, so the file can be opened again. */
  lemma StopSealed(start: Disk, trace: seq<Moment>, now: Disk, geo: Geometry, k: nat, left: Disk, torn: bool)
    requires Traced(start, trace, now, geo) && k < |trace| && Leaves(trace[k], left, torn)
    requires torn ==> !trace[k].write.BlocksAt?
    ensures AllSealed(BlocksOf(left))
  {
    AlwaysSealed(start, trace, now, geo, k);
    LinkAt(start, trace, now, geo, k);
    forall b | 0 <= b < |BlocksOf(left)| ensures BlocksOf(left)[b] == BlocksOf(trace[k].before)[b] {
      LeftBlock(trace[k], left, torn, b);
    }
  }
}
