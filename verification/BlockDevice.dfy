/**
 The encrypted file layer under redb (src/encrypted_store/backend.rs): one sealed block per page,
 the header page as four sealed pieces, pages staged in memory until they are drained, and a file
 that grows in sealed steps. redb must see a plain byte array.
 */
module BlockDevice {
  import opened Prelude
  import opened Layout
  import opened Cells
  import opened HeaderPieces
  import opened Growth
  import opened BlockFile
  import opened Staging
  import opened FileTrace
  import Plain = PlainArray

  /** What opening a file would show. */
  ghost predicate Openable(d: Disk, geo: Geometry) {
    && geo.overhead <= MAX_OVERHEAD
    && (d.Short? ==> d.len < DATA_BASE)
    && (d.Full? ==> Pieces(d.pieces) && AllSealed(d.blocks) && d.tail < geo.Stride())
  }

  ghost function OnDisk(d: Disk, geo: Geometry): Bytes
    requires Openable(d, geo)
  {
    if d.Short? then [] else Plain.Flat(LoadHeader(d.pieces).bytes.Flat(), View(d.blocks, map[]))
  }

  lemma StampBound(b: Bytes)
    requires |b| == 8
    ensures FromLittleEndian(b) < U64
  {
    Pow256Of8();
    LittleBound(b);
  }

  lemma {:induction false} LittleBound(b: Bytes)
    ensures FromLittleEndian(b) < Pow256(|b|)
  {
    if b != [] {
      LittleBound(b[1..]);
    }
  }

  datatype Call = ReadAt(offset: nat, n: nat) | WriteAt(offset: nat, data: Bytes) | NewLen(len: nat) | Sync

  function Done(r: Result<(), IoError>): Result<Bytes, IoError> {
    if r.Ok? then Ok([]) else Err(r.error)
  }

  /** What a plain zero-extended byte array answers to a call, and what it holds afterwards. */
  function PlainAnswer(a: Bytes, call: Call, geo: Geometry): (Result<Bytes, IoError>, Bytes) {
    match call
    case ReadAt(offset, n) => (ReadOutcome(a, offset, n), a)
    case WriteAt(offset, data) => (Done(WriteOutcome(a, offset, data).0), WriteOutcome(a, offset, data).1)
    case NewLen(len) => (Done(SetLenOutcome(a, len, geo).0), SetLenOutcome(a, len, geo).1)
    case Sync => (Ok([]), a)
  }

  function PlainRun(a: Bytes, calls: seq<Call>, geo: Geometry): (seq<Result<Bytes, IoError>>, Bytes) {
    if calls == [] then ([], a)
    else
      var (answers, b) := PlainRun(a, calls[..|calls| - 1], geo);
      var (answer, c) := PlainAnswer(b, calls[|calls| - 1], geo);
      (answers + [answer], c)
  }

  lemma PlainRunStep(a: Bytes, calls: seq<Call>, i: nat, geo: Geometry)
    requires i < |calls|
    ensures var (answers, b) := PlainRun(a, calls[..i], geo);
            var (answer, c) := PlainAnswer(b, calls[i], geo);
            PlainRun(a, calls[..i + 1], geo) == (answers + [answer], c)
  {
    assert calls[..i + 1][..i] == calls[..i];
  }

  /** The array as header and pages are shown by memory and file together. */
  ghost predicate Shows(parts: Logical, header: Header, blocks: seq<Cell>, pending: map<nat, SharedPage>)
    requires AllSealed(blocks) && Holds(pending, blocks)
  {
    parts.header == header.bytes.Flat() && parts.pages == View(blocks, pending)
  }

  class BlockBackend {
    const geo: Geometry
    const parallelSeal: bool
    const threads: nat
    var disk: Disk
    /** The length of the pages alone. */
    var dataLen: nat
    var headerArea: bool
    var header: Header
    /** What is newer in memory than in the file. */
    var pending: map<nat, SharedPage>
    /** What redb has written, by parts. */
    ghost var parts: Logical
    /** The file as it was opened, and every write to it since, with what redb had written by then. */
    ghost const start: Disk
    ghost var trace: seq<Moment>

    /** The state is sound, though more pages may be staged than are ever left staged. */
    ghost predicate Core()
      reads this
    {
      && Openable(disk, geo)
      && headerArea == disk.Full?
      && (disk.Short? ==> dataLen == 0 && pending == map[])
      && (disk.Full? ==>
            && dataLen == |disk.blocks| * PAGE
            && Agrees(header, disk.pieces)
            && Holds(pending, disk.blocks)
            && Shows(parts, header, disk.blocks, pending))
      && (!parallelSeal ==> pending == map[])
      && Traced(start, trace, disk, geo)
    }

    /** What redb has written; a file without header area has nothing. */
    ghost function Held(): Logical
      reads this
    {
      if disk.Short? then FRESH else parts
    }

    /** The file has its header area, and what the layer knows of its header is true. */
    ghost predicate Recording()
      reads this
    {
      && geo.overhead <= MAX_OVERHEAD && disk.Full?
      && Agrees(header, disk.pieces) && parts.header == header.bytes.Flat() && Plain.WholePages(parts.pages)
      && Traced(start, trace, disk, geo)
    }

    /** A write about to be made. */
    ghost function Note(w: FileWrite): Moment
      reads this
    {
      if disk.Full? then Moment(disk, w, header, parts.pages, None) else Moment(disk, w, EMPTY_HEADER, [], None)
    }

    ghost predicate Valid()
      reads this
    {
      Core() && |pending| < PENDING_CAP_PAGES
    }

    /** The array redb sees. */
    ghost function Content(): Bytes
      requires Core()
      reads this
    {
      if disk.Short? then [] else parts.Flat()
    }

    /** Open a file: its length gives the data length, its pieces give the header. */
    constructor (d: Disk, geo: Geometry, parallelSeal: bool, threads: nat)
      requires Openable(d, geo)
      ensures Valid() && Content() == OnDisk(d, geo) && disk == d && start == d && trace == []
      ensures this.geo == geo && this.parallelSeal == parallelSeal
    {
      this.geo := geo;
      this.parallelSeal := parallelSeal;
      this.threads := threads;
      disk := d;
      pending := map[];
      start := d;
      trace := [];
      var physical := FileLen(d, geo);
      headerArea := physical >= DATA_BASE;
      var logical := geo.LogicalLen(physical);
      dataLen := if logical < LOGICAL_HEADER then 0 else logical - LOGICAL_HEADER;
      header := EMPTY_HEADER;
      new;
      if d.Full? {
        geo.WholeBlocks(|d.blocks|, d.tail);
        LoadPieces();
        parts := Logical(header.bytes.Flat(), View(d.blocks, map[]));
      }
    }

    /** Fill the header from the pieces; one that does not open leaves its zeros. */
    method LoadPieces()
      requires disk.Full? && Pieces(disk.pieces) && header == EMPTY_HEADER
      modifies this`header
      ensures Agrees(header, disk.pieces)
    {
      var best: Option<(nat, nat, Bytes)> := None;
      for copy := 0 to 2
        invariant best.None? ==> forall c :: 0 <= c < copy ==> ReadPiece(disk.pieces, c, 0).None?
        invariant best.Some? ==>
                    && best.value.1 < copy
                    && ReadPiece(disk.pieces, best.value.1, 0).Some?
                    && var p := ReadPiece(disk.pieces, best.value.1, 0).value;
                       best.value.0 == StampOf(p) && best.value.2 == p[8..72]
        invariant copy == 1 && ReadPiece(disk.pieces, 0, 0).Some? ==> best.Some?
        invariant copy == 2 && best.Some? ==> NewestCopy(disk.pieces) == Some(best.value.1)
      {
        var p := ReadPiece(disk.pieces, copy, 0);
        if p.Some? {
          var stamp := FromLittleEndian(p.value[..8]);
          if best.None? || stamp > best.value.0 {
            best := Some((stamp, copy, p.value[8..72]));
          }
        }
      }
      if best.Some? {
        StampBound(ReadPiece(disk.pieces, best.value.1, 0).value[..8]);
        header := Header(header.bytes.(head := best.value.2), best.value.0, best.value.1);
      }
      var a := ReadPiece(disk.pieces, 2, 1);
      if a.Some? {
        header := header.(bytes := header.bytes.(slotA := a.value[..128]));
      }
      var b := ReadPiece(disk.pieces, 3, 2);
      if b.Some? {
        header := header.(bytes := header.bytes.(slotB := b.value[..128]));
      }
    }

    method LogicalLen() returns (len: nat)
      requires Core()
      ensures len == |Content()|
      ensures disk.Full? ==> len == LOGICAL_HEADER + |parts.pages| * PAGE
    {
      if !headerArea {
        return 0;
      }
      len := LOGICAL_HEADER + dataLen;
    }

    // ---- header pieces ----

    /** Write one sealed piece if its region changed: only when the file holds every page redb has written. */
    method WritePiece(changed: bool, w: PieceWrite, ghost call: HeaderCall, ghost from: seq<Moment>)
      requires disk.Full? && Midway(header, call, disk.pieces, geo) && (changed ==> IsNext(header, call, w, geo))
      requires Shown(disk.blocks, parts.pages) && Plain.WholePages(parts.pages) && parts.header == header.bytes.Flat()
      requires Traced(start, trace, disk, geo) && Grew(from, trace, parts, parts)
      modifies this`disk, this`trace
      ensures disk.Full? && disk.blocks == old(disk).blocks && disk.tail == old(disk).tail
      ensures Midway(header, HeaderCall(call.pieces, call.after, call.done + Count(changed)), disk.pieces, geo)
      ensures Traced(start, trace, disk, geo) && Grew(from, trace, parts, parts)
    {
      if changed {
        ghost var m := Moment(disk, PieceAt(w.copy, w.cell), header, parts.pages, Some(call));
        MidwayNext(header, call, disk.pieces, geo, w);
        TracedNext(start, trace, disk, geo, m);
        GrewMore(from, trace, m, parts);
        trace := trace + [m];
        disk := disk.(pieces := disk.pieces[w.copy := w.cell]);
      }
    }

    /** The commit slots of a changed header. */
    method WriteSlots(after: Regions)
      requires Recording() && after.Sized() && header.stamp + 1 < U64 && Shown(disk.blocks, parts.pages)
      modifies this`disk, this`trace
      ensures disk.Full? && disk.blocks == old(disk).blocks && disk.tail == old(disk).tail
      ensures Midway(header, HeaderCall(old(disk).pieces, after, SlotCount(header.bytes, after)), disk.pieces, geo)
      ensures Traced(start, trace, disk, geo) && Grew(old(trace), trace, parts, parts)
    {
      var plainLen := PIECE_LEN - geo.overhead;
      ghost var p, from := disk.pieces, trace;
      InOrder(header, p, after, geo);
      MidwayStart(header, p, after, geo);
      var a := header.bytes.slotA != after.slotA;
      WritePiece(a, PieceWrite(2, SealSlot(1, after.slotA, plainLen)), HeaderCall(p, after, 0), from);
      var b := header.bytes.slotB != after.slotB;
      WritePiece(b, PieceWrite(3, SealSlot(2, after.slotB, plainLen)), HeaderCall(p, after, Count(a)), from);
    }

    /** The pieces of a changed header: commit slots first, the piece with redb's primary-slot byte last. */
    method WritePieces(after: Regions)
      requires Recording() && after.Sized() && header.stamp + 1 < U64 && Shown(disk.blocks, parts.pages)
      modifies this`disk, this`trace
      ensures disk.Full? && disk.blocks == old(disk).blocks && disk.tail == old(disk).tail
      ensures Agrees(Advanced(header, after), disk.pieces)
      ensures Traced(start, trace, disk, geo) && Grew(old(trace), trace, parts, parts)
    {
      ghost var p, from := disk.pieces, trace;
      InOrder(header, p, after, geo);
      WriteSlots(after);
      var z := header.bytes.head != after.head;
      var head := PieceWrite(1 - header.newest, SealHead(Advanced(header, after), PIECE_LEN - geo.overhead));
      WritePiece(z, head, HeaderCall(p, after, SlotCount(header.bytes, after)), from);
      MidwayEnd(header, HeaderCall(p, after, SlotCount(header.bytes, after) + Count(z)), disk.pieces, geo);
    }

    method WriteHeaderRange(offset: nat, data: Bytes) returns (r: Result<(), IoError>)
      requires Valid() && disk.Full? && pending == map[] && header.stamp + 1 < U64
      modifies this`disk, this`header, this`parts, this`trace
      ensures Valid() && disk.Full?
      ensures r == if Fits(offset, data) then Ok(()) else Err(UnusedHeader)
      ensures parts == if r.Ok? then old(parts).(header := Patched(old(parts).header, offset, data)) else old(parts)
      ensures header.stamp <= old(header.stamp) + 1
      ensures Grew(old(trace), trace, old(parts), old(parts))
    {
      var n := Used(offset, data);
      if exists i | n <= i < |data| :: data[i] != 0 {
        return Err(UnusedHeader);
      }
      var after := Split(Patched(header.bytes.Flat(), offset, data));
      WritePieces(after);
      header := Advanced(header, after);
      parts := parts.(header := Patched(parts.header, offset, data));
      r := Ok(());
    }

    // ---- staged pages ----

    /** Write what is staged, if anything is. */
    method Drain()
      requires Core()
      modifies this`disk, this`pending, this`trace
      ensures Valid() && pending == map[]
      ensures disk.Full? == old(disk).Full? && (disk.Short? ==> disk == old(disk))
      ensures Grew(old(trace), trace, Held(), Held())
    {
      if |pending| == 0 {
        return;
      }
      Flush();
    }

    /** Bring the file up to date with all that is staged. */
    method Flush()
      requires Core() && disk.Full?
      modifies this`disk, this`pending, this`trace
      ensures Valid() && pending == map[] && disk.Full?
      ensures Grew(old(trace), trace, parts, parts)
    {
      var batch := Snapshot(pending);
      var sealed := SealAll(batch, WorkersFor(|batch|, threads));
      ViewStaged(disk.blocks, pending);
      WriteBatch(batch, sealed);
      Unstage(batch);
      DrainedView(old(disk).blocks, disk.blocks, old(pending));
    }

    /** One file write of blocks, each with the page redb wrote there last. */
    method PutCells(first: nat, cells: seq<Cell>, ghost from: seq<Moment>)
      requires Recording() && first <= |disk.blocks| && Seals(cells, first, parts.pages)
      requires Grew(from, trace, parts, parts)
      modifies this`disk, this`trace
      ensures Recording() && disk == PutBlocks(old(disk), first, cells)
      ensures Grew(from, trace, parts, parts)
    {
      ghost var m := Note(BlocksAt(first, cells));
      TracedNext(start, trace, disk, geo, m);
      GrewMore(from, trace, m, parts);
      trace := trace + [m];
      disk := PutBlocks(disk, first, cells);
    }

    /** The file writes of a drain: at most 128 blocks that follow each other per write. */
    method WriteBatch(batch: seq<(nat, SharedPage)>, sealed: seq<Cell>)
      requires disk.Full? && AllSealed(disk.blocks) && Holds(pending, disk.blocks)
      requires Lists(batch, pending) && SealsOf(batch, sealed)
      requires Recording() && Staged(pending, parts.pages)
      modifies this`disk, this`trace
      ensures Recording() && Grew(old(trace), trace, parts, parts)
      ensures disk.Full? && disk.pieces == old(disk).pieces && disk.tail == old(disk).tail
      ensures |disk.blocks| == |old(disk).blocks| && AllSealed(disk.blocks)
      ensures forall b :: 0 <= b < |disk.blocks| ==>
                            disk.blocks[b] ==
                            if b in pending then SealBlock(b, pending[b].data) else old(disk).blocks[b]
    {
      var i := 0;
      while i < |batch|
        invariant 0 <= i <= |batch|
        invariant disk.Full? && disk.pieces == old(disk).pieces && disk.tail == old(disk).tail
        invariant |disk.blocks| == |old(disk).blocks|
        invariant Partly(old(disk).blocks, disk.blocks, batch, i)
        invariant Recording() && Grew(old(trace), trace, parts, parts)
      {
        var j := RunEnd(batch, i);
        RunWritten(old(disk).blocks, disk.blocks, batch, sealed, i, j);
        RunSeals(batch, sealed, pending, parts.pages, i, j);
        PutCells(batch[i].0, sealed[i..j], old(trace));
        i := j;
      }
      AllWritten(old(disk).blocks, disk.blocks, batch, pending);
    }

    /** Forget the pages of a drain that were not written again meanwhile. */
    method Unstage(batch: seq<(nat, SharedPage)>)
      requires Lists(batch, pending)
      modifies this`pending
      ensures pending == map[]
    {
      for k := 0 to |batch|
        invariant pending.Keys <= old(pending).Keys
        invariant forall x :: x in pending ==> pending[x] == old(pending)[x]
        invariant forall i :: k <= i < |batch| ==> batch[i].0 in pending
        invariant forall i :: 0 <= i < k ==> batch[i].0 !in pending
      {
        var (index, page) := batch[k];
        if index in pending && pending[index] == page {
          pending := pending - {index};
        }
      }
    }

    method Stage(first: nat, plain: Bytes)
      requires Valid() && disk.Full? && parallelSeal
      requires |plain| % PAGE == 0 && first + |plain| / PAGE <= |parts.pages|
      modifies this`pending, this`parts
      ensures Core()
      ensures parts == old(parts).(pages := Plain.PutPages(old(parts).pages, first, plain))
    {
      var more := Insert(pending, first, plain);
      StagedView(disk.blocks, pending, more, first, plain);
      pending := more;
      parts := parts.(pages := Plain.PutPages(parts.pages, first, plain));
    }

    /** Write pages to memory alone, and drain when that makes too many. */
    method StagePages(first: nat, plain: Bytes)
      requires Valid() && disk.Full? && parallelSeal
      requires |plain| % PAGE == 0 && first + |plain| / PAGE <= |parts.pages|
      modifies this`pending, this`disk, this`parts, this`trace
      ensures Valid() && disk.Full?
      ensures parts == old(parts).(pages := Plain.PutPages(old(parts).pages, first, plain))
      ensures Grew(old(trace), trace, parts, parts)
    {
      Stage(first, plain);
      if |pending| >= PENDING_CAP_PAGES {
        Drain();
      }
    }

    /** Seal consecutive pages and write them with one file call. */
    method WriteBlocks(first: nat, plain: Bytes, ghost from: seq<Moment>)
      requires Recording() && AllSealed(disk.blocks) && first <= |disk.blocks| && |plain| % PAGE == 0
      requires Seals(SealPages(first, plain), first, parts.pages) && Grew(from, trace, parts, parts)
      modifies this`disk, this`trace
      ensures Recording() && disk == PutBlocks(old(disk), first, SealPages(first, plain)) && AllSealed(disk.blocks)
      ensures Grew(from, trace, parts, parts)
    {
      var count := |plain| / PAGE;
      var cells: seq<Cell> := [];
      for i := 0 to count
        invariant |cells| == i
        invariant forall k :: 0 <= k < i ==> cells[k] == SealPages(first, plain)[k]
      {
        cells := cells + [SealBlock(first + i, plain[i * PAGE..(i + 1) * PAGE])];
      }
      assert cells == SealPages(first, plain);
      PutCells(first, cells, from);
    }

    /**
     Grow the file by sealed zero blocks, in batches. `steps` are the files at the batch boundaries:
     sealed throughout, and each of a length redb accepts or the one asked for.
     */
    method Fill(first: nat, end: nat) returns (r: Result<(), IoError>, ghost steps: seq<Disk>)
      requires Recording() && AllSealed(disk.blocks) && first == |disk.blocks| == |parts.pages| && first < end
      modifies this`disk, this`trace
      ensures Recording() && Grew(old(trace), trace, parts, parts)
      ensures r == FillOutcome(first, header.bytes.Flat())
      ensures r.Err? ==> disk == old(disk)
      ensures r.Ok? ==>
              disk.Full? && disk.pieces == old(disk).pieces && disk.tail == 0
              && Extended(old(disk).blocks, disk.blocks, end)
      ensures r.Ok? ==> Steps(steps, old(disk), end, ShapeOf(header.bytes.Flat()))
    {
      steps := [];
      var bytes := header.bytes.Flat();
      var shape: Option<Shape> := None;
      if !AllZero(bytes) {
        shape := RegionShapeOf(bytes);
        if shape.None? {
          return Err(HeaderUnknown), steps;
        }
      } else if first > 0 {
        return Err(HeaderUnreadable), steps;
      }
      var at := first;
      while at < end
        invariant first <= at <= end && disk.Full? && disk.pieces == old(disk).pieces
        invariant steps != [] ==> disk.tail == 0
        invariant at > first ==> steps != []
        invariant Extended(old(disk).blocks, disk.blocks, at)
        invariant Steps(steps, old(disk), end, shape)
        invariant disk == From(steps, old(disk), |steps|)
        invariant Recording() && Grew(old(trace), trace, parts, parts)
      {
        var stop := BatchEnd(at, end, shape);
        ExtendedMore(old(disk).blocks, disk.blocks, at, stop);
        ZeroSeals(at, stop, parts.pages);
        WriteBlocks(at, Zeros((stop - at) * PAGE), old(trace));
        StepsMore(steps, old(disk), disk, end, shape);
        steps := steps + [disk];
        at := stop;
      }
      r := Ok(());
    }

    // ---- the calls redb makes ----

    /** Make the header area if the file does not have it: four pieces of noise, one page of zeros. */
    method EnsureArea()
      requires Valid() && pending == map[]
      modifies this`disk, this`header, this`headerArea, this`parts, this`trace
      ensures Valid() && disk.Full?
      ensures parts == old(Held())
      ensures header.stamp <= old(header.stamp)
      ensures Grew(old(trace), trace, parts, parts)
    {
      AreaIsMissing(disk, geo);
      if FileLen(disk, geo) < DATA_BASE {
        MakeArea();
      }
    }

    method MakeArea()
      requires Valid() && disk.Short?
      modifies this`disk, this`header, this`headerArea, this`parts, this`trace
      ensures Valid() && disk.Full? && parts == FRESH && header == EMPTY_HEADER
      ensures Grew(old(trace), trace, FRESH, FRESH)
    {
      NothingOpens();
      FreshArea(disk, geo);
      ghost var m := Note(NewLength(DATA_BASE));
      TracedNext(start, trace, disk, geo, m);
      GrewMore(trace, trace, m, FRESH);
      trace := trace + [m];
      disk := Resize(disk, DATA_BASE, geo);
      headerArea := true;
      header := EMPTY_HEADER;
      parts := FRESH;
      ghost var n := Note(NoiseArea);
      TracedNext(start, trace, disk, geo, n);
      GrewMore(old(trace), trace, n, FRESH);
      trace := trace + [n];
      disk := disk.(pieces := NOISE);
    }

    method Grow(newData: nat, physical: nat) returns (r: Result<(), IoError>)
      requires Valid() && disk.Full? && pending == map[] && newData > dataLen && newData % PAGE == 0
      requires physical == geo.BlockOffset(newData / PAGE)
      modifies this`disk, this`dataLen, this`parts, this`trace
      ensures Valid() && disk.Full? && Grew(old(trace), trace, old(parts), old(parts))
      ensures r == FillOutcome(|old(parts).pages|, parts.header)
      ensures parts == if r.Ok? then old(parts).(pages := Plain.GrowTo(old(parts).pages, newData / PAGE))
              else old(parts)
    {
      ghost var steps;
      r, steps := Fill(dataLen / PAGE, newData / PAGE);
      if r.Err? {
        return;
      }
      // the file is exactly as long as asked, so there is nothing to cut back
      assert FileLen(disk, geo) == physical;
      dataLen := newData;
      parts := parts.(pages := Plain.GrowTo(parts.pages, newData / PAGE));
    }

    /** Change the length of the file, which then holds every page redb has written. */
    method SetFileLen(physical: nat)
      requires Core() && pending == map[] && |BlocksOf(Resize(disk, physical, geo))| <= |BlocksOf(disk)|
      modifies this`disk, this`trace
      ensures disk == Resize(old(disk), physical, geo)
      ensures Traced(start, trace, disk, geo) && Grew(old(trace), trace, old(Held()), old(Held()))
    {
      ghost var m := Note(NewLength(physical));
      if disk.Full? {
        DrainedShows(disk.blocks, parts.pages);
      }
      TracedNext(start, trace, disk, geo, m);
      GrewMore(trace, trace, m, Held());
      trace := trace + [m];
      disk := Resize(disk, physical, geo);
    }

    method Shrink(newData: nat, physical: nat)
      requires Valid() && disk.Full? && pending == map[] && newData <= dataLen && newData % PAGE == 0
      requires physical == geo.BlockOffset(newData / PAGE)
      modifies this`disk, this`dataLen, this`parts, this`trace
      ensures Valid() && disk.Full? && Grew(old(trace), trace, old(parts), old(parts))
      ensures newData / PAGE <= |old(parts).pages|
      ensures parts == old(parts).(pages := old(parts).pages[..newData / PAGE])
    {
      if newData < dataLen {
        ResizeTo(disk, newData / PAGE, geo);
        SetFileLen(physical);
      }
      dataLen := newData;
      parts := parts.(pages := parts.pages[..newData / PAGE]);
    }

    /** A new length for a file that has its header area. */
    method Resized(len: nat, physical: nat) returns (r: Result<(), IoError>)
      requires Valid() && disk.Full? && pending == map[] && len != 0 && geo.PhysicalLen(len) == Some(physical)
      modifies this`disk, this`dataLen, this`parts, this`trace
      ensures Valid() && disk.Full? && Grew(old(trace), trace, old(parts), old(parts))
      ensures r == Sized(old(parts), len).0 && parts == Sized(old(parts), len).1
    {
      var newData := len - LOGICAL_HEADER;
      if newData > dataLen {
        r := Grow(newData, physical);
      } else {
        Shrink(newData, physical);
        r := Ok(());
      }
    }

    /** A length change does what it does to the plain array, and is refused exactly where it must be. */
    method SetLen(len: nat) returns (r: Result<(), IoError>)
      requires Valid()
      modifies this
      ensures Valid()
      ensures r == SetLenOutcome(old(Content()), len, geo).0 && Content() == SetLenOutcome(old(Content()), len, geo).1
      ensures header.stamp <= old(header.stamp)
      ensures Grew(old(trace), trace, old(Held()), old(Held()))
    {
      var target := geo.PhysicalLen(len);
      if target.None? {
        return Err(BadLength);
      }
      Drain();
      ghost var so := trace;
      if len == 0 {
        Empty(target.value);
        r := Ok(());
      } else {
        r := SetLenTo(len, target.value);
      }
      GrewTwice(old(trace), so, trace, old(Held()), old(Held()));
    }

    /** Leave nothing. */
    method Empty(physical: nat)
      requires Valid() && pending == map[] && geo.PhysicalLen(0) == Some(physical)
      modifies this`disk, this`dataLen, this`headerArea, this`trace
      ensures Valid() && Content() == []
      ensures Grew(old(trace), trace, old(Held()), old(Held()))
    {
      SetFileLen(physical);
      dataLen := 0;
      headerArea := physical >= DATA_BASE;
    }

    method SetLenTo(len: nat, physical: nat) returns (r: Result<(), IoError>)
      requires Valid() && pending == map[] && len != 0 && geo.PhysicalLen(len) == Some(physical)
      modifies this
      ensures Valid()
      ensures r == SetLenOutcome(old(Content()), len, geo).0 && Content() == SetLenOutcome(old(Content()), len, geo).1
      ensures header.stamp <= old(header.stamp)
      ensures Grew(old(trace), trace, old(Held()), old(Held()))
    {
      EnsureArea();
      ghost var so := trace;
      SizedIsPlain(parts, len, geo);
      if old(disk).Short? {
        FreshAnswers(len, geo);
      }
      r := Resized(len, physical);
      GrewTwice(old(trace), so, trace, old(Held()), old(Held()));
    }

    /** When this returns, the synced file shows everything written before it. */
    method SyncData()
      requires Valid()
      modifies this`disk, this`pending, this`trace
      ensures Valid() && pending == map[]
      ensures Content() == old(Content()) && OnDisk(disk, geo) == Content()
      ensures Grew(old(trace), trace, Held(), Held())
    {
      Drain();
      ghost var m := Note(Synced);
      if disk.Full? {
        DrainedShows(disk.blocks, parts.pages);
      }
      TracedNext(start, trace, disk, geo, m);
      GrewMore(old(trace), trace, m, Held());
      trace := trace + [m];
    }

    /** A read returns the bytes of the plain array, wherever its pages are. */
    method Read(offset: nat, n: nat) returns (r: Result<Bytes, IoError>)
      requires Valid()
      modifies this`disk, this`pending, this`trace
      ensures Valid() && Content() == old(Content())
      ensures r == ReadOutcome(Content(), offset, n)
      ensures Grew(old(trace), trace, Held(), Held())
    {
      if n == 0 {
        return Ok([]);
      }
      var len := LogicalLen();
      if offset + n > len {
        return Err(UnexpectedEof);
      }
      r := ReadInside(offset, n, Content());
    }

    /** A read that does not go past the end of the array, `a`. */
    method ReadInside(offset: nat, n: nat, ghost a: Bytes) returns (r: Result<Bytes, IoError>)
      requires Valid() && disk.Full? && a == Content() && offset + n <= |a|
      modifies this`disk, this`pending, this`trace
      ensures Valid() && disk.Full? && Grew(old(trace), trace, parts, parts)
      ensures r == Ok(a[offset..offset + n])
    {
      var out := ReadFirst(offset, n, a);
      if |out| == n {
        return Ok(out);
      }
      r := ReadPages(offset, n, out, a);
    }

    /** The first part of a read: what falls on the header page. */
    method ReadFirst(offset: nat, n: nat, ghost a: Bytes) returns (out: Bytes)
      requires Valid() && disk.Full? && a == Content() && offset + n <= |a|
      ensures |out| == HeaderTake(offset, n) && out == a[offset..offset + |out|]
    {
      FlatStarts(parts);
      out := ReadHeader(header.bytes.Flat(), a, offset, HeaderTake(offset, n));
    }

    /** The rest of a read, from pages: one staged page from memory, otherwise from the file. */
    method ReadPages(offset: nat, n: nat, out: Bytes, ghost a: Bytes) returns (r: Result<Bytes, IoError>)
      requires Valid() && disk.Full? && a == Content()
      requires |out| < n && LOGICAL_HEADER <= offset + |out| && offset + n <= |a| && out == a[offset..offset + |out|]
      modifies this`disk, this`pending, this`trace
      ensures Valid() && disk.Full? && Grew(old(trace), trace, parts, parts)
      ensures r == Ok(a[offset..offset + n])
    {
      var inMemory := DrainAmong(BlockOf(offset + |out|), BlockOf(offset + n - 1));
      if inMemory {
        r := ReadPending(offset, n, out, a);
      } else {
        r := ReadDrained(offset, n, out, a);
      }
    }

    /** A single staged block is left in memory; if one of several is staged, all are drained. */
    method DrainAmong(first: nat, last: nat) returns (inMemory: bool)
      requires Valid() && disk.Full?
      modifies this`disk, this`pending, this`trace
      ensures Valid() && disk.Full? && Grew(old(trace), trace, parts, parts)
      ensures if inMemory then first == last && first in pending else forall b :: first <= b <= last ==> b !in pending
    {
      if parallelSeal && |pending| > 0 {
        if first == last {
          return first in pending;
        }
        if exists b | first <= b <= last :: b in pending {
          Drain();
        }
      }
      inMemory := false;
    }

    /** The rest of a read, all of it in one staged page. */
    method ReadPending(offset: nat, n: nat, out: Bytes, ghost a: Bytes) returns (r: Result<Bytes, IoError>)
      requires Valid() && disk.Full? && a == Content()
      requires |out| < n && LOGICAL_HEADER <= offset + |out| && offset + n <= |a| && out == a[offset..offset + |out|]
      requires BlockOf(offset + |out|) == BlockOf(offset + n - 1) && BlockOf(offset + |out|) in pending
      ensures r == Ok(a[offset..offset + n])
    {
      ContentPages(parts.header, parts.pages);
      r := ReadStaged(pending[BlockOf(offset + |out|)].data, a, offset, n, out);
    }

    /** The rest of a read, none of whose pages is staged. */
    method ReadDrained(offset: nat, n: nat, out: Bytes, ghost a: Bytes) returns (r: Result<Bytes, IoError>)
      requires Valid() && disk.Full? && a == Content()
      requires |out| < n && LOGICAL_HEADER <= offset + |out| && offset + n <= |a| && out == a[offset..offset + |out|]
      requires forall b :: BlockOf(offset + |out|) <= b <= BlockOf(offset + n - 1) ==> b !in pending
      ensures r == Ok(a[offset..offset + n])
    {
      Readable(disk.blocks, pending, parts.header, BlockOf(offset + |out|), BlockOf(offset + n - 1));
      r := ReadBlocks(disk.blocks, a, offset, n, out);
    }

    /** The part of a write that falls on the header page; the pages before it are in the file first. */
    method WriteHeaderPart(offset: nat, data: Bytes) returns (r: Result<(), IoError>)
      requires Valid() && disk.Full? && header.stamp + 1 < U64
      modifies this`disk, this`header, this`pending, this`parts, this`trace
      ensures Valid() && disk.Full?
      ensures r == if Fits(offset, data) then Ok(()) else Err(UnusedHeader)
      ensures parts == if r.Ok? then old(parts).(header := Patched(old(parts).header, offset, data)) else old(parts)
      ensures header.stamp <= old(header.stamp) + 1
      ensures Grew(old(trace), trace, old(parts), old(parts))
    {
      Drain();
      ghost var so := trace;
      r := WriteHeaderRange(offset, data);
      GrewTwice(old(trace), so, trace, old(parts), old(parts));
    }

    /** The part of a write that is whole pages. */
    method WriteRest(offset: nat, data: Bytes) returns (r: Result<(), IoError>)
      requires Valid() && disk.Full?
      requires data != [] ==> LOGICAL_HEADER <= offset && offset + |data| <= LOGICAL_HEADER + |parts.pages| * PAGE
      modifies this`disk, this`pending, this`parts, this`trace
      ensures Valid() && disk.Full? && Grew(old(trace), trace, parts, parts)
      ensures r == PutWhole(old(parts), offset, data).0 && parts == PutWhole(old(parts), offset, data).1
    {
      if data == [] {
        return Ok(());
      }
      if Within(offset) != 0 || |data| % PAGE != 0 {
        return Err(Misaligned);
      }
      FitsPages(offset, data, |parts.pages|);
      var first := BlockOf(offset);
      if parallelSeal {
        StagePages(first, data);
      } else {
        PutView(disk.blocks, first, data);
        PutSeals(parts.pages, first, data);
        parts := parts.(pages := Plain.PutPages(parts.pages, first, data));
        WriteBlocks(first, data, trace);
      }
      r := Ok(());
    }

    method WriteFromHeader(offset: nat, head: Bytes, at: nat, rest: Bytes) returns (r: Result<(), IoError>)
      requires Valid() && disk.Full? && header.stamp + 1 < U64
      requires rest != [] ==> LOGICAL_HEADER <= at && at + |rest| <= LOGICAL_HEADER + |parts.pages| * PAGE
      modifies this`disk, this`header, this`pending, this`parts, this`trace
      ensures Valid() && disk.Full?
      ensures r == PutFromHeader(old(parts), offset, head, at, rest).0
              && parts == PutFromHeader(old(parts), offset, head, at, rest).1
      ensures header.stamp <= old(header.stamp) + 1
      ensures Grew(old(trace), trace, old(parts), parts)
    {
      r := WriteHeaderPart(offset, head);
      ghost var so := trace;
      if r.Ok? {
        r := WriteRest(at, rest);
      }
      GrewTwice(old(trace), so, trace, old(parts), parts);
    }

    /** A write does what it does to the plain array, and is refused exactly where the layer must refuse it. */
    method Write(offset: nat, data: Bytes) returns (r: Result<(), IoError>)
      requires Valid() && header.stamp + 1 < U64
      modifies this`disk, this`header, this`pending, this`parts, this`trace
      ensures Valid()
      ensures r == WriteOutcome(old(Content()), offset, data).0
              && Content() == WriteOutcome(old(Content()), offset, data).1
      ensures header.stamp <= old(header.stamp) + 1
      ensures Grew(old(trace), trace, old(Held()), Held())
    {
      if data == [] {
        return Ok(());
      }
      var len := LogicalLen();
      if offset + |data| > len {
        return Err(PastEnd);
      }
      if LOGICAL_HEADER <= offset {
        PutWholeIsPlain(parts, offset, data);
        r := WriteRest(offset, data);
      } else {
        r := WriteAtHeader(offset, data);
      }
    }

    method WriteAtHeader(offset: nat, data: Bytes) returns (r: Result<(), IoError>)
      requires Valid() && disk.Full? && header.stamp + 1 < U64
      requires data != [] && offset < LOGICAL_HEADER && offset + |data| <= |Content()|
      modifies this`disk, this`header, this`pending, this`parts, this`trace
      ensures Valid() && disk.Full?
      ensures r == WriteOutcome(old(Content()), offset, data).0
              && Content() == WriteOutcome(old(Content()), offset, data).1
      ensures header.stamp <= old(header.stamp) + 1
      ensures Grew(old(trace), trace, old(parts), parts)
    {
      var done := HeaderPart(offset, data);
      PutFromHeaderIsPlain(parts, offset, data, done);
      r := WriteFromHeader(offset, data[..done], offset + done, data[done..]);
    }

    /**
     Any calls in any order, staging on or off: every answer is the plain array's, and so is what is
     left. Every write to the file was due when it was made, and was made during the call `ends` puts it
     in, when the plain array was as that call found it or as it leaves it. The file stays far from 2^64
     header writes.
     */
    method Run(calls: seq<Call>) returns (answers: seq<Result<Bytes, IoError>>, ghost ends: seq<nat>)
      requires Valid() && header.stamp + |calls| < U64
      modifies this
      ensures Valid()
      ensures answers == PlainRun(old(Content()), calls, geo).0 && Content() == PlainRun(old(Content()), calls, geo).1
      ensures old(trace) <= trace && |ends| == |calls| + 1 && ends[0] == |old(trace)|
      ensures Told(trace, ends, old(Content()), calls, geo)
    {
      ghost var a, before := Content(), trace;
      answers, ends := [], [|trace|];
      for i := 0 to |calls|
        invariant Valid() && header.stamp <= old(header.stamp) + i
        invariant before <= trace && Going(trace, ends, a, calls, i, answers, Content(), geo) && ends[0] == |before|
      {
        var answer := Turn(calls, i, answers, a, ends);
        answers, ends := answers + [answer], ends + [|trace|];
      }
      assert calls[..|calls|] == calls;
    }

    /** One call of a run. */
    method Turn(calls: seq<Call>, i: nat, ghost answers: seq<Result<Bytes, IoError>>, ghost a: Bytes,
                ghost ends: seq<nat>)
      returns (answer: Result<Bytes, IoError>)
      requires Valid() && header.stamp + 1 < U64 && i < |calls|
      requires Going(trace, ends, a, calls, i, answers, Content(), geo)
      modifies this
      ensures Valid() && header.stamp <= old(header.stamp) + 1 && old(trace) <= trace
      ensures Going(trace, ends + [|trace|], a, calls, i + 1, answers + [answer], Content(), geo)
    {
      ghost var so, x, was := trace, Held(), Content();
      HeldStands();
      answer := Answer(calls[i]);
      HeldStands();
      GoingOn(so, trace, ends, x, Held(), a, calls, i, answers, was, geo);
    }

    lemma HeldStands()
      requires Core()
      ensures Stands(Held(), Content())
    {
    }

    method Answer(call: Call) returns (answer: Result<Bytes, IoError>)
      requires Valid() && header.stamp + 1 < U64
      modifies this
      ensures Valid() && header.stamp <= old(header.stamp) + 1
      ensures answer == PlainAnswer(old(Content()), call, geo).0
              && Content() == PlainAnswer(old(Content()), call, geo).1
      ensures Grew(old(trace), trace, old(Held()), Held())
    {
      match call
      case ReadAt(offset, n) =>
        answer := Read(offset, n);
      case WriteAt(offset, data) =>
        var r := Write(offset, data);
        answer := Done(r);
      case NewLen(len) =>
        var r := SetLen(len);
        answer := Done(r);
      case Sync =>
        SyncData();
        answer := Ok([]);
    }

    /** Closing drains what is staged, then closes the file. */
    method Close()
      requires Valid()
      modifies this`disk, this`pending, this`trace
      ensures Valid() && OnDisk(disk, geo) == Content() == old(Content())
    {
      Drain();
    }
  }

  // ---- the trace of a run ----

  /** What the layer holds stands for the array; an empty array is a file without header area. */
  ghost predicate Stands(x: Logical, a: Bytes) {
    x.Sized() && (if a == [] then x == FRESH else x.Flat() == a)
  }

  /** At this write, made during call `n`, the array was as that call found it, or as it leaves it. */
  ghost predicate ToldBy(m: Moment, a: Bytes, calls: seq<Call>, n: nat, geo: Geometry)
    requires n < |calls|
  {
    || Stands(StateOf(m), PlainRun(a, calls[..n], geo).1)
    || Stands(StateOf(m), PlainRun(a, calls[..n + 1], geo).1)
  }

  /** Call `n` made the writes from `ends[n]` to `ends[n + 1]`. */
  ghost predicate ToldIn(trace: seq<Moment>, ends: seq<nat>, a: Bytes, calls: seq<Call>, n: nat, geo: Geometry)
    requires n + 1 < |ends| <= |calls| + 1
  {
    && ends[n] <= ends[n + 1] <= |trace|
    && (forall k :: ends[n] <= k < ends[n + 1] ==> ToldBy(trace[k], a, calls, n, geo))
  }

  ghost predicate Told(trace: seq<Moment>, ends: seq<nat>, a: Bytes, calls: seq<Call>, geo: Geometry) {
    && 0 < |ends| <= |calls| + 1 && ends[|ends| - 1] == |trace|
    && (forall n :: 0 <= n < |ends| - 1 ==> ToldIn(trace, ends, a, calls, n, geo))
  }

  lemma TellMore(trace: seq<Moment>, more: seq<Moment>, ends: seq<nat>, x: Logical, y: Logical, a: Bytes,
                 calls: seq<Call>, i: nat, geo: Geometry)
    requires Told(trace, ends, a, calls, geo) && |ends| == i + 1 <= |calls| && Grew(trace, more, x, y)
    requires Stands(x, PlainRun(a, calls[..i], geo).1) && Stands(y, PlainRun(a, calls[..i + 1], geo).1)
    ensures Told(more, ends + [|more|], a, calls, geo)
  {
    var next := ends + [|more|];
    forall n | 0 <= n < |next| - 1 ensures ToldIn(more, next, a, calls, n, geo) {
      if n < i {
        assert ToldIn(trace, ends, a, calls, n, geo);
        assert forall k :: 0 <= k < |trace| ==> more[k] == trace[k];
      } else {
        forall k | next[n] <= k < next[n + 1] ensures ToldBy(more[k], a, calls, n, geo) {
          assert Among(more[k], x, y);
        }
      }
    }
  }

  /** The first `i` calls are answered, and their writes are told. */
  ghost predicate Going(trace: seq<Moment>, ends: seq<nat>, a: Bytes, calls: seq<Call>, i: nat,
                        answers: seq<Result<Bytes, IoError>>, content: Bytes, geo: Geometry)
  {
    && i <= |calls| && |ends| == i + 1 && Told(trace, ends, a, calls, geo)
    && answers == PlainRun(a, calls[..i], geo).0 && content == PlainRun(a, calls[..i], geo).1
  }

  lemma GoingOn(trace: seq<Moment>, more: seq<Moment>, ends: seq<nat>, x: Logical, y: Logical, a: Bytes,
                calls: seq<Call>, i: nat, answers: seq<Result<Bytes, IoError>>, content: Bytes, geo: Geometry)
    requires Going(trace, ends, a, calls, i, answers, content, geo) && i < |calls| && Grew(trace, more, x, y)
    requires Stands(x, content) && Stands(y, PlainAnswer(content, calls[i], geo).1)
    ensures var (answer, next) := PlainAnswer(content, calls[i], geo);
            Going(more, ends + [|more|], a, calls, i + 1, answers + [answer], next, geo)
  {
    PlainRunStep(a, calls, i, geo);
    TellMore(trace, more, ends, x, y, a, calls, i, geo);
  }

  const BLANK: seq<Cell> := [Blank, Blank, Blank, Blank]

  lemma NothingOpens()
    ensures Agrees(EMPTY_HEADER, BLANK) && Agrees(EMPTY_HEADER, NOISE)
  {
  }

  /** Once nothing is staged, the file holds every page. */
  lemma DrainedShows(blocks: seq<Cell>, pages: seq<Bytes>)
    requires AllSealed(blocks) && pages == View(blocks, map[])
    ensures Shown(blocks, pages)
  {
  }

  /** Staged pages are pages of the array. */
  ghost predicate Staged(pending: map<nat, SharedPage>, pages: seq<Bytes>) {
    forall b :: b in pending ==> b < |pages| && pages[b] == pending[b].data
  }

  lemma ViewStaged(blocks: seq<Cell>, pending: map<nat, SharedPage>)
    requires AllSealed(blocks) && Holds(pending, blocks)
    ensures Staged(pending, View(blocks, pending))
  {
  }

  lemma RunSeals(batch: seq<(nat, SharedPage)>, sealed: seq<Cell>, pending: map<nat, SharedPage>, pages: seq<Bytes>,
                 i: nat, j: nat)
    requires i < j <= |batch| && SealsOf(batch, sealed) && Lists(batch, pending) && Staged(pending, pages)
    requires forall k :: i <= k < j ==> batch[k].0 == batch[i].0 + (k - i)
    ensures Seals(sealed[i..j], batch[i].0, pages)
  {
    var run := sealed[i..j];
    forall k | 0 <= k < |run| ensures run[k] == SealBlock(batch[i].0 + k, PageAt(pages, batch[i].0 + k)) {
      assert run[k] == sealed[i + k] && batch[i + k].0 == batch[i].0 + k;
    }
  }

  lemma ZeroSeals(at: nat, stop: nat, pages: seq<Bytes>)
    requires |pages| <= at <= stop
    ensures Seals(SealPages(at, Zeros((stop - at) * PAGE)), at, pages)
  {
    var zeros := Zeros((stop - at) * PAGE);
    var cells := SealPages(at, zeros);
    forall i | 0 <= i < |cells| ensures cells[i] == SealBlock(at + i, PageAt(pages, at + i)) {
      assert zeros[i * PAGE..(i + 1) * PAGE] == Zeros(PAGE);
    }
  }

  lemma PutSeals(pages: seq<Bytes>, first: nat, data: Bytes)
    requires |data| % PAGE == 0 && first + |data| / PAGE <= |pages|
    ensures Seals(SealPages(first, data), first, Plain.PutPages(pages, first, data))
  {
  }

  /** `page` is page `i` of the array. */
  ghost predicate PageIs(a: Bytes, i: nat, page: Bytes) {
    |page| == PAGE && LOGICAL_HEADER + (i + 1) * PAGE <= |a|
      && a[LOGICAL_HEADER + i * PAGE..LOGICAL_HEADER + (i + 1) * PAGE] == page
  }

  lemma ContentPages(header: Bytes, pages: seq<Bytes>)
    requires |header| == REDB_HEADER_LEN && Plain.WholePages(pages)
    ensures forall i :: 0 <= i < |pages| ==> PageIs(Plain.Flat(header, pages), i, pages[i])
  {
    forall i | 0 <= i < |pages| ensures PageIs(Plain.Flat(header, pages), i, pages[i]) {
      Plain.PageSlice(header, pages, i, 0, PAGE);
      assert pages[i][0..PAGE] == pages[i];
    }
  }

  /** Where a read stands after it took what one page has for it. */
  lemma NextTake(p: nat, end: nat)
    requires LOGICAL_HEADER <= p < end
    ensures var k, i := Take(p, end - p), BlockOf(p);
            && 0 < k && p + k <= end && Within(p) + k <= PAGE && p == LOGICAL_HEADER + i * PAGE + Within(p)
            && i <= BlockOf(end - 1)
            && (i == BlockOf(end - 1) ==> p + k == end)
            && (p + k < end ==> BlockOf(p + k) == i + 1 && Within(p + k) == 0)
  {
  }

  lemma SliceSlice(a: Bytes, i: nat, j: nat, w: nat, k: nat)
    requires i + w + k <= j <= |a|
    ensures a[i..j][w..w + k] == a[i + w..i + w + k]
  {
    var whole := a[i..j];
    var l, r := whole[w..w + k], a[i + w..i + w + k];
    forall x | 0 <= x < k ensures l[x] == r[x] {
      assert l[x] == whole[w + x];
    }
  }

  lemma SliceOf(a: Bytes, i: nat, page: Bytes, offset: nat, p: nat, k: nat)
    requires PageIs(a, i, page) && LOGICAL_HEADER <= p && offset <= p && i == BlockOf(p) && Within(p) + k <= PAGE
    ensures p + k <= |a|
    ensures a[offset..p] + page[Within(p)..Within(p) + k] == a[offset..p + k]
  {
    var start, w := LOGICAL_HEADER + i * PAGE, Within(p);
    assert p == start + w && start + PAGE == LOGICAL_HEADER + (i + 1) * PAGE;
    SliceSlice(a, start, start + PAGE, w, k);
    assert a[offset..p] + a[p..p + k] == a[offset..p + k];
  }

  /** The file has page `i` as the array has it. */
  ghost predicate InFile(a: Bytes, blocks: seq<Cell>, i: nat) {
    i < |blocks| && blocks[i].Sealed? && PageIs(a, i, blocks[i].plain)
  }

  lemma Readable(blocks: seq<Cell>, pending: map<nat, SharedPage>, header: Bytes, first: nat, last: nat)
    requires |header| == REDB_HEADER_LEN && AllSealed(blocks) && Holds(pending, blocks) && last < |blocks|
    requires forall b :: first <= b <= last ==> b !in pending
    ensures forall i :: first <= i <= last ==> InFile(Plain.Flat(header, View(blocks, pending)), blocks, i)
  {
    ContentPages(header, View(blocks, pending));
  }

  /** How much of a read falls on the header page. */
  function HeaderTake(offset: nat, n: nat): (k: nat)
    ensures k <= n && (k > 0 ==> offset + k <= LOGICAL_HEADER) && (k < n ==> LOGICAL_HEADER <= offset + k)
  {
    if offset < LOGICAL_HEADER then Min(LOGICAL_HEADER - offset, n) else 0
  }

  /** The array starts with redb's header bytes; the rest of the header page is zeros. */
  ghost predicate StartsWith(a: Bytes, header: Bytes) {
    && |header| == REDB_HEADER_LEN && LOGICAL_HEADER <= |a|
    && forall p :: 0 <= p < LOGICAL_HEADER ==> a[p] == if p < REDB_HEADER_LEN then header[p] else 0
  }

  lemma FlatStarts(l: Logical)
    requires l.Sized()
    ensures StartsWith(l.Flat(), l.header)
  {
  }

  /** The part of a read that falls on the header page. */
  method ReadHeader(header: Bytes, ghost a: Bytes, offset: nat, n: nat) returns (out: Bytes)
    requires StartsWith(a, header) && offset + n <= |a| && (n > 0 ==> offset + n <= LOGICAL_HEADER)
    ensures out == a[offset..offset + n]
  {
    out := [];
    for i := 0 to n
      invariant |out| == i
      invariant forall k :: 0 <= k < i ==> out[k] == a[offset + k]
    {
      var p := offset + i;
      out := out + [if p < REDB_HEADER_LEN then header[p] else 0];
    }
  }

  /** Finish a read that ends in one staged page. */
  method ReadStaged(page: Bytes, ghost a: Bytes, offset: nat, n: nat, out: Bytes) returns (r: Result<Bytes, IoError>)
    requires |out| < n && LOGICAL_HEADER <= offset + |out| && offset + n <= |a|
    requires out == a[offset..offset + |out|]
    requires PageIs(a, BlockOf(offset + |out|), page) && BlockOf(offset + |out|) == BlockOf(offset + n - 1)
    ensures r == Ok(a[offset..offset + n])
  {
    NextTake(offset + |out|, offset + n);
    var within := Within(offset + |out|);
    var k := Min(PAGE - within, n - |out|);
    SliceOf(a, BlockOf(offset + |out|), page, offset, offset + |out|, k);
    r := Ok(out + page[within..within + k]);
  }

  /** Read on out of the file, block by block. */
  method ReadBlocks(blocks: seq<Cell>, ghost a: Bytes, offset: nat, n: nat, start: Bytes)
    returns (r: Result<Bytes, IoError>)
    requires AllSealed(blocks) && |start| < n && LOGICAL_HEADER <= offset + |start| && offset + n <= |a|
    requires start == a[offset..offset + |start|]
    requires forall i :: BlockOf(offset + |start|) <= i <= BlockOf(offset + n - 1) ==> InFile(a, blocks, i)
    ensures r == Ok(a[offset..offset + n])
  {
    var out := start;
    var index, within := BlockOf(offset + |out|), Within(offset + |out|);
    while |out| < n
      invariant |start| <= |out| <= n && out == a[offset..offset + |out|]
      invariant BlockOf(offset + |start|) <= index
      invariant |out| < n ==> index == BlockOf(offset + |out|) && within == Within(offset + |out|)
      decreases n - |out|
    {
      NextTake(offset + |out|, offset + n);
      assert InFile(a, blocks, index);
      var plain := Open(blocks[index], BlockAad(index));
      if plain.None? {
        return Err(Tampered);
      }
      var k := Min(PAGE - within, n - |out|);
      SliceOf(a, index, plain.value, offset, offset + |out|, k);
      out := out + plain.value[within..within + k];
      index := index + 1;
      within := 0;
    }
    r := Ok(out);
  }
}
