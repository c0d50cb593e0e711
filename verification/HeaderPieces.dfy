/**
 redb's 320 header bytes as four sealed pieces: two alternating copies of bytes 0..64, and one
 piece for each commit slot (src/encrypted_store/backend.rs:432-551).
 */
module HeaderPieces {
  import opened Prelude
  import opened Layout
  import opened Cells

  /** The header bytes, cut where the pieces are: 0..64, 64..192 and 192..320. */
  datatype Regions = Regions(head: Bytes, slotA: Bytes, slotB: Bytes) {
    ghost predicate Sized() {
      |head| == 64 && |slotA| == 128 && |slotB| == 128
    }

    function Flat(): Bytes {
      head + slotA + slotB
    }
  }

  function Split(b: Bytes): (r: Regions)
    requires |b| == REDB_HEADER_LEN
    ensures r.Sized() && r.Flat() == b
  {
    Regions(b[0..64], b[64..192], b[192..320])
  }

  /** The header as the layer last saw it; `stamp` counts the writes of bytes 0..64. */
  datatype Header = Header(bytes: Regions, stamp: nat, newest: nat)

  datatype PieceWrite = PieceWrite(copy: nat, cell: Cell)

  const EMPTY_HEADER: Header := Header(Regions(Zeros(64), Zeros(128), Zeros(128)), 0, 0)

  ghost predicate WellFormed(h: Header) {
    h.bytes.Sized() && h.stamp < U64 && h.newest < 2
  }

  /** Every cell that was sealed at all holds a whole piece. */
  ghost predicate Pieces(pieces: seq<Cell>) {
    |pieces| == 4 && forall c :: 0 <= c < 4 ==> pieces[c].Sealed? ==> |pieces[c].plain| >= 128
  }

  // ---- writing ----

  function Pad(b: Bytes, len: nat): Bytes {
    if |b| < len then b + Zeros(len - |b|) else b[..len]
  }

  function SealHead(h: Header, plainLen: nat): Cell {
    Sealed(PieceAad(0), Pad(Le64(h.stamp) + h.bytes.head, plainLen))
  }

  function SealSlot(piece: nat, bytes: Bytes, plainLen: nat): Cell
    requires piece < 256
  {
    Sealed(PieceAad(piece), Pad(bytes, plainLen))
  }

  /** The header once `after` is in place: a new stamp and the other copy if bytes 0..64 changed. */
  function Advanced(h: Header, after: Regions): Header
    requires h.newest < 2
  {
    if h.bytes.head != after.head then Header(after, h.stamp + 1, 1 - h.newest) else h.(bytes := after)
  }

  function One(b: bool, w: PieceWrite): seq<PieceWrite> {
    if b then [w] else []
  }

  /** The piece writes of one header write, in file order: commit slots first, bytes 0..64 last. */
  function PieceWrites(h: Header, after: Regions, plainLen: nat): seq<PieceWrite>
    requires h.newest < 2
  {
    One(h.bytes.slotA != after.slotA, PieceWrite(2, SealSlot(1, after.slotA, plainLen))) +
    One(h.bytes.slotB != after.slotB, PieceWrite(3, SealSlot(2, after.slotB, plainLen))) +
    One(h.bytes.head != after.head, PieceWrite(1 - h.newest, SealHead(Advanced(h, after), plainLen)))
  }

  function Apply(pieces: seq<Cell>, ws: seq<PieceWrite>): (r: seq<Cell>)
    ensures |r| == |pieces|
  {
    if ws == [] then pieces
    else
      var p := Apply(pieces, ws[..|ws| - 1]);
      var w := ws[|ws| - 1];
      if w.copy < |p| then p[w.copy := w.cell] else p
  }

  // ---- loading ----

  function ReadPiece(pieces: seq<Cell>, copy: nat, piece: nat): Option<Bytes>
    requires copy < |pieces| && piece < 3
  {
    Open(pieces[copy], PieceAad(piece))
  }

  function StampOf(plain: Bytes): nat
    requires |plain| >= 8
  {
    FromLittleEndian(plain[..8])
  }

  /** Which copy of bytes 0..64 is the newest one that opens, if any does. */
  function NewestCopy(pieces: seq<Cell>): (r: Option<nat>)
    requires Pieces(pieces)
    ensures r.Some? ==> r.value < 2 && ReadPiece(pieces, r.value, 0).Some?
    ensures r.None? ==> ReadPiece(pieces, 0, 0).None? && ReadPiece(pieces, 1, 0).None?
    ensures forall c :: 0 <= c < 2 && ReadPiece(pieces, c, 0).Some? ==>
                          && r.Some?
                          && StampOf(ReadPiece(pieces, c, 0).value) <= StampOf(ReadPiece(pieces, r.value, 0).value)
  {
    var (a, b) := (ReadPiece(pieces, 0, 0), ReadPiece(pieces, 1, 0));
    if a.None? then (if b.None? then None else Some(1))
    else if b.Some? && StampOf(b.value) > StampOf(a.value) then Some(1)
    else Some(0)
  }

  function LoadSlot(cell: Cell, piece: nat): (r: Bytes)
    requires piece < 3 && (cell.Sealed? ==> |cell.plain| >= 128)
    ensures |r| == 128
  {
    var p := Open(cell, PieceAad(piece));
    if p.Some? then p.value[..128] else Zeros(128)
  }

  /** What opening the file makes of its pieces: a piece that does not open reads as zeros. */
  function LoadHeader(pieces: seq<Cell>): (h: Header)
    requires Pieces(pieces)
    ensures h.bytes.Sized() && h.newest < 2
  {
    var (a, b) := (LoadSlot(pieces[2], 1), LoadSlot(pieces[3], 2));
    match NewestCopy(pieces)
    case None => Header(Regions(Zeros(64), a, b), 0, 0)
    case Some(copy) =>
      var p := ReadPiece(pieces, copy, 0).value;
      Header(Regions(p[8..72], a, b), StampOf(p), copy)
  }

  /** Memory and file agree: opening the file now gives exactly this header. */
  ghost predicate Agrees(h: Header, pieces: seq<Cell>) {
    WellFormed(h) && Pieces(pieces) && LoadHeader(pieces) == h
  }

  // ---- crashes ----

  /** The pieces after a stop: the first `done` writes are whole; the next one may be torn. */
  function Cut(pieces: seq<Cell>, ws: seq<PieceWrite>, done: nat, torn: bool): seq<Cell>
    requires done <= |ws|
  {
    var p := Apply(pieces, ws[..done]);
    if torn && done < |ws| && ws[done].copy < |p| then p[ws[done].copy := Noise] else p
  }

  datatype Fate = Before | After | Torn

  /** What became of a region whose write, if it changed at all, was number `at`. */
  function FateOf(changed: bool, at: nat, done: nat, torn: bool): Fate {
    if !changed then Before
    else if at < done then After
    else if at == done && torn then Torn
    else Before
  }

  function Choose(f: Fate, before: Bytes, after: Bytes, torn: Bytes): Bytes {
    match f case Before => before case After => after case Torn => torn
  }

  function CellOf(f: Fate, before: Cell, after: Cell): Cell {
    match f case Before => before case After => after case Torn => Noise
  }

  function Count(b: bool): nat {
    if b then 1 else 0
  }

  /** How many piece writes changing `before` into `after` takes. */
  function WriteCount(before: Regions, after: Regions): nat {
    Count(before.slotA != after.slotA) + Count(before.slotB != after.slotB) + Count(before.head != after.head)
  }

  /**
   The header bytes a stop leaves: the writes go slot A, slot B, bytes 0..64; a region whose write
   was not reached keeps its old value, torn bytes 0..64 too, and a torn slot is gone.
   */
  function Survives(before: Regions, after: Regions, done: nat, torn: bool): Regions {
    var (a, b) := (before.slotA != after.slotA, before.slotB != after.slotB);
    Regions(Choose(FateOf(before.head != after.head, Count(a) + Count(b), done, torn), before.head, after.head,
      before.head),
            Choose(FateOf(a, 0, done, torn), before.slotA, after.slotA, Zeros(128)),
            Choose(FateOf(b, Count(a), done, torn), before.slotB, after.slotB, Zeros(128)))
  }

  ghost predicate Distinct(ws: seq<PieceWrite>) {
    forall i, j :: 0 <= i < j < |ws| ==> ws[i].copy != ws[j].copy
  }

  lemma {:induction false} ApplyAt(pieces: seq<Cell>, ws: seq<PieceWrite>, c: nat)
    requires c < |pieces| && Distinct(ws)
    ensures forall i :: 0 <= i < |ws| && ws[i].copy == c ==> Apply(pieces, ws)[c] == ws[i].cell
    ensures (forall i :: 0 <= i < |ws| ==> ws[i].copy != c) ==> Apply(pieces, ws)[c] == pieces[c]
  {
    if ws != [] {
      var rest := ws[..|ws| - 1];
      ApplyAt(pieces, rest, c);
      assert forall i :: 0 <= i < |rest| ==> rest[i] == ws[i];
    }
  }

  /** The cell a stop leaves at a place that write number `at` goes to (`changed`), or no write does. */
  lemma CutAt(pieces: seq<Cell>, ws: seq<PieceWrite>, done: nat, torn: bool, c: nat, changed: bool, at: nat,
              after: Cell)
    requires c < |pieces| && Distinct(ws) && done <= |ws|
    requires if changed then at < |ws| && ws[at] == PieceWrite(c, after)
             else forall i :: 0 <= i < |ws| ==> ws[i].copy != c
    ensures Cut(pieces, ws, done, torn)[c] == CellOf(FateOf(changed, at, done, torn), pieces[c], after)
  {
    var whole := ws[..done];
    assert forall i :: 0 <= i < done ==> whole[i] == ws[i];
    ApplyAt(pieces, whole, c);
  }

  lemma CutWhole(pieces: seq<Cell>, ws: seq<PieceWrite>)
    ensures Cut(pieces, ws, |ws|, false) == Apply(pieces, ws)
  {
    assert ws[..|ws|] == ws;
  }

  /** A header write goes to each place whose region it changes, once, and never to the newest copy. */
  lemma WritesShape(h: Header, after: Regions, plainLen: nat)
    requires h.newest < 2
    ensures var ws := PieceWrites(h, after, plainLen);
            var (a, b) := (h.bytes.slotA != after.slotA, h.bytes.slotB != after.slotB);
            && |ws| == WriteCount(h.bytes, after)
            && Distinct(ws)
            && (forall i :: 0 <= i < |ws| ==> ws[i].copy != h.newest && ws[i].copy < 4)
            && (if a then ws[0] == PieceWrite(2, SealSlot(1, after.slotA, plainLen))
              else forall i :: 0 <= i < |ws| ==> ws[i].copy != 2)
            && (if b then ws[Count(a)] == PieceWrite(3, SealSlot(2, after.slotB, plainLen))
              else forall i :: 0 <= i < |ws| ==> ws[i].copy != 3)
            && (if h.bytes.head != after.head
                then ws[Count(a) + Count(b)] == PieceWrite(1 - h.newest, SealHead(Advanced(h, after), plainLen))
                else forall i :: 0 <= i < |ws| ==> ws[i].copy != 1 - h.newest)
  {
  }

  /** What a sealed slot piece, and a sealed copy of bytes 0..64, read as. */
  lemma SlotReads(piece: nat, bytes: Bytes, plainLen: nat)
    requires piece < 3 && |bytes| == 128 && plainLen >= 128
    ensures |SealSlot(piece, bytes, plainLen).plain| >= 128
    ensures LoadSlot(SealSlot(piece, bytes, plainLen), piece) == bytes
  {
  }

  lemma HeadReads(h: Header, plainLen: nat)
    requires WellFormed(h) && plainLen >= 128
    ensures var p := SealHead(h, plainLen).plain;
            |p| >= 128 && StampOf(p) == h.stamp && p[8..72] == h.bytes.head
  {
    var p := SealHead(h, plainLen).plain;
    assert p[..8] == Le64(h.stamp);
    Le64RoundTrip(h.stamp);
  }

  /** The four cells a stop leaves. */
  ghost predicate Left(h: Header, pieces: seq<Cell>, after: Regions, plainLen: nat, done: nat, torn: bool,
                       left: seq<Cell>)
    requires h.newest < 2 && |pieces| == 4
  {
    var (a, b) := (h.bytes.slotA != after.slotA, h.bytes.slotB != after.slotB);
    && |left| == 4
    && left[2] == CellOf(FateOf(a, 0, done, torn), pieces[2], SealSlot(1, after.slotA, plainLen))
    && left[3] == CellOf(FateOf(b, Count(a), done, torn), pieces[3], SealSlot(2, after.slotB, plainLen))
    && left[1 - h.newest] == CellOf(FateOf(h.bytes.head != after.head, Count(a) + Count(b), done, torn),
                                    pieces[1 - h.newest], SealHead(Advanced(h, after), plainLen))
    && left[h.newest] == pieces[h.newest]
  }

  lemma CutCells(h: Header, pieces: seq<Cell>, after: Regions, plainLen: nat, done: nat, torn: bool)
    requires h.newest < 2 && |pieces| == 4 && done <= |PieceWrites(h, after, plainLen)|
    ensures Left(h, pieces, after, plainLen, done, torn, Cut(pieces, PieceWrites(h, after, plainLen), done, torn))
  {
    var ws := PieceWrites(h, after, plainLen);
    WritesShape(h, after, plainLen);
    var (a, b, z) := (h.bytes.slotA != after.slotA, h.bytes.slotB != after.slotB, h.bytes.head != after.head);
    CutAt(pieces, ws, done, torn, 2, a, 0, SealSlot(1, after.slotA, plainLen));
    CutAt(pieces, ws, done, torn, 3, b, Count(a), SealSlot(2, after.slotB, plainLen));
    CutAt(pieces, ws, done, torn, 1 - h.newest, z, Count(a) + Count(b), SealHead(Advanced(h, after), plainLen));
    CutAt(pieces, ws, done, torn, h.newest, false, 0, Noise);
  }

  lemma LeftPieces(h: Header, pieces: seq<Cell>, after: Regions, plainLen: nat, done: nat, torn: bool, left: seq<Cell>)
    requires WellFormed(h) && Pieces(pieces) && after.Sized() && plainLen >= 128 && h.stamp + 1 < U64
    requires Left(h, pieces, after, plainLen, done, torn, left)
    ensures Pieces(left)
  {
    SlotReads(1, after.slotA, plainLen);
    SlotReads(2, after.slotB, plainLen);
    HeadReads(Advanced(h, after), plainLen);
    assert h.newest == 0 || h.newest == 1;
  }

  lemma LeftSlots(h: Header, pieces: seq<Cell>, after: Regions, plainLen: nat, done: nat, torn: bool, left: seq<Cell>)
    requires Agrees(h, pieces) && Pieces(left) && after.Sized() && plainLen >= 128
    requires Left(h, pieces, after, plainLen, done, torn, left)
    ensures LoadSlot(left[2], 1) == Survives(h.bytes, after, done, torn).slotA
    ensures LoadSlot(left[3], 2) == Survives(h.bytes, after, done, torn).slotB
  {
    SlotReads(1, after.slotA, plainLen);
    SlotReads(2, after.slotB, plainLen);
  }

  /** A newer stamp in the other copy makes it the newest; nothing there that opens leaves the old one. */
  lemma OtherCopy(h: Header, pieces: seq<Cell>, left: seq<Cell>, newer: Header, plainLen: nat)
    requires Agrees(h, pieces) && Pieces(left) && plainLen >= 128
    requires WellFormed(newer) && newer.stamp == h.stamp + 1
    requires left[h.newest] == pieces[h.newest]
    ensures left[1 - h.newest] == SealHead(newer, plainLen) ==>
              LoadHeader(left).bytes.head == newer.bytes.head && LoadHeader(left).stamp == newer.stamp
                && LoadHeader(left).newest == 1 - h.newest
    ensures left[1 - h.newest] == Noise || left[1 - h.newest] == pieces[1 - h.newest] ==>
              LoadHeader(left).bytes.head == h.bytes.head && LoadHeader(left).stamp == h.stamp
                && LoadHeader(left).newest == h.newest
  {
    HeadReads(newer, plainLen);
    assert h.newest == 0 || h.newest == 1;
  }

  /** Bytes 0..64 after a stop, with the stamp and the copy they come from. */
  lemma LeftHead(h: Header, pieces: seq<Cell>, after: Regions, plainLen: nat, done: nat, torn: bool, left: seq<Cell>)
    requires Agrees(h, pieces) && Pieces(left) && after.Sized() && plainLen >= 128 && h.stamp + 1 < U64
    requires Left(h, pieces, after, plainLen, done, torn, left) && done <= WriteCount(h.bytes, after)
    ensures var loaded := LoadHeader(left);
            if h.bytes.head != after.head && done == WriteCount(h.bytes, after)
            then loaded.bytes.head == after.head && loaded.stamp == h.stamp + 1 && loaded.newest == 1 - h.newest
            else loaded.bytes.head == h.bytes.head && loaded.stamp == h.stamp && loaded.newest == h.newest
  {
    OtherCopy(h, pieces, left, Header(after, h.stamp + 1, 1 - h.newest), plainLen);
  }

  lemma LeftLoads(h: Header, pieces: seq<Cell>, after: Regions, plainLen: nat, done: nat, torn: bool, left: seq<Cell>)
    requires Agrees(h, pieces) && after.Sized() && plainLen >= 128 && h.stamp + 1 < U64
    requires Left(h, pieces, after, plainLen, done, torn, left) && done <= WriteCount(h.bytes, after)
    ensures Pieces(left)
    ensures LoadHeader(left).bytes == Survives(h.bytes, after, done, torn)
    ensures LoadHeader(left).stamp <= h.stamp + 1
    ensures done == WriteCount(h.bytes, after) ==> LoadHeader(left) == Advanced(h, after)
  {
    LeftPieces(h, pieces, after, plainLen, done, torn, left);
    LeftSlots(h, pieces, after, plainLen, done, torn, left);
    LeftHead(h, pieces, after, plainLen, done, torn, left);
  }

  /**
   A stop at any point of a header write. Opening the file afterwards gives, region by region, the
   header of the completed writes; torn bytes 0..64 read as before, a torn commit slot as zeros.
   */
  lemma CrashLoads(h: Header, pieces: seq<Cell>, after: Regions, plainLen: nat, done: nat, torn: bool)
    requires Agrees(h, pieces) && after.Sized() && plainLen >= 128 && h.stamp + 1 < U64
    requires done <= |PieceWrites(h, after, plainLen)|
    ensures var left := Cut(pieces, PieceWrites(h, after, plainLen), done, torn);
            && Pieces(left)
            && LoadHeader(left).bytes == Survives(h.bytes, after, done, torn)
            && Agrees(LoadHeader(left), left)
  {
    WritesShape(h, after, plainLen);
    CutCells(h, pieces, after, plainLen, done, torn);
    LeftLoads(h, pieces, after, plainLen, done, torn, Cut(pieces, PieceWrites(h, after, plainLen), done, torn));
  }

  /** A header write that is not cut leaves file and memory in agreement about the new header. */
  lemma WholeWriteAgrees(h: Header, pieces: seq<Cell>, after: Regions, plainLen: nat)
    requires Agrees(h, pieces) && after.Sized() && plainLen >= 128 && h.stamp + 1 < U64
    ensures Agrees(Advanced(h, after), Apply(pieces, PieceWrites(h, after, plainLen)))
  {
    var ws := PieceWrites(h, after, plainLen);
    WritesShape(h, after, plainLen);
    CutCells(h, pieces, after, plainLen, |ws|, false);
    CutWhole(pieces, ws);
    LeftLoads(h, pieces, after, plainLen, |ws|, false, Apply(pieces, ws));
  }

  // ---- whole runs ----

  /** One header write, whole, or cut by a stop after `done` piece writes and a new open. */
  datatype HeaderOp = Write(after: Regions) | Stopped(after: Regions, done: nat, torn: bool)

  datatype HeaderFile = HeaderFile(h: Header, pieces: seq<Cell>)

  ghost predicate Enabled(f: HeaderFile, op: HeaderOp) {
    && WellFormed(f.h) && Pieces(f.pieces)
    && op.after.Sized() && f.h.stamp + 1 < U64
    && (op.Stopped? ==> op.done <= WriteCount(f.h.bytes, op.after))
  }

  function Step(f: HeaderFile, op: HeaderOp, plainLen: nat): HeaderFile
    requires Enabled(f, op) && plainLen >= 128
  {
    var ws := PieceWrites(f.h, op.after, plainLen);
    if op.Write? then HeaderFile(Advanced(f.h, op.after), Apply(f.pieces, ws))
    else
      WritesShape(f.h, op.after, plainLen);
      CutCells(f.h, f.pieces, op.after, plainLen, op.done, op.torn);
      var left := Cut(f.pieces, ws, op.done, op.torn);
      LeftPieces(f.h, f.pieces, op.after, plainLen, op.done, op.torn, left);
      HeaderFile(LoadHeader(left), left)
  }

  /** The header bytes a step should leave, said without pieces, stamps or copies. */
  function Expected(before: Regions, op: HeaderOp): Regions {
    if op.Write? then op.after else Survives(before, op.after, op.done, op.torn)
  }

  ghost predicate IsRun(fs: seq<HeaderFile>, ops: seq<HeaderOp>, plainLen: nat)
    requires plainLen >= 128
  {
    && |fs| == |ops| + 1
    && fs[0] == HeaderFile(EMPTY_HEADER, [Noise, Noise, Noise, Noise])
    && forall i :: 0 <= i < |ops| ==> Enabled(fs[i], ops[i]) && fs[i + 1] == Step(fs[i], ops[i], plainLen)
  }

  lemma StepAgrees(f: HeaderFile, op: HeaderOp, plainLen: nat)
    requires Enabled(f, op) && plainLen >= 128 && Agrees(f.h, f.pieces)
    ensures var g := Step(f, op, plainLen); Agrees(g.h, g.pieces) && g.h.bytes == Expected(f.h.bytes, op)
  {
    if op.Write? {
      WholeWriteAgrees(f.h, f.pieces, op.after, plainLen);
    } else {
      WritesShape(f.h, op.after, plainLen);
      CrashLoads(f.h, f.pieces, op.after, plainLen, op.done, op.torn);
    }
  }

  /**
   In every run of header writes, stops and new opens from a fresh header area, memory and file
   agree at every point, and each step leaves exactly the expected bytes.
   */
  lemma {:induction false} HeaderRunsAgree(fs: seq<HeaderFile>, ops: seq<HeaderOp>, plainLen: nat, k: nat)
    requires plainLen >= 128 && IsRun(fs, ops, plainLen) && k <= |ops|
    ensures Agrees(fs[k].h, fs[k].pieces)
    ensures k > 0 ==> fs[k].h.bytes == Expected(fs[k - 1].h.bytes, ops[k - 1])
  {
    if k > 0 {
      HeaderRunsAgree(fs, ops, plainLen, k - 1);
      StepAgrees(fs[k - 1], ops[k - 1], plainLen);
    }
  }

  /** In every such run no piece write falls on the newest copy of bytes 0..64 that opens. */
  lemma NewestCopyIsSpared(fs: seq<HeaderFile>, ops: seq<HeaderOp>, plainLen: nat, k: nat)
    requires plainLen >= 128 && IsRun(fs, ops, plainLen) && k < |ops|
    ensures var newest := NewestCopy(fs[k].pieces);
            forall w :: w in PieceWrites(fs[k].h, ops[k].after, plainLen) && newest.Some? ==> w.copy != newest.value
  {
    HeaderRunsAgree(fs, ops, plainLen, k);
    WritesShape(fs[k].h, ops[k].after, plainLen);
  }

  // ---- the write call ----

  /** How many bytes of a write at `offset` fall on bytes redb really uses. */
  function Used(offset: nat, data: Bytes): (n: nat)
    ensures n <= |data| && (n > 0 ==> offset + n <= REDB_HEADER_LEN)
  {
    Min(|data|, if offset < REDB_HEADER_LEN then REDB_HEADER_LEN - offset else 0)
  }

  /** Nothing but zeros falls on the unused part of the header page. */
  predicate Fits(offset: nat, data: Bytes) {
    forall i :: Used(offset, data) <= i < |data| ==> data[i] == 0
  }

  function Patched(bytes: Bytes, offset: nat, data: Bytes): (r: Bytes)
    requires |bytes| == REDB_HEADER_LEN
    ensures |r| == REDB_HEADER_LEN
    ensures forall i :: 0 <= i < REDB_HEADER_LEN ==>
                          r[i] == if offset <= i < offset + |data| then data[i - offset] else bytes[i]
  {
    var n := Used(offset, data);
    if n == 0 then bytes else bytes[..offset] + data[..n] + bytes[offset + n..]
  }
}
