/**
 The file below the encrypted layer, as cells, and what the plain array answers to each call
 (src/encrypted_store/backend.rs, src/encrypted_store/layout.rs).
 */
module BlockFile {
  import opened Prelude
  import opened Layout
  import opened Cells
  import opened HeaderPieces
  import opened Growth
  import Plain = PlainArray

  const MAX_OVERHEAD: nat := 40

  datatype IoError =
    | UnexpectedEof
    | PastEnd
    | UnusedHeader
    | Misaligned
    | BadLength
    | HeaderUnreadable
    | HeaderUnknown
    | Tampered

  /** The file below: too short for the header area, or four pieces, whole blocks and a torn tail. */
  datatype Disk = Short(len: nat) | Full(pieces: seq<Cell>, blocks: seq<Cell>, tail: nat)

  /** Every block opens at its own number and holds a whole page. */
  ghost predicate AllSealed(blocks: seq<Cell>) {
    forall i :: 0 <= i < |blocks| ==> blocks[i].Sealed? && blocks[i].aad == BlockAad(i) && |blocks[i].plain| == PAGE
  }

  function FileLen(d: Disk, geo: Geometry): nat {
    if d.Short? then d.len else geo.BlockOffset(|d.blocks|) + d.tail
  }

  /** `cells` laid over `blocks` from block `first` on. */
  function Overlay(blocks: seq<Cell>, first: nat, cells: seq<Cell>): (r: seq<Cell>)
    requires first <= |blocks|
    ensures |r| == if first + |cells| > |blocks| then first + |cells| else |blocks|
    ensures forall b :: 0 <= b < |r| ==> r[b] == if first <= b < first + |cells| then cells[b - first] else blocks[b]
  {
    var end := first + |cells|;
    blocks[..first] + cells + (if end < |blocks| then blocks[end..] else [])
  }

  /** Cells written at block `first`, which may extend the file; whole blocks end past any torn tail. */
  function PutBlocks(d: Disk, first: nat, cells: seq<Cell>): Disk
    requires d.Full? && first <= |d.blocks|
  {
    Full(d.pieces, Overlay(d.blocks, first, cells), if first + |cells| > |d.blocks| then 0 else d.tail)
  }

  /** The file cut or extended with zeros to `len` bytes. */
  function Resize(d: Disk, len: nat, geo: Geometry): Disk {
    if len < DATA_BASE then Short(len)
    else
      var n := (len - DATA_BASE) / geo.Stride();
      var blocks := if d.Short? then [] else d.blocks;
      Full(if d.Short? then [Blank, Blank, Blank, Blank] else d.pieces,
           if n <= |blocks| then blocks[..n] else blocks + seq(n - |blocks|, _ => Blank),
           (len - DATA_BASE) % geo.Stride())
  }

  const NOISE: seq<Cell> := [Noise, Noise, Noise, Noise]

  /** A file is too short for the header area exactly if it ends before the data. */
  lemma AreaIsMissing(d: Disk, geo: Geometry)
    requires d.Short? ==> d.len < DATA_BASE
    ensures FileLen(d, geo) < DATA_BASE <==> d.Short?
  {
  }

  lemma FreshArea(d: Disk, geo: Geometry)
    requires d.Short?
    ensures Resize(d, DATA_BASE, geo) == Full([Blank, Blank, Blank, Blank], [], 0)
  {
    QuotientIs(0, geo.Stride(), 0, 0);
  }

  lemma ResizeTo(d: Disk, n: nat, geo: Geometry)
    requires d.Full? && n <= |d.blocks|
    ensures Resize(d, geo.BlockOffset(n), geo) == Full(d.pieces, d.blocks[..n], 0)
  {
    QuotientIs(n * geo.Stride(), geo.Stride(), n, 0);
  }

  function SealPages(first: nat, plain: Bytes): (cells: seq<Cell>)
    requires |plain| % PAGE == 0
    ensures |cells| == |plain| / PAGE
    ensures forall i :: 0 <= i < |cells| ==> cells[i] == SealBlock(first + i, plain[i * PAGE..(i + 1) * PAGE])
  {
    seq(|plain| / PAGE, i requires 0 <= i < |plain| / PAGE => SealBlock(first + i, plain[i * PAGE..(i + 1) * PAGE]))
  }

  /** The shape redb recorded, if its header page was written at all. */
  function ShapeOf(header: Bytes): (s: Option<Shape>)
    requires |header| == REDB_HEADER_LEN
    ensures s.Some? ==> s.value.dataPages > 0
  {
    if AllZero(header) then None else RegionShapeOf(header)
  }

  /** Growing needs the region shape, unless neither header nor pages were ever written. */
  function FillOutcome(first: nat, header: Bytes): Result<(), IoError>
    requires |header| == REDB_HEADER_LEN
  {
    if !AllZero(header) && RegionShapeOf(header).None? then Err(HeaderUnknown)
    else if AllZero(header) && first > 0 then Err(HeaderUnreadable)
    else Ok(())
  }

  /** `after` is `before` and then zero pages up to `end` blocks, everything sealed. */
  ghost predicate Extended(before: seq<Cell>, after: seq<Cell>, end: nat) {
    && |after| == end && |before| <= end && AllSealed(after)
    && forall i :: 0 <= i < end ==> after[i] == if i < |before| then before[i] else SealBlock(i, Zeros(PAGE))
  }

  lemma ExtendedMore(before: seq<Cell>, after: seq<Cell>, at: nat, stop: nat)
    requires Extended(before, after, at) && at <= stop
    ensures Extended(before, Overlay(after, at, SealPages(at, Zeros((stop - at) * PAGE))), stop)
  {
    var zeros := Zeros((stop - at) * PAGE);
    var cells := SealPages(at, zeros);
    forall i | 0 <= i < stop - at ensures cells[i] == SealBlock(at + i, Zeros(PAGE)) {
      assert zeros[i * PAGE..(i + 1) * PAGE] == Zeros(PAGE);
    }
    var laid := Overlay(after, at, cells);
    forall i | 0 <= i < stop ensures laid[i] == if i < |before| then before[i] else SealBlock(i, Zeros(PAGE)) {
      if i >= at {
        assert laid[i] == cells[i - at];
      }
    }
  }

  /** One batch of a growing file: sealed throughout, of bounded size, and of a length redb accepts. */
  ghost predicate StepOk(from: Disk, to: Disk, end: nat, shape: Option<Shape>)
    requires shape.Some? ==> shape.value.dataPages > 0
  {
    && from.Full? && to.Full? && AllSealed(to.blocks) && to.tail == 0
    && (|to.blocks| == end || LengthMakesLayout(|to.blocks|, shape))
    && 0 < |to.blocks| - |from.blocks| <= FILL_BATCH + HeaderPages(shape)
  }

  function From(steps: seq<Disk>, start: Disk, i: nat): Disk
    requires i <= |steps|
  {
    if i == 0 then start else steps[i - 1]
  }

  /** The batch boundaries of a growing file. */
  ghost predicate Steps(steps: seq<Disk>, start: Disk, end: nat, shape: Option<Shape>)
    requires shape.Some? ==> shape.value.dataPages > 0
  {
    forall i :: 0 <= i < |steps| ==> StepOk(From(steps, start, i), steps[i], end, shape)
  }

  lemma StepsMore(steps: seq<Disk>, start: Disk, next: Disk, end: nat, shape: Option<Shape>)
    requires (shape.Some? ==> shape.value.dataPages > 0) && Steps(steps, start, end, shape)
    requires StepOk(From(steps, start, |steps|), next, end, shape)
    ensures Steps(steps + [next], start, end, shape)
  {
    var more := steps + [next];
    forall i | 0 <= i < |more| ensures StepOk(From(more, start, i), more[i], end, shape) {
      if i < |steps| {
        assert From(more, start, i) == From(steps, start, i) && more[i] == steps[i];
        assert StepOk(From(steps, start, i), steps[i], end, shape);
      }
    }
  }

  /** The block a position after the header page falls in. */
  function BlockOf(p: nat): nat
    requires p >= LOGICAL_HEADER
  {
    (p - LOGICAL_HEADER) / PAGE
  }

  /** How much of the page under position `p` a read of `left` more bytes takes. */
  function Take(p: nat, left: nat): nat
    requires p >= LOGICAL_HEADER
  {
    Min(PAGE - Within(p), left)
  }

  function Within(p: nat): (w: nat)
    requires p >= LOGICAL_HEADER
    ensures w < PAGE
  {
    (p - LOGICAL_HEADER) % PAGE
  }

  // ---- the plain array's answers ----

  /** redb's region shape is unknown, so a file that holds data is not grown. */
  predicate GrowthRefused(a: Bytes) {
    |a| >= LOGICAL_HEADER &&
    if AllZero(a[..REDB_HEADER_LEN]) then |a| > LOGICAL_HEADER else RegionShapeOf(a[..REDB_HEADER_LEN]).None?
  }

  predicate AllZero(b: Bytes) {
    forall i :: 0 <= i < |b| ==> b[i] == 0
  }

  function ReadOutcome(a: Bytes, offset: nat, n: nat): Result<Bytes, IoError> {
    if n == 0 then Ok([])
    else if offset + n > |a| then Err(UnexpectedEof)
    else Ok(a[offset..offset + n])
  }

  /** A write on the plain array. A header part is in place even when the rest turns out misaligned. */
  function WriteOutcome(a: Bytes, offset: nat, data: Bytes): (Result<(), IoError>, Bytes) {
    if data == [] then (Ok(()), a)
    else if offset + |data| > |a| then (Err(PastEnd), a)
    else
      var n := HeaderPart(offset, data);
      if !Fits(offset, data[..n]) then (Err(UnusedHeader), a)
      else if n < |data| && (Within(offset + n) != 0 || (|data| - n) % PAGE != 0) then
        (Err(Misaligned), Plain.Write(a, offset, data[..n]))
      else (Ok(()), Plain.Write(a, offset, data))
  }

  /** How much of a write falls on the header page. */
  function HeaderPart(offset: nat, data: Bytes): (n: nat)
    ensures n <= |data| && (n < |data| ==> LOGICAL_HEADER <= offset + n)
  {
    if offset < LOGICAL_HEADER then Min(LOGICAL_HEADER - offset, |data|) else 0
  }

  function SetLenOutcome(a: Bytes, len: nat, geo: Geometry): (Result<(), IoError>, Bytes) {
    if geo.PhysicalLen(len).None? then (Err(BadLength), a)
    else if len > |a| && GrowthRefused(a) then
      (Err(if AllZero(a[..REDB_HEADER_LEN]) then HeaderUnreadable else HeaderUnknown), a)
    else (Ok(()), Plain.SetLen(a, len))
  }

  /** The growth rule read off the array is the one the header and the block count give. */
  lemma GrowthAnswers(header: Bytes, pages: seq<Bytes>)
    requires |header| == REDB_HEADER_LEN && Plain.WholePages(pages)
    ensures var a := Plain.Flat(header, pages);
            && a[..REDB_HEADER_LEN] == header
            && (GrowthRefused(a) <==> FillOutcome(|pages|, header).Err?)
            && (GrowthRefused(a) ==>
              FillOutcome(|pages|, header) == Err(if AllZero(header) then HeaderUnreadable else HeaderUnknown))
  {
    var a := Plain.Flat(header, pages);
    assert a[..REDB_HEADER_LEN] == header;
  }

  /** A file without header area answers like one whose array is a single page of zeros. */
  lemma FreshAnswers(len: nat, geo: Geometry)
    requires len != 0
    ensures SetLenOutcome(Plain.Flat(EMPTY_HEADER.bytes.Flat(), []), len, geo).0 == SetLenOutcome([], len, geo).0
    ensures geo.PhysicalLen(len).Some? ==>
            SetLenOutcome(Plain.Flat(EMPTY_HEADER.bytes.Flat(), []), len, geo).1 == SetLenOutcome([], len, geo).1
  {
    var a := Plain.Flat(EMPTY_HEADER.bytes.Flat(), []);
    GrowthAnswers(EMPTY_HEADER.bytes.Flat(), []);
    assert a == Zeros(LOGICAL_HEADER);
  }

  // ---- the same on header and pages ----

  /** The array by its parts: redb's 320 header bytes, and the pages. */
  datatype Logical = Logical(header: Bytes, pages: seq<Bytes>) {
    ghost predicate Sized() {
      |header| == REDB_HEADER_LEN && Plain.WholePages(pages)
    }

    ghost function Flat(): Bytes
      requires Sized()
    {
      Plain.Flat(header, pages)
    }
  }

  function PutWhole(l: Logical, offset: nat, data: Bytes): (Result<(), IoError>, Logical)
    requires data != [] ==> LOGICAL_HEADER <= offset && offset + |data| <= LOGICAL_HEADER + |l.pages| * PAGE
  {
    if data == [] then (Ok(()), l)
    else if Within(offset) != 0 || |data| % PAGE != 0 then (Err(Misaligned), l)
    else
      FitsPages(offset, data, |l.pages|);
      (Ok(()), l.(pages := Plain.PutPages(l.pages, BlockOf(offset), data)))
  }

  /** A write whose first part, `head`, falls on the header page; the rest starts at `at`. */
  function PutFromHeader(l: Logical, offset: nat, head: Bytes, at: nat, rest: Bytes): (Result<(), IoError>, Logical)
    requires |l.header| == REDB_HEADER_LEN
    requires rest != [] ==> LOGICAL_HEADER <= at && at + |rest| <= LOGICAL_HEADER + |l.pages| * PAGE
  {
    if !Fits(offset, head) then (Err(UnusedHeader), l)
    else PutWhole(l.(header := Patched(l.header, offset, head)), at, rest)
  }

  lemma FitsPages(offset: nat, data: Bytes, pages: nat)
    requires LOGICAL_HEADER <= offset && offset + |data| <= LOGICAL_HEADER + pages * PAGE
    requires Within(offset) == 0 && |data| % PAGE == 0
    ensures BlockOf(offset) + |data| / PAGE <= pages
    ensures LOGICAL_HEADER + BlockOf(offset) * PAGE == offset
  {
  }

  /** Writing by parts is writing to the plain array, with the same answer. */
  lemma PutWholeIsPlain(l: Logical, offset: nat, data: Bytes)
    requires l.Sized() && data != [] && LOGICAL_HEADER <= offset && offset + |data| <= |l.Flat()|
    ensures PutWhole(l, offset, data).1.Sized()
    ensures (PutWhole(l, offset, data).0, PutWhole(l, offset, data).1.Flat()) == WriteOutcome(l.Flat(), offset, data)
  {
    PlainInTwo(l.header, l.Flat(), offset, data, 0);
    if Within(offset) == 0 && |data| % PAGE == 0 {
      FitsPages(offset, data, |l.pages|);
      Plain.PutPagesIsWrite(l.header, l.pages, BlockOf(offset), data);
    }
  }

  lemma PutFromHeaderIsPlain(l: Logical, offset: nat, data: Bytes, n: nat)
    requires l.Sized() && data != [] && offset < LOGICAL_HEADER && offset + |data| <= |l.Flat()|
             && n == HeaderPart(offset, data)
    ensures var (r, m) := PutFromHeader(l, offset, data[..n], offset + n, data[n..]);
            m.Sized() && (r, m.Flat()) == WriteOutcome(l.Flat(), offset, data)
  {
    var head, rest := data[..n], data[n..];
    PlainInTwo(l.header, l.Flat(), offset, data, n);
    if Fits(offset, head) {
      var m := l.(header := Patched(l.header, offset, head));
      Plain.PatchIsWrite(l.header, l.pages, offset, head);
      if rest != [] && Within(offset + n) == 0 && |rest| % PAGE == 0 {
        FitsPages(offset + n, rest, |l.pages|);
        Plain.PutPagesIsWrite(m.header, m.pages, BlockOf(offset + n), rest);
      }
    }
  }

  lemma PlainInTwo(header: Bytes, a: Bytes, offset: nat, data: Bytes, n: nat)
    requires |header| == REDB_HEADER_LEN && n <= |data|
    ensures offset + |data| <= |a| ==>
            Plain.Write(Plain.Write(a, offset, data[..n]), offset + n, data[n..]) == Plain.Write(a, offset, data)
    ensures n == |data| ==> data[..n] == data
    ensures n == 0 ==> data[n..] == data && Patched(header, offset, data[..n]) == header
    ensures n == 0 && offset <= |a| ==> Plain.Write(a, offset, data[..n]) == a
  {
  }

  /** A new length by parts. */
  function Sized(l: Logical, len: nat): (Result<(), IoError>, Logical)
    requires |l.header| == REDB_HEADER_LEN && len >= LOGICAL_HEADER
  {
    var n := (len - LOGICAL_HEADER) / PAGE;
    if n <= |l.pages| then (Ok(()), l.(pages := l.pages[..n]))
    else
      var r := FillOutcome(|l.pages|, l.header);
      (r, if r.Ok? then l.(pages := Plain.GrowTo(l.pages, n)) else l)
  }

  lemma SizedIsPlain(l: Logical, len: nat, geo: Geometry)
    requires l.Sized() && len != 0 && geo.PhysicalLen(len).Some?
    ensures Sized(l, len).1.Sized()
    ensures (Sized(l, len).0, Sized(l, len).1.Flat()) == SetLenOutcome(l.Flat(), len, geo)
  {
    var n := (len - LOGICAL_HEADER) / PAGE;
    assert len == LOGICAL_HEADER + n * PAGE;
    GrowthAnswers(l.header, l.pages);
    if n <= |l.pages| {
      Plain.ShrinkIsSetLen(l.header, l.pages, n);
    } else {
      Plain.GrowIsSetLen(l.header, l.pages, n);
    }
  }
}
