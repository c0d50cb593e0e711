/**
 What a plain byte array answers, said byte by byte (src/encrypted_store/backend.rs:879-1087): reads give
 what was written last, and each call is refused exactly where it must be.
 */
module PlainLaws {
  import opened Prelude
  import opened Layout
  import opened BlockFile
  import opened Growth
  import opened BlockDevice

  function AnswerTo(a: Bytes, call: Call, geo: Geometry): Result<Bytes, IoError> {
    PlainAnswer(a, call, geo).0
  }

  function Next(a: Bytes, call: Call, geo: Geometry): Bytes {
    PlainAnswer(a, call, geo).1
  }

  // ---- one call ----

  /** A read gives the bytes there are, and is refused exactly if it goes past the end. */
  lemma ReadGives(a: Bytes, offset: nat, n: nat, geo: Geometry)
    ensures Next(a, ReadAt(offset, n), geo) == a
    ensures var r := AnswerTo(a, ReadAt(offset, n), geo);
            && (r.Ok? <==> n == 0 || offset + n <= |a|)
            && (r.Ok? ==> |r.value| == n && forall k :: 0 <= k < n ==> r.value[k] == a[offset + k])
            && (r.Err? ==> r.error == UnexpectedEof)
  {
  }

  /** Every byte can be read. */
  lemma ByteReads(a: Bytes, p: nat, geo: Geometry)
    ensures AnswerTo(a, ReadAt(p, 1), geo) == if p < |a| then Ok([a[p]]) else Err(UnexpectedEof)
  {
    ReadGives(a, p, 1, geo);
    var r := AnswerTo(a, ReadAt(p, 1), geo);
    if p < |a| {
      assert r.value == [a[p]];
    }
  }

  /** Only zeros fall on the unused part of the header page. */
  predicate SparesUnused(offset: nat, data: Bytes) {
    forall k :: 0 <= k < |data| && REDB_HEADER_LEN <= offset + k < LOGICAL_HEADER ==> data[k] == 0
  }

  /** What goes past the header page is whole pages. */
  predicate WholePagesPast(offset: nat, data: Bytes) {
    offset + |data| <= LOGICAL_HEADER
    || ((offset <= LOGICAL_HEADER || offset % PAGE == 0) && (offset + |data|) % PAGE == 0)
  }

  lemma AlignedMeans(offset: nat, data: Bytes)
    requires data != []
    ensures var n := HeaderPart(offset, data);
            n < |data| && (Within(offset + n) != 0 || (|data| - n) % PAGE != 0) <==> !WholePagesPast(offset, data)
  {
  }

  lemma FitsMeans(offset: nat, data: Bytes)
    ensures HeaderPieces.Fits(offset, data[..HeaderPart(offset, data)]) <==> SparesUnused(offset, data)
  {
  }

  /** A write is refused exactly if it goes past the end, uses unused header bytes, or is not whole pages. */
  lemma WriteAnswers(a: Bytes, offset: nat, data: Bytes, geo: Geometry)
    ensures AnswerTo(a, WriteAt(offset, data), geo) ==
            if data == [] then Ok([])
            else if offset + |data| > |a| then Err(PastEnd)
            else if !SparesUnused(offset, data) then Err(UnusedHeader)
            else if !WholePagesPast(offset, data) then Err(Misaligned)
            else Ok([])
  {
    if data != [] && offset + |data| <= |a| {
      AlignedMeans(offset, data);
      FitsMeans(offset, data);
    }
  }

  /** What an accepted write puts in place; a misaligned one only its part on the header page. */
  predicate Sets(call: Call, answer: Result<Bytes, IoError>, p: nat) {
    && call.WriteAt? && call.offset <= p < call.offset + |call.data|
    && (answer.Ok? || (answer == Err(Misaligned) && p < LOGICAL_HEADER))
  }

  /** Byte by byte, a write leaves its bytes where it put them, and all others as they were. */
  lemma WriteSets(a: Bytes, offset: nat, data: Bytes, geo: Geometry)
    ensures var call := WriteAt(offset, data);
            var b := Next(a, call, geo);
            && |b| == |a|
            && forall p :: 0 <= p < |a| ==>
                 b[p] == if Sets(call, AnswerTo(a, call, geo), p) then data[p - offset] else a[p]
  {
    WriteAnswers(a, offset, data, geo);
  }

  /** An accepted write is read back, and a read it does not meet answers as before. */
  lemma ReadOverWrite(a: Bytes, offset: nat, data: Bytes, at: nat, n: nat, geo: Geometry)
    requires AnswerTo(a, WriteAt(offset, data), geo).Ok?
    ensures var b := Next(a, WriteAt(offset, data), geo);
            && AnswerTo(b, ReadAt(offset, |data|), geo) == Ok(data)
            && (at + n <= offset || offset + |data| <= at ==>
                  AnswerTo(b, ReadAt(at, n), geo) == AnswerTo(a, ReadAt(at, n), geo))
  {
    var b := Next(a, WriteAt(offset, data), geo);
    WriteSets(a, offset, data, geo);
    WriteAnswers(a, offset, data, geo);
    ReadGives(b, offset, |data|, geo);
    assert AnswerTo(b, ReadAt(offset, |data|), geo).value == data;
    if at + n <= offset || offset + |data| <= at {
      ReadGives(a, at, n, geo);
      ReadGives(b, at, n, geo);
      var x, y := AnswerTo(a, ReadAt(at, n), geo), AnswerTo(b, ReadAt(at, n), geo);
      if x.Ok? {
        assert x.value == y.value;
      }
    }
  }

  /** The region shape is in the header bytes, as redb writes it. */
  ghost predicate ShapeIn(a: Bytes, headerPages: nat, dataPages: nat) {
    && |a| >= LOGICAL_HEADER && headerPages < 0x1_0000_0000 && 0 < dataPages < 0x1_0000_0000
    && a[12..16] == LittleEndian(PAGE, 4)
    && a[16..20] == LittleEndian(headerPages, 4)
    && a[20..24] == LittleEndian(dataPages, 4)
  }

  ghost predicate ShapeKnown(a: Bytes) {
    exists h, d :: ShapeIn(a, h, d)
  }

  lemma LowByte(low: Byte, high: nat)
    ensures (low + 256 * high) % 256 == low && (low + 256 * high) / 256 == high
  {
  }

  lemma {:induction false} FromLittleEndianExact(b: Bytes)
    ensures 0 <= FromLittleEndian(b) < Pow256(|b|) && LittleEndian(FromLittleEndian(b), |b|) == b
  {
    if b != [] {
      FromLittleEndianExact(b[1..]);
      LowByte(b[0], FromLittleEndian(b[1..]));
      assert b == [b[0]] + b[1..];
    }
  }

  /** The three words are page size, header pages and data pages, in this order. */
  lemma ShapeMeans(a: Bytes, headerPages: nat, dataPages: nat)
    requires |a| >= LOGICAL_HEADER
    ensures RegionShapeOf(a[..REDB_HEADER_LEN]) == Some(Shape(headerPages, dataPages)) <==>
            ShapeIn(a, headerPages, dataPages)
  {
    var header := a[..REDB_HEADER_LEN];
    var x, y, z := a[12..16], a[16..20], a[20..24];
    assert header[12..16] == x && header[16..20] == y && header[20..24] == z;
    FromLittleEndianExact(x);
    FromLittleEndianExact(y);
    FromLittleEndianExact(z);
    assert Pow256(4) == 0x1_0000_0000;
    LittleEndianRoundTrip(PAGE, 4);
    if headerPages < 0x1_0000_0000 {
      LittleEndianRoundTrip(headerPages, 4);
    }
    if dataPages < 0x1_0000_0000 {
      LittleEndianRoundTrip(dataPages, 4);
    }
  }

  lemma ShapeKnownMeans(a: Bytes)
    requires |a| >= LOGICAL_HEADER
    ensures RegionShapeOf(a[..REDB_HEADER_LEN]).Some? <==> ShapeKnown(a)
  {
    var s := RegionShapeOf(a[..REDB_HEADER_LEN]);
    if s.Some? {
      ShapeMeans(a, s.value.headerPages, s.value.dataPages);
    }
    if h, d :| ShapeIn(a, h, d) {
      ShapeMeans(a, h, d);
    }
  }

  predicate HeaderBlank(a: Bytes) {
    forall p :: 0 <= p < REDB_HEADER_LEN && p < |a| ==> a[p] == 0
  }

  /** A length change is refused exactly for parts of pages, and for growing without knowing the region shape. */
  lemma LengthAnswers(a: Bytes, len: nat, geo: Geometry)
    requires |a| == 0 || |a| >= LOGICAL_HEADER
    ensures AnswerTo(a, NewLen(len), geo) ==
            if len % PAGE != 0 then Err(BadLength)
            else if len <= |a| || |a| == 0 then Ok([])
            else if HeaderBlank(a) then if |a| > LOGICAL_HEADER then Err(HeaderUnreadable) else Ok([])
            else if ShapeKnown(a) then Ok([]) else Err(HeaderUnknown)
  {
    if |a| > 0 {
      ShapeKnownMeans(a);
      assert AllZero(a[..REDB_HEADER_LEN]) <==> HeaderBlank(a);
    }
  }

  /** New bytes are zeros, and the bytes that stay are as they were; refused, nothing changes. */
  lemma LengthSets(a: Bytes, len: nat, geo: Geometry)
    ensures var b := Next(a, NewLen(len), geo);
            if AnswerTo(a, NewLen(len), geo).Err? then b == a
            else |b| == len && forall p :: 0 <= p < len ==> b[p] == if p < |a| then a[p] else 0
  {
  }

  lemma SyncAnswers(a: Bytes, geo: Geometry)
    ensures PlainAnswer(a, Sync, geo) == (Ok([]), a)
  {
  }

  // ---- runs ----

  /** A call that may change byte `p`. */
  predicate Touches(call: Call, p: nat) {
    || (call.WriteAt? && call.offset <= p < call.offset + |call.data|)
    || (call.NewLen? && call.len <= p)
  }

  lemma UntouchedStays(a: Bytes, call: Call, p: nat, geo: Geometry)
    requires p < |a| && !Touches(call, p)
    ensures var b := Next(a, call, geo); p < |b| && b[p] == a[p]
  {
    match call
    case ReadAt(o, n) => ReadGives(a, o, n, geo);
    case WriteAt(o, d) => WriteSets(a, o, d, geo);
    case NewLen(len) => LengthSets(a, len, geo);
    case Sync => SyncAnswers(a, geo);
  }

  function After(a: Bytes, calls: seq<Call>, i: nat, geo: Geometry): Bytes
    requires i <= |calls|
  {
    PlainRun(a, calls[..i], geo).1
  }

  lemma {:induction false} RunAnswers(a: Bytes, calls: seq<Call>, i: nat, geo: Geometry)
    requires i < |calls|
    ensures |PlainRun(a, calls, geo).0| == |calls|
    ensures PlainRun(a, calls, geo).0[i] == AnswerTo(After(a, calls, i, geo), calls[i], geo)
    ensures After(a, calls, i + 1, geo) == Next(After(a, calls, i, geo), calls[i], geo)
    decreases |calls|
  {
    PlainRunStep(a, calls, i, geo);
    var before := calls[..|calls| - 1];
    assert calls[..|calls|] == calls;
    if i < |before| {
      RunAnswers(a, before, i, geo);
      assert before[..i] == calls[..i] && before[..i + 1] == calls[..i + 1];
    } else if before != [] {
      RunAnswers(a, before, 0, geo);
    }
  }

  lemma {:induction false} StaysInRun(a: Bytes, calls: seq<Call>, i: nat, j: nat, p: nat, geo: Geometry)
    requires i <= j <= |calls| && p < |After(a, calls, i, geo)|
    requires forall k :: i <= k < j ==> !Touches(calls[k], p)
    ensures p < |After(a, calls, j, geo)| && After(a, calls, j, geo)[p] == After(a, calls, i, geo)[p]
    decreases j
  {
    if i < j {
      StaysInRun(a, calls, i, j - 1, p, geo);
      RunAnswers(a, calls, j - 1, geo);
      UntouchedStays(After(a, calls, j - 1, geo), calls[j - 1], p, geo);
    }
  }

  /**
   In every run, a read of what an accepted write put in place, with nothing in between that meets it, is
   answered with what was written.
   */
  lemma ReadSeesWrite(a: Bytes, calls: seq<Call>, i: nat, j: nat, geo: Geometry)
    requires i < j < |calls| && calls[i].WriteAt? && AnswerTo(After(a, calls, i, geo), calls[i], geo).Ok?
    requires calls[j] == ReadAt(calls[i].offset, |calls[i].data|)
    requires forall k, p :: i < k < j && Sets(calls[i], Ok([]), p) ==> !Touches(calls[k], p)
    ensures |PlainRun(a, calls, geo).0| == |calls|
    ensures PlainRun(a, calls, geo).0[i] == Ok([]) && PlainRun(a, calls, geo).0[j] == Ok(calls[i].data)
  {
    var o, d := calls[i].offset, calls[i].data;
    var before, after, now := After(a, calls, i, geo), After(a, calls, i + 1, geo), After(a, calls, j, geo);
    RunAnswers(a, calls, i, geo);
    RunAnswers(a, calls, j, geo);
    WriteAnswers(before, o, d, geo);
    WriteSets(before, o, d, geo);
    forall p | o <= p < o + |d| ensures p < |now| && now[p] == d[p - o] {
      assert Sets(calls[i], Ok([]), p);
      StaysInRun(a, calls, i + 1, j, p, geo);
    }
    ReadGives(now, o, |d|, geo);
    if d != [] {
      assert Sets(calls[i], Ok([]), o + |d| - 1);
      StaysInRun(a, calls, i + 1, j, o + |d| - 1, geo);
    }
    assert AnswerTo(now, ReadAt(o, |d|), geo).value == d;
  }
}
