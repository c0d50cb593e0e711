/**
 Reading sealed files (src/encrypted_store/sealed.rs:184-279), under ideal authentication: a block
 opens only if exactly it was sealed, under exactly this label, with the key in hand.
 */
module SealedReading {
  import opened Prelude
  import opened Layout
  import opened SealedStream

  /** One block sealed under a key. */
  datatype Sealing = Sealing(aad: Bytes, sealed: Bytes, plain: Bytes)

  /** Open a block with a key under which `log` was sealed, and nothing else. */
  function OpenWith(log: seq<Sealing>, aad: Bytes, sealed: Bytes): Option<Bytes> {
    if log == [] then None
    else
      var s := log[|log| - 1];
      if s.aad == aad && s.sealed == sealed then Some(s.plain) else OpenWith(log[..|log| - 1], aad, sealed)
  }

  /** Everything the writer of `content` sealed under its file's key. */
  function WriterLog(key: Key, content: Bytes): (log: seq<Sealing>)
    ensures |log| == BlockCount(|content|)
    ensures forall i :: 0 <= i < |log| ==>
            log[i] == Sealing(BlockLabel(content, i), BlockSealed(key, content, i), BlockPlain(content, i))
  {
    seq(BlockCount(|content|), i requires 0 <= i < BlockCount(|content|) =>
      Sealing(BlockLabel(content, i), BlockSealed(key, content, i), BlockPlain(content, i)))
  }

  lemma {:induction false} OpenFinds(log: seq<Sealing>, aad: Bytes, sealed: Bytes) returns (i: nat)
    requires OpenWith(log, aad, sealed).Some?
    ensures i < |log| && log[i] == Sealing(aad, sealed, OpenWith(log, aad, sealed).value)
  {
    var s := log[|log| - 1];
    if s.aad == aad && s.sealed == sealed {
      i := |log| - 1;
    } else {
      i := OpenFinds(log[..|log| - 1], aad, sealed);
    }
  }

  lemma {:induction false} OpenHits(log: seq<Sealing>, i: nat)
    requires i < |log|
    ensures OpenWith(log, log[i].aad, log[i].sealed).Some?
  {
    if i < |log| - 1 {
      OpenHits(log[..|log| - 1], i);
    }
  }

  // ---- lengths ----

  /** The block count and the total length a file's size stands for. */
  datatype Shape = Shape(blocks: nat, total: nat)

  function Stride(overhead: nat): nat {
    BLOCK + overhead
  }

  function ShapeOf(fileLen: nat, overhead: nat): Option<Shape> {
    if fileLen < SALT_LEN || fileLen - SALT_LEN < overhead || fileLen == SALT_LEN then None
    else
      var payload := fileLen - SALT_LEN;
      var blocks := (payload - 1) / Stride(overhead) + 1;
      var lastLen := payload - (blocks - 1) * Stride(overhead);
      if lastLen < overhead then None else Some(Shape(blocks, (blocks - 1) * BLOCK + (lastLen - overhead)))
  }

  /** Where block `i` starts, and how many bytes it has. */
  function Start(i: nat, overhead: nat): nat {
    SALT_LEN + i * Stride(overhead)
  }

  function Size(shape: Shape, i: nat, overhead: nat): int {
    if i + 1 == shape.blocks then shape.total - i * BLOCK + overhead else Stride(overhead)
  }

  lemma MulMonotone(i: nat, j: nat, s: nat)
    requires i <= j
    ensures i * s <= j * s
  {
  }

  lemma MulNext(i: nat, s: nat)
    ensures (i + 1) * s == i * s + s
  {
  }

  lemma DivBounds(n: nat, s: nat)
    requires s > 0
    ensures n / s * s <= n < n / s * s + s
  {
  }

  /** The last block ends with the file. */
  lemma ShapeEnds(fileLen: nat, overhead: nat)
    requires ShapeOf(fileLen, overhead).Some?
    ensures var s := ShapeOf(fileLen, overhead).value;
            && s.blocks >= 1
            && (s.blocks - 1) * BLOCK <= s.total <= s.blocks * BLOCK
            && Start(s.blocks - 1, overhead) + Size(s, s.blocks - 1, overhead) == fileLen
  {
    DivBounds(fileLen - SALT_LEN - 1, Stride(overhead));
  }

  /** Neither the blocks nor their bytes are more than the file has. */
  lemma ShapeIsSmall(fileLen: nat, overhead: nat)
    requires ShapeOf(fileLen, overhead).Some?
    ensures ShapeOf(fileLen, overhead).value.total <= fileLen && ShapeOf(fileLen, overhead).value.blocks <= fileLen
  {
    var s := ShapeOf(fileLen, overhead).value;
    ShapeEnds(fileLen, overhead);
    var last := s.blocks - 1;
    assert last * Stride(overhead) == last * BLOCK + last * overhead;
  }

  lemma EarlierBlockFits(i: nat, last: nat, stride: nat)
    requires i < last
    ensures i * stride + stride <= last * stride
  {
    MulMonotone(i + 1, last, stride);
    MulNext(i, stride);
  }

  lemma ShapeFits(fileLen: nat, overhead: nat, i: nat)
    requires ShapeOf(fileLen, overhead).Some? && i < ShapeOf(fileLen, overhead).value.blocks
    ensures var s := ShapeOf(fileLen, overhead).value;
            Size(s, i, overhead) >= overhead && Start(i, overhead) + Size(s, i, overhead) <= fileLen
  {
    var s := ShapeOf(fileLen, overhead).value;
    ShapeEnds(fileLen, overhead);
    if i + 1 < s.blocks {
      EarlierBlockFits(i, s.blocks - 1, Stride(overhead));
    }
  }

  /** The size of the file of `total` bytes stands for just that. */
  lemma ShapeOfFile(total: nat, overhead: nat)
    requires overhead >= 1
    ensures var n := BlockCount(total);
            ShapeOf(Start(n - 1, overhead) + (total - (n - 1) * BLOCK) + overhead, overhead) == Some(Shape(n, total))
  {
    var n := BlockCount(total);
    var rest := total - (n - 1) * BLOCK + overhead;
    QuotientIs((n - 1) * Stride(overhead) + rest - 1, Stride(overhead), n - 1, rest - 1);
  }

  // ---- blocks of an arbitrary file ----

  function Label(shape: Shape, i: nat): Bytes {
    Aad(i, if i + 1 == shape.blocks then Some(shape.total) else None)
  }

  /** The bytes of block `i`, as the file's size places it. */
  function Slice(src: Bytes, overhead: nat, i: nat): Bytes
    requires ShapeOf(|src|, overhead).Some? && i < ShapeOf(|src|, overhead).value.blocks
  {
    ShapeFits(|src|, overhead, i);
    var at := Start(i, overhead);
    src[at..at + Size(ShapeOf(|src|, overhead).value, i, overhead)]
  }

  /** What loading block `i` gives, if it opens. */
  function Load(src: Bytes, log: seq<Sealing>, overhead: nat, i: nat): Option<Bytes>
    requires ShapeOf(|src|, overhead).Some? && i < ShapeOf(|src|, overhead).value.blocks
  {
    OpenWith(log, Label(ShapeOf(|src|, overhead).value, i), Slice(src, overhead, i))
  }

  ghost predicate AllLoad(src: Bytes, log: seq<Sealing>, overhead: nat) {
    ShapeOf(|src|, overhead).Some? && forall i :: 0 <= i < ShapeOf(|src|, overhead).value.blocks ==>
      Load(src, log, overhead, i).Some?
  }

  /** Only the writer's own block opens at a place, and it gives that block's plaintext. */
  lemma LoadedIsWritten(key: Key, content: Bytes, src: Bytes, overhead: nat, i: nat)
    requires |content| < U64 && |src| < U64
    requires ShapeOf(|src|, overhead).Some? && i < ShapeOf(|src|, overhead).value.blocks
    requires Load(src, WriterLog(key, content), overhead, i).Some?
    ensures i < BlockCount(|content|)
    ensures Label(ShapeOf(|src|, overhead).value, i) == BlockLabel(content, i)
    ensures Slice(src, overhead, i) == BlockSealed(key, content, i)
    ensures Load(src, WriterLog(key, content), overhead, i) == Some(BlockPlain(content, i))
    ensures var s := ShapeOf(|src|, overhead).value; i + 1 == s.blocks ==> s == Shape(BlockCount(|content|), |content|)
  {
    var s := ShapeOf(|src|, overhead).value;
    ShapeIsSmall(|src|, overhead);
    var j := OpenFinds(WriterLog(key, content), Label(s, i), Slice(src, overhead, i));
    SameLabel(s, i, content, j);
  }

  lemma FewBlocks(total: nat)
    ensures BlockCount(total) <= total + 1
  {
  }

  /** A block's label tells its number, and the last block's the shape of the file. */
  lemma SameLabel(s: Shape, i: nat, content: Bytes, j: nat)
    requires |content| < U64 && i < s.blocks < U64 && s.total < U64 && j < BlockCount(|content|)
    requires Label(s, i) == BlockLabel(content, j)
    ensures i == j && (i + 1 == s.blocks ==> s == Shape(BlockCount(|content|), |content|))
  {
    var n := BlockCount(|content|);
    FewBlocks(|content|);
    AadInjective(i, if i + 1 == s.blocks then Some(s.total) else None, j, if j + 1 == n then Some(|content|) else None);
  }

  lemma BlockSize(key: Key, content: Bytes, i: nat)
    requires key.Sound() && i < BlockCount(|content|)
    ensures |BlockSealed(key, content, i)| == Size(Shape(BlockCount(|content|), |content|), i, key.overhead)
  {
  }

  lemma {:induction false} BlocksLength(key: Key, content: Bytes, n: nat)
    requires key.Sound() && n < BlockCount(|content|)
    ensures SALT_LEN + |Blocks(key, content, n)| == Start(n, key.overhead)
  {
    if n > 0 {
      BlocksLength(key, content, n - 1);
      MulNext(n - 1, Stride(key.overhead));
    }
  }

  /** The file has the size that stands for its content. */
  lemma FileShape(key: Key, salt: Bytes, content: Bytes)
    requires key.Sound() && |salt| == SALT_LEN
    ensures ShapeOf(|File(key, salt, content)|, key.overhead) == Some(Shape(BlockCount(|content|), |content|))
  {
    var n := BlockCount(|content|);
    BlocksLength(key, content, n - 1);
    ShapeOfFile(|content|, key.overhead);
  }

  lemma Appended(before: Bytes, last: Bytes, at: nat, n: nat)
    ensures at + n <= |before| ==> (before + last)[at..at + n] == before[at..at + n]
    ensures at == |before| && n == |last| ==> (before + last)[at..at + n] == last
  {
  }

  /** In the file of `content`, block `i` stands after the blocks before it. */
  lemma {:induction false} FileSlice(key: Key, salt: Bytes, content: Bytes, n: nat, i: nat)
    requires i < n <= BlockCount(|content|)
    ensures var at := |salt| + |Blocks(key, content, i)|;
            var f := salt + Blocks(key, content, n);
            at + |BlockSealed(key, content, i)| <= |f|
              && f[at..at + |BlockSealed(key, content, i)|] == BlockSealed(key, content, i)
  {
    var before, last := salt + Blocks(key, content, n - 1), BlockSealed(key, content, n - 1);
    assert salt + Blocks(key, content, n) == before + last;
    if i < n - 1 {
      FileSlice(key, salt, content, n - 1, i);
      Appended(before, last, |salt| + |Blocks(key, content, i)|, |BlockSealed(key, content, i)|);
    } else {
      Appended(before, last, |before|, |last|);
    }
  }

  /** The writer's file loads, block by block, to the writer's blocks. */
  lemma GenuineLoads(key: Key, salt: Bytes, content: Bytes, i: nat)
    requires key.Sound() && |salt| == SALT_LEN && i < BlockCount(|content|)
    requires |content| < U64 && |File(key, salt, content)| < U64
    ensures ShapeOf(|File(key, salt, content)|, key.overhead) == Some(Shape(BlockCount(|content|), |content|))
    ensures Load(File(key, salt, content), WriterLog(key, content), key.overhead, i) == Some(BlockPlain(content, i))
  {
    var f := File(key, salt, content);
    FileShape(key, salt, content);
    FileSlice(key, salt, content, BlockCount(|content|), i);
    BlocksLength(key, content, i);
    BlockSize(key, content, i);
    assert Slice(f, key.overhead, i) == BlockSealed(key, content, i);
    OpenHits(WriterLog(key, content), i);
    LoadedIsWritten(key, content, f, key.overhead, i);
  }

  lemma GlueSlices(src: Bytes, i: nat, a: nat, b: nat, x: Bytes, y: Bytes)
    requires i <= a <= b <= |src| && src[i..a] == x && src[a..b] == y
    ensures src[i..b] == x + y
  {
  }

  lemma SliceIs(src: Bytes, overhead: nat, shape: Shape, i: nat)
    requires ShapeOf(|src|, overhead) == Some(shape) && i < shape.blocks
    ensures var a := Start(i, overhead);
            var b := a + Size(shape, i, overhead);
            && 0 <= a <= b <= |src| && Slice(src, overhead, i) == src[a..b]
            && (i + 1 == shape.blocks ==> b == |src|)
  {
    ShapeFits(|src|, overhead, i);
    ShapeEnds(|src|, overhead);
  }

  /** Block `i` of the file of `content` stands where it belongs in `src`. */
  ghost predicate Placed(key: Key, content: Bytes, src: Bytes, i: nat)
    requires i < BlockCount(|content|)
  {
    var a := SALT_LEN + |Blocks(key, content, i)|;
    var b := SALT_LEN + |Blocks(key, content, i + 1)|;
    b <= |src| && src[a..b] == BlockSealed(key, content, i)
  }

  lemma {:induction false} PlacedMakeBlocks(key: Key, content: Bytes, src: Bytes, n: nat)
    requires n <= BlockCount(|content|) && SALT_LEN <= |src|
    requires forall i :: 0 <= i < n ==> Placed(key, content, src, i)
    ensures SALT_LEN + |Blocks(key, content, n)| <= |src|
    ensures src[SALT_LEN..SALT_LEN + |Blocks(key, content, n)|] == Blocks(key, content, n)
  {
    if n > 0 {
      PlacedMakeBlocks(key, content, src, n - 1);
      assert Placed(key, content, src, n - 1);
      GlueSlices(src, SALT_LEN, SALT_LEN + |Blocks(key, content, n - 1)|, SALT_LEN + |Blocks(key, content, n)|,
                 Blocks(key, content, n - 1), BlockSealed(key, content, n - 1));
    }
  }

  lemma LoadedIsPlaced(key: Key, content: Bytes, src: Bytes, i: nat)
    requires key.Sound() && |content| < U64 && |src| < U64 && i < BlockCount(|content|)
    requires ShapeOf(|src|, key.overhead) == Some(Shape(BlockCount(|content|), |content|))
    requires Load(src, WriterLog(key, content), key.overhead, i).Some?
    ensures Placed(key, content, src, i)
    ensures i + 1 == BlockCount(|content|) ==> SALT_LEN + |Blocks(key, content, i + 1)| == |src|
  {
    LoadedIsWritten(key, content, src, key.overhead, i);
    SliceIs(src, key.overhead, Shape(BlockCount(|content|), |content|), i);
    BlockSize(key, content, i);
    BlocksLength(key, content, i);
  }

  lemma LoadingForcesFile(key: Key, content: Bytes, src: Bytes)
    requires key.Sound() && |content| < U64 && SALT_LEN <= |src| < U64
    requires AllLoad(src, WriterLog(key, content), key.overhead)
    ensures src == File(key, src[..SALT_LEN], content)
  {
    var n := BlockCount(|content|);
    ShapeEnds(|src|, key.overhead);
    LoadedIsWritten(key, content, src, key.overhead, ShapeOf(|src|, key.overhead).value.blocks - 1);
    forall i | 0 <= i < n ensures Placed(key, content, src, i) {
      LoadedIsPlaced(key, content, src, i);
    }
    LoadedIsPlaced(key, content, src, n - 1);
    PlacedMakeBlocks(key, content, src, n);
    GlueSlices(src, 0, SALT_LEN, |src|, src[..SALT_LEN], Blocks(key, content, n));
    assert src[0..|src|] == src;
  }

  /**
   A file of any bytes whose blocks all open under a writer's key is that writer's file: cutting,
   extending, swapping, dropping or repeating blocks always leaves a block that does not open.
   */
  lemma OnlyTheWritersFileLoads(key: Key, content: Bytes, src: Bytes)
    requires key.Sound() && |content| < U64 && SALT_LEN <= |src| < U64
    ensures AllLoad(src, WriterLog(key, content), key.overhead) <==> src == File(key, src[..SALT_LEN], content)
  {
    if AllLoad(src, WriterLog(key, content), key.overhead) {
      LoadingForcesFile(key, content, src);
    }
    if src == File(key, src[..SALT_LEN], content) {
      FileShape(key, src[..SALT_LEN], content);
      forall i | 0 <= i < BlockCount(|content|) ensures Load(src, WriterLog(key, content), key.overhead, i).Some? {
        GenuineLoads(key, src[..SALT_LEN], content, i);
      }
    }
  }

  // ---- the reader ----

  /** Sealing adds `overhead` bytes. */
  ghost predicate SoundLog(log: seq<Sealing>, overhead: nat) {
    forall i :: 0 <= i < |log| ==> |log[i].sealed| == |log[i].plain| + overhead
  }

  datatype Whence = FromStart(p: nat) | FromEnd(d: int) | FromHere(d: int)

  /** The part of block `pos / BLOCK` a read of `n` bytes takes. */
  function Part(shape: Shape, pos: nat, n: nat): nat
    requires pos < shape.total
  {
    Min(Min((pos / BLOCK + 1) * BLOCK, shape.total) - pos, n)
  }

  lemma PlaceOf(fileLen: nat, overhead: nat, pos: nat)
    requires ShapeOf(fileLen, overhead).Some? && pos < ShapeOf(fileLen, overhead).value.total
    ensures pos / BLOCK < ShapeOf(fileLen, overhead).value.blocks
  {
    ShapeEnds(fileLen, overhead);
  }

  /** A loaded block has the plaintext length its place stands for. */
  lemma LoadedLength(src: Bytes, log: seq<Sealing>, overhead: nat, i: nat)
    requires SoundLog(log, overhead)
    requires ShapeOf(|src|, overhead).Some? && i < ShapeOf(|src|, overhead).value.blocks
    requires Load(src, log, overhead, i).Some?
    ensures var s := ShapeOf(|src|, overhead).value;
            |Load(src, log, overhead, i).value| == (if i + 1 == s.blocks then s.total - i * BLOCK else BLOCK)
  {
    ShapeFits(|src|, overhead, i);
    var j := OpenFinds(log, Label(ShapeOf(|src|, overhead).value, i), Slice(src, overhead, i));
  }

  /** This is the file of `content`, as the key in hand opens it. */
  ghost predicate Reads(src: Bytes, log: seq<Sealing>, overhead: nat, content: Bytes) {
    && ShapeOf(|src|, overhead) == Some(Shape(BlockCount(|content|), |content|))
    && forall i :: 0 <= i < BlockCount(|content|) ==> Load(src, log, overhead, i) == Some(BlockPlain(content, i))
  }

  /** What a read of `n` bytes at `pos` gives, and where it leaves the position. */
  function ReadAt(src: Bytes, log: seq<Sealing>, overhead: nat, pos: nat, n: nat): Result<Bytes, StreamError>
    requires SoundLog(log, overhead) && ShapeOf(|src|, overhead).Some?
  {
    var shape := ShapeOf(|src|, overhead).value;
    if pos >= shape.total || n == 0 then Ok([])
    else
      PlaceOf(|src|, overhead, pos);
      var plain := Load(src, log, overhead, pos / BLOCK);
      if plain.None? then Err(Tampered)
      else
        PartFits(src, log, overhead, pos, n);
        Ok(plain.value[pos % BLOCK..pos % BLOCK + Part(shape, pos, n)])
  }

  lemma PartFits(src: Bytes, log: seq<Sealing>, overhead: nat, pos: nat, n: nat)
    requires SoundLog(log, overhead) && ShapeOf(|src|, overhead).Some? && pos < ShapeOf(|src|, overhead).value.total
    requires pos / BLOCK < ShapeOf(|src|, overhead).value.blocks && Load(src, log, overhead, pos / BLOCK).Some?
    ensures var k := Part(ShapeOf(|src|, overhead).value, pos, n);
            var plain := Load(src, log, overhead, pos / BLOCK).value;
            && pos % BLOCK < |plain|
            && k == Min(|plain| - pos % BLOCK, n) && 0 <= k
            && pos % BLOCK + k <= BLOCK && pos + k <= ShapeOf(|src|, overhead).value.total
  {
    LoadedLength(src, log, overhead, pos / BLOCK);
    ShapeEnds(|src|, overhead);
    assert pos == pos / BLOCK * BLOCK + pos % BLOCK;
  }

  /** In the file of `content`, every read inside it gives the matching slice. */
  lemma GenuineRead(src: Bytes, log: seq<Sealing>, overhead: nat, content: Bytes, pos: nat, n: nat)
    requires SoundLog(log, overhead) && Reads(src, log, overhead, content) && pos <= |content|
    ensures var k := Count(content, pos, n);
            ReadAt(src, log, overhead, pos, n) == Ok(content[pos..pos + k])
  {
    if pos < |content| && n > 0 {
      PlaceOf(|src|, overhead, pos);
      PartFits(src, log, overhead, pos, n);
      BlockPart(content, pos, Part(Shape(BlockCount(|content|), |content|), pos, n));
    } else {
      assert content[pos..pos + 0] == [];
    }
  }

  /** A read that succeeds before the end gives something, from one block, and not past the end. */
  lemma ReadAdvances(src: Bytes, log: seq<Sealing>, overhead: nat, pos: nat, n: nat)
    requires SoundLog(log, overhead) && ShapeOf(|src|, overhead).Some? && n > 0
    requires pos < ShapeOf(|src|, overhead).value.total
    ensures var r := ReadAt(src, log, overhead, pos, n);
            && pos / BLOCK < ShapeOf(|src|, overhead).value.blocks
            && (r.Ok? <==> Load(src, log, overhead, pos / BLOCK).Some?)
            && (r.Err? ==> r.error == Tampered)
            && (r.Ok? ==> 0 < |r.value| && pos + |r.value| <= ShapeOf(|src|, overhead).value.total)
            && (r.Ok? ==> forall i: nat {:trigger i * BLOCK} :: i * BLOCK < pos + |r.value| ==>
              i * BLOCK < pos || i == pos / BLOCK)
  {
    PlaceOf(|src|, overhead, pos);
    if Load(src, log, overhead, pos / BLOCK).Some? {
      PartFits(src, log, overhead, pos, n);
    }
  }

  /** Something a caller does with a reader: seek inside the file, or read. */
  datatype ReadOp = SeekTo(p: nat) | ReadUpTo(n: nat)

  ghost predicate InRange(ops: seq<ReadOp>, total: nat) {
    forall i :: 0 <= i < |ops| && ops[i].SeekTo? ==> ops[i].p <= total
  }

  /** How many bytes a read of `n` bytes gives: some, unless none are left or none are asked for. */
  function Count(content: Bytes, pos: nat, n: nat): (k: nat)
    requires pos <= |content|
    ensures pos + k <= |content| && k <= n
    ensures pos < |content| && n > 0 ==> k > 0
  {
    if pos < |content| then Part(Shape(BlockCount(|content|), |content|), pos, n) else 0
  }

  function Given(content: Bytes, pos: nat, op: ReadOp): seq<Bytes>
    requires pos <= |content|
  {
    match op
    case SeekTo(_) => []
    case ReadUpTo(n) => [content[pos..pos + Count(content, pos, n)]]
  }

  function After(content: Bytes, pos: nat, op: ReadOp): nat
    requires pos <= |content|
  {
    match op
    case SeekTo(p) => p
    case ReadUpTo(n) => pos + Count(content, pos, n)
  }

  /** The slices of `content` the reads among `ops` stand for. */
  function Slices(content: Bytes, pos: nat, ops: seq<ReadOp>): seq<Bytes>
    requires pos <= |content| && InRange(ops, |content|)
    decreases |ops|
  {
    if ops == [] then [] else Given(content, pos, ops[0]) + Slices(content, After(content, pos, ops[0]), ops[1..])
  }

  lemma SlicesNext(content: Bytes, pos: nat, ops: seq<ReadOp>, i: nat, outs: seq<Bytes>)
    requires pos <= |content| && i < |ops| && InRange(ops, |content|)
    ensures outs + Slices(content, pos, ops[i..]) ==
            (outs + Given(content, pos, ops[i])) + Slices(content, After(content, pos, ops[i]), ops[i + 1..])
  {
    assert ops[i..][1..] == ops[i + 1..];
  }

  class SealedReader {
    const src: Bytes
    const log: seq<Sealing>
    const overhead: nat
    const shape: Shape
    var pos: nat
    var cached: Option<(nat, Bytes)>

    ghost predicate Valid()
      reads this
    {
      && SoundLog(log, overhead)
      && ShapeOf(|src|, overhead) == Some(shape)
      && (cached.Some? ==>
        cached.value.0 < shape.blocks && Load(src, log, overhead, cached.value.0) == Some(cached.value.1))
    }

    constructor (src: Bytes, log: seq<Sealing>, overhead: nat, shape: Shape)
      requires SoundLog(log, overhead) && ShapeOf(|src|, overhead) == Some(shape)
      ensures Valid() && pos == 0 && cached.None?
      ensures this.src == src && this.log == log && this.overhead == overhead && this.shape == shape
    {
      this.src := src;
      this.log := log;
      this.overhead := overhead;
      this.shape := shape;
      pos := 0;
      cached := None;
    }

    method LoadBlock(i: nat) returns (ok: bool)
      requires Valid() && i < shape.blocks
      modifies this`cached
      ensures Valid() && ok == Load(src, log, overhead, i).Some?
      ensures ok ==> cached.Some? && cached.value.0 == i
    {
      if cached.Some? && cached.value.0 == i {
        return true;
      }
      var plain := Load(src, log, overhead, i);
      if plain.None? {
        return false;
      }
      cached := Some((i, plain.value));
      ok := true;
    }

    /** Up to `n` bytes from the current position, at most to the end of its block. */
    method Read(n: nat) returns (r: Result<Bytes, StreamError>)
      requires Valid()
      modifies this`pos, this`cached
      ensures Valid() && r == ReadAt(src, log, overhead, old(pos), n)
      ensures pos == old(pos) + if r.Ok? then |r.value| else 0
    {
      if pos >= shape.total || n == 0 {
        return Ok([]);
      }
      PlaceOf(|src|, overhead, pos);
      var ok := LoadBlock(pos / BLOCK);
      if !ok {
        return Err(Tampered);
      }
      PartFits(src, log, overhead, pos, n);
      var plain, within := cached.value.1, pos % BLOCK;
      var k := Min(|plain| - within, n);
      r := Ok(plain[within..within + k]);
      pos := pos + k;
    }

    method ReadSlice(n: nat, ghost content: Bytes) returns (part: Bytes)
      requires Valid() && Reads(src, log, overhead, content) && pos <= |content|
      modifies this`pos, this`cached
      ensures Valid() && pos == old(pos) + Count(content, old(pos), n) && part == content[old(pos)..pos]
    {
      GenuineRead(src, log, overhead, content, pos, n);
      var r := Read(n);
      part := r.value;
    }

    method Do(op: ReadOp, ghost content: Bytes) returns (out: seq<Bytes>)
      requires Valid() && Reads(src, log, overhead, content) && |content| < U64 && pos <= |content|
      requires op.SeekTo? ==> op.p <= |content|
      modifies this`pos, this`cached
      ensures Valid() && out == Given(content, old(pos), op) && pos == After(content, old(pos), op) <= |content|
    {
      match op
      case SeekTo(p) =>
        var _ := Seek(FromStart(p));
        out := [];
      case ReadUpTo(n) =>
        var part := ReadSlice(n, content);
        out := [part];
    }

    /** Any seeks and reads in a file of `content` give the matching slices of it. */
    method Visit(ops: seq<ReadOp>, ghost content: Bytes) returns (outs: seq<Bytes>)
      requires Valid() && Reads(src, log, overhead, content) && InRange(ops, |content|) && |content| < U64
               && pos <= |content|
      modifies this`pos, this`cached
      ensures Valid() && outs == Slices(content, old(pos), ops)
    {
      outs := [];
      var i := 0;
      while i < |ops|
        invariant Valid() && i <= |ops| && pos <= |content|
        invariant outs + Slices(content, pos, ops[i..]) == Slices(content, old(pos), ops)
        decreases |ops| - i
      {
        SlicesNext(content, pos, ops, i, outs);
        var out := Do(ops[i], content);
        outs := outs + out;
        i := i + 1;
      }
    }

    /** Read from the start to the end. */
    method ReadToEnd(step: nat, ghost content: Bytes) returns (r: Result<Bytes, StreamError>)
      requires Valid() && pos == 0 && step >= 1 && shape.blocks >= 1
      requires Load(src, log, overhead, shape.blocks - 1).Some?
      modifies this`pos, this`cached
      ensures Valid()
      ensures r.Ok? <==> AllLoad(src, log, overhead)
      ensures r.Err? ==> r.error == Tampered
      ensures Reads(src, log, overhead, content) ==> r == Ok(content)
    {
      var out: Bytes := [];
      while pos < shape.total
        invariant Valid() && pos == |out|
        invariant Progress(src, log, overhead, content, out)
        decreases shape.total - |out|
      {
        Advance(src, log, overhead, content, out, step);
        var part := Read(step);
        if part.Err? {
          return part;
        }
        out := out + part.value;
      }
      AtTheEnd(src, log, overhead, content, out);
      r := Ok(out);
    }

    method Seek(to: Whence) returns (r: Result<nat, StreamError>)
      modifies this`pos
      ensures var target := match to {
                              case FromStart(p) => p
                              case FromEnd(d) => shape.total + d
                              case FromHere(d) => old(pos) + d
                            };
              if target < 0 then r == Err(SeekBeforeStart) && pos == old(pos)
              else r == Ok(target % U64) && pos == target % U64
    {
      var target := match to { case FromStart(p) => p case FromEnd(d) => shape.total + d case FromHere(d) => pos + d };
      if target < 0 {
        return Err(SeekBeforeStart);
      }
      pos := target % U64;
      r := Ok(pos);
    }
  }

  lemma BlockPart(content: Bytes, pos: nat, k: nat)
    requires pos + k <= |content| && pos < |content| && pos % BLOCK + k <= BLOCK
    ensures pos / BLOCK < BlockCount(|content|)
    ensures pos % BLOCK + k <= |BlockPlain(content, pos / BLOCK)|
    ensures BlockPlain(content, pos / BLOCK)[pos % BLOCK..pos % BLOCK + k] == content[pos..pos + k]
  {
    var i, w := pos / BLOCK, pos % BLOCK;
    assert pos == i * BLOCK + w;
    var p := BlockPlain(content, i);
    assert p == content[i * BLOCK..i * BLOCK + |p|];
    var l, r := p[w..w + k], content[pos..pos + k];
    forall x | 0 <= x < k ensures l[x] == r[x] {
    }
  }

  /** Blocks `0..` up to `len` bytes all opened. */
  ghost predicate LoadedTo(src: Bytes, log: seq<Sealing>, overhead: nat, len: nat)
    requires ShapeOf(|src|, overhead).Some?
  {
    forall i: nat :: i < ShapeOf(|src|, overhead).value.blocks && i * BLOCK < len ==> Load(src, log, overhead, i).Some?
  }

  lemma LoadedAll(src: Bytes, log: seq<Sealing>, overhead: nat)
    requires ShapeOf(|src|, overhead).Some?
    requires var s := ShapeOf(|src|, overhead).value;
             s.blocks >= 1 && LoadedTo(src, log, overhead, s.total) && Load(src, log, overhead, s.blocks - 1).Some?
    ensures AllLoad(src, log, overhead)
  {
    ShapeEnds(|src|, overhead);
  }

  /** `out` has been read from the start of the file, which holds `content` if any file of it does. */
  ghost predicate Progress(src: Bytes, log: seq<Sealing>, overhead: nat, content: Bytes, out: Bytes)
    requires ShapeOf(|src|, overhead).Some?
  {
    && |out| <= ShapeOf(|src|, overhead).value.total
    && LoadedTo(src, log, overhead, |out|)
    && (Reads(src, log, overhead, content) ==> out == content[..|out|])
  }

  lemma Advance(src: Bytes, log: seq<Sealing>, overhead: nat, content: Bytes, out: Bytes, step: nat)
    requires SoundLog(log, overhead) && ShapeOf(|src|, overhead).Some? && step > 0
    requires Progress(src, log, overhead, content, out) && |out| < ShapeOf(|src|, overhead).value.total
    ensures var r := ReadAt(src, log, overhead, |out|, step);
            && (r.Err? ==> !AllLoad(src, log, overhead) && !Reads(src, log, overhead, content))
            && (r.Ok? ==> 0 < |r.value| && Progress(src, log, overhead, content, out + r.value))
  {
    ReadAdvances(src, log, overhead, |out|, step);
    var r := ReadAt(src, log, overhead, |out|, step);
    if Reads(src, log, overhead, content) {
      GenuineRead(src, log, overhead, content, |out|, step);
      assert r.Ok? ==> out + r.value == content[..|out + r.value|];
    }
  }

  lemma AtTheEnd(src: Bytes, log: seq<Sealing>, overhead: nat, content: Bytes, out: Bytes)
    requires ShapeOf(|src|, overhead).Some? && Progress(src, log, overhead, content, out)
    requires |out| == ShapeOf(|src|, overhead).value.total
    requires ShapeOf(|src|, overhead).value.blocks >= 1
    requires Load(src, log, overhead, ShapeOf(|src|, overhead).value.blocks - 1).Some?
    ensures AllLoad(src, log, overhead)
    ensures Reads(src, log, overhead, content) ==> out == content
  {
    LoadedAll(src, log, overhead);
    assert content[..|content|] == content;
  }

  /** Reading a file to its end with buffers of `step` bytes. */
  method ReadFile(src: Bytes, log: seq<Sealing>, overhead: nat, step: nat, ghost content: Bytes)
    returns (r: Result<Bytes, StreamError>)
    requires SoundLog(log, overhead) && step >= 1
    ensures r.Ok? <==> AllLoad(src, log, overhead)
    ensures r.Err? ==> r.error == Tampered
    ensures Reads(src, log, overhead, content) ==> r == Ok(content)
  {
    var found := ShapeOf(|src|, overhead);
    if found.None? {
      return Err(Tampered);
    }
    ShapeEnds(|src|, overhead);
    var reader := new SealedReader(src, log, overhead, found.value);
    var ok := reader.LoadBlock(found.value.blocks - 1);
    if !ok {
      return Err(Tampered);
    }
    r := reader.ReadToEnd(step, content);
  }

  /** The writer's log is sound, and under it only the writer's file reads, as its content. */
  lemma WhatReads(key: Key, salt: Bytes, content: Bytes, src: Bytes)
    requires key.Sound() && |salt| == SALT_LEN && |content| < U64 && |src| < U64
    requires |src| >= SALT_LEN && src[..SALT_LEN] == salt
    ensures SoundLog(WriterLog(key, content), key.overhead)
    ensures AllLoad(src, WriterLog(key, content), key.overhead) <==> src == File(key, salt, content)
    ensures src == File(key, salt, content) ==> Reads(src, WriterLog(key, content), key.overhead, content)
  {
    OnlyTheWritersFileLoads(key, content, src);
    if src == File(key, salt, content) {
      FileShape(key, salt, content);
      forall i | 0 <= i < BlockCount(|content|)
        ensures Load(src, WriterLog(key, content), key.overhead, i) == Some(BlockPlain(content, i))
      {
        GenuineLoads(key, salt, content, i);
      }
    }
  }

  lemma NothingLoads(src: Bytes, overhead: nat)
    ensures !AllLoad(src, [], overhead)
  {
    if ShapeOf(|src|, overhead).Some? {
      ShapeEnds(|src|, overhead);
      assert Load(src, [], overhead, ShapeOf(|src|, overhead).value.blocks - 1).None?;
    }
  }

  /**
   Under the writer's key, and no other key having sealed anything here, reading succeeds exactly on
   the writer's own file, and then gives exactly what the writer was given.
   */
  method ReadBack(src: Bytes, keyFor: Bytes -> seq<Sealing>, key: Key, step: nat, ghost salt: Bytes,
                  ghost content: Bytes)
    returns (r: Result<Bytes, StreamError>)
    requires key.Sound() && step >= 1 && |salt| == SALT_LEN && |content| < U64 && |src| < U64
    requires forall s :: keyFor(s) == if s == salt then WriterLog(key, content) else []
    ensures r == if src == File(key, salt, content) then Ok(content) else Err(Tampered)
  {
    if |src| < SALT_LEN {
      return Err(Tampered);
    }
    assert File(key, salt, content)[..SALT_LEN] == salt;
    NothingLoads(src, key.overhead);
    if src[..SALT_LEN] == salt {
      WhatReads(key, salt, content, src);
    }
    r := ReadFile(src, keyFor(src[..SALT_LEN]), key.overhead, step, content);
  }
}
