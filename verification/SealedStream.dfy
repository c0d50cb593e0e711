/**
 The writer of sealed files (src/encrypted_store/sealed.rs): after a salt come blocks of one size, each
 sealed under its number, and a shorter or equal one whose label also carries the total.
 */
module SealedStream {
  import opened Prelude
  import opened Layout

  const SALT_LEN: nat := 32
  /** A block holds this much content, or less if it is the last. */
  const BLOCK: nat := 65536

  datatype StreamError = Tampered | SeekBeforeStart

  /**
   A file's own key. Every label is used at most once in a file, so a sealed block is a function of
   label and plaintext; it is `overhead` bytes longer than the plaintext.
   */
  datatype Key = Key(seal: (Bytes, Bytes) -> Bytes, overhead: nat) {
    ghost predicate Sound() {
      overhead >= 1 && forall a, p :: |seal(a, p)| == |p| + overhead
    }
  }

  // ---- what a block is bound to ----

  function Aad(index: nat, lastTotal: Option<nat>): Bytes {
    [115] + Le64(index) + match lastTotal { case None => [0] case Some(total) => [1] + Le64(total) }
  }

  /** The binding text tells the block number, whether the block is last, and the total length. */
  lemma AadInjective(i: nat, a: Option<nat>, j: nat, b: Option<nat>)
    requires i < U64 && j < U64 && (a.Some? ==> a.value < U64) && (b.Some? ==> b.value < U64)
    requires Aad(i, a) == Aad(j, b)
    ensures i == j && a == b
  {
    var x, y := Aad(i, a), Aad(j, b);
    Le64RoundTrip(i);
    Le64RoundTrip(j);
    assert x[1..9] == Le64(i) && y[1..9] == Le64(j);
    assert x[9] == (if a.None? then 0 else 1) && y[9] == (if b.None? then 0 else 1);
    assert a.Some? <==> b.Some?;
    if a.Some? {
      Le64RoundTrip(a.value);
      Le64RoundTrip(b.value);
      assert x[10..] == Le64(a.value) && y[10..] == Le64(b.value);
    }
  }

  // ---- the file of a byte string ----

  function BlockCount(total: nat): (n: nat)
    ensures n >= 1 && (n - 1) * BLOCK <= total <= n * BLOCK && (n > 1 ==> (n - 1) * BLOCK < total)
  {
    if total == 0 then 1 else (total - 1) / BLOCK + 1
  }

  function BlockPlain(content: Bytes, i: nat): (p: Bytes)
    requires i < BlockCount(|content|)
    ensures |p| <= BLOCK && (i + 1 < BlockCount(|content|) ==> |p| == BLOCK)
  {
    if i + 1 == BlockCount(|content|) then content[i * BLOCK..] else content[i * BLOCK..(i + 1) * BLOCK]
  }

  function BlockLabel(content: Bytes, i: nat): Bytes
    requires i < BlockCount(|content|)
  {
    Aad(i, if i + 1 == BlockCount(|content|) then Some(|content|) else None)
  }

  function BlockSealed(key: Key, content: Bytes, i: nat): Bytes
    requires i < BlockCount(|content|)
  {
    key.seal(BlockLabel(content, i), BlockPlain(content, i))
  }

  /** Blocks `0..n` of the file of `content`. */
  function Blocks(key: Key, content: Bytes, n: nat): Bytes
    requires n <= BlockCount(|content|)
  {
    if n == 0 then [] else Blocks(key, content, n - 1) + BlockSealed(key, content, n - 1)
  }

  /** The file of `content`: it says nothing about how the content was handed over. */
  function File(key: Key, salt: Bytes, content: Bytes): Bytes {
    salt + Blocks(key, content, BlockCount(|content|))
  }

  /** Full blocks sealed before more data arrived, none of them last. */
  function Emitted(key: Key, content: Bytes, n: nat): Bytes
    requires n * BLOCK <= |content|
  {
    if n == 0 then []
    else Emitted(key, content, n - 1) + key.seal(Aad(n - 1, None), content[(n - 1) * BLOCK..n * BLOCK])
  }

  lemma {:induction false} EmittedIsBlocks(key: Key, content: Bytes, n: nat)
    requires n < BlockCount(|content|)
    ensures n * BLOCK <= |content| && Emitted(key, content, n) == Blocks(key, content, n)
  {
    if n > 0 {
      EmittedIsBlocks(key, content, n - 1);
    }
  }

  lemma {:induction false} EmittedKeeps(key: Key, content: Bytes, more: Bytes, n: nat)
    requires n * BLOCK <= |content|
    ensures Emitted(key, content + more, n) == Emitted(key, content, n)
  {
    if n > 0 {
      EmittedKeeps(key, content, more, n - 1);
      assert (content + more)[(n - 1) * BLOCK..n * BLOCK] == content[(n - 1) * BLOCK..n * BLOCK];
    }
  }

  lemma FullBlock(key: Key, content: Bytes, n: nat, buf: Bytes)
    requires n * BLOCK <= |content| && buf == content[n * BLOCK..] && |buf| == BLOCK
    ensures |content| == (n + 1) * BLOCK && content[(n + 1) * BLOCK..] == []
    ensures Emitted(key, content, n + 1) == Emitted(key, content, n) + key.seal(Aad(n, None), buf)
  {
    assert content[n * BLOCK..(n + 1) * BLOCK] == buf;
  }

  lemma TailGrows(a: Bytes, b: Bytes, k: nat)
    requires k <= |a|
    ensures (a + b)[k..] == a[k..] + b
  {
  }

  /** All full blocks before the current one are sealed in `out`; `buf` is what `content` has beyond them. */
  ghost predicate Filling(key: Key, salt: Bytes, content: Bytes, out: Bytes, index: nat, buf: Bytes) {
    && index * BLOCK <= |content| && buf == content[index * BLOCK..] && |buf| <= BLOCK
    && out == salt + Emitted(key, content, index)
  }

  lemma AfterFullBlock(key: Key, salt: Bytes, content: Bytes, out: Bytes, index: nat, buf: Bytes)
    requires Filling(key, salt, content, out, index, buf) && |buf| == BLOCK
    ensures Filling(key, salt, content, out + key.seal(Aad(index, None), buf), index + 1, [])
  {
    FullBlock(key, content, index, buf);
    assert (salt + Emitted(key, content, index)) + key.seal(Aad(index, None), buf)
        == salt + (Emitted(key, content, index) + key.seal(Aad(index, None), buf));
  }

  lemma BlockGrows(key: Key, salt: Bytes, content: Bytes, out: Bytes, index: nat, buf: Bytes, more: Bytes)
    requires Filling(key, salt, content, out, index, buf) && |buf| + |more| <= BLOCK
    ensures Filling(key, salt, content + more, out, index, buf + more)
  {
    EmittedKeeps(key, content, more, index);
    TailGrows(content, more, index * BLOCK);
  }

  lemma LastIndex(total: nat, index: nat, left: nat)
    requires index * BLOCK + left == total && left <= BLOCK && (index > 0 ==> left > 0)
    ensures index == BlockCount(total) - 1
  {
  }

  lemma LastSealed(key: Key, content: Bytes, index: nat, buf: Bytes)
    requires index + 1 == BlockCount(|content|) && index * BLOCK <= |content| && buf == content[index * BLOCK..]
    ensures Blocks(key, content, index + 1)
         == Blocks(key, content, index) + key.seal(Aad(index, Some(|content|)), buf)
  {
  }

  lemma Appended(a: Bytes, b: Bytes, c: Bytes)
    ensures (a + b) + c == a + (b + c)
  {
  }

  /** Sealing what is left, with the total, completes the file. */
  lemma LastBlock(key: Key, salt: Bytes, content: Bytes, out: Bytes, index: nat, buf: Bytes)
    requires Filling(key, salt, content, out, index, buf) && (index > 0 ==> buf != [])
    ensures out + key.seal(Aad(index, Some(|content|)), buf) == File(key, salt, content)
  {
    LastIndex(|content|, index, |buf|);
    EmittedIsBlocks(key, content, index);
    LastSealed(key, content, index, buf);
    Appended(salt, Blocks(key, content, index), key.seal(Aad(index, Some(|content|)), buf));
  }

  class SealedWriter {
    const key: Key
    const salt: Bytes
    var out: Bytes
    var index: nat
    /** Content not sealed yet; as long as it may be the end, even a whole block of it. */
    var buf: Bytes
    var total: nat
    /** Everything written so far. */
    ghost var content: Bytes

    ghost predicate Valid()
      reads this
    {
      && total == |content|
      && (index > 0 ==> buf != [])
      && Filling(key, salt, content, out, index, buf)
    }

    constructor (key: Key, salt: Bytes)
      ensures Valid() && content == [] && this.key == key && this.salt == salt
    {
      this.key := key;
      this.salt := salt;
      out := salt;
      index := 0;
      buf := [];
      total := 0;
      content := [];
      new;
      assert out == salt + Emitted(key, content, 0);
    }

    method Emit(last: bool)
      modifies this`out, this`index, this`buf
      ensures out == old(out) + key.seal(Aad(old(index), if last then Some(total) else None), old(buf))
      ensures index == old(index) + 1 && buf == []
    {
      out := out + key.seal(Aad(index, if last then Some(total) else None), buf);
      index := index + 1;
      buf := [];
    }

    /** Take as much of `data` as fits the current block. */
    method Write(data: Bytes) returns (n: nat)
      requires Valid()
      modifies this`out, this`index, this`buf, this`total, this`content
      ensures Valid() && n <= |data| && (data != [] ==> n > 0)
      ensures content == old(content) + data[..n]
    {
      if data == [] {
        assert content + data[..0] == content;
        return 0;
      }
      if |buf| == BLOCK {
        AfterFullBlock(key, salt, content, out, index, buf);
        Emit(false);
      }
      n := Min(BLOCK - |buf|, |data|);
      Take(data[..n]);
    }

    method Take(more: Bytes)
      requires total == |content| && Filling(key, salt, content, out, index, buf) && more != []
               && |buf| + |more| <= BLOCK
      modifies this`buf, this`total, this`content
      ensures Valid() && content == old(content) + more
    {
      BlockGrows(key, salt, content, out, index, buf, more);
      buf := buf + more;
      total := total + |more|;
      content := content + more;
    }

    method WriteAll(data: Bytes)
      requires Valid()
      modifies this`out, this`index, this`buf, this`total, this`content
      ensures Valid() && content == old(content) + data
    {
      var done := 0;
      assert content == content + data[..0];
      while done < |data|
        invariant 0 <= done <= |data| && Valid()
        invariant content == old(content) + data[..done]
      {
        var n := Write(data[done..]);
        assert data[..done] + data[done..][..n] == data[..done + n];
        done := done + n;
      }
    }

    /** Close the file with its last block. */
    method Finish() returns (file: Bytes)
      requires Valid()
      modifies this`out, this`index, this`buf
      ensures file == File(key, salt, content)
    {
      LastBlock(key, salt, content, out, index, buf);
      Emit(true);
      file := out;
    }
  }

  function Concat(parts: seq<Bytes>): Bytes {
    if parts == [] then [] else Concat(parts[..|parts| - 1]) + parts[|parts| - 1]
  }

  /** However the input is cut into write calls, the file is the one of the whole input. */
  method SealParts(key: Key, salt: Bytes, parts: seq<Bytes>) returns (file: Bytes)
    ensures file == File(key, salt, Concat(parts))
  {
    var w := new SealedWriter(key, salt);
    for i := 0 to |parts|
      invariant w.Valid() && w.key == key && w.salt == salt
      invariant w.content == Concat(parts[..i])
    {
      w.WriteAll(parts[i]);
      assert parts[..i + 1][..i] == parts[..i];
    }
    assert parts[..|parts|] == parts;
    file := w.Finish();
  }
}
