/**
 Changes and their row format in the log (src/journal.rs:14-143): a version byte, a tag, three fields
 with their lengths, and a size.
 */
module ChangeCodec {
  import opened Prelude

  /** Texts are kept as their UTF-8 bytes. */
  type Text = Bytes

  datatype ChangeKind =
    | Upsert(table: Text, key: Text, value: Bytes)
    | Delete(table: Text, key: Text)
    | TableReset(table: Text, snapshot: Text)
    | BlobPut(table: Text, key: Text, blobId: Text, size: nat)
    | BlobDelete(table: Text, key: Text, blobId: Text, size: nat)

  datatype RowError = Corrupt

  // ---- UTF-8, as section 4 of RFC 3629 gives it ----

  predicate Tail(b: Bytes, i: nat, lo: nat, hi: nat) {
    i < |b| && lo <= b[i] <= hi
  }

  /** The length of the character `b` starts with, 0 if there is none. */
  function CharLen(b: Bytes): (n: nat)
    ensures n <= |b|
  {
    if b == [] then 0
    else if b[0] < 0x80 then 1
    else if 0xC2 <= b[0] <= 0xDF && Tail(b, 1, 0x80, 0xBF) then 2
    else if 0xE0 <= b[0] <= 0xEF && Tail(b, 1, if b[0] == 0xE0 then 0xA0 else 0x80, if b[0] == 0xED then 0x9F else 0xBF)
            && Tail(b, 2, 0x80, 0xBF) then 3
    else if 0xF0 <= b[0] <= 0xF4 && Tail(b, 1, if b[0] == 0xF0 then 0x90 else 0x80, if b[0] == 0xF4 then 0x8F else 0xBF)
            && Tail(b, 2, 0x80, 0xBF) && Tail(b, 3, 0x80, 0xBF) then 4
    else 0
  }

  predicate IsUtf8(b: Bytes)
    decreases |b|
  {
    b == [] || (CharLen(b) > 0 && IsUtf8(b[CharLen(b)..]))
  }

  // ---- frames ----

  /** The five parts of a row. */
  datatype Frame = Frame(tag: Byte, table: Bytes, key: Bytes, payload: Bytes, size: nat)

  predicate Proper(f: Frame) {
    |f.table| < U64 && |f.key| < U64 && |f.payload| < U64 && f.size < U64
  }

  function Field(x: Bytes): Bytes {
    Be64(|x|) + x
  }

  function AfterKey(f: Frame): Bytes {
    Field(f.payload) + Be64(f.size)
  }

  function AfterTable(f: Frame): Bytes {
    Field(f.key) + AfterKey(f)
  }

  function AfterTag(f: Frame): Bytes {
    Field(f.table) + AfterTable(f)
  }

  function Row(f: Frame): Bytes {
    [1, f.tag] + AfterTag(f)
  }

  function Parts(c: ChangeKind): Frame {
    match c
    case Upsert(t, k, v) => Frame(0, t, k, v, 0)
    case Delete(t, k) => Frame(1, t, k, [], 0)
    case TableReset(t, s) => Frame(2, t, [], s, 0)
    case BlobPut(t, k, id, n) => Frame(3, t, k, id, n)
    case BlobDelete(t, k, id, n) => Frame(4, t, k, id, n)
  }

  /** What the source's types and machine guarantee of a change: texts are UTF-8, numbers fit a u64. */
  predicate Sound(c: ChangeKind) {
    var f := Parts(c);
    Proper(f) && IsUtf8(f.table) && IsUtf8(f.key) && (f.tag > 1 ==> IsUtf8(f.payload))
  }

  function Encoded(c: ChangeKind): Bytes {
    Row(Parts(c))
  }

  /** The change a frame stands for; unused parts are ignored. */
  function Build(f: Frame): (r: Result<ChangeKind, RowError>)
    ensures r.Ok? && Proper(f) ==> Sound(r.value)
  {
    if !IsUtf8(f.table) || !IsUtf8(f.key) then Err(Corrupt)
    else if f.tag == 0 then Ok(Upsert(f.table, f.key, f.payload))
    else if f.tag == 1 then Ok(Delete(f.table, f.key))
    else if f.tag > 4 || !IsUtf8(f.payload) then Err(Corrupt)
    else if f.tag == 2 then Ok(TableReset(f.table, f.payload))
    else if f.tag == 3 then Ok(BlobPut(f.table, f.key, f.payload, f.size))
    else Ok(BlobDelete(f.table, f.key, f.payload, f.size))
  }

  ghost predicate IsRow(bytes: Bytes, f: Frame) {
    Proper(f) && Row(f) == bytes
  }

  /** What bytes decode to: the change of the frame they are, and an error if they are none. */
  ghost function Decoded(bytes: Bytes): Result<ChangeKind, RowError> {
    if exists f :: IsRow(bytes, f) then Build(FrameOf(bytes)) else Err(Corrupt)
  }

  ghost function FrameOf(bytes: Bytes): (f: Frame)
    requires exists f :: IsRow(bytes, f)
    ensures IsRow(bytes, f)
  {
    var f :| IsRow(bytes, f);
    f
  }

  // ---- one reading of every row ----

  lemma FieldSplits(x: Bytes, t: Bytes, y: Bytes, u: Bytes)
    requires |x| < U64 && |y| < U64 && Field(x) + t <= Field(y) + u
    ensures x == y && t <= u
  {
    var p, q := Field(x) + t, Field(y) + u;
    assert p[..8] == Be64(|x|) && q[..8] == Be64(|y|);
    assert p[..8] == q[..8];
    Be64RoundTrip(|x|);
    Be64RoundTrip(|y|);
    assert p[8..8 + |x|] == x && q[8..8 + |x|] == y;
    assert p[8 + |x|..] == t && q[8 + |x|..] == u;
  }

  /** No row starts another. */
  lemma RowsArePrefixFree(f: Frame, g: Frame)
    requires Proper(f) && Proper(g) && Row(f) <= Row(g)
    ensures f == g
  {
    assert Row(f)[1] == Row(g)[1];
    assert Row(f)[2..] == AfterTag(f) && Row(g)[2..] == AfterTag(g);
    FieldSplits(f.table, AfterTable(f), g.table, AfterTable(g));
    FieldSplits(f.key, AfterKey(f), g.key, AfterKey(g));
    FieldSplits(f.payload, Be64(f.size), g.payload, Be64(g.size));
    assert Be64(f.size) == Be64(g.size)[..8] == Be64(g.size);
    Be64RoundTrip(f.size);
    Be64RoundTrip(g.size);
  }

  lemma DecodedRow(f: Frame)
    requires Proper(f)
    ensures Decoded(Row(f)) == Build(f)
  {
    assert IsRow(Row(f), f);
    RowsArePrefixFree(FrameOf(Row(f)), f);
  }

  /** Every change decodes from its encoding to itself. */
  lemma RoundTrip(c: ChangeKind)
    requires Sound(c)
    ensures Decoded(Encoded(c)) == Ok(c)
  {
    DecodedRow(Parts(c));
  }

  /** Every strict prefix of an encoding is rejected. */
  lemma PrefixRejected(c: ChangeKind, n: nat)
    requires Sound(c) && n < |Encoded(c)|
    ensures Decoded(Encoded(c)[..n]) == Err(Corrupt)
  {
    var cut := Encoded(c)[..n];
    forall f ensures !IsRow(cut, f) {
      if IsRow(cut, f) {
        RowsArePrefixFree(f, Parts(c));
      }
    }
  }

  /** An accepted row is the encoding of its change exactly when the parts its tag does not use are blank. */
  lemma ReencodesWhenBlank(f: Frame)
    requires Proper(f) && Build(f).Ok?
    ensures Encoded(Build(f).value) == Row(f)
       <==> (f.tag <= 2 ==> f.size == 0) && (f.tag == 1 ==> f.payload == []) && (f.tag == 2 ==> f.key == [])
  {
    if Encoded(Build(f).value) == Row(f) {
      RowsArePrefixFree(Parts(Build(f).value), f);
    }
  }

  /** A delete of row "k" of table "t" with a payload is accepted, and is not what that delete encodes to. */
  lemma ReencodeExample()
    ensures var f, c := Frame(1, [116], [107], [0], 0), Delete([116], [107]);
            Decoded(Row(f)) == Ok(c) && Decoded(Encoded(c)) == Ok(c) && Encoded(c) != Row(f)
  {
    var f, c := Frame(1, [116], [107], [0], 0), Delete([116], [107]);
    assert IsUtf8([116]) && IsUtf8([107]);
    DecodedRow(f);
    ReencodesWhenBlank(f);
    RoundTrip(c);
  }

  // ---- the two methods ----

  function Fields(parts: seq<Bytes>): Bytes {
    if parts == [] then [] else Fields(parts[..|parts| - 1]) + Field(parts[|parts| - 1])
  }

  lemma RowIsFields(f: Frame)
    ensures Row(f) == [1, f.tag] + Fields([f.table, f.key, f.payload]) + Be64(f.size)
  {
    var parts := [f.table, f.key, f.payload];
    assert parts[..2] == [f.table, f.key] && parts[..2][..1] == [f.table];
    assert Fields([f.table]) == [] + Field(f.table);
    assert Fields(parts) == Field(f.table) + Field(f.key) + Field(f.payload);
  }

  method AppendFields(start: Bytes, parts: seq<Bytes>) returns (bytes: Bytes)
    ensures bytes == start + Fields(parts)
  {
    bytes := start;
    var i := 0;
    while i < |parts|
      invariant 0 <= i <= |parts|
      invariant bytes == start + Fields(parts[..i])
    {
      assert parts[..i + 1][..i] == parts[..i];
      bytes := bytes + Be64(|parts[i]|);
      bytes := bytes + parts[i];
      i := i + 1;
    }
    assert parts[..|parts|] == parts;
  }

  method Encode(c: ChangeKind) returns (bytes: Bytes)
    requires Sound(c)
    ensures bytes == Encoded(c)
  {
    var f := Parts(c);
    RowIsFields(f);
    bytes := AppendFields([1, f.tag], [f.table, f.key, f.payload]);
    bytes := bytes + Be64(f.size);
  }

  /** Cut `n` bytes off the front. */
  method Take(bytes: Bytes, n: nat) returns (r: Option<Bytes>, rest: Bytes)
    ensures r.Some? <==> n <= |bytes|
    ensures r.Some? ==> |r.value| == n && r.value + rest == bytes
  {
    if |bytes| < n {
      return None, bytes;
    }
    r, rest := Some(bytes[..n]), bytes[n..];
  }

  /** Cut one field off the front, if there is one. */
  method TakeField(bytes: Bytes) returns (r: Option<Bytes>, rest: Bytes)
    ensures r.Some? ==> |r.value| < U64 && Field(r.value) + rest == bytes
    ensures r.None? ==> forall x: Bytes, t: Bytes :: |x| < U64 ==> Field(x) + t != bytes
  {
    var len;
    len, rest := Take(bytes, 8);
    if len.None? {
      return None, bytes;
    }
    Be64Exact(len.value);
    var n := FromBigEndian(len.value);
    ghost var body := rest;
    r, rest := Take(rest, n);
    if r.None? {
      forall x: Bytes, t: Bytes | |x| < U64 ensures Field(x) + t != bytes {
        assert |Field(x) + t| == 8 + |x| + |t| && (Field(x) + t)[..8] == Be64(|x|);
        Be64RoundTrip(|x|);
        assert bytes[..8] == len.value && |bytes| == 8 + |body|;
      }
    } else {
      assert Field(r.value) + rest == len.value + (r.value + rest);
    }
  }

  lemma OnlyThisField(x: Bytes, t: Bytes, bytes: Bytes)
    requires |x| < U64 && bytes == Field(x) + t
    ensures forall y: Bytes, u: Bytes :: |y| < U64 && bytes == Field(y) + u ==> y == x && u == t
  {
    forall y: Bytes, u: Bytes | |y| < U64 && bytes == Field(y) + u ensures y == x && u == t {
      FieldSplits(x, t, y, u);
      FieldSplits(y, u, x, t);
    }
  }

  lemma RowStarts(row: Bytes)
    ensures forall f :: IsRow(row, f) ==> |row| >= 2 && row[0] == 1 && row[1] == f.tag && row[2..] == AfterTag(f)
  {
  }

  /** Decoding moves a cursor over the row. */
  method Decode(row: Bytes) returns (r: Result<ChangeKind, RowError>)
    ensures r == Decoded(row)
  {
    RowStarts(row);
    var version, rest := Take(row, 1);
    if version.None? || version.value != [1] {
      return Err(Corrupt);
    }
    var tag;
    tag, rest := Take(rest, 1);
    if tag.None? {
      return Err(Corrupt);
    }
    assert row == [1, tag.value[0]] + rest;
    var f;
    f, rest := DecodeFields(tag.value[0], rest, row);
    if f.None? {
      return Err(Corrupt);
    }
    DecodedRow(f.value);
    r := Build(f.value);
  }

  /** The rest of a row after its tag. */
  method DecodeFields(tag: Byte, bytes: Bytes, ghost row: Bytes) returns (f: Option<Frame>, rest: Bytes)
    requires row == [1, tag] + bytes
    requires forall f :: IsRow(row, f) ==> f.tag == tag && AfterTag(f) == bytes
    ensures f.Some? ==> IsRow(row, f.value)
    ensures f.None? ==> forall f :: !IsRow(row, f)
  {
    var table, key, payload, size;
    table, rest := TakeField(bytes);
    if table.None? {
      return None, rest;
    }
    OnlyThisField(table.value, rest, bytes);
    ghost var keyAt := rest;
    key, rest := TakeField(rest);
    if key.None? {
      return None, rest;
    }
    OnlyThisField(key.value, rest, keyAt);
    ghost var payloadAt := rest;
    payload, rest := TakeField(rest);
    if payload.None? {
      return None, rest;
    }
    OnlyThisField(payload.value, rest, payloadAt);
    ghost var sizeAt := rest;
    assert forall f :: IsRow(row, f) ==> Be64(f.size) == sizeAt;
    size, rest := Take(rest, 8);
    if size.None? || rest != [] {
      return None, rest;
    }
    Be64Exact(size.value);
    f := Some(Frame(tag, table.value, key.value, payload.value, FromBigEndian(size.value)));
    assert size.value == sizeAt;
  }
}
