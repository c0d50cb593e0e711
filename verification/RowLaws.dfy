/** What the bytes of a log row hold, and which bytes are text: the UTF-8 forms of section 3 of RFC 3629. */
module RowLaws {
  import opened Prelude
  import opened ChangeCodec

  /** A Unicode scalar value. */
  type Scalar = x: int | 0 <= x < 0xD800 || 0xE000 <= x < 0x11_0000

  function CharBytes(c: Scalar): (b: Bytes)
    ensures 1 <= |b| <= 4
  {
    if c < 0x80 then [c]
    else if c < 0x800 then [0xC0 + c / 64, 0x80 + c % 64]
    else if c < 0x1_0000 then [0xE0 + c / 4096, 0x80 + c / 64 % 64, 0x80 + c % 64]
    else [0xF0 + c / 262144, 0x80 + c / 4096 % 64, 0x80 + c / 64 % 64, 0x80 + c % 64]
  }

  function TextBytes(cs: seq<Scalar>): Bytes {
    if cs == [] then [] else CharBytes(cs[0]) + TextBytes(cs[1..])
  }

  lemma CharIsTaken(c: Scalar, rest: Bytes)
    ensures CharLen(CharBytes(c) + rest) == |CharBytes(c)|
  {
  }

  /** A number of six-bit digits. */
  function Sextets(a: nat, b: nat, c: nat, d: nat): nat {
    ((a * 64 + b) * 64 + c) * 64 + d
  }

  lemma SextetsApart(a: nat, b: nat, c: nat, d: nat)
    requires b < 64 && c < 64 && d < 64
    ensures var n := Sextets(a, b, c, d);
            n % 64 == d && n / 64 % 64 == c && n / 4096 % 64 == b && n / 262144 == a && n / 4096 == a * 64 + b
  {
    var n := Sextets(a, b, c, d);
    assert n / 64 == (a * 64 + b) * 64 + c;
    assert n / 4096 == n / 64 / 64 && n / 262144 == n / 4096 / 64;
  }

  ghost predicate IsChar(b: Bytes) {
    exists c: Scalar :: CharBytes(c) == b
  }

  lemma TwoBytes(c: nat, d: nat)
    requires 2 <= c < 32 && d < 64
    ensures IsChar([0xC0 + c, 0x80 + d])
  {
    SextetsApart(0, 0, c, d);
    assert CharBytes(Sextets(0, 0, c, d)) == [0xC0 + c, 0x80 + d];
  }

  lemma ThreeBytes(b: nat, c: nat, d: nat)
    requires b < 16 && c < 64 && d < 64 && (b == 0 ==> 32 <= c) && (b == 13 ==> c < 32)
    ensures IsChar([0xE0 + b, 0x80 + c, 0x80 + d])
  {
    SextetsApart(0, b, c, d);
    assert CharBytes(Sextets(0, b, c, d)) == [0xE0 + b, 0x80 + c, 0x80 + d];
  }

  lemma FourBytes(a: nat, b: nat, c: nat, d: nat)
    requires a <= 4 && b < 64 && c < 64 && d < 64 && (a == 0 ==> 16 <= b) && (a == 4 ==> b < 16)
    ensures IsChar([0xF0 + a, 0x80 + b, 0x80 + c, 0x80 + d])
  {
    SextetsApart(a, b, c, d);
    assert CharBytes(Sextets(a, b, c, d)) == [0xF0 + a, 0x80 + b, 0x80 + c, 0x80 + d];
  }

  lemma TakenIsChar(b: Bytes)
    requires CharLen(b) > 0
    ensures IsChar(b[..CharLen(b)])
  {
    var n := CharLen(b);
    var x: int := b[0];
    if n == 1 {
      assert CharBytes(x) == b[..1];
    } else if n == 2 {
      var y: int := b[1];
      TwoBytes(x - 0xC0, y - 0x80);
      assert b[..2] == [x, y];
    } else if n == 3 {
      var y: int, z: int := b[1], b[2];
      ThreeBytes(x - 0xE0, y - 0x80, z - 0x80);
      assert b[..3] == [x, y, z];
    } else {
      var y: int, z: int, w: int := b[1], b[2], b[3];
      FourBytes(x - 0xF0, y - 0x80, z - 0x80, w - 0x80);
      assert b[..4] == [x, y, z, w];
    }
  }

  lemma {:induction false} TextIsUtf8(cs: seq<Scalar>)
    ensures IsUtf8(TextBytes(cs))
  {
    if cs != [] {
      TextIsUtf8(cs[1..]);
      CharIsTaken(cs[0], TextBytes(cs[1..]));
      var b := TextBytes(cs);
      assert b[|CharBytes(cs[0])|..] == TextBytes(cs[1..]);
    }
  }

  lemma {:induction false} Utf8IsText(b: Bytes) returns (cs: seq<Scalar>)
    requires IsUtf8(b)
    ensures TextBytes(cs) == b
    decreases |b|
  {
    cs := [];
    if b != [] {
      TakenIsChar(b);
      var c: Scalar :| CharBytes(c) == b[..CharLen(b)];
      var rest := Utf8IsText(b[CharLen(b)..]);
      cs := [c] + rest;
      assert cs[1..] == rest;
    }
  }

  /** Bytes are accepted as text exactly if they are the encoding of some characters. */
  lemma Utf8Means(b: Bytes)
    ensures IsUtf8(b) <==> exists cs :: TextBytes(cs) == b
  {
    if IsUtf8(b) {
      var cs := Utf8IsText(b);
    }
    if cs :| TextBytes(cs) == b {
      TextIsUtf8(cs);
    }
  }

  /** `b` starts with the length of `x`, as a big-endian u64, and then `x`. */
  ghost predicate Holds(b: Bytes, x: Bytes) {
    8 + |x| <= |b| && FromBigEndian(b[..8]) == |x| && b[8..8 + |x|] == x
  }

  /** A row is a version, a tag, three parts, each after its length, and a size. */
  ghost predicate Laid(row: Bytes, tag: Byte, table: Bytes, key: Bytes, payload: Bytes, size: nat) {
    && 2 <= |row| && row[..2] == [1, tag]
    && Holds(row[2..], table)
    && var k := row[2..][8 + |table|..];
    && Holds(k, key)
    && var p := k[8 + |key|..];
    && Holds(p, payload)
    && var n := p[8 + |payload|..];
    && |n| == 8 && FromBigEndian(n) == size
  }

  lemma FieldHolds(x: Bytes, rest: Bytes)
    requires |x| < U64
    ensures Holds(Field(x) + rest, x) && (Field(x) + rest)[8 + |x|..] == rest
  {
    Be64RoundTrip(|x|);
    assert (Field(x) + rest)[..8] == Be64(|x|);
  }

  lemma RowLaid(f: Frame)
    requires Proper(f)
    ensures Laid(Row(f), f.tag, f.table, f.key, f.payload, f.size)
  {
    assert Row(f)[2..] == AfterTag(f);
    FieldHolds(f.table, AfterTable(f));
    FieldHolds(f.key, AfterKey(f));
    FieldHolds(f.payload, Be64(f.size));
    Be64RoundTrip(f.size);
  }

  /** What the bytes of a change hold, and where. */
  lemma EncodedMeans(c: ChangeKind)
    requires Sound(c)
    ensures match c
            case Upsert(t, k, v) => Laid(Encoded(c), 0, t, k, v, 0)
            case Delete(t, k) => Laid(Encoded(c), 1, t, k, [], 0)
            case TableReset(t, s) => Laid(Encoded(c), 2, t, [], s, 0)
            case BlobPut(t, k, id, n) => Laid(Encoded(c), 3, t, k, id, n)
            case BlobDelete(t, k, id, n) => Laid(Encoded(c), 4, t, k, id, n)
  {
    RowLaid(Parts(c));
  }

  /** The most significant byte comes first. */
  lemma BigEndianOrder()
    ensures FromBigEndian([1, 2, 3]) == 0x010203
  {
    assert [1, 2, 3][..2] == [1, 2] && [1, 2][..1] == [1] && [1][..0] == [];
    assert FromBigEndian([1]) == 1;
    assert FromBigEndian([1, 2]) == 0x0102;
  }
}
