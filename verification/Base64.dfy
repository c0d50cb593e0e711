/**
 Base64 (sections 4 and 5 of RFC 4648), with one spelling of every byte string (section 3.5): three
 bytes and four digits are the same 24-bit number.
 */
module Base64 {
  import opened Prelude

  type Digit = x: int | 0 <= x < 64

  /** The two last letters of an alphabet, and whether short groups are filled up with '='. */
  datatype Alphabet = Alphabet(c62: Byte, c63: Byte, padded: bool)

  const PAD: Byte := 61
  const STANDARD := Alphabet(43, 47, true)
  const URL_SAFE := Alphabet(45, 95, false)

  predicate Alphanumeric(c: Byte) {
    48 <= c <= 57 || 65 <= c <= 90 || 97 <= c <= 122
  }

  predicate Usable(a: Alphabet) {
    a.c62 != a.c63 && !Alphanumeric(a.c62) && !Alphanumeric(a.c63) && a.c62 != PAD && a.c63 != PAD
  }

  function Letter(a: Alphabet, v: Digit): Byte {
    if v < 26 then 65 + v else if v < 52 then 71 + v else if v < 62 then v - 4 else if v == 62 then a.c62 else a.c63
  }

  function Value(a: Alphabet, c: Byte): Option<Digit> {
    if 65 <= c <= 90 then Some(c - 65) else if 97 <= c <= 122 then Some(c - 71) else if 48 <= c <= 57 then Some(c + 4)
    else if c == a.c62 then Some(62) else if c == a.c63 then Some(63) else None
  }

  lemma ValueIsInverse(a: Alphabet, c: Byte)
    requires Usable(a)
    ensures forall v: Digit :: Value(a, c) == Some(v) <==> Letter(a, v) == c
    ensures Value(a, PAD).None?
  {
  }

  function Letters(a: Alphabet, ds: seq<Digit>): (t: Bytes)
    ensures |t| == |ds| && forall i :: 0 <= i < |ds| ==> t[i] == Letter(a, ds[i])
  {
    seq(|ds|, i requires 0 <= i < |ds| => Letter(a, ds[i]))
  }

  // ---- groups ----

  function At(s: seq<int>, i: nat): int {
    if i < |s| then s[i] else 0
  }

  function ByteNumber(chunk: Bytes): nat {
    65536 * At(chunk, 0) + 256 * At(chunk, 1) + At(chunk, 2)
  }

  function DigitNumber(ds: seq<Digit>): nat {
    262144 * At(ds, 0) + 4096 * At(ds, 1) + 64 * At(ds, 2) + At(ds, 3)
  }

  predicate IsChunk(chunk: Bytes) {
    1 <= |chunk| <= 3
  }

  /** The digits of one to three bytes. */
  function GroupDigits(chunk: Bytes): (ds: seq<Digit>)
    requires IsChunk(chunk)
    ensures |ds| == |chunk| + 1
  {
    var n := ByteNumber(chunk);
    [n / 262144, n / 4096 % 64, n / 64 % 64, n % 64][..|chunk| + 1]
  }

  /** The bytes of two to four digits. */
  function GroupBytes(ds: seq<Digit>): (chunk: Bytes)
    requires 2 <= |ds| <= 4
    ensures |chunk| == |ds| - 1
  {
    var n := DigitNumber(ds);
    [n / 65536, n / 256 % 256, n % 256][..|ds| - 1]
  }

  /** The bytes of four digits, as shifts and masks cut them out. */
  function First(a: int, b: int): Byte
    requires 0 <= a < 64 && 0 <= b < 64
  {
    4 * a + b / 16
  }

  function Second(b: int, c: int): Byte
    requires 0 <= b < 64 && 0 <= c < 64
  {
    b % 16 * 16 + c / 4
  }

  function Third(c: int, d: int): Byte
    requires 0 <= c < 64 && 0 <= d < 64
  {
    c % 4 * 64 + d
  }

  /** The bits of the last digit beyond the last byte are zero. */
  predicate SpareBitsZero(ds: seq<Digit>)
    requires 2 <= |ds| <= 4
  {
    (|ds| == 2 ==> ds[1] % 16 == 0) && (|ds| == 3 ==> ds[2] % 4 == 0)
  }

  lemma SameNumber(n: nat)
    requires n < 16777216
    ensures 262144 * (n / 262144) + 4096 * (n / 4096 % 64) + 64 * (n / 64 % 64) + n % 64 == n
    ensures 65536 * (n / 65536) + 256 * (n / 256 % 256) + n % 256 == n
  {
    assert n / 4096 == n / 64 / 64 && n / 262144 == n / 64 / 64 / 64;
    assert n / 65536 == n / 256 / 256;
  }

  /** The digits of three bytes, as shifts and masks cut them out. */
  lemma ShiftForms(a: Byte, b: Byte, c: Byte)
    ensures var n := 65536 * a + 256 * b + c;
            && n / 262144 == a / 4 && n / 4096 % 64 == a % 4 * 16 + b / 16
            && n / 64 % 64 == b % 16 * 4 + c / 64 && n % 64 == c % 64
  {
    var n := 65536 * a + 256 * b + c;
    assert n / 64 == 1024 * a + 4 * b + c / 64;
    assert n / 4096 == 16 * a + b / 16;
    assert a == 4 * (a / 4) + a % 4 && b == 16 * (b / 16) + b % 16;
  }

  lemma ByteParts(a: Byte, b: Byte, c: Byte)
    ensures var n := 65536 * a + 256 * b + c; n / 65536 == a && n / 256 % 256 == b && n % 256 == c
  {
  }

  lemma DigitParts(a: Digit, b: Digit, c: Digit, d: Digit)
    ensures var n := 262144 * a + 4096 * b + 64 * c + d;
            n < 16777216 && n / 262144 == a && n / 4096 % 64 == b && n / 64 % 64 == c && n % 64 == d
  {
    var n := 262144 * a + 4096 * b + 64 * c + d;
    assert n / 64 == 4096 * a + 64 * b + c;
    assert n / 4096 == 64 * a + b;
  }

  lemma DigitBytes(a: Digit, b: Digit, c: Digit, d: Digit)
    ensures var n := 262144 * a + 4096 * b + 64 * c + d;
            n < 16777216 && n / 65536 == First(a, b) && n / 256 % 256 == Second(b, c) && n % 256 == Third(c, d)
  {
    var n := 262144 * a + 4096 * b + 64 * c + d;
    assert n / 65536 == 4 * a + b / 16;
    assert n / 256 == 1024 * a + 16 * b + c / 4;
    assert 16 * b == 256 * (b / 16) + b % 16 * 16;
  }

  /** The bytes of a group, as shifts and masks cut them out. */
  function ShiftBytes(ds: seq<Digit>): Bytes
    requires 2 <= |ds| <= 4
  {
    if |ds| == 2 then [First(ds[0], ds[1])]
    else if |ds| == 3 then [First(ds[0], ds[1]), Second(ds[1], ds[2])]
    else [First(ds[0], ds[1]), Second(ds[1], ds[2]), Third(ds[2], ds[3])]
  }

  lemma GroupBytesByShifts(ds: seq<Digit>)
    requires 2 <= |ds| <= 4
    ensures GroupBytes(ds) == ShiftBytes(ds)
  {
    DigitBytes(At(ds, 0), At(ds, 1), At(ds, 2), At(ds, 3));
    var n := DigitNumber(ds);
    FirstOfThree(n / 65536, n / 256 % 256, n % 256, |ds| - 1);
  }

  lemma FirstOfThree(x: Byte, y: Byte, z: Byte, k: nat)
    requires 1 <= k <= 3
    ensures [x, y, z][..k] == if k == 1 then [x] else if k == 2 then [x, y] else [x, y, z]
  {
  }

  /** The digits of a group are its number. */
  lemma GroupNumber(chunk: Bytes)
    requires IsChunk(chunk)
    ensures DigitNumber(GroupDigits(chunk)) == ByteNumber(chunk)
  {
    var n := ByteNumber(chunk);
    SameNumber(n);
    ShiftForms(At(chunk, 0), At(chunk, 1), At(chunk, 2));
    ShortDigits(n / 262144, n / 4096 % 64, n / 64 % 64, n % 64, |chunk| + 1);
  }

  lemma GroupSpare(chunk: Bytes)
    requires IsChunk(chunk)
    ensures SpareBitsZero(GroupDigits(chunk))
  {
    ShiftForms(At(chunk, 0), At(chunk, 1), At(chunk, 2));
  }

  /** Digits cut off that are zero do not change the number. */
  lemma ShortDigits(a: Digit, b: Digit, c: Digit, d: Digit, k: nat)
    requires 2 <= k <= 4 && (k < 4 ==> d == 0) && (k < 3 ==> c == 0)
    ensures DigitNumber([a, b, c, d][..k]) == 262144 * a + 4096 * b + 64 * c + d
  {
    var ds: seq<Digit> := [a, b, c, d][..k];
    assert ds[0] == a && ds[1] == b && (k > 2 ==> ds[2] == c) && (k > 3 ==> ds[3] == d);
  }

  lemma GroupRoundTrip(chunk: Bytes)
    requires IsChunk(chunk)
    ensures GroupBytes(GroupDigits(chunk)) == chunk
    ensures SpareBitsZero(GroupDigits(chunk))
  {
    var a, b, c := At(chunk, 0), At(chunk, 1), At(chunk, 2);
    GroupNumber(chunk);
    GroupSpare(chunk);
    ByteParts(a, b, c);
    FirstOfThree(a, b, c, |chunk|);
    assert chunk == if |chunk| == 1 then [a] else if |chunk| == 2 then [a, b] else [a, b, c];
  }

  /** With the spare bits zero, the bytes are the number of the digits. */
  lemma NumberKept(ds: seq<Digit>)
    requires 2 <= |ds| <= 4 && SpareBitsZero(ds)
    ensures ByteNumber(GroupBytes(ds)) == DigitNumber(ds)
  {
    SameNumber(DigitNumber(ds));
    DigitBytes(At(ds, 0), At(ds, 1), At(ds, 2), At(ds, 3));
  }

  lemma GroupCanonical(ds: seq<Digit>)
    requires 2 <= |ds| <= 4 && SpareBitsZero(ds)
    ensures GroupDigits(GroupBytes(ds)) == ds
  {
    NumberKept(ds);
    DigitParts(At(ds, 0), At(ds, 1), At(ds, 2), At(ds, 3));
  }

  function Padding(a: Alphabet, n: nat): Bytes
    requires 2 <= n <= 4
  {
    if a.padded then seq(4 - n, _ => PAD) else []
  }

  function GroupText(a: Alphabet, chunk: Bytes): Bytes
    requires IsChunk(chunk)
  {
    Letters(a, GroupDigits(chunk)) + Padding(a, |chunk| + 1)
  }

  // ---- texts ----

  function Encoded(a: Alphabet, b: Bytes): Bytes
    decreases |b|
  {
    if b == [] then [] else GroupText(a, b[..Min(3, |b|)]) + Encoded(a, b[Min(3, |b|)..])
  }

  /** What a text decodes to: the bytes it is the encoding of. */
  ghost function Decoded(a: Alphabet, text: Bytes): (r: Option<Bytes>)
    ensures r.Some? ==> Encoded(a, r.value) == text
    ensures r.None? ==> forall b :: Encoded(a, b) != text
  {
    if b :| Encoded(a, b) == text then Some(b) else None
  }

  /** The bytes whose group has this text. */
  ghost function GroupOf(a: Alphabet, g: Bytes): (r: Option<Bytes>)
    ensures r.Some? ==> IsChunk(r.value) && GroupText(a, r.value) == g
    ensures r.None? ==> forall chunk :: IsChunk(chunk) ==> GroupText(a, chunk) != g
  {
    if chunk :| IsChunk(chunk) && GroupText(a, chunk) == g then Some(chunk) else None
  }

  lemma LettersInjective(a: Alphabet, ds: seq<Digit>, es: seq<Digit>)
    requires Usable(a) && Letters(a, ds) == Letters(a, es)
    ensures ds == es
  {
    assert |ds| == |Letters(a, ds)| == |es|;
    forall i | 0 <= i < |ds| ensures ds[i] == es[i] {
      assert Letters(a, ds)[i] == Letters(a, es)[i];
      ValueIsInverse(a, Letter(a, ds[i]));
    }
  }

  lemma PadIsNoLetter(a: Alphabet, v: Digit)
    requires Usable(a)
    ensures Letter(a, v) != PAD
  {
  }

  lemma GroupTextInjective(a: Alphabet, x: Bytes, y: Bytes)
    requires Usable(a) && IsChunk(x) && IsChunk(y) && GroupText(a, x) == GroupText(a, y)
    ensures x == y
  {
    var s, t := GroupText(a, x), GroupText(a, y);
    if |x| == |y| {
      assert s[..|x| + 1] == Letters(a, GroupDigits(x)) && t[..|x| + 1] == Letters(a, GroupDigits(y));
      LettersInjective(a, GroupDigits(x), GroupDigits(y));
      GroupRoundTrip(x);
      GroupRoundTrip(y);
    } else {
      var short, long := if |x| < |y| then x else y, if |x| < |y| then y else x;
      assert GroupText(a, short)[|short| + 1] == PAD;
      PadIsNoLetter(a, GroupDigits(long)[|short| + 1]);
    }
  }

  lemma GroupOfIs(a: Alphabet, chunk: Bytes)
    requires Usable(a) && IsChunk(chunk)
    ensures GroupOf(a, GroupText(a, chunk)) == Some(chunk)
  {
    GroupTextInjective(a, GroupOf(a, GroupText(a, chunk)).value, chunk);
  }

  /** The digits of a group say which bytes it is, if any. */
  lemma GroupOfDigits(a: Alphabet, ds: seq<Digit>)
    requires Usable(a) && 2 <= |ds| <= 4
    ensures GroupOf(a, Letters(a, ds) + Padding(a, |ds|)) == if SpareBitsZero(ds) then Some(GroupBytes(ds)) else None
  {
    var g := Letters(a, ds) + Padding(a, |ds|);
    if SpareBitsZero(ds) {
      GroupCanonical(ds);
      GroupOfIs(a, GroupBytes(ds));
    } else if GroupOf(a, g).Some? {
      var chunk := GroupOf(a, g).value;
      GroupRoundTrip(chunk);
      var es := GroupDigits(chunk);
      if |es| == |ds| {
        assert g[..|ds|] == Letters(a, ds) && g[..|ds|] == Letters(a, es);
        LettersInjective(a, ds, es);
      } else {
        var i := Min(|es|, |ds|);
        assert g[i] == PAD;
        PadIsNoLetter(a, if |es| > |ds| then es[i] else ds[i]);
      }
    }
  }

  // ---- what every decoder must do ----

  lemma GroupTextLength(a: Alphabet, chunk: Bytes)
    requires IsChunk(chunk)
    ensures |GroupText(a, chunk)| == if a.padded then 4 else |chunk| + 1
  {
  }

  /** The first group of a text comes from the first three bytes, and the rest from the rest. */
  lemma EncodedStep(a: Alphabet, b: Bytes)
    requires b != []
    ensures var text, c := Encoded(a, b), Min(3, |b|);
            var k := Min(4, |text|);
            text != [] && text[..k] == GroupText(a, b[..c]) && text[k..] == Encoded(a, b[c..])
              && (c < 3 ==> text[k..] == [])
  {
    var text, c := Encoded(a, b), Min(3, |b|);
    GroupTextLength(a, b[..c]);
    var k := |GroupText(a, b[..c])|;
    assert text[..k] == GroupText(a, b[..c]) && text[k..] == Encoded(a, b[c..]);
  }

  /** Every byte string has its own text. */
  lemma {:induction false} EncodedInjective(a: Alphabet, b: Bytes, c: Bytes)
    requires Usable(a) && Encoded(a, b) == Encoded(a, c)
    ensures b == c
    decreases |b|
  {
    if b != [] {
      EncodedStep(a, b);
    }
    if c != [] {
      EncodedStep(a, c);
    }
    if b != [] {
      var i, j := Min(3, |b|), Min(3, |c|);
      GroupTextInjective(a, b[..i], c[..j]);
      EncodedInjective(a, b[i..], c[j..]);
      assert b == b[..i] + b[i..] && c == c[..j] + c[j..];
    }
  }

  /** Decoding undoes encoding, and a text that decodes is the encoding of what it decodes to. */
  lemma DecodedIsInverse(a: Alphabet, b: Bytes, text: Bytes)
    requires Usable(a)
    ensures Decoded(a, text) == Some(b) <==> Encoded(a, b) == text
  {
    if Encoded(a, b) == text {
      EncodedInjective(a, Decoded(a, text).value, b);
    }
  }

  /** Whole groups of four, and in an unpadded text perhaps two or three characters more. */
  lemma {:induction false} EncodedLength(a: Alphabet, b: Bytes) returns (groups: nat, more: nat)
    ensures |Encoded(a, b)| == 4 * groups + more && (more == 0 || (!a.padded && 2 <= more <= 3))
    decreases |b|
  {
    groups, more := 0, 0;
    if b != [] {
      var c := Min(3, |b|);
      GroupTextLength(a, b[..c]);
      assert |Encoded(a, b)| == |GroupText(a, b[..c])| + |Encoded(a, b[c..])|;
      if c == 3 {
        groups, more := EncodedLength(a, b[3..]);
        groups := groups + 1;
      } else if a.padded {
        groups := 1;
      } else {
        more := c + 1;
      }
    }
  }

  /** A text of any other length decodes to nothing. */
  lemma WrongLength(a: Alphabet, text: Bytes)
    requires if a.padded then |text| % 4 != 0 else |text| % 4 == 1
    ensures Decoded(a, text) == None
  {
    if Decoded(a, text).Some? {
      var groups, more := EncodedLength(a, Decoded(a, text).value);
      ModFour(groups, more);
    }
  }

  lemma ModFour(q: nat, r: nat)
    requires r < 4
    ensures (4 * q + r) % 4 == r
  {
  }

  function Prepend(x: Bytes, r: Option<Bytes>): Option<Bytes> {
    if r.Some? then Some(x + r.value) else None
  }

  lemma EncodedJoins(a: Alphabet, chunk: Bytes, rest: Bytes)
    requires IsChunk(chunk) && (|chunk| < 3 ==> rest == [])
    ensures Encoded(a, chunk + rest) == GroupText(a, chunk) + Encoded(a, rest)
  {
    var b := chunk + rest;
    assert b[..Min(3, |b|)] == chunk && b[Min(3, |b|)..] == rest;
  }

  /** If a text decodes, its first group does, and so does the rest. */
  lemma SplitsWhenDecoded(a: Alphabet, b: Bytes)
    requires Usable(a) && b != []
    ensures var text, c := Encoded(a, b), Min(3, |b|);
            var k := Min(4, |text|);
            text != [] && GroupOf(a, text[..k]) == Some(b[..c]) && Decoded(a, text[k..]) == Some(b[c..])
              && (c < 3 ==> text[k..] == [])
  {
    var text, c := Encoded(a, b), Min(3, |b|);
    EncodedStep(a, b);
    GroupOfIs(a, b[..c]);
    DecodedIsInverse(a, b[c..], text[Min(4, |text|)..]);
  }

  /** If a first group and a rest decode, and only a last group is short, the text decodes. */
  lemma JoinsWhenDecoded(a: Alphabet, text: Bytes, k: nat)
    requires Usable(a) && k <= |text| && GroupOf(a, text[..k]).Some? && Decoded(a, text[k..]).Some?
    requires |GroupOf(a, text[..k]).value| < 3 ==> text[k..] == []
    ensures Decoded(a, text).Some?
  {
    var chunk, rest := GroupOf(a, text[..k]).value, Decoded(a, text[k..]).value;
    if |chunk| < 3 {
      DecodedIsInverse(a, [], []);
      DecodedIsInverse(a, [], text[k..]);
    }
    EncodedJoins(a, chunk, rest);
    assert text == text[..k] + text[k..];
    DecodedIsInverse(a, chunk + rest, text);
  }

  /** A text decodes group by group; only its last group may be short. */
  lemma DecodedStep(a: Alphabet, text: Bytes)
    requires Usable(a) && text != []
    ensures var k := Min(4, |text|);
            var g := GroupOf(a, text[..k]);
            Decoded(a, text) == if g.None? || (|g.value| < 3 && text[k..] != []) then None
                                else Prepend(g.value, Decoded(a, text[k..]))
  {
    var k := Min(4, |text|);
    var g := GroupOf(a, text[..k]);
    if Decoded(a, text).Some? {
      var b := Decoded(a, text).value;
      SplitsWhenDecoded(a, b);
      assert b == b[..Min(3, |b|)] + b[Min(3, |b|)..];
    } else {
      assert g.None? || Decoded(a, text[k..]).None? || (|g.value| < 3 && text[k..] != []) by {
        if g.Some? && Decoded(a, text[k..]).Some? && (|g.value| < 3 ==> text[k..] == []) {
          JoinsWhenDecoded(a, text, k);
        }
      }
    }
  }

  /** Decoding goes on from the groups already decoded. */
  lemma DecodedNext(a: Alphabet, text: Bytes, i: nat, out: Bytes)
    requires Usable(a) && i < |text|
    ensures var rest := text[i..];
            var k := Min(4, |rest|);
            var g := GroupOf(a, rest[..k]);
            Prepend(out, Decoded(a, rest)) == if g.None? || (|g.value| < 3 && rest[k..] != []) then None
                                              else Prepend(out + g.value, Decoded(a, text[i + k..]))
  {
    var rest := text[i..];
    var k := Min(4, |rest|);
    DecodedStep(a, rest);
    assert rest[k..] == text[i + k..];
    var g, d := GroupOf(a, rest[..k]), Decoded(a, rest[k..]);
    if g.Some? && d.Some? {
      assert out + (g.value + d.value) == (out + g.value) + d.value;
    }
  }

  /** One turn of a decoding loop: `whole` is what the text decodes to. */
  lemma NextGroup(a: Alphabet, text: Bytes, i: nat, end: nat, out: Bytes, whole: Option<Bytes>)
    requires Usable(a) && i < |text| && end == i + Min(4, |text| - i)
    requires Prepend(out, Decoded(a, text[i..])) == whole
    ensures var g := GroupOf(a, text[i..end]);
            if g.None? || (|g.value| < 3 && end < |text|) then whole == None
            else Prepend(out + g.value, Decoded(a, text[end..])) == whole
  {
    DecodedNext(a, text, i, out);
    var rest := text[i..];
    var k := Min(4, |rest|);
    assert rest[..k] == text[i..end] && rest[k..] == text[end..];
  }

  lemma LastGroup(a: Alphabet, text: Bytes, out: Bytes, whole: Option<Bytes>)
    requires Usable(a) && Prepend(out, Decoded(a, text[|text|..])) == whole
    ensures whole == Some(out)
  {
    DecodedEmpty(a);
    assert text[|text|..] == [] && out + [] == out;
  }

  lemma DecodedStart(a: Alphabet, text: Bytes)
    ensures Prepend([], Decoded(a, text[0..])) == Decoded(a, text)
  {
    assert text[0..] == text;
    if Decoded(a, text).Some? {
      assert [] + Decoded(a, text).value == Decoded(a, text).value;
    }
  }

  lemma DecodedEmpty(a: Alphabet)
    requires Usable(a)
    ensures Decoded(a, []) == Some([])
  {
    DecodedIsInverse(a, [], []);
  }

  lemma EncodedNext(a: Alphabet, b: Bytes, i: nat, out: Bytes)
    requires i < |b|
    ensures var c := Min(3, |b| - i);
            out + Encoded(a, b[i..]) == (out + GroupText(a, b[i..i + c])) + Encoded(a, b[i + c..])
  {
    var c := Min(3, |b| - i);
    assert b[i..][..c] == b[i..i + c] && b[i..][c..] == b[i + c..];
  }

  /** Test vectors of section 10 of RFC 4648: with the letters below, "Zm9v" and "Yg". */
  lemma KnownGroups()
    ensures GroupDigits([102, 111, 111]) == [25, 38, 61, 47] && GroupDigits([98]) == [24, 32]
  {
    assert ByteNumber([102, 111, 111]) == 6713199 && ByteNumber([98]) == 6422528;
  }

  lemma KnownLetters(a: Alphabet)
    ensures forall v: Digit :: v < 26 ==> Letter(a, v) as char == 'A' + v as char
    ensures forall v: Digit :: 26 <= v < 52 ==> Letter(a, v) as char == 'a' + (v - 26) as char
    ensures forall v: Digit :: 52 <= v < 62 ==> Letter(a, v) as char == '0' + (v - 52) as char
    ensures Letter(STANDARD, 62) as char == '+' && Letter(STANDARD, 63) as char == '/'
    ensures Letter(URL_SAFE, 62) as char == '-' && Letter(URL_SAFE, 63) as char == '_'
  {
  }
}
