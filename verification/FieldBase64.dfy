/** The unpadded URL-safe alphabet of field values (src/field_crypto/b64.rs). */
module FieldBase64 {
  import opened Prelude
  import opened Base64

  function Pow2(k: nat): (p: nat)
    ensures p >= 1
  {
    if k == 0 then 1 else 2 * Pow2(k - 1)
  }

  lemma Powers()
    ensures Pow2(0) == 1 && Pow2(2) == 4 && Pow2(4) == 16 && Pow2(6) == 64 && Pow2(12) == 4096 && Pow2(18) == 262144
  {
    assert Pow2(8) == 256;
    assert Pow2(10) == 1024;
    assert Pow2(14) == 16384;
    assert Pow2(16) == 65536;
  }

  method Encode(bytes: Bytes) returns (out: Bytes)
    ensures out == Encoded(URL_SAFE, bytes)
  {
    out := [];
    var i := 0;
    while i < |bytes|
      invariant i <= |bytes|
      invariant out + Encoded(URL_SAFE, bytes[i..]) == Encoded(URL_SAFE, bytes)
    {
      EncodedNext(URL_SAFE, bytes, i, out);
      var end := i + Min(3, |bytes| - i);
      var t := Group(bytes[i..end]);
      out := out + t;
      i := end;
    }
  }

  method Group(chunk: Bytes) returns (t: Bytes)
    requires IsChunk(chunk)
    ensures t == GroupText(URL_SAFE, chunk)
  {
    var b0: int := chunk[0];
    var b1: int := if |chunk| > 1 then chunk[1] else 0;
    var b2: int := if |chunk| > 2 then chunk[2] else 0;
    var n: int := 65536 * b0 + 256 * b1 + b2;
    var d0: Digit, d1: Digit, d2: Digit, d3: Digit := n / 262144 % 64, n / 4096 % 64, n / 64 % 64, n % 64;
    assert n / 262144 < 64;
    GroupLettersAre(chunk, d0, d1, d2, d3);
    t := [Letter(URL_SAFE, d0), Letter(URL_SAFE, d1)];
    if |chunk| > 1 {
      t := t + [Letter(URL_SAFE, d2)];
    }
    if |chunk| > 2 {
      t := t + [Letter(URL_SAFE, d3)];
    }
  }

  lemma GroupLettersAre(chunk: Bytes, d0: Digit, d1: Digit, d2: Digit, d3: Digit)
    requires IsChunk(chunk)
    requires var n := ByteNumber(chunk); d0 == n / 262144 && d1 == n / 4096 % 64 && d2 == n / 64 % 64 && d3 == n % 64
    ensures GroupText(URL_SAFE, chunk) ==
            [Letter(URL_SAFE, d0), Letter(URL_SAFE, d1)] + (if |chunk| > 1 then [Letter(URL_SAFE, d2)] else [])
            + (if |chunk| > 2 then [Letter(URL_SAFE, d3)] else [])
  {
    assert GroupDigits(chunk) == [d0, d1, d2, d3][..|chunk| + 1];
  }

  ghost predicate IsTable(t: seq<int>) {
    |t| == 256 && forall c: Byte :: t[c] == Entry(c, 64)
  }

  /** What the lookup table holds for `c` once the first `n` letters are in. */
  function Entry(c: Byte, n: nat): int {
    var v := Value(URL_SAFE, c);
    if v.Some? && v.value < n then v.value else 255
  }

  /** The lookup table of the alphabet. */
  method Table() returns (t: array<int>)
    ensures fresh(t) && IsTable(t[..])
  {
    t := new int[256](_ => 255);
    var v := 0;
    while v < 64
      invariant 0 <= v <= 64
      invariant forall c: Byte :: t[c] == Entry(c, v)
    {
      ValueIsInverse(URL_SAFE, Letter(URL_SAFE, v));
      forall c: Byte ensures c != Letter(URL_SAFE, v) ==> Entry(c, v + 1) == Entry(c, v) {
        ValueIsInverse(URL_SAFE, c);
      }
      t[Letter(URL_SAFE, v)] := v;
      v := v + 1;
    }
  }

  lemma NumberGrows(ds: seq<Digit>, v: Digit)
    requires |ds| < 4
    ensures DigitNumber(ds + [v]) == DigitNumber(ds) + v * Pow2(18 - 6 * |ds|)
  {
    Powers();
    assert 18 - 6 * |ds| == if |ds| == 0 then 18 else if |ds| == 1 then 12 else if |ds| == 2 then 6 else 0;
  }

  /** The digits of a chunk as one number, or nothing if a character is no letter. */
  method Number(chunk: Bytes, t: array<int>) returns (r: Option<nat>, ghost ds: seq<Digit>)
    requires |chunk| <= 4 && IsTable(t[..])
    ensures r.Some? ==> |ds| == |chunk| && chunk == Letters(URL_SAFE, ds) && r.value == DigitNumber(ds)
    ensures r.None? ==> exists i :: 0 <= i < |chunk| && Value(URL_SAFE, chunk[i]).None?
  {
    var n: nat := 0;
    var i := 0;
    ds := [];
    while i < |chunk|
      invariant 0 <= i <= |chunk| && |ds| == i
      invariant chunk[..i] == Letters(URL_SAFE, ds) && n == DigitNumber(ds)
    {
      var v := t[..][chunk[i]];
      if v == 255 {
        return None, ds;
      }
      ValueIsInverse(URL_SAFE, chunk[i]);
      NumberGrows(ds, v);
      n := n + v * Pow2(18 - 6 * i);
      assert Letters(URL_SAFE, ds + [v]) == Letters(URL_SAFE, ds) + [Letter(URL_SAFE, v)];
      ds := ds + [v];
      i := i + 1;
    }
    assert chunk[..|chunk|] == chunk;
    r := Some(n);
  }

  lemma GroupLetters(g: Bytes)
    requires GroupOf(URL_SAFE, g).Some?
    ensures forall i :: 0 <= i < |g| ==> Value(URL_SAFE, g[i]).Some?
  {
    var ds := GroupDigits(GroupOf(URL_SAFE, g).value);
    assert g == Letters(URL_SAFE, ds);
    forall i | 0 <= i < |g| ensures Value(URL_SAFE, g[i]).Some? {
      ValueIsInverse(URL_SAFE, g[i]);
      assert g[i] == Letter(URL_SAFE, ds[i]);
    }
  }

  lemma SpareIs(ds: seq<Digit>)
    requires 2 <= |ds| <= 3
    ensures DigitNumber(ds) / Pow2(24 - 6 * |ds|) % Pow2(6 * |ds| - 8 * (|ds| - 1)) == 0 <==> SpareBitsZero(ds)
  {
    Powers();
    if |ds| == 2 {
      assert 24 - 6 * |ds| == 12 && 6 * |ds| - 8 * (|ds| - 1) == 4;
      var a: int, b: int := ds[0], ds[1];
      assert DigitNumber(ds) / 4096 == 64 * a + b;
    } else {
      assert 24 - 6 * |ds| == 6 && 6 * |ds| - 8 * (|ds| - 1) == 2;
      var a: int, b: int, c: int := ds[0], ds[1], ds[2];
      assert DigitNumber(ds) / 64 == 4096 * a + 64 * b + c;
    }
  }

  method Ungroup(g: Bytes, t: array<int>) returns (r: Option<Bytes>)
    requires 2 <= |g| <= 4 && IsTable(t[..])
    ensures r == GroupOf(URL_SAFE, g)
  {
    var n, ds := Number(g, t);
    if n.None? {
      if GroupOf(URL_SAFE, g).Some? {
        GroupLetters(g);
      }
      return None;
    }
    Stands(g, ds);
    var produced := |g| * 6 / 8;
    assert produced == |g| - 1;
    var total, used := |g| * 6, produced * 8;
    var group: Bytes := [n.value / 65536, n.value / 256 % 256, n.value % 256];
    if total > used {
      SpareIs(ds);
      var spare := n.value / Pow2(24 - total) % Pow2(total - used);
      if spare != 0 {
        return None;
      }
    }
    r := Some(group[..produced]);
  }

  lemma Stands(g: Bytes, ds: seq<Digit>)
    requires 2 <= |ds| <= 4 && g == Letters(URL_SAFE, ds)
    ensures DigitNumber(ds) < 16777216
    ensures GroupOf(URL_SAFE, g) == if SpareBitsZero(ds) then Some(GroupBytes(ds)) else None
  {
    assert g == g + Padding(URL_SAFE, |ds|);
    GroupOfDigits(URL_SAFE, ds);
  }

  method Decode(text: Bytes) returns (r: Option<Bytes>)
    ensures r == Decoded(URL_SAFE, text)
  {
    if |text| % 4 == 1 {
      WrongLength(URL_SAFE, text);
      return None;
    }
    var t := Table();
    var out: Bytes := [];
    var i := 0;
    ghost var whole := Decoded(URL_SAFE, text);
    ghost var k, n := 0, |text| / 4;
    assert |text| == 4 * n || 4 * n + 2 <= |text| <= 4 * n + 3;
    DecodedStart(URL_SAFE, text);
    while i < |text|
      invariant i <= |text| && (i == |text| || (i == 4 * k && k <= n))
      invariant Prepend(out, Decoded(URL_SAFE, text[i..])) == whole
      invariant IsTable(t[..])
      decreases |text| - i
    {
      var end := i + Min(4, |text| - i);
      NextGroup(URL_SAFE, text, i, end, out, whole);
      var g := Ungroup(text[i..end], t);
      if g.None? {
        return None;
      }
      ShortOnlyLast(text[i..end]);
      out := out + g.value;
      i, k := end, k + 1;
    }
    LastGroup(URL_SAFE, text, out, whole);
    r := Some(out);
  }

  lemma ShortOnlyLast(g: Bytes)
    requires GroupOf(URL_SAFE, g).Some?
    ensures |GroupOf(URL_SAFE, g).value| == |g| - 1
  {
  }
}
