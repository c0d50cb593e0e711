/** The padded standard alphabet of history records (src/backup/codec.rs:221-283). */
module BackupBase64 {
  import opened Prelude
  import opened Base64

  method Group(chunk: Bytes) returns (t: Bytes)
    requires IsChunk(chunk)
    ensures t == GroupText(STANDARD, chunk)
  {
    var a := chunk[0];
    var b := if |chunk| > 1 then chunk[1] else 0;
    var c := if |chunk| > 2 then chunk[2] else 0;
    ShiftForms(a, b, c);
    t := [Letter(STANDARD, a / 4), Letter(STANDARD, a % 4 * 16 + b / 16)];
    t := t + [if |chunk| > 1 then Letter(STANDARD, b % 16 * 4 + c / 64) else PAD];
    t := t + [if |chunk| > 2 then Letter(STANDARD, c % 64) else PAD];
  }

  method Encode(bytes: Bytes) returns (out: Bytes)
    ensures out == Encoded(STANDARD, bytes)
  {
    out := [];
    var i := 0;
    while i < |bytes|
      invariant i <= |bytes|
      invariant out + Encoded(STANDARD, bytes[i..]) == Encoded(STANDARD, bytes)
    {
      EncodedNext(STANDARD, bytes, i, out);
      var end := i + Min(3, |bytes| - i);
      var t := Group(bytes[i..end]);
      out := out + t;
      i := end;
    }
  }

  /** The position of a letter in the alphabet. */
  method DigitOf(c: Byte) returns (r: Option<Digit>)
    ensures r == Value(STANDARD, c)
  {
    ValueIsInverse(STANDARD, c);
    var v := 0;
    while v < 64
      invariant 0 <= v <= 64
      invariant forall w: Digit :: w < v ==> Letter(STANDARD, w) != c
    {
      if Letter(STANDARD, v) == c {
        return Some(v);
      }
      v := v + 1;
    }
    r := None;
  }

  method Ungroup(g: Bytes, last: bool) returns (r: Option<Bytes>)
    requires |g| == 4
    ensures r == var o := GroupOf(STANDARD, g); if o.Some? && |o.value| < 3 && !last then None else o
  {
    var a := DigitOf(g[0]);
    var b := DigitOf(g[1]);
    if a.None? || b.None? {
      Misplaced(g);
      return None;
    }
    if g[2] == PAD {
      Shapes(g);
      if !last || g[3] != PAD || b.value % 16 != 0 {
        return None;
      }
      return Some([First(a.value, b.value)]);
    }
    var d := DigitOf(g[2]);
    if d.None? {
      Misplaced(g);
      return None;
    }
    Shapes(g);
    if g[3] == PAD {
      if !last || d.value % 4 != 0 {
        return None;
      }
      return Some([First(a.value, b.value), Second(b.value, d.value)]);
    }
    var e := DigitOf(g[3]);
    if e.None? {
      return None;
    }
    r := Some([First(a.value, b.value), Second(b.value, d.value), Third(d.value, e.value)]);
  }

  /** Letters where letters belong, and padding only at the end. */
  predicate WellPlaced(g: Bytes)
    requires |g| == 4
  {
    && Value(STANDARD, g[0]).Some? && Value(STANDARD, g[1]).Some?
    && (Value(STANDARD, g[2]).Some? || (g[2] == PAD && g[3] == PAD))
    && (Value(STANDARD, g[3]).Some? || g[3] == PAD)
  }

  lemma Misplaced(g: Bytes)
    requires |g| == 4
    ensures GroupOf(STANDARD, g).Some? ==> WellPlaced(g)
  {
    if GroupOf(STANDARD, g).Some? {
      GroupLetters(g, GroupOf(STANDARD, g).value);
    }
  }

  /** What the well placed groups stand for. */
  lemma Shapes(g: Bytes)
    requires |g| == 4
    ensures var a, b := Value(STANDARD, g[0]), Value(STANDARD, g[1]);
            var c, d := Value(STANDARD, g[2]), Value(STANDARD, g[3]);
            GroupOf(STANDARD, g) ==
            if !WellPlaced(g) then None
            else if g[2] == PAD then
              if b.value % 16 == 0 then Some(ShiftBytes([a.value, b.value])) else None
            else if g[3] == PAD then
              if c.value % 4 == 0 then Some(ShiftBytes([a.value, b.value, c.value])) else None
            else Some(ShiftBytes([a.value, b.value, c.value, d.value]))
  {
    Misplaced(g);
    var a, b, c, d := Value(STANDARD, g[0]), Value(STANDARD, g[1]), Value(STANDARD, g[2]), Value(STANDARD, g[3]);
    ValueIsInverse(STANDARD, g[0]);
    ValueIsInverse(STANDARD, g[1]);
    ValueIsInverse(STANDARD, g[2]);
    ValueIsInverse(STANDARD, g[3]);
    if WellPlaced(g) {
      if g[2] == PAD {
        Stands(g, [a.value, b.value]);
      } else if g[3] == PAD {
        Stands(g, [a.value, b.value, c.value]);
      } else {
        Stands(g, [a.value, b.value, c.value, d.value]);
      }
    }
  }

  lemma GroupLetters(g: Bytes, chunk: Bytes)
    requires IsChunk(chunk) && GroupText(STANDARD, chunk) == g
    ensures |g| == 4 && Value(STANDARD, g[0]).Some? && Value(STANDARD, g[1]).Some?
    ensures if |chunk| == 1 then g[2] == PAD && g[3] == PAD
            else Value(STANDARD, g[2]).Some? && (if |chunk| == 2 then g[3] == PAD else Value(STANDARD, g[3]).Some?)
  {
    forall i | 0 <= i < |chunk| + 1 ensures Value(STANDARD, g[i]).Some? {
      ValueIsInverse(STANDARD, g[i]);
      assert g[i] == Letter(STANDARD, GroupDigits(chunk)[i]);
    }
  }

  lemma Stands(g: Bytes, ds: seq<Digit>)
    requires 2 <= |ds| <= 4 && g == Letters(STANDARD, ds) + Padding(STANDARD, |ds|)
    ensures GroupOf(STANDARD, g) == if SpareBitsZero(ds) then Some(GroupBytes(ds)) else None
    ensures GroupBytes(ds) == ShiftBytes(ds)
  {
    GroupOfDigits(STANDARD, ds);
    GroupBytesByShifts(ds);
  }

  method Decode(text: Bytes) returns (r: Option<Bytes>)
    ensures r == Decoded(STANDARD, text)
  {
    if |text| % 4 != 0 {
      WrongLength(STANDARD, text);
      return None;
    }
    var out: Bytes := [];
    var i := 0;
    ghost var whole := Decoded(STANDARD, text);
    ghost var k, n := 0, |text| / 4;
    assert |text| == 4 * n;
    DecodedStart(STANDARD, text);
    while i < |text|
      invariant i == 4 * k && k <= n
      invariant Prepend(out, Decoded(STANDARD, text[i..])) == whole
      decreases |text| - i
    {
      NextGroup(STANDARD, text, i, i + 4, out, whole);
      var g := Ungroup(text[i..i + 4], i + 4 == |text|);
      if g.None? {
        return None;
      }
      out := out + g.value;
      i, k := i + 4, k + 1;
    }
    LastGroup(STANDARD, text, out, whole);
    r := Some(out);
  }
}
