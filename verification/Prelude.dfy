/** Bytes, outcomes and the fixed-width number formats the file layouts share. */
module Prelude {

  type Byte = x: int | 0 <= x < 256
  type Bytes = seq<Byte>

  datatype Option<+T> = None | Some(value: T)

  datatype Result<+T, +E> = Ok(value: T) | Err(error: E)

  /** One more than the largest u64. */
  const U64: nat := 0x1_0000_0000_0000_0000

  function Min(a: int, b: int): int {
    if a < b then a else b
  }

  function Zeros(n: nat): (z: Bytes)
    ensures |z| == n && forall i :: 0 <= i < n ==> z[i] == 0
  {
    seq(n, _ => 0)
  }

  // ---- little- and big-endian numbers ----

  function Pow256(k: nat): (p: nat)
    ensures p >= 1
  {
    if k == 0 then 1 else 256 * Pow256(k - 1)
  }

  lemma Pow256Of8()
    ensures Pow256(8) == U64
  {
    assert Pow256(2) == 65536;
    assert Pow256(4) == 256 * (256 * Pow256(2));
    assert Pow256(6) == 256 * (256 * Pow256(4));
    assert Pow256(8) == 256 * (256 * Pow256(6));
  }

  function LittleEndian(n: nat, width: nat): (b: Bytes)
    ensures |b| == width
  {
    if width == 0 then [] else [n % 256] + LittleEndian(n / 256, width - 1)
  }

  function FromLittleEndian(b: Bytes): nat {
    if b == [] then 0 else b[0] + 256 * FromLittleEndian(b[1..])
  }

  lemma {:induction false} LittleEndianRoundTrip(n: nat, width: nat)
    requires n < Pow256(width)
    ensures FromLittleEndian(LittleEndian(n, width)) == n
  {
    if width > 0 {
      LittleEndianRoundTrip(n / 256, width - 1);
      assert LittleEndian(n, width)[1..] == LittleEndian(n / 256, width - 1);
    }
  }

  function BigEndian(n: nat, width: nat): (b: Bytes)
    ensures |b| == width
  {
    if width == 0 then [] else BigEndian(n / 256, width - 1) + [n % 256]
  }

  function FromBigEndian(b: Bytes): nat {
    if b == [] then 0 else 256 * FromBigEndian(b[..|b| - 1]) + b[|b| - 1]
  }

  lemma {:induction false} BigEndianRoundTrip(n: nat, width: nat)
    requires n < Pow256(width)
    ensures FromBigEndian(BigEndian(n, width)) == n
  {
    if width > 0 {
      BigEndianRoundTrip(n / 256, width - 1);
      assert BigEndian(n, width)[..width - 1] == BigEndian(n / 256, width - 1);
    }
  }

  lemma {:induction false} FromBigEndianBound(b: Bytes)
    ensures FromBigEndian(b) < Pow256(|b|)
    ensures BigEndian(FromBigEndian(b), |b|) == b
  {
    if b != [] {
      FromBigEndianBound(b[..|b| - 1]);
    }
  }

  /** The eight bytes of a u64, as `to_le_bytes` and `to_be_bytes` write them. */
  function Le64(n: nat): (b: Bytes)
    ensures |b| == 8
  {
    LittleEndian(n, 8)
  }

  function Be64(n: nat): (b: Bytes)
    ensures |b| == 8
  {
    BigEndian(n, 8)
  }

  lemma Le64RoundTrip(n: nat)
    requires n < U64
    ensures FromLittleEndian(Le64(n)) == n
  {
    Pow256Of8();
    LittleEndianRoundTrip(n, 8);
  }

  lemma Be64RoundTrip(n: nat)
    requires n < U64
    ensures FromBigEndian(Be64(n)) == n
  {
    Pow256Of8();
    BigEndianRoundTrip(n, 8);
  }

  lemma Be64Exact(b: Bytes)
    requires |b| == 8
    ensures FromBigEndian(b) < U64 && Be64(FromBigEndian(b)) == b
  {
    Pow256Of8();
    FromBigEndianBound(b);
  }

  // ---- decimal numbers in names ----

  /** The ASCII decimal text of a number, as `format!("{n}")` writes it. */
  function Decimal(n: nat): (d: Bytes)
    ensures |d| >= 1
    ensures forall i :: 0 <= i < |d| ==> 48 <= d[i] <= 57
  {
    if n < 10 then [48 + n] else Decimal(n / 10) + [48 + n % 10]
  }

  lemma {:induction false} DecimalInjective(a: nat, b: nat)
    requires Decimal(a) == Decimal(b)
    ensures a == b
  {
    var d, e := Decimal(a), Decimal(b);
    assert d[|d| - 1] == e[|e| - 1];
    if a >= 10 && b >= 10 {
      assert d[..|d| - 1] == Decimal(a / 10) && e[..|e| - 1] == Decimal(b / 10);
      DecimalInjective(a / 10, b / 10);
    }
  }

  // ---- smallest number of a set ----

  ghost predicate Least(m: nat, s: set<nat>) {
    m in s && forall k :: k in s ==> m <= k
  }

  lemma {:induction false} LeastExists(s: set<nat>) returns (m: nat)
    requires s != {}
    ensures Least(m, s)
  {
    var x :| x in s;
    var rest := s - {x};
    m := x;
    if rest != {} {
      var r := LeastExists(rest);
      m := if r < x then r else x;
    }
    forall k | k in s ensures m <= k {
      assert k == x || k in rest;
    }
  }

  /** The first key of an ordered table. */
  function Smallest(s: set<nat>): (m: nat)
    requires s != {}
    ensures m in s && forall k :: k in s ==> m <= k
  {
    assert exists m :: Least(m, s) by {
      var m := LeastExists(s);
    }
    var m :| m in s && forall k :: k in s ==> m <= k;
    m
  }
}
