/**
 The plain byte array redb believes it is using: a header page of which 320 bytes are kept, then
 whole pages. The encrypted layer is proved to behave exactly like it.
 */
module PlainArray {
  import opened Prelude
  import opened Layout
  import opened HeaderPieces

  ghost predicate WholePages(pages: seq<Bytes>) {
    forall i :: 0 <= i < |pages| ==> |pages[i]| == PAGE
  }

  function ByteAt(header: Bytes, pages: seq<Bytes>, p: nat): Byte
    requires |header| == REDB_HEADER_LEN && p < LOGICAL_HEADER + |pages| * PAGE
    requires WholePages(pages)
  {
    if p < REDB_HEADER_LEN then header[p]
    else if p < LOGICAL_HEADER then 0
    else pages[(p - LOGICAL_HEADER) / PAGE][(p - LOGICAL_HEADER) % PAGE]
  }

  /** The array, byte by byte. */
  function Flat(header: Bytes, pages: seq<Bytes>): (a: Bytes)
    requires |header| == REDB_HEADER_LEN && WholePages(pages)
    ensures |a| == LOGICAL_HEADER + |pages| * PAGE
    ensures forall p :: 0 <= p < |a| ==> a[p] == ByteAt(header, pages, p)
  {
    seq(LOGICAL_HEADER + |pages| * PAGE,
        p requires 0 <= p < LOGICAL_HEADER + |pages| * PAGE => ByteAt(header, pages, p))
  }

  /** Writing to a plain array, and changing its length: new bytes are zeros. */
  function Write(a: Bytes, offset: nat, data: Bytes): (r: Bytes)
    requires offset + |data| <= |a|
    ensures |r| == |a|
    ensures forall p :: 0 <= p < |r| ==> r[p] == if offset <= p < offset + |data| then data[p - offset] else a[p]
  {
    a[..offset] + data + a[offset + |data|..]
  }

  function SetLen(a: Bytes, len: nat): Bytes {
    if len <= |a| then a[..len] else a + Zeros(len - |a|)
  }

  /** The pages after the bytes of `data` were put at page `first`. */
  function PutPages(pages: seq<Bytes>, first: nat, data: Bytes): (r: seq<Bytes>)
    requires |data| % PAGE == 0 && first + |data| / PAGE <= |pages|
    ensures |r| == |pages|
    ensures forall i :: 0 <= i < |r| ==>
                          r[i] == if first <= i < first + |data| / PAGE
                                  then data[(i - first) * PAGE..(i - first + 1) * PAGE] else pages[i]
  {
    seq(|pages|, i requires 0 <= i < |pages| =>
      if first <= i < first + |data| / PAGE then data[(i - first) * PAGE..(i - first + 1) * PAGE] else pages[i])
  }

  lemma PutPagesWhole(pages: seq<Bytes>, first: nat, data: Bytes)
    requires |data| % PAGE == 0 && first + |data| / PAGE <= |pages| && WholePages(pages)
    ensures WholePages(PutPages(pages, first, data))
  {
  }

  lemma PutPageByte(pages: seq<Bytes>, first: nat, data: Bytes, i: nat, w: nat)
    requires WholePages(pages) && |data| % PAGE == 0 && first + |data| / PAGE <= |pages| && i < |pages| && w < PAGE
    ensures WholePages(PutPages(pages, first, data))
    ensures var at := i * PAGE + w;
            PutPages(pages, first, data)[i][w] ==
              if first * PAGE <= at < first * PAGE + |data| then data[at - first * PAGE] else pages[i][w]
  {
    PutPagesWhole(pages, first, data);
    if first <= i < first + |data| / PAGE {
      assert data[(i - first) * PAGE..(i - first + 1) * PAGE][w] == data[(i - first) * PAGE + w];
    }
  }

  lemma PutPagesIsWrite(header: Bytes, pages: seq<Bytes>, first: nat, data: Bytes)
    requires |header| == REDB_HEADER_LEN && WholePages(pages)
    requires |data| % PAGE == 0 && first + |data| / PAGE <= |pages|
    ensures WholePages(PutPages(pages, first, data))
    ensures Flat(header, PutPages(pages, first, data)) ==
            Write(Flat(header, pages), LOGICAL_HEADER + first * PAGE, data)
  {
    PutPagesWhole(pages, first, data);
    var a := Flat(header, PutPages(pages, first, data));
    var b := Write(Flat(header, pages), LOGICAL_HEADER + first * PAGE, data);
    forall p | 0 <= p < |a| ensures a[p] == b[p] {
      if p >= LOGICAL_HEADER {
        PutPageByte(pages, first, data, (p - LOGICAL_HEADER) / PAGE, (p - LOGICAL_HEADER) % PAGE);
      }
    }
  }

  lemma PatchIsWrite(header: Bytes, pages: seq<Bytes>, offset: nat, data: Bytes)
    requires |header| == REDB_HEADER_LEN && WholePages(pages)
    requires offset + |data| <= LOGICAL_HEADER && Fits(offset, data)
    ensures Flat(Patched(header, offset, data), pages) == Write(Flat(header, pages), offset, data)
  {
  }

  lemma ShrinkIsSetLen(header: Bytes, pages: seq<Bytes>, n: nat)
    requires |header| == REDB_HEADER_LEN && WholePages(pages) && n <= |pages|
    ensures Flat(header, pages[..n]) == SetLen(Flat(header, pages), LOGICAL_HEADER + n * PAGE)
  {
  }

  /** The pages and then zero pages up to `n`. */
  function GrowTo(pages: seq<Bytes>, n: nat): (r: seq<Bytes>)
    requires |pages| <= n
    ensures |r| == n && forall i :: 0 <= i < n ==> r[i] == if i < |pages| then pages[i] else Zeros(PAGE)
  {
    pages + seq(n - |pages|, _ => Zeros(PAGE))
  }

  lemma GrowIsSetLen(header: Bytes, pages: seq<Bytes>, n: nat)
    requires |header| == REDB_HEADER_LEN && WholePages(pages) && |pages| <= n
    ensures WholePages(GrowTo(pages, n))
    ensures Flat(header, GrowTo(pages, n)) == SetLen(Flat(header, pages), LOGICAL_HEADER + n * PAGE)
  {
  }

  /** Part of one page is a slice of the array. */
  lemma PageSlice(header: Bytes, pages: seq<Bytes>, i: nat, within: nat, n: nat)
    requires |header| == REDB_HEADER_LEN && WholePages(pages)
    requires i < |pages| && within + n <= PAGE
    ensures var at := LOGICAL_HEADER + i * PAGE + within;
            at + n <= |Flat(header, pages)| && pages[i][within..within + n] == Flat(header, pages)[at..at + n]
  {
    var at := LOGICAL_HEADER + i * PAGE + within;
    var part, whole := pages[i][within..within + n], Flat(header, pages)[at..at + n];
    forall k | 0 <= k < n ensures part[k] == whole[k] {
      assert (at + k - LOGICAL_HEADER) / PAGE == i && (at + k - LOGICAL_HEADER) % PAGE == within + k;
    }
  }
}
