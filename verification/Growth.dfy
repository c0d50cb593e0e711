/**
 Which file lengths redb opens, and where a batch of new blocks may end
 (src/encrypted_store/backend.rs:714-782).
 */
module Growth {
  import opened Prelude
  import opened Layout

  /** How many zero pages a batch of a growing file has, at least. */
  const FILL_BATCH: nat := 128

  /** One region of redb: its header pages and its data pages. */
  datatype Shape = Shape(headerPages: nat, dataPages: nat)

  /** The shape in redb's header bytes: page size at 12, region header pages at 16, data pages at 20. */
  function RegionShapeOf(header: Bytes): (s: Option<Shape>)
    requires |header| == REDB_HEADER_LEN
    ensures s.Some? ==> s.value.dataPages > 0
  {
    var (page, headerPages, dataPages) :=
      (FromLittleEndian(header[12..16]), FromLittleEndian(header[16..20]), FromLittleEndian(header[20..24]));
    if page == PAGE && dataPages > 0 then Some(Shape(headerPages, dataPages)) else None
  }

  /** Lengths that redb accepts: the last region is full, or has all its header pages and at least one more. */
  predicate LengthMakesLayout(pages: nat, shape: Option<Shape>)
    requires shape.Some? ==> shape.value.dataPages > 0
  {
    match shape
    case None => true
    case Some(s) =>
      var rest := pages % (s.headerPages + s.dataPages);
      rest == 0 || rest > s.headerPages
  }

  /** `regions` whole regions, and if `data` is not 0 one more with its header pages and that many data pages. */
  predicate Laid(pages: nat, shape: Shape, regions: nat, data: nat) {
    && data <= shape.dataPages
    && pages == regions * (shape.headerPages + shape.dataPages) + if data == 0 then 0 else shape.headerPages + data
  }

  /** A length is accepted exactly if whole regions and a begun one with some data make it up. */
  lemma LayoutMeans(pages: nat, shape: Shape)
    requires shape.dataPages > 0
    ensures LengthMakesLayout(pages, Some(shape)) <==> exists regions, data :: Laid(pages, shape, regions, data)
  {
    var m := shape.headerPages + shape.dataPages;
    if LengthMakesLayout(pages, Some(shape)) {
      var q, r := pages / m, pages % m;
      assert pages == q * m + r;
      assert Laid(pages, shape, q, if r == 0 then 0 else r - shape.headerPages);
    }
    if regions: nat, data: nat :| Laid(pages, shape, regions, data) {
      LaidIsAccepted(pages, shape, regions, data);
    }
  }

  lemma LaidIsAccepted(pages: nat, shape: Shape, regions: nat, data: nat)
    requires shape.dataPages > 0 && Laid(pages, shape, regions, data)
    ensures LengthMakesLayout(pages, Some(shape))
  {
    var m := shape.headerPages + shape.dataPages;
    if data == shape.dataPages {
      assert pages == (regions + 1) * m by {
        assert (regions + 1) * m == regions * m + m;
      }
      QuotientIs(pages, m, regions + 1, 0);
    } else {
      QuotientIs(pages, m, regions, if data == 0 then 0 else shape.headerPages + data);
    }
  }

  function HeaderPages(shape: Option<Shape>): nat {
    if shape.Some? then shape.value.headerPages else 0
  }

  /** From any length, a length redb accepts is at most one region's header pages away. */
  lemma LayoutIsNear(pages: nat, shape: Option<Shape>) returns (skip: nat)
    requires shape.Some? ==> shape.value.dataPages > 0
    ensures skip <= HeaderPages(shape) && LengthMakesLayout(pages + skip, shape)
  {
    skip := 0;
    if !LengthMakesLayout(pages, shape) {
      var m := shape.value.headerPages + shape.value.dataPages;
      var q, r := pages / m, pages % m;
      assert pages == q * m + r;
      skip := shape.value.headerPages + 1 - r;
      if r + skip < m {
        QuotientIs(pages + skip, m, q, r + skip);
      } else {
        assert pages + skip == (q + 1) * m by {
          assert (q + 1) * m == q * m + m;
        }
        QuotientIs(pages + skip, m, q + 1, 0);
      }
    }
  }

  /** Where the batch that starts at `at` ends. */
  method BatchEnd(at: nat, end: nat, shape: Option<Shape>) returns (stop: nat)
    requires at < end
    requires shape.Some? ==> shape.value.dataPages > 0
    ensures at < stop <= end
    ensures stop == end || LengthMakesLayout(stop, shape)
    ensures stop - at <= FILL_BATCH + HeaderPages(shape)
    ensures forall k :: at + FILL_BATCH <= k < stop ==> !LengthMakesLayout(k, shape)
    ensures stop < end ==> at + FILL_BATCH <= stop
  {
    stop := Min(at + FILL_BATCH, end);
    ghost var start := stop;
    ghost var skip := LayoutIsNear(start, shape);
    while stop < end && !LengthMakesLayout(stop, shape)
      invariant start <= stop <= end && stop <= start + skip
      invariant forall k :: start <= k < stop ==> !LengthMakesLayout(k, shape)
    {
      stop := stop + 1;
    }
  }
}
