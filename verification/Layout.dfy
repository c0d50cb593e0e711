/** Offsets and lengths of the encrypted file (src/encrypted_store/layout.rs). */
module Layout {
  import opened Prelude

  const PAGE: nat := 4096
  const FILE_HEADER_LEN: nat := 2048
  const PIECE_LEN: nat := 512
  const DATA_BASE: nat := FILE_HEADER_LEN + 4 * PIECE_LEN
  const LOGICAL_HEADER: nat := PAGE
  const REDB_HEADER_LEN: nat := 320

  /** A sealed block is `overhead` bytes longer than the page in it. */
  datatype Geometry = Geometry(overhead: nat) {

    function Stride(): nat {
      PAGE + overhead
    }

    function BlockOffset(index: nat): nat {
      DATA_BASE + index * Stride()
    }

    function LogicalLen(physical: nat): nat {
      if physical < DATA_BASE then 0
      else LOGICAL_HEADER + (physical - DATA_BASE) / Stride() * PAGE
    }

    function PhysicalLen(logical: nat): Option<nat> {
      if logical == 0 then Some(FILE_HEADER_LEN)
      else if logical < LOGICAL_HEADER || logical % PAGE != 0 then None
      else Some(DATA_BASE + (logical - LOGICAL_HEADER) / PAGE * Stride())
    }

    /** A file of `blocks` whole blocks and a torn tail of `tail` bytes holds exactly `blocks` pages. */
    lemma WholeBlocks(blocks: nat, tail: nat)
      requires tail < Stride()
      ensures LogicalLen(BlockOffset(blocks) + tail) == LOGICAL_HEADER + blocks * PAGE
    {
      var s := Stride();
      var n := blocks * s + tail;
      assert BlockOffset(blocks) + tail - DATA_BASE == n;
      QuotientIs(n, s, blocks, tail);
    }

    /** `LogicalLen` undoes `PhysicalLen`, whatever part of one more block was torn off behind it. */
    lemma LengthRoundTrip(logical: nat, tail: nat)
      requires PhysicalLen(logical).Some?
      requires tail < Stride()
      ensures logical != 0 ==> LogicalLen(PhysicalLen(logical).value + tail) == logical
      ensures LogicalLen(PhysicalLen(0).value) == 0
    {
      if logical != 0 {
        var pages := (logical - LOGICAL_HEADER) / PAGE;
        assert logical == LOGICAL_HEADER + pages * PAGE;
        WholeBlocks(pages, tail);
      }
    }

    /** Every length the file can report is one `PhysicalLen` accepts, and its bytes are really there. */
    lemma LogicalFits(physical: nat)
      ensures var p := PhysicalLen(LogicalLen(physical));
              && p.Some?
              && (DATA_BASE <= physical ==> p.value <= physical < p.value + Stride())
    {
      if DATA_BASE <= physical {
        var s := Stride();
        var blocks := (physical - DATA_BASE) / s;
        assert (LOGICAL_HEADER + blocks * PAGE - LOGICAL_HEADER) / PAGE == blocks;
      }
    }
  }

  lemma Times(s: int, d: int)
    requires s >= 0
    ensures d > 0 ==> s * d >= s
    ensures d < 0 ==> s * d <= -s
  {
  }

  lemma QuotientIs(n: nat, s: nat, q: nat, r: nat)
    requires r < s && n == q * s + r
    ensures n / s == q && n % s == r
  {
    Times(s, n / s - q);
    assert s * (n / s - q) == s * (n / s) - s * q;
  }
}
