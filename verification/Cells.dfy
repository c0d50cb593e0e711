/**
 Sealed cells: an ideal box for one piece of a file. A cell opens only under the label it was
 sealed with, and then gives back its plaintext (src/encrypted_store/backend.rs:266-275).
 */
module Cells {
  import opened Prelude

  /** `Blank`: all zeros, never written. `Noise`: random filler, or a torn write. */
  datatype Cell = Blank | Noise | Sealed(aad: Bytes, plain: Bytes)

  function Open(c: Cell, aad: Bytes): Option<Bytes> {
    if c.Sealed? && c.aad == aad then Some(c.plain) else None
  }

  function BlockAad(index: nat): Bytes {
    [98] + Le64(index)
  }

  function PieceAad(piece: nat): Bytes
    requires piece < 256
  {
    [104, piece]
  }

  function SealBlock(index: nat, plain: Bytes): Cell {
    Sealed(BlockAad(index), plain)
  }

  /** The labels of two blocks, two pieces, or a block and a piece are never the same text. */
  lemma LabelsInjective(i: nat, j: nat, p: nat, q: nat)
    requires i < U64 && j < U64 && p < 256 && q < 256
    ensures BlockAad(i) == BlockAad(j) <==> i == j
    ensures PieceAad(p) == PieceAad(q) <==> p == q
    ensures BlockAad(i) != PieceAad(p)
  {
    Le64RoundTrip(i);
    Le64RoundTrip(j);
    assert BlockAad(i)[1..] == Le64(i) && BlockAad(j)[1..] == Le64(j);
    assert PieceAad(p)[1] == p && PieceAad(q)[1] == q;
    assert |BlockAad(i)| == 9;
  }

  /** A block put at another place in the file never opens there. */
  lemma MovedBlockFails(i: nat, j: nat, plain: Bytes)
    requires i < U64 && j < U64
    ensures Open(SealBlock(i, plain), BlockAad(j)) == (if i == j then Some(plain) else None)
  {
    LabelsInjective(i, j, 0, 0);
  }
}
