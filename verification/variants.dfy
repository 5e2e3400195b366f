/** The two versions of `read_binary_data` side by side: they accept disjoint sets of
    files, so a file written as Fortran sequential records is readable
    by the marked decoder of shixi3.3/draw.py and never by the raw one of shixi3/draw.py. */
module Variants {
  import opened Words
  import opened Grid
  import opened FortranRecords
  import MarkedDecoder
  import RawDecoder

  /** No file is decoded by both versions: the raw one accepts fewer than 8*nx*ny + 4
      bytes, the marked one needs at least 8*nx*ny + 12 (at least 4 for an empty grid). */
  lemma VariantsDisjoint(b: seq<Byte>, nx: nat, ny: nat, order: ByteOrder)
    ensures !(RawDecoder.DecodeRaw(b, nx, ny, order).Some? && MarkedDecoder.DecodeMarked(b, nx, ny, order).Some?)
  {
    RawDecoder.RawByteGate(b, nx, ny, order);
    assert ny * nx == nx * ny;
  }

  /** Two records written by a Fortran program: the raw version rejects them (it sees
      2*nx*ny + 4 words), the marked version returns the two payloads. */
  lemma FortranFileOnlyMarked(g0: seq<seq<Word>>, g1: seq<seq<Word>>, nx: nat, ny: nat, order: ByteOrder)
    requires IsGrid(g0, ny, nx) && IsGrid(g1, ny, nx)
    ensures var file := EncodeSequential([Flatten(g0), Flatten(g1)], order);
      && RawDecoder.DecodeRaw(file, nx, ny, order) == None
      && MarkedDecoder.DecodeMarked(file, nx, ny, order) == Some([g0, g1])
  {
    var file := EncodeSequential([Flatten(g0), Flatten(g1)], order);
    MarkedDecoder.MarkedRoundTrip(g0, g1, nx, ny, order);
    VariantsDisjoint(file, nx, ny, order);
  }
}
