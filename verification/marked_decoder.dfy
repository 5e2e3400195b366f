/** `read_binary_data` of shixi3.3/draw.py as a pure function of the file's bytes.
    The file is taken to be two Fortran sequential records, [m][payload][m][m][payload][m].
    The decoder reads one 4-byte marker and ignores it, reads nx*ny words (the initial
    field), skips 8 bytes (the first record's trailing marker and the second record's
    leading marker), reads nx*ny more words (the 24 h forecast) and reshapes each block
    row-major to (ny, nx). Any exception on the way makes it return None. */
module MarkedDecoder {
  import opened Words
  import opened Grid
  import opened FortranRecords

  /** Width of the leading record marker, read as one int32 and then ignored. */
  const MarkerWidth: nat := 4

  /** Bytes skipped by `f.seek(8, 1)` between the two payloads. */
  const GapWidth: nat := 8

  /** Byte offset at which the payload of field `t` starts. */
  function PayloadStart(t: nat, nx: nat, ny: nat): nat {
    MarkerWidth + t * (WordWidth * (nx * ny) + GapWidth)
  }

  /** Bytes the decoder consumes: up to the end of the second payload. */
  function MarkedLength(nx: nat, ny: nat): nat {
    PayloadStart(1, nx, ny) + WordWidth * (nx * ny)
  }

  /** The stack `read_binary_data` returns for the bytes `b`, or None when it raises:
      `[0]` of an empty marker read raises IndexError, and `reshape(ny, nx)` of a payload
      read that came back short raises ValueError. On success the result has two fields
      of `ny` rows of `nx` words; for a non-empty grid it succeeds exactly when the file
      holds at least MarkedLength bytes, so a short file never yields a partial grid. */
  function DecodeMarked(b: seq<Byte>, nx: nat, ny: nat, order: ByteOrder): (r: Option<seq<seq<seq<Word>>>>)
    ensures r.Some? ==> IsStack(r.value, FieldCount, ny, nx)
    ensures nx * ny > 0 ==> (r.Some? <==> |b| >= MarkedLength(nx, ny))
  {
    var n := nx * ny;
    if |b| < MarkerWidth then None
    else if Available(b, PayloadStart(0, nx, ny)) < n then None
    else if Available(b, PayloadStart(1, nx, ny)) < n then None
    else Some([Reshape(ReadWords(b, PayloadStart(0, nx, ny), n, order), ny, nx),
               Reshape(ReadWords(b, PayloadStart(1, nx, ny), n, order), ny, nx)])
  }

  /** Cell [r][c] of a field read from `start` is the word at start + 4*(r*nx + c). */
  lemma {:induction false} FieldCell(b: seq<Byte>, nx: nat, ny: nat, order: ByteOrder, start: nat, r: nat, c: nat)
    requires Available(b, start) >= nx * ny && r < ny && c < nx
    ensures start + WordWidth * (r * nx + c) + WordWidth <= |b|
    ensures Reshape(ReadWords(b, start, nx * ny, order), ny, nx)[r][c] == WordAt(b, start + WordWidth * (r * nx + c), order)
  {
    var words := ReadWords(b, start, nx * ny, order);
    var k := r * nx + c;
    MulLeft(r, ny, nx);
    ReadWordsFullAt(b, start, nx * ny, order, k);
    assert |words| == ny * nx;
    ReshapeCell(words, ny, nx, r, c);
  }

  /** Cell [t][r][c] is the word at byte offset PayloadStart(t) + 4*(r*nx + c): row-major
      after the leading marker for the initial field, and after the first record and the
      second leading marker for the forecast. */
  lemma MarkedCell(b: seq<Byte>, nx: nat, ny: nat, order: ByteOrder, t: nat, r: nat, c: nat)
    requires DecodeMarked(b, nx, ny, order).Some?
    requires t < FieldCount && r < ny && c < nx
    ensures PayloadStart(t, nx, ny) + WordWidth * (r * nx + c) + WordWidth <= |b|
    ensures DecodeMarked(b, nx, ny, order).value[t][r][c] == WordAt(b, PayloadStart(t, nx, ny) + WordWidth * (r * nx + c), order)
  {
    FieldCell(b, nx, ny, order, PayloadStart(t, nx, ny), r, c);
  }

  /** The 20 x 16 instance of both scripts: the forecast payload starts at byte 1292 and
      decoding succeeds exactly when the file has at least 2572 bytes. */
  lemma TwentyBySixteenLayout(b: seq<Byte>, order: ByteOrder)
    ensures PayloadStart(0, NX, NY) == 4 && PayloadStart(1, NX, NY) == 1292
    ensures DecodeMarked(b, NX, NY, order).Some? <==> |b| >= 2572
  {
    assert NX * NY == 320;
    assert MarkedLength(NX, NY) == 2572;
  }

  /** The two decodes agree when the payload bytes agree. */
  lemma SamePayloads(b1: seq<Byte>, b2: seq<Byte>, nx: nat, ny: nat, order: ByteOrder)
    requires |b1| >= MarkerWidth <==> |b2| >= MarkerWidth
    requires Available(b1, PayloadStart(0, nx, ny)) >= nx * ny <==> Available(b2, PayloadStart(0, nx, ny)) >= nx * ny
    requires Available(b1, PayloadStart(1, nx, ny)) >= nx * ny <==> Available(b2, PayloadStart(1, nx, ny)) >= nx * ny
    requires forall i :: PayloadStart(0, nx, ny) <= i < PayloadStart(0, nx, ny) + WordWidth * (nx * ny) && i < |b1| && i < |b2| ==> b1[i] == b2[i]
    requires forall i :: PayloadStart(1, nx, ny) <= i < MarkedLength(nx, ny) && i < |b1| && i < |b2| ==> b1[i] == b2[i]
    ensures DecodeMarked(b1, nx, ny, order) == DecodeMarked(b2, nx, ny, order)
  {
    var n := nx * ny;
    if DecodeMarked(b1, nx, ny, order).Some? {
      ReadWordsAgree(b1, b2, PayloadStart(0, nx, ny), n, order);
      ReadWordsAgree(b1, b2, PayloadStart(1, nx, ny), n, order);
    }
  }

  /** The value of the leading marker never matters: it is read only to move the cursor. */
  lemma IgnoresLeadingMarker(b1: seq<Byte>, b2: seq<Byte>, nx: nat, ny: nat, order: ByteOrder)
    requires SameOutside(b1, b2, 0, MarkerWidth)
    ensures DecodeMarked(b1, nx, ny, order) == DecodeMarked(b2, nx, ny, order)
  {
    SamePayloads(b1, b2, nx, ny, order);
  }

  /** The 8 bytes skipped between the payloads never matter. */
  lemma IgnoresGap(b1: seq<Byte>, b2: seq<Byte>, nx: nat, ny: nat, order: ByteOrder)
    requires SameOutside(b1, b2, PayloadStart(1, nx, ny) - GapWidth, PayloadStart(1, nx, ny))
    ensures DecodeMarked(b1, nx, ny, order) == DecodeMarked(b2, nx, ny, order)
  {
    SamePayloads(b1, b2, nx, ny, order);
  }

  /** Bytes from MarkedLength on, the final trailing marker among them, never matter. */
  lemma IgnoresTail(b1: seq<Byte>, b2: seq<Byte>, nx: nat, ny: nat, order: ByteOrder)
    requires |b1| >= MarkedLength(nx, ny) && |b2| >= MarkedLength(nx, ny)
    requires b1[..MarkedLength(nx, ny)] == b2[..MarkedLength(nx, ny)]
    ensures DecodeMarked(b1, nx, ny, order) == DecodeMarked(b2, nx, ny, order)
  {
    var k := MarkedLength(nx, ny);
    forall i | 0 <= i < k
      ensures b1[i] == b2[i]
    {
      assert b1[i] == b1[..k][i];
    }
    SamePayloads(b1, b2, nx, ny, order);
  }

  /** Round trip: two grids written as Fortran sequential records come back as the
      initial and the forecast field, in the order written. */
  lemma MarkedRoundTrip(g0: seq<seq<Word>>, g1: seq<seq<Word>>, nx: nat, ny: nat, order: ByteOrder)
    requires IsGrid(g0, ny, nx) && IsGrid(g1, ny, nx)
    ensures DecodeMarked(EncodeSequential([Flatten(g0), Flatten(g1)], order), nx, ny, order) == Some([g0, g1])
  {
    var n := nx * ny;
    var p0, p1 := Flatten(g0), Flatten(g1);
    ReshapeFlatten(g0, ny, nx);
    ReshapeFlatten(g1, ny, nx);
    var m0 := WordBytes(RecordMarker(p0), order);
    var m1 := WordBytes(RecordMarker(p1), order);
    var rec0, rec1 := EncodeRecord(p0, order), EncodeRecord(p1, order);
    var enc := EncodeSequential([p0, p1], order);
    TwoRecords(p0, p1, order);
    SerializeRoundTrip(m0, p0, m0 + rec1, order);
    SerializeRoundTrip(rec0 + m1, p1, m1, order);
    assert |enc| == 2 * (WordWidth * n + 2 * WordWidth);
    assert |rec0 + m1| == PayloadStart(1, nx, ny);
    ReadWordsFull(enc, PayloadStart(0, nx, ny), n, order);
    ReadWordsFull(enc, PayloadStart(1, nx, ny), n, order);
  }
}
