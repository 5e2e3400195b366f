/** `read_binary_data` of shixi3/draw.py: the whole file is read as 32-bit words and
    reshaped to (2, ny, nx) in C order. There is no marker and no header, and despite
    the comment about transposing, the reshaped array is returned as it is. */
module RawDecoder {
  import opened Words
  import opened Grid

  /** `data.reshape(2, ny, nx)`: numpy raises unless the word count is exactly 2*ny*nx,
      and the caught exception becomes None. */
  function ReshapeFields(flat: seq<Word>, nx: nat, ny: nat): (r: Option<seq<seq<seq<Word>>>>)
    ensures r.Some? <==> |flat| == FieldCount * (ny * nx)
    ensures r.Some? ==> IsStack(r.value, FieldCount, ny, nx)
  {
    if |flat| == FieldCount * (ny * nx) then Some(Reshape3(flat, FieldCount, ny, nx)) else None
  }

  /** The whole decoder: `np.fromfile(path, float32)` followed by the reshape. It succeeds
      exactly when the file holds 2*ny*nx whole words, and then yields two ny x nx fields. */
  function DecodeRaw(b: seq<Byte>, nx: nat, ny: nat, order: ByteOrder): (r: Option<seq<seq<seq<Word>>>>)
    ensures r.Some? <==> |b| / WordWidth == FieldCount * (ny * nx)
    ensures r.Some? ==> IsStack(r.value, FieldCount, ny, nx)
  {
    ReshapeFields(ReadAllWords(b, order), nx, ny)
  }

  /** On bytes, the reshape succeeds exactly when the file holds 2*ny*nx whole words,
      possibly followed by 1 to 3 stray bytes that `fromfile` drops. */
  lemma RawByteGate(b: seq<Byte>, nx: nat, ny: nat, order: ByteOrder)
    ensures DecodeRaw(b, nx, ny, order).Some? <==>
      WordWidth * (FieldCount * (ny * nx)) <= |b| < WordWidth * (FieldCount * (ny * nx)) + WordWidth
  {
    var n := FieldCount * (ny * nx);
    var q := |b| / WordWidth;
    assert WordWidth * q <= |b| < WordWidth * q + WordWidth;
    if q < n {
      assert WordWidth * q + WordWidth <= WordWidth * n;
    } else if q > n {
      assert WordWidth * n + WordWidth <= WordWidth * q;
    }
  }

  /** For the 20 x 16 grid: 640 words, so files of 2560 to 2563 bytes decode and no other. */
  lemma TwentyBySixteenGate(b: seq<Byte>, order: ByteOrder)
    ensures DecodeRaw(b, NX, NY, order).Some? <==> 2560 <= |b| <= 2563
  {
    RawByteGate(b, NX, NY, order);
  }

  /** Cell [t][r][c] is word t*ny*nx + r*nx + c of the file: a C-order reshape,
      with no transposition and no reordering. */
  lemma RawCell(flat: seq<Word>, nx: nat, ny: nat, t: nat, r: nat, c: nat)
    requires ReshapeFields(flat, nx, ny).Some?
    requires t < FieldCount && r < ny && c < nx
    ensures CellIndex(t, r, c, ny, nx) < |flat|
    ensures ReshapeFields(flat, nx, ny).value[t][r][c] == flat[CellIndex(t, r, c, ny, nx)]
  {
    Reshape3Cell(flat, FieldCount, ny, nx, t, r, c);
  }

  /** Field 0 is the first ny*nx words and field 1 the remaining ny*nx. */
  lemma RawFields(flat: seq<Word>, nx: nat, ny: nat)
    requires ReshapeFields(flat, nx, ny).Some?
    ensures Flatten(ReshapeFields(flat, nx, ny).value[0]) == flat[..ny * nx]
    ensures Flatten(ReshapeFields(flat, nx, ny).value[1]) == flat[ny * nx..]
  {
    var n := ny * nx;
    var blocks := Reshape(flat, FieldCount, n);
    assert blocks == [flat[..n]] + Reshape(flat[n..], 1, n);
    assert Reshape(flat[n..], 1, n) == [flat[n..][..n]] + Reshape(flat[n..][n..], 0, n);
    assert flat[n..][..n] == flat[n..];
    FlattenReshape(blocks[0], ny, nx);
    FlattenReshape(blocks[1], ny, nx);
  }

  /** The reshape is lossless: flattening the result row-major gives back every word in order. */
  lemma RawLossless(flat: seq<Word>, nx: nat, ny: nat)
    requires ReshapeFields(flat, nx, ny).Some?
    ensures Flatten3(ReshapeFields(flat, nx, ny).value) == flat
  {
    Flatten3Reshape3(flat, FieldCount, ny, nx);
  }

  /** The other direction: any (2, ny, nx) stack, flattened, reshapes back to itself. */
  lemma RawInverse(s: seq<seq<seq<Word>>>, nx: nat, ny: nat)
    requires IsStack(s, FieldCount, ny, nx)
    ensures ReshapeFields(Flatten3(s), nx, ny) == Some(s)
  {
    Reshape3Flatten3(s, FieldCount, ny, nx);
  }

  /** On bytes: any (2, ny, nx) stack written out as words and decoded comes back unchanged. */
  lemma RawFileRoundTrip(s: seq<seq<seq<Word>>>, nx: nat, ny: nat, order: ByteOrder)
    requires IsStack(s, FieldCount, ny, nx)
    ensures DecodeRaw(Serialize(Flatten3(s), order), nx, ny, order) == Some(s)
  {
    var ws := Flatten3(s);
    var b := Serialize(ws, order);
    SerializeRoundTrip([], ws, [], order);
    assert [] + b + [] == b;
    ReadWordsFull(b, 0, |ws|, order);
    assert ReadAllWords(b, order) == ws;
    RawInverse(s, nx, ny);
  }

  /** Every word lands in exactly one cell: changing word k changes cell CellOf(k) and no other. */
  lemma RawSingleWordChange(flat: seq<Word>, nx: nat, ny: nat, k: nat, w: Word)
    requires |flat| == FieldCount * (ny * nx) && k < |flat| && w != flat[k]
    ensures ReshapeFields(flat[k := w], nx, ny).Some?
    ensures forall t: nat, r: nat, c: nat :: t < FieldCount && r < ny && c < nx ==>
      (ReshapeFields(flat[k := w], nx, ny).value[t][r][c] != ReshapeFields(flat, nx, ny).value[t][r][c]
       <==> (t, r, c) == CellOf(k, FieldCount, ny, nx))
  {
    var cell := CellOf(k, FieldCount, ny, nx);
    forall t: nat, r: nat, c: nat | t < FieldCount && r < ny && c < nx
      ensures ReshapeFields(flat[k := w], nx, ny).value[t][r][c] != ReshapeFields(flat, nx, ny).value[t][r][c]
        <==> (t, r, c) == cell
    {
      RawCell(flat, nx, ny, t, r, c);
      RawCell(flat[k := w], nx, ny, t, r, c);
      if CellIndex(t, r, c, ny, nx) == k {
        CellIndexInjective(t, r, c, cell.0, cell.1, cell.2, ny, nx);
      }
    }
  }
}
