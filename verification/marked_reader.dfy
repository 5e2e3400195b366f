/** `read_binary_data` of shixi3.3/draw.py step by step: an open file whose cursor is
    moved by `np.fromfile(f, count=...)` and `f.seek(8, 1)`, and a zeroed (2, ny, nx)
    array into which the two reshaped fields are copied. The result is proved equal to
    the pure offset function MarkedDecoder.DecodeMarked. */
module MarkedReader {
  import opened Words
  import opened Grid
  import MarkedDecoder

  /** A file opened with `open(filepath, 'rb')`: its bytes and the read cursor. */
  class BinaryFile {
    const bytes: seq<Byte>
    const order: ByteOrder
    var pos: nat

    constructor Open(bytes: seq<Byte>, order: ByteOrder)
      ensures this.bytes == bytes && this.order == order && pos == 0
    {
      this.bytes := bytes;
      this.order := order;
      pos := 0;
    }

    /** `np.fromfile(f, dtype, count=count)`: up to `count` whole words from the cursor,
        which moves past the bytes consumed. */
    method FromFile(count: nat) returns (words: seq<Word>)
      modifies this`pos
      ensures words == ReadWords(bytes, old(pos), count, order)
      ensures pos == CursorAfterRead(bytes, old(pos), count)
    {
      words := ReadWords(bytes, pos, count, order);
      pos := CursorAfterRead(bytes, pos, count);
    }

    /** `f.seek(offset, 1)`: relative to the cursor; Python allows moving past the end. */
    method Seek(offset: nat)
      modifies this`pos
      ensures pos == old(pos) + offset
    {
      pos := pos + offset;
    }
  }

  /** `data[t] = field`: copies an ny x nx field into slot `t` of the array and leaves
      every other slot as it was. */
  method AssignField(data: array3<Word>, t: nat, field: seq<seq<Word>>)
    requires t < data.Length0 && IsGrid(field, data.Length1, data.Length2)
    modifies data
    ensures forall i, r, c :: 0 <= i < data.Length0 && 0 <= r < data.Length1 && 0 <= c < data.Length2 ==>
      data[i, r, c] == if i == t then field[r][c] else old(data[i, r, c])
  {
    for r := 0 to data.Length1
      invariant forall i, r', c :: 0 <= i < data.Length0 && 0 <= r' < data.Length1 && 0 <= c < data.Length2 ==>
        data[i, r', c] == if i == t && r' < r then field[r'][c] else old(data[i, r', c])
    {
      for c := 0 to data.Length2
        invariant forall i, r', c' :: 0 <= i < data.Length0 && 0 <= r' < data.Length1 && 0 <= c' < data.Length2 ==>
          data[i, r', c'] == if i == t && (r' < r || (r' == r && c' < c)) then field[r'][c'] else old(data[i, r', c'])
      {
        data[t, r, c] := field[r][c];
      }
    }
  }

  /** The decoder as the script runs it. It returns None exactly when DecodeMarked does,
      and otherwise a new (2, ny, nx) array holding DecodeMarked's stack cell for cell. */
  method ReadBinaryData(bytes: seq<Byte>, nx: nat, ny: nat, order: ByteOrder) returns (data: Option<array3<Word>>)
    ensures data.None? <==> MarkedDecoder.DecodeMarked(bytes, nx, ny, order).None?
    ensures data.Some? ==>
      && fresh(data.value)
      && data.value.Length0 == FieldCount && data.value.Length1 == ny && data.value.Length2 == nx
      && forall t, r, c :: 0 <= t < FieldCount && 0 <= r < ny && 0 <= c < nx ==>
           data.value[t, r, c] == MarkedDecoder.DecodeMarked(bytes, nx, ny, order).value[t][r][c]
  {
    var f := new BinaryFile.Open(bytes, order);
    // the leading int32 marker; indexing an empty read raises IndexError
    var header := f.FromFile(1);
    if |header| == 0 {
      return None;
    }
    assert f.pos == MarkedDecoder.PayloadStart(0, nx, ny);
    var initial := f.FromFile(nx * ny);
    // reshaping to (ny, nx) raises ValueError unless the read was complete
    if |initial| != ny * nx {
      return None;
    }
    var initialField := Reshape(initial, ny, nx);
    f.Seek(MarkedDecoder.GapWidth);
    assert f.pos == MarkedDecoder.PayloadStart(1, nx, ny);
    var forecast := f.FromFile(nx * ny);
    if |forecast| != ny * nx {
      return None;
    }
    var forecastField := Reshape(forecast, ny, nx);
    assert MarkedDecoder.DecodeMarked(bytes, nx, ny, order) == Some([initialField, forecastField]);
    var a := new Word[FieldCount, ny, nx]((t, r, c) => 0);
    AssignField(a, 0, initialField);
    AssignField(a, 1, forecastField);
    data := Some(a);
  }
}
