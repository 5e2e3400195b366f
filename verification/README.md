# Binary grid decoder of the NWP plotting scripts, in Dafny

The two plotting scripts of this repository read `h.grd`. That file holds two 2-D
geopotential-height fields on a 20 x 16 grid: field 0 is the initial field and field 1
is the 24 h forecast. Each script has its own `read_binary_data`, and that function is
the only real logic in the repository. This project models both versions and proves
what they return.

- **Marked version** (`shixi3.3/draw.py`). It reads the file as two Fortran
  `form='unformatted'` sequential records, `[m][payload][m][m][payload][m]`, where each
  `m` is a 4-byte length marker. It reads one int32 marker and ignores it, then reads
  `nx*ny` words. It seeks 8 bytes forward, past the trailing marker of record 1 and
  the leading marker of record 2, and reads `nx*ny` more words. Each block is reshaped
  row-major to `(ny, nx)` and copied into a zeroed `(2, ny, nx)` array. Any exception
  makes it return `None`.
- **Raw version** (`shixi3/draw.py`). It reads the whole file as 32-bit words and
  reshapes them to `(2, ny, nx)` in C order. That succeeds only when the word count is
  exactly `2*ny*nx`; otherwise it returns `None`.

How the model is built:

- Bytes are `seq<bv8>`. Values are opaque 32-bit words (`bv32`), built from 4 bytes in
  a byte order that is a parameter (`ByteOrder`).
- `nx` and `ny` are parameters; the 20 x 16 instance of both scripts is proved
  separately (`TwentyBySixteenLayout`, `TwentyBySixteenGate`).
- `Words` models how `np.fromfile` behaves on short files. A read of `count` words
  returns as many whole words as remain, and numpy does not raise. The cursor moves
  past every byte consumed. Whole-file reads drop a trailing partial word.
- `MarkedDecoder.DecodeMarked` is the marked version as a pure offset function.
- `MarkedReader.ReadBinaryData` is the same decoder run step by step. It uses a
  `BinaryFile` object whose cursor is moved by `FromFile` and `Seek`, and it fills a
  zeroed `array3` in place. It is proved equal to `DecodeMarked`.
- `RawDecoder` is the raw version, written as functions.
- `FortranRecords` is a synthetic writer for the record layout, used to state
  round trips.
- `Variants` relates the two versions to each other.

Files: `words.dfy`, `grid.dfy`, `fortran_records.dfy`, `marked_decoder.dfy`,
`marked_reader.dfy`, `raw_decoder.dfy`, `variants.dfy`.

Two details of the layout fixed by the code:

- After the first payload the marked version seeks exactly 8 bytes forward, so the
  forecast payload starts at byte `4 + 4*nx*ny + 8` (1292 for 20 x 16).
- The raw version accepts 2560 to 2563 bytes, because `fromfile` drops a partial
  trailing word.

## Model

| member | source | states |
|---|---|---|
| Words.ReadWords | shixi3.3/draw.py:59-67 | a cursor read of `count` words returns min(count, whole words left) words, word i being the 4 bytes at pos + 4i |
| Words.ReadAllWords | shixi3/draw.py:26 | a whole-file read returns floor(len/4) words |
| Words.WordBytes | shixi3.3/draw.py:47-48 | writing a word as 4 bytes and reading it back in the same byte order gives the word |
| Words.SerializeRoundTrip | shixi3.3/draw.py:47-53 | words written back to back read back unchanged, whatever bytes surround them |
| Words.ReadWordsAgree | shixi3.3/draw.py:61 | a full read depends only on the bytes it covers |
| Grid.Reshape | shixi3.3/draw.py:62 | reshaping ny*nx values yields ny rows of nx values |
| Grid.ReshapeCell | shixi3.3/draw.py:62 | cell [r][c] of the reshape is flat value r*nx + c (row-major) |
| Grid.FlattenReshape | shixi3/draw.py:29 | flattening a reshaped grid gives back the flat sequence |
| Grid.ReshapeFlatten | shixi3.3/draw.py:62 | reshaping a flattened ny x nx grid gives back the grid |
| Grid.Reshape3 | shixi3/draw.py:29 | reshape(fields, rows, cols) yields a stack of that shape |
| Grid.Reshape3Cell | shixi3/draw.py:29 | cell [t][r][c] of the stack is flat value t*rows*cols + r*cols + c |
| Grid.Flatten3Reshape3 | shixi3/draw.py:29 | flattening the reshaped stack gives back the flat sequence |
| Grid.Reshape3Flatten3 | shixi3/draw.py:29 | reshaping a flattened stack gives back the stack |
| Grid.CellOf | shixi3/draw.py:29 | every flat position of a (fields, rows, cols) stack lies in some cell, whose index is that position |
| Grid.CellIndexInjective | shixi3/draw.py:29 | distinct cells have distinct flat positions |
| FortranRecords.EncodeRecord | shixi3.3/draw.py:47-48 | a record is its payload plus 8 marker bytes |
| FortranRecords.RecordLayout | shixi3.3/draw.py:47-50 | in an encoded record, both markers hold the payload byte length and the payload follows the leading marker |
| MarkedDecoder.DecodeMarked | shixi3.3/draw.py:55-78 | on success, 2 fields of ny rows of nx words; for a non-empty grid, success iff the file has at least 8*nx*ny + 12 bytes, so a short file gives None and never a partial grid |
| MarkedDecoder.FieldCell | shixi3.3/draw.py:61-62 | a full read from `start`, reshaped, has at [r][c] the word at start + 4*(r*nx + c) |
| MarkedDecoder.MarkedCell | shixi3.3/draw.py:59-72 | data[0][r][c] is the word at byte 4 + 4*(r*nx+c), and data[1][r][c] the word at byte 4 + 4*nx*ny + 8 + 4*(r*nx+c) |
| MarkedDecoder.TwentyBySixteenLayout | shixi3.3/draw.py:35-36 | for 20 x 16: the payloads start at bytes 4 and 1292, and decoding succeeds iff the file has at least 2572 bytes |
| MarkedDecoder.SamePayloads | shixi3.3/draw.py:59-68 | files that agree on the two payload ranges, and on which reads come back full, decode alike |
| MarkedDecoder.IgnoresLeadingMarker | shixi3.3/draw.py:59 | the value of the leading marker never affects the result |
| MarkedDecoder.IgnoresGap | shixi3.3/draw.py:64-65 | the 8 bytes skipped between the payloads never affect the result |
| MarkedDecoder.IgnoresTail | shixi3.3/draw.py:65-74 | bytes from offset 8*nx*ny + 12 on (2572 for 20 x 16), the final trailing marker among them, never affect the result |
| MarkedDecoder.MarkedRoundTrip | shixi3.3/draw.py:47-72 | two grids written as Fortran sequential records decode to those grids, in the order written |
| MarkedReader.BinaryFile.Open | shixi3.3/draw.py:57 | opening a file puts the cursor at byte 0 |
| MarkedReader.BinaryFile.FromFile | shixi3.3/draw.py:59-67 | a read returns ReadWords at the cursor and moves the cursor by the bytes consumed |
| MarkedReader.BinaryFile.Seek | shixi3.3/draw.py:65 | a relative seek adds the offset to the cursor, past the end included |
| MarkedReader.AssignField | shixi3.3/draw.py:70-72 | `data[t] = field` overwrites slot t with the field cell for cell and leaves every other slot unchanged |
| MarkedReader.ReadBinaryData | shixi3.3/draw.py:55-78 | the step-by-step decoder returns None exactly when DecodeMarked does; otherwise it returns a new (2, ny, nx) array equal cell for cell to DecodeMarked's stack |
| RawDecoder.ReshapeFields | shixi3/draw.py:29-35 | the reshape succeeds iff there are exactly 2*ny*nx words; the result has 2 fields of ny x nx |
| RawDecoder.DecodeRaw | shixi3/draw.py:22-35 | decoding succeeds iff floor(len/4) == 2*ny*nx; the result has 2 fields of ny x nx |
| RawDecoder.RawByteGate | shixi3/draw.py:26-29 | in bytes: success iff 8*nx*ny <= len < 8*nx*ny + 4 |
| RawDecoder.TwentyBySixteenGate | shixi3/draw.py:10-11 | for 20 x 16: success iff the file has 2560 to 2563 bytes |
| RawDecoder.RawCell | shixi3/draw.py:29-32 | data[t][r][c] == flat[t*ny*nx + r*nx + c]: C order, no transposition before the return |
| RawDecoder.RawFields | shixi3/draw.py:26-29 | field 0 flattens to the first ny*nx words and field 1 to the rest; no marker or header is skipped |
| RawDecoder.RawLossless | shixi3/draw.py:26-29 | flattening the result row-major gives back the input words exactly |
| RawDecoder.RawInverse | shixi3/draw.py:29 | any (2, ny, nx) stack, flattened and reshaped, comes back unchanged |
| RawDecoder.RawFileRoundTrip | shixi3/draw.py:26-29 | any (2, ny, nx) stack, written out as words and decoded from those bytes, comes back unchanged |
| RawDecoder.RawSingleWordChange | shixi3/draw.py:29 | changing input word k changes cell CellOf(k) and no other cell |
| Variants.VariantsDisjoint | shixi3/draw.py:26-29 | no file is decoded by both versions, for every grid size |
| Variants.FortranFileOnlyMarked | shixi3.3/draw.py:59-72 | a two-record Fortran file is rejected by the raw version and decoded correctly by the marked version |

## Left out

- Font setup through `plt.rcParams` and the `font_manager` search (shixi3.3/draw.py:11-31): global plotting-library state, with no logic.
- The longitude/latitude axes and `np.meshgrid` (shixi3.3/draw.py:43-45, shixi3/draw.py:18-20): floating-point values that only feed the plot.
- `plot_height_field` and `main` in both files: map rendering, contour levels, PNG export, hard-coded paths and file I/O through foreign libraries.
- Opening the file: the decoders take the file's bytes, so a missing or unreadable file, which the source also turns into `None`, is not modelled.
- The `print` in the exception handlers: the failure is modelled as `None` only.
- Float semantics (NaN, rounding, equality): values are opaque 32-bit words, and copying float32 into a float32 array does not change them.
- numpy's native byte order: the byte order is a parameter instead.
- The marker's value is never compared with the payload length, because the code ignores it.
- `MarkedDecoder.DecodeMarked`: the size gate is stated only for `nx*ny > 0`. The source always has 20 x 16, and for an empty grid the function follows the same read rules.
- `shixi2/平流-时间差分3层-中央差分/NWP_shixi1.py` (text-table plotting) is not part of this model.
