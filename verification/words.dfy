/** Bytes, 32-bit words and the way numpy's `fromfile` turns the one into the other.
    Values are treated as opaque 32-bit words: the decoders never do float arithmetic,
    they only move words from byte offsets into grid cells. */
module Words {

  type Byte = bv8
  type Word = bv32

  /** The byte order used to assemble a word; numpy uses the platform's native order,
      which the file does not record, so it is a parameter here. */
  datatype ByteOrder = LittleEndian | BigEndian

  datatype Option<+T> = None | Some(value: T)

  /** Width in bytes of a float32 value and of an int32 record marker. */
  const WordWidth: nat := 4

  function Min(a: nat, b: nat): nat {
    if a <= b then a else b
  }

  /** The word whose bytes, least significant first, are b0, b1, b2, b3. */
  function Assemble(b0: Byte, b1: Byte, b2: Byte, b3: Byte): Word {
    (b0 as Word) | ((b1 as Word) << 8) | ((b2 as Word) << 16) | ((b3 as Word) << 24)
  }

  /** The bytes of `w`, least significant first. */
  function Split(w: Word): (r: seq<Byte>)
    ensures |r| == WordWidth
  {
    [(w & 0xFF) as Byte, ((w >> 8) & 0xFF) as Byte, ((w >> 16) & 0xFF) as Byte, (w >> 24) as Byte]
  }

  lemma AssembleSplit(w: Word)
    ensures var s := Split(w); Assemble(s[0], s[1], s[2], s[3]) == w
  {
    var s := Split(w);
    assert s[0] as Word == w & 0xFF;
    assert (s[1] as Word) << 8 == w & 0xFF00;
    assert (s[2] as Word) << 16 == w & 0xFF0000;
    assert (s[3] as Word) << 24 == w & 0xFF000000;
  }

  /** The word stored in the four bytes starting at `off`. */
  function WordAt(b: seq<Byte>, off: nat, order: ByteOrder): Word
    requires off + WordWidth <= |b|
  {
    match order
    case LittleEndian => Assemble(b[off], b[off + 1], b[off + 2], b[off + 3])
    case BigEndian => Assemble(b[off + 3], b[off + 2], b[off + 1], b[off])
  }

  /** The four bytes that store `w`; reading them back gives `w`. */
  function WordBytes(w: Word, order: ByteOrder): (r: seq<Byte>)
    ensures |r| == WordWidth
    ensures WordAt(r, 0, order) == w
  {
    AssembleSplit(w);
    var s := Split(w);
    match order
    case LittleEndian => s
    case BigEndian => [s[3], s[2], s[1], s[0]]
  }

  /** Blocks written back to back. */
  function Concat<T>(blocks: seq<seq<T>>): seq<T> {
    if blocks == [] then [] else blocks[0] + Concat(blocks[1..])
  }

  /** Every block is one word wide. */
  predicate WordWide<T>(blocks: seq<seq<T>>) {
    forall m :: 0 <= m < |blocks| ==> |blocks[m]| == WordWidth
  }

  /** Word-wide blocks concatenate to four elements per block. */
  lemma {:induction false} ConcatLength<T>(blocks: seq<seq<T>>)
    requires WordWide(blocks)
    ensures |Concat(blocks)| == WordWidth * |blocks|
  {
    if blocks != [] {
      ConcatLength(blocks[1..]);
    }
  }

  /** Element j of block i of word-wide blocks is element 4i + j of their concatenation. */
  lemma {:induction false} ConcatAt<T>(blocks: seq<seq<T>>, i: nat, j: nat)
    requires WordWide(blocks) && i < |blocks| && j < WordWidth
    ensures WordWidth * i + j < |Concat(blocks)|
    ensures Concat(blocks)[WordWidth * i + j] == blocks[i][j]
  {
    ConcatLength(blocks);
    if i > 0 {
      ConcatAt(blocks[1..], i - 1, j);
      ConcatLength(blocks[1..]);
      assert Concat(blocks) == blocks[0] + Concat(blocks[1..]);
      assert Concat(blocks)[WordWidth * i + j] == Concat(blocks[1..])[WordWidth * (i - 1) + j];
    }
  }

  /** The 4-byte encodings of the words, one block per word. */
  function WordBlocks(ws: seq<Word>, order: ByteOrder): (r: seq<seq<Byte>>)
    ensures |r| == |ws| && WordWide(r)
    ensures forall i :: 0 <= i < |ws| ==> r[i] == WordBytes(ws[i], order)
  {
    seq(|ws|, i requires 0 <= i < |ws| => WordBytes(ws[i], order))
  }

  /** The bytes of a word sequence written back to back (what `tofile` writes). */
  function Serialize(ws: seq<Word>, order: ByteOrder): (r: seq<Byte>)
    ensures |r| == WordWidth * |ws|
  {
    ConcatLength(WordBlocks(ws, order));
    Concat(WordBlocks(ws, order))
  }

  /** The `n` consecutive words starting at byte offset `pos`. */
  function WordsAt(b: seq<Byte>, pos: nat, n: nat, order: ByteOrder): seq<Word>
    requires pos + WordWidth * n <= |b|
  {
    seq(n, i requires 0 <= i < n => WordAt(b, pos + WordWidth * i, order))
  }

  /** Bytes left after the cursor; a cursor past the end (Python allows seeking there) leaves none. */
  function Remaining(b: seq<Byte>, pos: nat): nat {
    if pos <= |b| then |b| - pos else 0
  }

  /** Whole words left after the cursor; a partial word at the end is never returned. */
  function Available(b: seq<Byte>, pos: nat): nat {
    Remaining(b, pos) / WordWidth
  }

  /** The words `np.fromfile(f, count=count)` returns when the cursor is at `pos`:
      as many as were asked for, or fewer when the file ends first (numpy then
      returns a shorter array rather than raising). */
  function ReadWords(b: seq<Byte>, pos: nat, count: nat, order: ByteOrder): (r: seq<Word>)
    ensures |r| == Min(count, Available(b, pos))
    ensures forall i :: 0 <= i < |r| ==> pos + WordWidth * i + WordWidth <= |b| && r[i] == WordAt(b, pos + WordWidth * i, order)
  {
    var n := Min(count, Available(b, pos));
    if n == 0 then [] else WordsAt(b, pos, n, order)
  }

  /** Where the cursor stands after that read: the underlying `fread` consumes the
      requested bytes, or everything up to the end of the file. */
  function CursorAfterRead(b: seq<Byte>, pos: nat, count: nat): nat {
    pos + Min(WordWidth * count, Remaining(b, pos))
  }

  /** The words `np.fromfile(path)` returns: the whole file, trailing partial word ignored. */
  function ReadAllWords(b: seq<Byte>, order: ByteOrder): (r: seq<Word>)
    ensures |r| == |b| / WordWidth
  {
    ReadWords(b, 0, Available(b, 0), order)
  }

  /** Two byte sequences of the same length that agree everywhere except on [lo, hi). */
  predicate SameOutside(b1: seq<Byte>, b2: seq<Byte>, lo: nat, hi: nat) {
    |b1| == |b2| && forall i :: 0 <= i < |b1| && !(lo <= i < hi) ==> b1[i] == b2[i]
  }

  /** Byte j of word i of a serialized sequence is byte 4i + j of the result. */
  lemma SerializeAt(ws: seq<Word>, i: nat, j: nat, order: ByteOrder)
    requires i < |ws| && j < WordWidth
    ensures WordWidth * i + j < |Serialize(ws, order)|
    ensures Serialize(ws, order)[WordWidth * i + j] == WordBytes(ws[i], order)[j]
  {
    ConcatAt(WordBlocks(ws, order), i, j);
  }

  /** A word read depends only on the four bytes it covers. */
  lemma WordAtBytes(b: seq<Byte>, off: nat, m: seq<Byte>, order: ByteOrder)
    requires off + WordWidth <= |b| && |m| == WordWidth
    requires b[off] == m[0] && b[off + 1] == m[1] && b[off + 2] == m[2] && b[off + 3] == m[3]
    ensures WordAt(b, off, order) == WordAt(m, 0, order)
  {
  }

  /** Reading back serialized words, whatever surrounds them, gives the words written. */
  lemma SerializeRoundTrip(pre: seq<Byte>, ws: seq<Word>, post: seq<Byte>, order: ByteOrder)
    ensures |pre| + WordWidth * |ws| <= |pre + Serialize(ws, order) + post|
    ensures WordsAt(pre + Serialize(ws, order) + post, |pre|, |ws|, order) == ws
  {
    var s := Serialize(ws, order);
    var b := pre + s + post;
    var r := WordsAt(b, |pre|, |ws|, order);
    forall i | 0 <= i < |ws|
      ensures r[i] == ws[i]
    {
      var off := |pre| + WordWidth * i;
      var m := WordBytes(ws[i], order);
      SerializeAt(ws, i, 0, order);
      SerializeAt(ws, i, 1, order);
      SerializeAt(ws, i, 2, order);
      SerializeAt(ws, i, 3, order);
      assert b[off] == s[WordWidth * i] && b[off + 1] == s[WordWidth * i + 1];
      assert b[off + 2] == s[WordWidth * i + 2] && b[off + 3] == s[WordWidth * i + 3];
      WordAtBytes(b, off, m, order);
    }
  }

  /** A word read depends only on the bytes it covers. */
  lemma WordsAtAgree(b1: seq<Byte>, b2: seq<Byte>, pos: nat, n: nat, order: ByteOrder)
    requires pos + WordWidth * n <= |b1| && pos + WordWidth * n <= |b2|
    requires forall i :: pos <= i < pos + WordWidth * n ==> b1[i] == b2[i]
    ensures WordsAt(b1, pos, n, order) == WordsAt(b2, pos, n, order)
  {
    forall i | 0 <= i < n
      ensures WordAt(b1, pos + WordWidth * i, order) == WordAt(b2, pos + WordWidth * i, order)
    {
      var off := pos + WordWidth * i;
      assert b1[off] == b2[off] && b1[off + 1] == b2[off + 1] && b1[off + 2] == b2[off + 2] && b1[off + 3] == b2[off + 3];
    }
  }

  /** A read of `count` whole words depends only on the bytes it covers. */
  lemma ReadWordsAgree(b1: seq<Byte>, b2: seq<Byte>, pos: nat, count: nat, order: ByteOrder)
    requires Available(b1, pos) >= count && Available(b2, pos) >= count
    requires forall i :: pos <= i < pos + WordWidth * count && i < |b1| && i < |b2| ==> b1[i] == b2[i]
    ensures ReadWords(b1, pos, count, order) == ReadWords(b2, pos, count, order)
  {
    if count > 0 {
      WordsAtAgree(b1, b2, pos, count, order);
    }
  }

  /** A read that fits in the file returns exactly the words stored there. */
  lemma ReadWordsFull(b: seq<Byte>, pos: nat, count: nat, order: ByteOrder)
    requires pos + WordWidth * count <= |b|
    ensures Available(b, pos) >= count
    ensures ReadWords(b, pos, count, order) == WordsAt(b, pos, count, order)
  {
  }

  /** Word `i` of a read that comes back full is the word at byte offset pos + 4i. */
  lemma ReadWordsFullAt(b: seq<Byte>, pos: nat, count: nat, order: ByteOrder, i: nat)
    requires Available(b, pos) >= count && i < count
    ensures |ReadWords(b, pos, count, order)| == count
    ensures pos + WordWidth * i + WordWidth <= |b|
    ensures ReadWords(b, pos, count, order)[i] == WordAt(b, pos + WordWidth * i, order)
  {
  }

  /** Word `i` of a read is the word at byte offset pos + 4i. */
  lemma ReadWordsAt(b: seq<Byte>, pos: nat, count: nat, order: ByteOrder, i: nat)
    requires i < |ReadWords(b, pos, count, order)|
    ensures pos + WordWidth * i + WordWidth <= |b|
    ensures ReadWords(b, pos, count, order)[i] == WordAt(b, pos + WordWidth * i, order)
  {
  }
}
