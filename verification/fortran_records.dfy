/** A writer for Fortran `form='unformatted'` sequential files, the layout the marked
    decoder expects: every record is its payload wrapped in a leading and a trailing
    4-byte marker that holds the payload's length in bytes. */
module FortranRecords {
  import opened Words

  /** The record marker: the payload length in bytes, as a 32-bit integer. */
  function RecordMarker(payload: seq<Word>): Word {
    ((WordWidth * |payload|) % 0x1_0000_0000) as Word
  }

  /** One record: [marker][payload][marker]. */
  function EncodeRecord(payload: seq<Word>, order: ByteOrder): (r: seq<Byte>)
    ensures |r| == WordWidth * |payload| + 2 * WordWidth
  {
    var m := WordBytes(RecordMarker(payload), order);
    m + Serialize(payload, order) + m
  }

  /** Records written one after another. */
  function EncodeSequential(records: seq<seq<Word>>, order: ByteOrder): seq<Byte> {
    if records == [] then [] else EncodeRecord(records[0], order) + EncodeSequential(records[1..], order)
  }

  /** Each record's payload follows its leading marker, and both markers hold the payload length. */
  lemma RecordLayout(payload: seq<Word>, order: ByteOrder)
    ensures var r := EncodeRecord(payload, order);
      && WordAt(r, 0, order) == RecordMarker(payload)
      && WordsAt(r, WordWidth, |payload|, order) == payload
      && WordAt(r, |r| - WordWidth, order) == RecordMarker(payload)
  {
    var m := WordBytes(RecordMarker(payload), order);
    var s := Serialize(payload, order);
    var r := EncodeRecord(payload, order);
    SerializeRoundTrip(m, payload, m, order);
    assert r[..WordWidth] == m;
    assert WordAt(r, 0, order) == WordAt(m, 0, order);
    assert r[|r| - WordWidth..] == m;
    assert WordAt(r, |r| - WordWidth, order) == WordAt(m, 0, order);
  }

  /** Two wrapped blocks written one after the other, regrouped around either block. */
  lemma Regroup<T>(m0: seq<T>, s0: seq<T>, m1: seq<T>, s1: seq<T>)
    ensures (m0 + s0 + m0) + (m1 + s1 + m1) == m0 + s0 + (m0 + (m1 + s1 + m1))
    ensures (m0 + s0 + m0) + (m1 + s1 + m1) == ((m0 + s0 + m0) + m1) + s1 + m1
  {
  }

  /** A file of two records, split around either payload. */
  lemma TwoRecords(p0: seq<Word>, p1: seq<Word>, order: ByteOrder)
    ensures var m0, m1 := WordBytes(RecordMarker(p0), order), WordBytes(RecordMarker(p1), order);
      var rec0, rec1 := EncodeRecord(p0, order), EncodeRecord(p1, order);
      && EncodeSequential([p0, p1], order) == m0 + Serialize(p0, order) + (m0 + rec1)
      && EncodeSequential([p0, p1], order) == (rec0 + m1) + Serialize(p1, order) + m1
  {
    var rec0, rec1 := EncodeRecord(p0, order), EncodeRecord(p1, order);
    assert [p0, p1][1..] == [p1] && [p1][1..] == [];
    assert EncodeSequential([p1], order) == rec1 + [];
    assert EncodeSequential([p0, p1], order) == rec0 + rec1;
    Regroup(WordBytes(RecordMarker(p0), order), Serialize(p0, order), WordBytes(RecordMarker(p1), order), Serialize(p1, order));
  }
}
