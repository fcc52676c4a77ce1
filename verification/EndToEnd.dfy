/** The encoder and the decoder together: whole runs of the methods, and the framed forms of a
    message (length-delimited and null-terminated). */
module EndToEnd {
  import opened Wrappers
  import opened Config
  import opened Message
  import opened Wire
  import opened Decode
  import opened Encode
  import opened WellFormed
  import opened RoundTrip
  import opened Streams
  import opened Encoder
  import opened Decoder
  import Varint
  import Chunks

  // ----- Well-formed tables and messages meet what the methods ask for

  lemma {:induction false} WellFormedTableIsStatic(t: Table)
    requires TableOk(t)
    ensures StaticTable(t)
    decreases t
  {
    forall k | 0 <= k < |t| ensures StaticField(t[k]) { WellFormedFieldIsStatic(t[k]); }
  }

  lemma WellFormedFieldIsStatic(f: Field)
    requires FieldOk(f)
    ensures StaticField(f)
    decreases f
  {
    if f.lt.LSubmessage? { WellFormedTableIsStatic(f.lt.fields); }
  }

  lemma {:induction false} WellFormedMessageIsWritable(t: Table, cells: seq<Cell>)
    requires TableOk(t) && MessageOk(t, cells)
    ensures Writable(t, cells)
    decreases t, 1
  {
    forall k | 0 <= k < |t| ensures FieldWritable(t[k], cells[Home(t, k)]) {
      var f, c := t[k], cells[Home(t, k)];
      assert FieldOk(f) && CellOk(t, Home(t, k), c);
      HomeOfMember(t, k);
      Chunks.FindByTag(t, k);
      if f.ht.Repeated? { ItemsAreWritable(f, c.items); }
      else if f.ht.Oneof? { if c.which == f.tag { ValueIsWritable(f, c.v); } }
      else if c.Plain? || c.has { ValueIsWritable(f, c.v); }
    }
  }

  lemma {:induction false} ValueIsWritable(f: Field, v: Value)
    requires FieldOk(f) && ValueOk(f, v)
    ensures ValueWritable(f, v)
    decreases f, 0
  {
    if f.lt.LSubmessage? { WellFormedMessageIsWritable(f.lt.fields, v.cells); }
  }

  lemma ItemsAreWritable(f: Field, items: seq<Value>)
    requires FieldOk(f) && ItemsOk(f, items)
    ensures ItemsWritable(f, items)
    decreases f, 1
  {
    forall i | 0 <= i < |items| ensures ValueWritable(f, items[i]) { ValueIsWritable(f, items[i]); }
  }

  // ----- A whole run

  /** pb_encode into a buffer and pb_decode of what was written, into a struct that held anything:
      if the buffer is large enough both succeed and the message is the same. */
  method Transfer(t: Table, source: Struct, capacity: nat, dest: Struct) returns (encoded: bool, decoded: bool)
    requires TableOk(t) && MessageOk(t, source.cells) && source != dest
    requires capacity <= SIZE_T_MAX && |Encoding(t, source.cells).bytes| <= SIZE_T_MAX
    modifies dest
    ensures encoded <==> |Encoding(t, source.cells).bytes| <= capacity
    ensures encoded ==> decoded && SameMessage(t, source.cells, dest.cells)
  {
    WellFormedTableIsStatic(t);
    WellFormedMessageIsWritable(t, source.cells);
    RoundTripIsSame(t, source.cells);
    var buffer := new Byte[capacity];
    var ostream := new OStream.FromBuffer(buffer);
    ghost var visits;
    encoded, visits := EncodeTop(ostream, t, source.cells);
    FreshBuffer(capacity, ostream.Snap(), Encoding(t, source.cells), encoded);
    if !encoded { return false, false; }
    var istream := new IStream(buffer[..ostream.bytesWritten]);
    assert buffer[..ostream.bytesWritten] == ostream.Snap().written;
    decoded := DecodeMessageInto(istream, t, dest);
  }

  // ----- Framed messages

  /** pb_encode_nullterminated and pb_decode_nullterminated: decoding stops at the null byte and leaves
      what follows unread. */
  lemma NullTerminatedRoundTrip(t: Table, cells: seq<Cell>, rest: Bytes)
    requires TableOk(t) && MessageOk(t, cells)
    ensures DecodeMessage(t, Encoding(t, cells).bytes + [0] + rest) == Some(Decoded(Canon(t, cells), rest))
  {
    hide TableOk, CellOk, Fold, Finished, MessageEmit, Canon;
    var bytes, recs := Encoding(t, cells).bytes, MessageRecs(t, cells, 0);
    MessageRoundTrip(t, cells);
    FieldsRoundTrip(t, cells, 0);
    SplitInvertsRecsBytes(t, recs);
    SplitConcat(t, bytes, [0] + rest);
    ZeroStops(t, rest);
    assert recs + [] == recs;
    assert bytes + [0] + rest == bytes + ([0] + rest);
  }

  lemma ZeroStops(t: Table, rest: Bytes)
    ensures Split(t, [0] + rest) == Some(Framed([], true, rest))
  {
    Varint.LengthOfPrefix([0], rest);
    assert ([0] + rest)[..1] == [0] && ([0] + rest)[1..] == rest;
  }

  /** pb_encode_delimited and pb_decode_delimited: decoding reads exactly the announced bytes. */
  lemma DelimitedRoundTrip(t: Table, cells: seq<Cell>, rest: Bytes)
    requires TableOk(t) && MessageOk(t, cells) && |Encoding(t, cells).bytes| < Varint.U32
    ensures var body := Encoding(t, cells).bytes;
            && Announced(Delimit(body) + rest) == Some((body, |Delimit(body)|))
            && DecodeMessage(t, body) == Some(Decoded(Canon(t, cells), []))
  {
    MessageRoundTrip(t, cells);
    AnnouncedIsBody(Encoding(t, cells).bytes, rest);
  }
}
