/** The wire format in numbers: keys, the extent of payloads, and messages written out byte by byte
    (pb.h:318-324, pb_encode.c:669-707, pb_decode.c:278-331). */
module Format {
  import opened Wrappers
  import opened Config
  import opened Message
  import opened Wire
  import opened Decode
  import opened Encode
  import opened WellFormed
  import opened Chunks
  import opened Numbers
  import DecodeLaws
  import Varint

  // ----- Keys

  /** The key of a field is the varint of eight times its tag and the number of its wire type. */
  lemma Keys(f: Field)
    ensures f.lt.LBool? || f.lt.LVarint? || f.lt.LUvarint? || f.lt.LSvarint? ==> FieldKey(f) == Varint.Encode(8 * f.tag)
    ensures f.lt.LFixed64? ==> FieldKey(f) == Varint.Encode(8 * f.tag + 1)
    ensures f.lt.LFixed32? ==> FieldKey(f) == Varint.Encode(8 * f.tag + 5)
    ensures f.lt.LBytes? || f.lt.LString? || f.lt.LSubmessage? || f.lt.LFixedLengthBytes? ==>
              FieldKey(f) == Varint.Encode(8 * f.tag + 2)
  {}

  /** An array of numbers is one record with a key of wire type 2, unless the library is told not to pack; all other
      arrays are one record an item.  A static array that counts more than it has is refused. */
  lemma ArrayForm(f: Field, items: seq<Value>)
    requires items != []
    ensures f.at.Static? && |items| > f.arraySize ==> ArrayEmit(f, items) == Failure
    ensures f.at.Pointer? || |items| <= f.arraySize ==>
              ArrayEmit(f, items) ==
              if !PB_ENCODE_ARRAYS_UNPACKED && (f.lt.LBool? || f.lt.LVarint? || f.lt.LUvarint? || f.lt.LSvarint?
                  || f.lt.LFixed32? || f.lt.LFixed64?)
              then Written(Varint.Encode(8 * f.tag + 2)).Then(Prefixed(ItemsEmit(f, [], items)))
              else ItemsEmit(f, FieldKey(f), items)
  {
    hide ItemsEmit, Varint.Encode, Prefixed;
  }

  /** A required pointer that is null is an error, an optional one is not written. */
  lemma NullPointer(f: Field, memory: Bytes)
    requires f.at.Pointer? && !f.ht.Repeated? && !f.ht.Oneof?
    ensures FieldEmit(f, Link(memory, None)) == if f.ht.Required? then Emit([], false) else Emit([], true)
  {}

  // ----- Payloads

  /** How much pb_skip_field skips: a varint, 8 bytes, a length and as many bytes, 4 bytes; other wire types fail. */
  lemma Skipped(s: Bytes)
    ensures Extent(WireShape(0), s) == Varint.Length(s)
    ensures Extent(WireShape(1), s) == if |s| >= 8 then Some(8) else None
    ensures Extent(WireShape(2), s) == DelimitedLength(s)
    ensures Extent(WireShape(5), s) == if |s| >= 4 then Some(4) else None
    ensures forall w: nat :: w == 3 || w == 4 || w >= 6 ==> Extent(WireShape(w), s) == None
  {
    hide Varint.Length, Varint.Value32, DelimitedLength;
    DelimitedExtent(s);
  }

  lemma DelimitedExtent(s: Bytes)
    ensures Extent(Delimited, s) == DelimitedLength(s)
  {
    hide Varint.Length, Varint.Value32;
  }

  /** The varint in front of `s` and as many bytes as it says. */
  function DelimitedLength(s: Bytes): Option<nat> {
    var n :- Varint.Length(s);
    var size :- Varint.Value32(s[..n]);
    if n + size <= |s| then Some(n + size) else None
  }

  /** How much the decoder of one item reads. */
  lemma ItemExtent(f: Field, s: Bytes)
    ensures f.lt.LBool? || f.lt.LVarint? || f.lt.LUvarint? || f.lt.LSvarint? ==>
              Extent(ItemShape(f.lt), s) == Varint.Length(s)
    ensures f.lt.LFixed32? ==> Extent(ItemShape(f.lt), s) == if |s| >= 4 then Some(4) else None
    ensures f.lt.LFixed64? ==> Extent(ItemShape(f.lt), s) == if |s| >= 8 then Some(8) else None
    ensures f.lt.LBytes? || f.lt.LString? || f.lt.LSubmessage? || f.lt.LFixedLengthBytes? ==>
              Extent(ItemShape(f.lt), s) == DelimitedLength(s)
  {
    hide Varint.Length, Varint.Value32, DelimitedLength;
    DelimitedExtent(s);
  }

  /** A field of the table is read by its own type, whatever wire type its key tells, but for arrays of numbers,
      where wire type 2 announces a packed run. */
  lemma WireTypeIsIgnored(t: Table, k: nat, st: State, v: nat, w: nat, p: Bytes)
    requires k < |t| && |st.cells| == |t| && Find(t, t[k].tag) == Some(k)
    requires t[k].ht.Repeated? && t[k].lt.Packable() ==> v != 2 && w != 2
    ensures ShapeOf(t, t[k].tag, v) == ShapeOf(t, t[k].tag, w)
    ensures Step(t, st, Rec(t[k].tag, v, p)) == Step(t, st, Rec(t[k].tag, w, p))
  {
    var c, n := st.cells[Home(t, k)], CountBefore(t[k], Some(k), st);
    assert CellAfter(t[k], c, n, Rec(t[k].tag, v, p)) == CellAfter(t[k], c, n, Rec(t[k].tag, w, p));
  }

  // ----- Messages byte by byte

  const COUNT := Field(1, LUvarint, Required, Static, 0, 0, 4, 0, None)
  const NAME := Field(2, LString, Required, Static, 0, 0, 16, 0, None)
  const NUMBERS := Field(4, LVarint, Repeated, Static, 0, 4, 4, 8, None)
  const INNER := Field(3, LSubmessage([COUNT]), Required, Static, 0, 0, 4, 0, None)

  lemma Varints()
    ensures Varint.Encode(150) == [0x96, 0x01] && Varint.Encode(300) == [0xAC, 0x02]
    ensures Varint.Encode(3) == [0x03] && Varint.Encode(270) == [0x8E, 0x02]
    ensures Varint.Encode(86942) == [0x9E, 0xA7, 0x05]
    ensures Varint.Encode(8) == [0x08] && Varint.Encode(18) == [0x12] && Varint.Encode(26) == [0x1A]
    ensures Varint.Encode(34) == [0x22] && Varint.Encode(6) == [6] && Varint.Encode(7) == [7]
  {
    assert Varint.Encode(1) == [0x01] && Varint.Encode(2) == [0x02] && Varint.Encode(5) == [0x05];
    assert Varint.Encode(679) == [0xA7] + Varint.Encode(5);
    assert Varint.Encode(86942) == [0x9E] + Varint.Encode(679);
  }

  /** One field after the other, in the order of the table. */
  lemma TwoFields(f: Field, g: Field, c: Cell, d: Cell)
    requires !f.ht.Oneof?
    ensures Encoding([f, g], [c, d]) == FieldEmit(f, c).Then(FieldEmit(g, d))
  {
    hide FieldEmit;
    assert MessageEmit([f, g], [c, d], 2) == Nothing;
    assert Home([f, g], 1) == 1 && Home([f, g], 0) == 0;
    assert FieldEmit(g, d).bytes + [] == FieldEmit(g, d).bytes;
    assert MessageEmit([f, g], [c, d], 1) == FieldEmit(g, d);
  }

  /** A required field is its key and its item. */
  lemma RequiredField(f: Field, v: Value, key: Bytes, item: Bytes)
    requires f.ht.Required? && f.at.Static? && FieldKey(f) == key && ItemEmit(f, v) == Written(item)
    ensures FieldEmit(f, Plain(v)) == Written(key + item)
  {}

  /** A number and a string: 08 96 01 12 07 "testing". */
  lemma TwoFieldExample()
    ensures Encoding([COUNT, NAME], [Plain(VInt(150)), Plain(VString([116, 101, 115, 116, 105, 110, 103]))])
         == Written([0x08, 0x96, 0x01, 0x12, 0x07, 0x74, 0x65, 0x73, 0x74, 0x69, 0x6E, 0x67])
  {
    hide Encoding, FieldEmit, ItemEmit, Varint.Encode, StrLen, FieldKey, Delimit;
    var chars: Bytes := [116, 101, 115, 116, 105, 110, 103];
    Varints();
    TwoFields(COUNT, NAME, Plain(VInt(150)), Plain(VString(chars)));
    NumberField();
    Keys(NAME);
    EncodeString(NAME, chars, []);
    assert Delimit(chars) == [0x07] + chars by { Prefix(chars); }
    RequiredField(NAME, VString(chars), [0x12], [0x07] + chars);
    assert [0x08, 0x96, 0x01] + ([0x12] + ([0x07] + chars))
        == [0x08, 0x96, 0x01, 0x12, 0x07, 0x74, 0x65, 0x73, 0x74, 0x69, 0x6E, 0x67];
  }

  lemma NumberField()
    ensures FieldEmit(COUNT, Plain(VInt(150))) == Written([0x08, 0x96, 0x01])
  {
    hide ItemEmit, Varint.Encode, FieldKey;
    Varints();
    Keys(COUNT);
    EncodeIntegers(COUNT, 150);
    RequiredField(COUNT, VInt(150), [0x08], [0x96, 0x01]);
  }

  lemma Prefix(body: Bytes)
    ensures Delimit(body) == Varint.Encode(|body|) + body
  {}

  /** The numbers 3, 270 and 86942 in one packed run: 22 06 03 8E 02 9E A7 05. */
  lemma PackedExample()
    requires !PB_ENCODE_ARRAYS_UNPACKED
    ensures FieldEmit(NUMBERS, Counted([VInt(3), VInt(270), VInt(86942)]))
         == Written([0x22, 0x06, 0x03, 0x8E, 0x02, 0x9E, 0xA7, 0x05])
  {
    hide ItemsEmit, ItemEmit, ArrayEmit, Varint.Encode, Delimit, FieldKey;
    var items := [VInt(3), VInt(270), VInt(86942)];
    Varints();
    ArrayForm(NUMBERS, items);
    EncodeIntegers(NUMBERS, 3);
    EncodeIntegers(NUMBERS, 270);
    EncodeIntegers(NUMBERS, 86942);
    OneMoreItem(NUMBERS, VInt(86942), []);
    OneMoreItem(NUMBERS, VInt(270), [VInt(86942)]);
    OneMoreItem(NUMBERS, VInt(3), [VInt(270), VInt(86942)]);
    assert [VInt(86942)] + [] == [VInt(86942)] && [VInt(270)] + [VInt(86942)] == [VInt(270), VInt(86942)];
    assert [VInt(3)] + [VInt(270), VInt(86942)] == items;
    assert ItemsEmit(NUMBERS, [], items) == Written([0x03, 0x8E, 0x02, 0x9E, 0xA7, 0x05]);
    Prefix([0x03, 0x8E, 0x02, 0x9E, 0xA7, 0x05]);
  }

  lemma OneMoreItem(f: Field, v: Value, items: seq<Value>)
    requires ItemEmit(f, v).ok
    ensures ItemsEmit(f, [], []) == Nothing
    ensures ItemsEmit(f, [], [v] + items)
         == Emit(ItemEmit(f, v).bytes + ItemsEmit(f, [], items).bytes, ItemsEmit(f, [], items).ok)
  {
    hide ItemEmit;
    assert ([v] + items)[1..] == items;
    ItemsEmitStep(f, [], [v] + items);
    assert [] + ItemEmit(f, v).bytes == ItemEmit(f, v).bytes;
  }

  /** A submessage that holds 150: 1A 03 08 96 01. */
  lemma SubmessageExample()
    ensures FieldEmit(INNER, Plain(VMsg([Plain(VInt(150))]))) == Written([0x1A, 0x03, 0x08, 0x96, 0x01])
  {
    hide FieldEmit, Varint.Encode, FieldKey, Delimit;
    var cells := [Plain(VInt(150))];
    Varints();
    NumberField();
    assert MessageEmit([COUNT], cells, 1) == Nothing;
    assert [0x08, 0x96, 0x01] + [] == [0x08, 0x96, 0x01];
    assert Encoding([COUNT], cells) == Written([0x08, 0x96, 0x01]);
    Prefix([0x08, 0x96, 0x01]);
    Keys(INNER);
    RequiredField(INNER, VMsg(cells), [0x1A], [0x03, 0x08, 0x96, 0x01]);
  }

  /** A uint32 of 3000000000 and an int32 whose five bytes stand for -1. */
  lemma WideNumbers(f: Field, g: Field, prior: Value)
    requires f.lt.LUvarint? && f.dataSize == 4 && g.lt.LVarint? && g.dataSize == 4
    ensures Item(f, prior, Varint.Encode(3000000000)) == Some(VInt(3000000000))
    ensures Item(g, prior, Varint.Encode(4294967295)) == Some(VInt(-1)) && |Varint.Encode(4294967295)| == 5
    ensures Item(g, prior, Varint.Encode(1073741824)) == Some(VInt(1073741824))
  {
    VarintItem(3000000000);
    VarintItem(4294967295);
    VarintItem(1073741824);
    DecodeUnsigned(f, prior, Varint.Encode(3000000000), 3000000000);
    DecodeSigned(g, prior, Varint.Encode(4294967295), 4294967295);
    DecodeSigned(g, prior, Varint.Encode(1073741824), 1073741824);
    Varint.EncodeLengthByRange(4294967295);
    Varint.Decode32Ranges(4294967295);
  }

  /** pb_decode_varint takes at most ten bytes and keeps 64 bits of what they stand for. */
  lemma LongVarint(p: Bytes)
    ensures Varint.Value64(p) == if |p| <= 10 then Some(Varint.Value(p) % 18446744073709551616) else None
  {}

  /** Without fields even a record with tag 0 is read as a bool, although its key announces a length. */
  lemma EmptyTableExample()
    ensures DecodeMessage([], [0x02, 0x05]) == Some(Decoded([], []))
  {
    var s: Bytes := [0x02, 0x05];
    assert Varint.Length(s) == Some(1) && s[..1] == [0x02] && s[1..] == [0x05];
    assert ReadKey(s) == Key(0, 2, [0x05]);
    var r := Rec(0, 2, [0x05]);
    assert Varint.Length([0x05]) == Some(1) && [0x05][..1] == [0x05] && [0x05][1..] == [];
    assert Next([], s) == Got(r, []);
    assert Split([], s) == Some(Framed([r] + [], false, []));
    assert Step([], Fresh([]), r) == Some(Fresh([]));
    DecodeLaws.FoldOfOne([], Fresh([]), r);
    assert [r] + [] == [r];
  }
}
