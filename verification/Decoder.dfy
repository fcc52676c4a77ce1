/** The record loop and the field decoders of pb_decode.c, for static fields. */
module Decoder {
  import opened Absence
  import opened Wrappers
  import opened Config
  import opened Message
  import opened Wire
  import opened Decode
  import opened DecodeLaws
  import opened Iterator
  import opened RequiredMask
  import opened Streams
  import Varint

  /** A message struct in memory. */
  class Struct {
    var cells: seq<Cell>

    constructor (contents: seq<Cell>)
      ensures cells == contents
    {
      cells := contents;
    }
  }

  // ----- What C's types guarantee

  /** A table of static fields whose tags tell them apart, nested to a finite depth. */
  ghost predicate StaticTable(t: Table)
    decreases t
  {
    && (forall j, k :: 0 <= j < k < |t| ==> t[j].tag != t[k].tag)
    && (forall k :: 0 <= k < |t| ==> StaticField(t[k]))
  }

  ghost predicate StaticField(f: Field)
    decreases f
  {
    && f.at.Static? && f.tag != 0 && !f.lt.LExtension? && f.arraySize <= PB_SIZE_MAX
    && (f.lt.LSubmessage? ==> StaticTable(f.lt.fields))
  }

  /** The cells have the shapes the table gives them.  A count may be any pb_size_t: when an array overflows,
      the decoder has counted the item that does not fit. */
  ghost predicate Typed(t: Table, cells: seq<Cell>)
    decreases t, 1
  {
    |cells| == |t| && forall k :: 0 <= k < |t| ==> TypedCell(t[k], Home(t, k) == k, cells[k])
  }

  ghost predicate TypedCell(f: Field, first: bool, c: Cell)
    decreases f, 1
  {
    match f.ht
    case Required => c.Plain? && TypedValue(f, c.v)
    case Optional => if f.sizeOffset == 0 then c.Plain? && TypedValue(f, c.v) else c.Has? && TypedValue(f, c.v)
    case Repeated =>
      if f.sizeOffset == 0 then c.Array? && |c.items| == f.arraySize else c.Counted? && |c.items| <= PB_SIZE_MAX
    case Oneof => if first then c.Union? else c.Joined?
  }

  ghost predicate TypedValue(f: Field, v: Value)
    decreases f, 0
  {
    f.lt.LSubmessage? ==> v.VMsg? && Typed(f.lt.fields, v.cells)
  }

  lemma {:induction false} DefaultsAreTyped(t: Table)
    ensures Typed(t, Defaults(t))
    decreases t
  {
    forall k | 0 <= k < |t| ensures TypedCell(t[k], Home(t, k) == k, Defaults(t)[k]) {
      DefaultValueIsTyped(t[k]);
    }
  }

  lemma DefaultValueIsTyped(f: Field)
    ensures TypedValue(f, DefaultValue(f)) && TypedValue(f, DefaultItem(f))
    decreases f
  {
    if f.lt.LSubmessage? { DefaultsAreTyped(f.lt.fields); }
  }

  // ----- What an item decoder reads

  /** The item in front of `s` and the number of bytes it takes. */
  function ReadItem(f: Field, prior: Value, s: Bytes): (r: Option<(Value, nat)>)
    ensures r.Some? ==> 0 < r.value.1 <= |s|
  {
    var n :- Extent(ItemShape(f.lt), s);
    var v :- Item(f, prior, s[..n]);
    Some((v, n))
  }

  /** An item decoder succeeds exactly when there is an item `r`; it then returns it and has
      read exactly its bytes. */
  twostate predicate Delivers(stream: IStream, r: Option<(Value, nat)>, ok: bool, v: Value)
    requires old(stream.Valid())
    reads stream
  {
    && stream.Valid() && stream.End() <= old(stream.End())
    && ok == r.Some?
    && (r.Some? ==>
          stream.End() == old(stream.End()) && v == r.value.0 && r.value.1 <= |old(stream.Rest())|
              && stream.Rest() == old(stream.Rest())[r.value.1..])
  }

  /** A length-delimited item is read as its announced body. */
  lemma DelimitedItem(f: Field, prior: Value, s: Bytes)
    requires ItemShape(f.lt) == Delimited
    ensures ReadItem(f, prior, s) ==
            if Announced(s).None? then None
            else
              var v := BodyItem(f, prior, Announced(s).value.0);
              if v.None? then None else Some((v.value, Announced(s).value.1))
  {
    hide Announced, BodyItem, Extent, Body;
    AnnouncedIsExtent(s);
  }

  /** What the size in front of an item decides, before its body has been looked at. */
  predicate SizeFits(f: Field, size: nat) {
    match f.lt
    case LBytes =>
      var allocSize := (size + BytesHeader()) % (SIZE_T_MAX + 1);
      size <= PB_SIZE_MAX && size <= allocSize <= f.dataSize
    case LString => size <= (size + 1) % Varint.U32 <= f.dataSize
    case LFixedLengthBytes => size <= PB_SIZE_MAX && (size == 0 || size == f.dataSize)
    case _ => false
  }

  /** A byte string or string is read if its size fits and all its bytes are there. */
  lemma SizedItem(f: Field, prior: Value, s: Bytes)
    requires f.lt.LBytes? || f.lt.LString? || f.lt.LFixedLengthBytes?
    ensures ReadItem(f, prior, s) ==
            if Reads32(s).None? then None
            else
              var (size, h) := Reads32(s).value;
              if !SizeFits(f, size) || |s| - h < size then None
              else if f.lt.LString? then Some((VString(s[h..][..size]), h + size))
              else if f.lt.LFixedLengthBytes? && size == 0 then Some((VBytes(Zeros(f.dataSize)), h))
              else Some((VBytes(s[h..][..size]), h + size))
  {
    hide ReadItem, Reads32;
    DelimitedItem(f, prior, s);
  }

  // ----- Field decoders

  /** pb_read into the destination buffer. */
  method ReadBuffer(stream: IStream, size: nat) returns (ok: bool, bytes: Bytes)
    requires stream.Valid()
    modifies stream
    ensures stream.Valid() && stream.End() == old(stream.End())
    ensures ok <==> size <= |old(stream.Rest())|
    ensures ok ==> bytes == old(stream.Rest())[..size] && stream.Rest() == old(stream.Rest())[size..]
  {
    var buffer := new Byte[size];
    ok := stream.Read(buffer, size);
    bytes := buffer[..];
    assert buffer[..] == buffer[..size];
  }

  method DecBool(stream: IStream, f: Field, ghost prior: Value) returns (ok: bool, v: Value)
    requires stream.Valid() && f.lt.LBool?
    modifies stream
    ensures Delivers(stream, ReadItem(f, prior, old(stream.Rest())), ok, v)
  {
    v := Unset;
    var value;
    ok, value := stream.DecodeVarint32();
    if !ok { return; }
    v := VBool(value != 0);
  }

  method DecVarint(stream: IStream, f: Field, ghost prior: Value) returns (ok: bool, v: Value)
    requires stream.Valid() && f.lt.LVarint?
    modifies stream
    ensures Delivers(stream, ReadItem(f, prior, old(stream.Rest())), ok, v)
  {
    v := Unset;
    var value;
    ok, value := stream.DecodeVarint();
    if !ok { return; }
    // Fields of up to 32 bits are cast to int32 first, to get the sign right.
    var svalue := if f.dataSize == 8 then ToSigned(value, 8) else ToSigned(value, 4);
    if !IntSize(f.dataSize) { return false, v; }
    var clamped := ToSigned(svalue, f.dataSize);
    if clamped != svalue { return false, v; }
    v := VInt(clamped);
  }

  method DecUvarint(stream: IStream, f: Field, ghost prior: Value) returns (ok: bool, v: Value)
    requires stream.Valid() && f.lt.LUvarint?
    modifies stream
    ensures Delivers(stream, ReadItem(f, prior, old(stream.Rest())), ok, v)
  {
    v := Unset;
    var value;
    ok, value := stream.DecodeVarint();
    if !ok { return; }
    if !IntSize(f.dataSize) { return false, v; }
    var clamped := value % Modulus(f.dataSize);
    if clamped != value { return false, v; }
    v := VInt(clamped);
  }

  method DecSvarint(stream: IStream, f: Field, ghost prior: Value) returns (ok: bool, v: Value)
    requires stream.Valid() && f.lt.LSvarint?
    modifies stream
    ensures Delivers(stream, ReadItem(f, prior, old(stream.Rest())), ok, v)
  {
    v := Unset;
    var zigzagged;
    ok, zigzagged := stream.DecodeVarint();
    if !ok { return; }
    var value: int := zigzagged / 2;
    if zigzagged % 2 == 1 { value := -value - 1; }
    if !IntSize(f.dataSize) { return false, v; }
    var clamped := ToSigned(value, f.dataSize);
    if clamped != value { return false, v; }
    v := VInt(clamped);
  }

  method DecFixed32(stream: IStream, f: Field, ghost prior: Value) returns (ok: bool, v: Value)
    requires stream.Valid() && f.lt.LFixed32?
    modifies stream
    ensures Delivers(stream, ReadItem(f, prior, old(stream.Rest())), ok, v)
  {
    v := Unset;
    var bytes := new Byte[4];
    ok := stream.Read(bytes, 4);
    if !ok { return; }
    v := VInt(LittleEndian(bytes[0], bytes[1], bytes[2], bytes[3]));
    FourBytes(bytes[..4]);
  }

  method DecFixed64(stream: IStream, f: Field, ghost prior: Value) returns (ok: bool, v: Value)
    requires stream.Valid() && f.lt.LFixed64?
    modifies stream
    ensures Delivers(stream, ReadItem(f, prior, old(stream.Rest())), ok, v)
  {
    v := Unset;
    var bytes := new Byte[8];
    ok := stream.Read(bytes, 8);
    if !ok { return; }
    var low := LittleEndian(bytes[0], bytes[1], bytes[2], bytes[3]);
    var high := LittleEndian(bytes[4], bytes[5], bytes[6], bytes[7]);
    v := VInt(low + Varint.U32 * high);
    FourBytes(bytes[..8]);
    FourBytes(bytes[..8][4..]);
  }

  function LittleEndian(a: nat, b: nat, c: nat, d: nat): nat {
    a + 0x100 * b + 0x1_0000 * c + 0x100_0000 * d
  }

  lemma FourBytes(p: Bytes)
    requires |p| >= 4
    ensures Number(p) == LittleEndian(p[0], p[1], p[2], p[3]) + Varint.U32 * Number(p[4..])
    ensures |p| == 4 ==> Number(p[4..]) == 0
  {
    assert p[1..][1..] == p[2..];
    assert p[2..][1..] == p[3..];
    assert p[3..][1..] == p[4..];
    assert Number(p) == p[0] + 256 * Number(p[1..]);
    assert Number(p[1..]) == p[1] + 256 * Number(p[2..]);
    assert Number(p[2..]) == p[2] + 256 * Number(p[3..]);
    assert Number(p[3..]) == p[3] + 256 * Number(p[4..]);
  }

  /** Bytes skipped in two steps. */
  lemma SkipTwice(s: Bytes, m: nat, n: nat)
    requires m <= |s|
    ensures m + n <= |s| ==> s[m..][n..] == s[m + n..]
  {}

  method DecBytes(stream: IStream, f: Field, ghost prior: Value) returns (ok: bool, v: Value)
    requires stream.Valid() && f.lt.LBytes?
    modifies stream
    ensures Delivers(stream, ReadItem(f, prior, old(stream.Rest())), ok, v)
  {
    ghost var s := stream.Rest();
    v := Unset;
    hide ReadItem, Reads32, BodyItem, Announced;
    SizedItem(f, prior, s);
    var size;
    ok, size := stream.DecodeVarint32();
    if !ok { return; }
    SkipTwice(s, Reads32(s).value.1, size);
    if size > PB_SIZE_MAX { return false, v; }
    var allocSize := (size + BytesHeader()) % (SIZE_T_MAX + 1);
    if size > allocSize { return false, v; }
    if allocSize > f.dataSize { return false, v; }
    var bytes;
    ok, bytes := ReadBuffer(stream, size);
    v := VBytes(bytes);
  }

  method DecString(stream: IStream, f: Field, ghost prior: Value) returns (ok: bool, v: Value)
    requires stream.Valid() && f.lt.LString?
    modifies stream
    ensures Delivers(stream, ReadItem(f, prior, old(stream.Rest())), ok, v)
  {
    ghost var s := stream.Rest();
    v := Unset;
    hide ReadItem, Reads32, BodyItem, Announced;
    SizedItem(f, prior, s);
    var size;
    ok, size := stream.DecodeVarint32();
    if !ok { return; }
    SkipTwice(s, Reads32(s).value.1, size);
    // Space for the terminator, computed in 32 bits.
    var allocSize := (size + 1) % Varint.U32;
    if allocSize < size { return false, v; }
    if allocSize > f.dataSize { return false, v; }
    var chars;
    ok, chars := ReadBuffer(stream, size);
    v := VString(chars);
  }

  method DecFixedLengthBytes(stream: IStream, f: Field, ghost prior: Value) returns (ok: bool, v: Value)
    requires stream.Valid() && f.lt.LFixedLengthBytes?
    modifies stream
    ensures Delivers(stream, ReadItem(f, prior, old(stream.Rest())), ok, v)
  {
    ghost var s := stream.Rest();
    v := Unset;
    hide ReadItem, Reads32, BodyItem, Announced;
    SizedItem(f, prior, s);
    var size;
    ok, size := stream.DecodeVarint32();
    if !ok { return; }
    if size > PB_SIZE_MAX { return false, v; }
    if size == 0 {
      return true, VBytes(Zeros(f.dataSize));
    }
    if size != f.dataSize { return false, v; }
    var bytes;
    ok, bytes := ReadBuffer(stream, f.dataSize);
    v := VBytes(bytes);
  }

  /** pb_dec_submessage: decodes into `prior`, which the caller has initialised if the entry is
      new. */
  method DecSubmessage(stream: IStream, f: Field, prior: Value) returns (ok: bool, v: Value)
    requires stream.Valid() && f.lt.LSubmessage? && StaticField(f) && TypedValue(f, prior)
    modifies stream
    ensures Delivers(stream, ReadItem(f, prior, old(stream.Rest())), ok, v)
    ensures TypedValue(f, v)
    decreases f, 0
  {
    hide ReadItem, Announced, BodyItem, NoInit, StaticTable, Typed, StaticField, TypedValue;
    FieldsOfSubmessage(f, prior);
    SubmessageItem(f, prior, stream.Rest());
    var after;
    ok, after := DecodeBody(stream, f.lt.fields, prior.cells);
    v := VMsg(after);
    TypedSubmessage(f, after);
  }

  /** The announced bytes are decoded into what a submessage holds, and the stream goes on behind them. */
  method DecodeBody(stream: IStream, t: Table, cells: seq<Cell>) returns (ok: bool, after: seq<Cell>)
    requires stream.Valid() && StaticTable(t) && Typed(t, cells) && |cells| == |t|
    modifies stream
    ensures stream.Valid() && stream.End() <= old(stream.End())
    ensures var r := Announced(old(stream.Rest()));
            ok == (r.Some? && NoInit(t, cells, r.value.0).Some?)
    ensures Typed(t, after)
    ensures ok ==> var (body, n) := Announced(old(stream.Rest())).value;
                   && after == NoInit(t, cells, body).value.cells
                   && stream.End() == old(stream.End()) && stream.Rest() == old(stream.Rest())[n..]
    decreases t, 4
  {
    hide Announced, NoInit, StaticTable, Typed;
    after := cells;
    var substream;
    ok, substream := stream.MakeStringSubstream();
    if !ok { return; }
    var sub := new Struct(cells);
    var status := DecodeNoInit(substream, t, sub);
    ok := stream.CloseStringSubstream(substream);
    after := sub.cells;
    ok := status;
  }

  lemma SubmessageItem(f: Field, prior: Value, s: Bytes)
    requires f.lt.LSubmessage? && prior.VMsg? && |prior.cells| == |f.lt.fields|
    ensures ReadItem(f, prior, s) ==
            if Announced(s).None? then None
            else
              var r := NoInit(f.lt.fields, prior.cells, Announced(s).value.0);
              if r.None? then None else Some((VMsg(r.value.cells), Announced(s).value.1))
  {
    hide ReadItem, Announced, NoInit;
    DelimitedItem(f, prior, s);
  }

  lemma TypedSubmessage(f: Field, cells: seq<Cell>)
    requires f.lt.LSubmessage?
    ensures TypedValue(f, VMsg(cells)) <==> Typed(f.lt.fields, cells)
  {}

  lemma FieldsOfSubmessage(f: Field, prior: Value)
    requires f.lt.LSubmessage? && StaticField(f) && TypedValue(f, prior)
    ensures StaticTable(f.lt.fields) && prior.VMsg? && Typed(f.lt.fields, prior.cells) && |prior.cells| == |f.lt.fields|
  {}

  /** The PB_DECODERS table. */
  method DecodeItem(stream: IStream, f: Field, prior: Value) returns (ok: bool, v: Value)
    requires stream.Valid() && StaticField(f) && TypedValue(f, prior)
    modifies stream
    ensures Delivers(stream, ReadItem(f, prior, old(stream.Rest())), ok, v)
    ensures TypedValue(f, v)
    decreases f, 1
  {
    match f.lt {
      case LBool => ok, v := DecBool(stream, f, prior);
      case LVarint => ok, v := DecVarint(stream, f, prior);
      case LUvarint => ok, v := DecUvarint(stream, f, prior);
      case LSvarint => ok, v := DecSvarint(stream, f, prior);
      case LFixed32 => ok, v := DecFixed32(stream, f, prior);
      case LFixed64 => ok, v := DecFixed64(stream, f, prior);
      case LBytes => ok, v := DecBytes(stream, f, prior);
      case LString => ok, v := DecString(stream, f, prior);
      case LSubmessage(_) => ok, v := DecSubmessage(stream, f, prior);
      case LFixedLengthBytes => ok, v := DecFixedLengthBytes(stream, f, prior);
    }
  }

  // ----- One record

  /** The bytes after the key that belong to a record of field `f`, if they are all there. */
  function Payload(f: Field, wireType: nat, s: Bytes): (n: Option<nat>)
    ensures n.Some? ==> 0 < n.value <= |s|
  {
    Extent(if ReadPacked(f, wireType) then Delimited else ItemShape(f.lt), s)
  }

  /** The effect of the record in front of `s` on the cell of field `f`. */
  function ReadField(f: Field, c: Cell, count: nat, wireType: nat, s: Bytes): (r: Option<(Stored, nat)>)
    ensures r.Some? ==> r.value.1 <= |s|
    ensures r.Some? ==> if f.FixedCount() then r.value.0.count <= f.arraySize else r.value.0.count == count
  {
    var n :- Payload(f, wireType, s);
    var x :- CellAfter(f, c, count, Rec(f.tag, wireType, s[..n]));
    Some((x, n))
  }

  function Prepend(done: seq<Value>, more: Option<seq<Value>>): Option<seq<Value>> {
    if more.None? then None else Some(done + more.value)
  }

  /** Writing the item at index `size` of an array. */
  function StoreItem(c: Cell, size: nat, v: Value): Cell
    requires c.Counted? || (c.Array? && size < |c.items|)
  {
    if c.Counted? then Counted(c.items + [v]) else Array(c.items[size := v])
  }

  lemma AppendOneMore(c: Cell, count: nat, done: seq<Value>, v: Value)
    requires c.Counted? || (c.Array? && count + |done| < |c.items|)
    ensures StoreItem(Append(c, count, done), count + |done|, v) == Append(c, count, done + [v])
  {
    if c.Counted? {
      assert c.items + done + [v] == c.items + (done + [v]);
    } else {
      var a, b := c.items[..count] + done + c.items[count + |done|..],
                  c.items[..count] + (done + [v]) + c.items[count + |done + [v]|..];
      assert a[count + |done| := v] == b;
    }
  }

  lemma AppendNothing(c: Cell, count: nat)
    requires c.Counted? || (c.Array? && count <= |c.items|)
    ensures Append(c, count, []) == c
  {
    if c.Counted? {
      assert c.items + [] == c.items;
    } else {
      assert c.items[..count] + [] + c.items[count..] == c.items;
    }
  }

  lemma PrependNothing(more: Option<seq<Value>>)
    ensures Prepend([], more) == more
  {
    if more.Some? { assert [] + more.value == more.value; }
  }

  /** The packed loop ends well only when all bytes have been read. */
  lemma PackedEnd(f: Field, room: nat, rest: Bytes)
    ensures rest == [] ==> PackedRun(f, room, rest) == Some([])
    ensures rest != [] && room == 0 ==> PackedRun(f, room, rest).None?
  {}

  /** One round of the packed loop. */
  lemma PackedRound(f: Field, room: nat, rest: Bytes, done: seq<Value>)
    requires f.lt.Packable() && rest != [] && room > 0
    ensures var r := ReadItem(f, Unset, rest);
            Prepend(done, PackedRun(f, room, rest)) ==
            if r.None? then None
            else Prepend(done + [r.value.0], PackedRun(f, room - 1, rest[r.value.1..]))
  {
    var r := ReadItem(f, Unset, rest);
    if r.Some? {
      var more := PackedRun(f, room - 1, rest[r.value.1..]);
      if more.Some? { assert done + ([r.value.0] + more.value) == done + [r.value.0] + more.value; }
    }
  }

  /** The loop of the packed branch of decode_static_field: items are read while there are bytes and
      room. */
  method DecodePackedItems(substream: IStream, f: Field, dest: Struct, h: nat, count: nat)
    returns (status: bool, size: nat)
    requires substream.Valid() && StaticField(f) && f.lt.Packable()
    requires h < |dest.cells| && (dest.cells[h].Counted? || dest.cells[h].Array?)
    requires dest.cells[h].Counted? ==> count == |dest.cells[h].items|
    requires dest.cells[h].Array? ==> |dest.cells[h].items| == f.arraySize && count <= f.arraySize
    requires count <= PB_SIZE_MAX
    modifies substream, dest
    ensures substream.Valid() && substream.End() <= old(substream.End())
    ensures |dest.cells| == |old(dest.cells)| && dest.cells == old(dest.cells)[h := dest.cells[h]]
    ensures old(dest.cells)[h].Counted? ==> dest.cells[h].Counted? && |dest.cells[h].items| <= PB_SIZE_MAX
    ensures old(dest.cells)[h].Array? ==> dest.cells[h].Array? && |dest.cells[h].items| == f.arraySize
    ensures var run := PackedRun(f, RoomLeft(f, count), old(substream.Rest()));
            && (status && substream.bytesLeft == 0 <==> run.Some?)
            && (run.Some? ==>
                  && size == count + |run.value| && substream.End() == old(substream.End())
                  && dest.cells == old(dest.cells)[h := Append(old(dest.cells)[h], count, run.value)])
    decreases f, 2
  {
    hide ReadItem, Append, StoreItem, PackedRun, StaticField;
    SizeIsCountable(f);
    ghost var c0, body, done: seq<Value> := dest.cells[h], substream.Rest(), [];
    AppendNothing(c0, count);
    assert dest.cells == dest.cells[h := c0];
    size := count;
    status := true;
    PrependNothing(PackedRun(f, RoomLeft(f, count), body));
    while substream.bytesLeft > 0 && size < f.arraySize
      invariant substream.Valid() && substream.End() == old(substream.End())
      invariant size == count + |done| && (done == [] || size <= f.arraySize)
      invariant dest.cells == old(dest.cells)[h := Append(c0, count, done)]
      invariant PackedRun(f, RoomLeft(f, count), body)
             == Prepend(done, PackedRun(f, RoomLeft(f, size), substream.Rest()))
      decreases substream.bytesLeft
    {
      PackedRound(f, RoomLeft(f, size), substream.Rest(), done);
      var itemOk, v := DecodeItem(substream, f, Unset);
      if !itemOk { return false, size; }
      AppendOneMore(c0, count, done, v);
      dest.cells := dest.cells[h := StoreItem(dest.cells[h], size, v)];
      size := size + 1;
      done := done + [v];
    }
    PackedEnd(f, RoomLeft(f, size), substream.Rest());
    assert done + [] == done;
  }

  /** The packed branch of decode_static_field.  `size` is the count in the struct, or the
      decoder's for a fixed-count array. */
  method DecodePacked(stream: IStream, f: Field, dest: Struct, h: nat, count: nat) returns (ok: bool, size: nat)
    requires stream.Valid() && StaticField(f) && f.lt.Packable()
    requires h < |dest.cells| && (dest.cells[h].Counted? || dest.cells[h].Array?)
    requires dest.cells[h].Counted? ==> count == |dest.cells[h].items|
    requires dest.cells[h].Array? ==> |dest.cells[h].items| == f.arraySize && count <= f.arraySize
    requires count <= PB_SIZE_MAX
    modifies stream, dest
    ensures stream.Valid() && stream.End() <= old(stream.End())
    ensures |dest.cells| == |old(dest.cells)| && dest.cells == old(dest.cells)[h := dest.cells[h]]
    ensures old(dest.cells)[h].Counted? ==> dest.cells[h].Counted? && |dest.cells[h].items| <= PB_SIZE_MAX
    ensures old(dest.cells)[h].Array? ==> dest.cells[h].Array? && |dest.cells[h].items| == f.arraySize
    ensures var s := old(stream.Rest());
            ok == (Announced(s).Some? && PackedRun(f, RoomLeft(f, count), Announced(s).value.0).Some?)
    ensures ok ==> stream.End() == old(stream.End())
    ensures ok ==> var (body, n) := Announced(old(stream.Rest())).value;
                   var vs := PackedRun(f, RoomLeft(f, count), body).value;
                   && size == count + |vs| && stream.Rest() == old(stream.Rest())[n..]
                   && dest.cells == old(dest.cells)[h := Append(old(dest.cells)[h], count, vs)]
    decreases f, 3
  {
    hide Append, PackedRun, Announced, StaticField;
    assert dest.cells == dest.cells[h := dest.cells[h]];
    size := count;
    var status, substream;
    ok, substream := stream.MakeStringSubstream();
    if !ok { return; }
    status, size := DecodePackedItems(substream, f, dest, h, count);
    if substream.bytesLeft != 0 { return false, size; }
    ok := stream.CloseStringSubstream(substream);
    ok := status;
  }

  /** Cell `h` has changed as the record in front of the stream says, and no other; the
      record has been read to its end. */
  twostate predicate Stores(stream: IStream, dest: Struct, h: nat, r: Option<(Stored, nat)>, ok: bool, newCount: nat)
    requires old(stream.Valid()) && h < |old(dest.cells)|
    reads stream, dest
  {
    && stream.Valid() && stream.End() <= old(stream.End())
    && |dest.cells| == |old(dest.cells)|
    && ok == r.Some?
    && (ok ==>
          && dest.cells == old(dest.cells)[h := r.value.0.cell]
          && newCount == r.value.0.count
          && stream.End() == old(stream.End())
          && r.value.1 <= |old(stream.Rest())|
          && stream.Rest() == old(stream.Rest())[r.value.1..])
  }

  /** The singular branches of decode_static_field; `hasFlag` tells whether iter->pSize points
      to a flag of its own. */
  method DecodeSingular(stream: IStream, wireType: nat, f: Field, dest: Struct, h: nat, hasFlag: bool, ghost count: nat)
    returns (ok: bool)
    requires stream.Valid() && StaticField(f) && !f.ht.Repeated?
    requires h < |dest.cells| && TypedCell(f, true, dest.cells[h])
    requires f.ht.Optional? ==> (hasFlag <==> f.sizeOffset != 0)
    modifies stream, dest
    ensures Stores(stream, dest, h, ReadField(f, old(dest.cells)[h], count, wireType, old(stream.Rest())), ok, count)
    ensures dest.cells == old(dest.cells)[h := dest.cells[h]] && TypedCell(f, true, dest.cells[h])
    decreases f, 2
  {
    ghost var c0, s := dest.cells[h], stream.Rest();
    var v;
    if f.ht.Required? {
      SingularField(f, c0, c0.v, count, wireType, s);
      ok, v := DecodeItem(stream, f, dest.cells[h].v);
      if ok || f.lt.LSubmessage? { dest.cells := dest.cells[h := Plain(v)]; }
    } else if f.ht.Optional? {
      SingularField(f, c0, c0.v, count, wireType, s);
      if hasFlag {
        dest.cells := dest.cells[h := Has(true, dest.cells[h].v)];
      }
      ok, v := DecodeItem(stream, f, dest.cells[h].v);
      if ok || f.lt.LSubmessage? { dest.cells := dest.cells[h := if hasFlag then Has(true, v) else Plain(v)]; }
    } else {
      // A submessage starts from its defaults, whatever the union held before.
      SingularField(f, c0, DefaultItem(f), count, wireType, s);
      DefaultValueIsTyped(f);
      dest.cells := dest.cells[h := Union(f.tag, DefaultItem(f))];
      ok, v := DecodeItem(stream, f, dest.cells[h].v);
      if ok || f.lt.LSubmessage? { dest.cells := dest.cells[h := Union(f.tag, v)]; }
    }
  }

  lemma SingularField(f: Field, c: Cell, prior: Value, count: nat, wireType: nat, s: Bytes)
    requires StaticField(f) && !f.ht.Repeated? && TypedCell(f, true, c)
    requires prior == if f.ht.Oneof? then DefaultItem(f) else c.v
    ensures var r := ReadItem(f, prior, s);
            ReadField(f, c, count, wireType, s) ==
            if r.None? then None
            else Some((Stored(if f.ht.Oneof? then Union(f.tag, r.value.0)
                              else if c.Plain? then Plain(r.value.0) else Has(true, r.value.0), count), r.value.1))
  {}

  /** (*size)++ on the count in the struct, which wraps; the item it counts is what was there. */
  function CountUp(c: Cell): (r: Cell)
    requires c.Counted? && |c.items| <= PB_SIZE_MAX
    ensures r.Counted? && |r.items| <= PB_SIZE_MAX
  {
    if |c.items| == PB_SIZE_MAX then Counted([]) else Counted(c.items + [Unset])
  }

  lemma SizeIsCountable(f: Field)
    requires StaticField(f)
    ensures f.arraySize <= PB_SIZE_MAX
  {}

  /** The repeated branch of decode_static_field. */
  method DecodeRepeated(stream: IStream, wireType: nat, f: Field, dest: Struct, h: nat, count: nat)
    returns (ok: bool, newCount: nat)
    requires stream.Valid() && StaticField(f) && f.ht.Repeated?
    requires h < |dest.cells| && TypedCell(f, true, dest.cells[h])
    requires f.FixedCount() ==> count <= f.arraySize
    modifies stream, dest
    ensures Stores(stream, dest, h, ReadField(f, old(dest.cells)[h], count, wireType, old(stream.Rest())), ok, newCount)
    ensures dest.cells == old(dest.cells)[h := dest.cells[h]] && TypedCell(f, true, dest.cells[h])
    ensures !ReadPacked(f, wireType) ==> CountedOnce(f, old(dest.cells)[h], dest.cells[h])
    decreases f, 4
  {
    ghost var s := stream.Rest();
    var size := if f.FixedCount() then count else |dest.cells[h].items|;
    RepeatedField(f, dest.cells[h], size, count, wireType, s);
    if wireType == WT_STRING && f.lt.Packable() {
      ok, size := DecodePacked(stream, f, dest, h, size);
      newCount := if f.FixedCount() then size else count;
    } else {
      ok, newCount := DecodeEntry(stream, f, dest, h, size, count);
    }
  }

  /** The count in the struct goes up by one or wraps, whether or not there is room for one more item and it
      can be decoded. */
  predicate CountedOnce(f: Field, before: Cell, after: Cell) {
    before.Counted? && !f.FixedCount() && |before.items| <= PB_SIZE_MAX ==>
      && after.Counted? && |after.items| == |CountUp(before).items|
      && (|before.items| < PB_SIZE_MAX ==> after.items[..|before.items|] == before.items)
  }

  /** An item with a record of its own: it is counted before it is decoded, and also when it does not fit. */
  method DecodeEntry(stream: IStream, f: Field, dest: Struct, h: nat, size: nat, count: nat)
    returns (ok: bool, newCount: nat)
    requires stream.Valid() && StaticField(f) && f.ht.Repeated?
    requires h < |dest.cells| && TypedCell(f, true, dest.cells[h])
    requires size == if f.FixedCount() then count else |dest.cells[h].items|
    modifies stream, dest
    ensures stream.Valid() && stream.End() <= old(stream.End())
    ensures |dest.cells| == |old(dest.cells)|
    ensures dest.cells == old(dest.cells)[h := dest.cells[h]] && TypedCell(f, true, dest.cells[h])
    ensures CountedOnce(f, old(dest.cells)[h], dest.cells[h])
    ensures var r := ReadItem(f, DefaultItem(f), old(stream.Rest()));
            && ok == (size < f.arraySize && r.Some?)
            && (ok ==>
                  && dest.cells[h] == Append(old(dest.cells)[h], size, [r.value.0])
                  && newCount == (if f.FixedCount() then count + 1 else count)
                  && stream.End() == old(stream.End()) && stream.Rest() == old(stream.Rest())[r.value.1..])
    decreases f, 3
  {
    hide ReadItem, Append, StaticField;
    SizeIsCountable(f);
    ghost var c0 := dest.cells[h];
    newCount := count;
    if f.FixedCount() {
      newCount := (count + 1) % (PB_SIZE_MAX + 1);
    } else {
      dest.cells := dest.cells[h := CountUp(dest.cells[h])];
    }
    if size >= f.arraySize { return false, newCount; }
    DefaultValueIsTyped(f);
    var v;
    ok, v := DecodeItem(stream, f, DefaultItem(f));
    OneItem(c0, size, v);
    if ok || f.lt.LSubmessage? {
      dest.cells := dest.cells[h := Rewritten(dest.cells[h], size, v)];
    }
    if c0.Counted? { assert (c0.items + [Unset])[size := v] == c0.items + [v]; }
  }

  /** Writing the item at index `size`, which is counted already. */
  function Rewritten(c: Cell, size: nat, v: Value): Cell
    requires (c.Counted? || c.Array?) && size < |c.items|
  {
    if c.Counted? then Counted(c.items[size := v]) else Array(c.items[size := v])
  }

  lemma RepeatedField(f: Field, c: Cell, size: nat, count: nat, wireType: nat, s: Bytes)
    requires StaticField(f) && f.ht.Repeated? && TypedCell(f, true, c)
    requires size == (if f.FixedCount() then count else |c.items|)
    requires f.FixedCount() ==> size <= f.arraySize
    ensures ReadField(f, c, count, wireType, s) ==
            if Payload(f, wireType, s).None? then None
            else
              var n := Payload(f, wireType, s).value;
              var vs := NewItems(f, RoomLeft(f, size), Rec(f.tag, wireType, s[..n]));
              if vs.None? then None
              else Some((Stored(Append(c, size, vs.value), if f.FixedCount() then size + |vs.value| else count), n))
    ensures ReadPacked(f, wireType) ==> Announced(s).Some? == Payload(f, wireType, s).Some?
    ensures ReadPacked(f, wireType) && Announced(s).Some? ==>
              && Payload(f, wireType, s) == Some(Announced(s).value.1)
              && NewItems(f, RoomLeft(f, size), Rec(f.tag, wireType, s[..Announced(s).value.1]))
                 == PackedRun(f, RoomLeft(f, size), Announced(s).value.0)
  {
    hide PackedRun, Announced, Item, Extent;
    AnnouncedIsExtent(s);
  }

  /** decode_static_field.  `count` is what iter->pSize points at when the field has no count
      of its own. */
  method DecodeStaticField(stream: IStream, wireType: nat, iter: FieldIter, dest: Struct, count: nat)
    returns (ok: bool, newCount: nat)
    requires stream.Valid() && iter.Valid() && iter.start != []
    requires StaticTable(iter.start) && StaticField(iter.start[iter.pos]) && Typed(iter.start, dest.cells)
    requires iter.start[iter.pos].FixedCount() ==> count <= iter.start[iter.pos].arraySize
    modifies stream, dest
    ensures Typed(iter.start, dest.cells)
    ensures var f, h := iter.start[iter.pos], Home(iter.start, iter.pos);
            Stores(stream, dest, h, ReadField(f, old(dest.cells)[h], count, wireType, old(stream.Rest())), ok, newCount)
    decreases iter.start[iter.pos], 5
  {
    hide Typed, StaticTable, ReadField, Home;
    var f := iter.start[iter.pos];
    var h := Home(iter.start, iter.pos);
    TypedLength(iter.start, dest.cells);
    newCount := count;
    CellOfField(iter.start, iter.pos, dest.cells);
    if f.ht.Repeated? {
      ok, newCount := DecodeRepeated(stream, wireType, f, dest, h, count);
    } else {
      ok := DecodeSingular(stream, wireType, f, dest, h, iter.pSize != InStruct(iter.pData), count);
    }
    TypedUpdate(iter.start, iter.pos, old(dest.cells), dest.cells[h]);
  }

  lemma CellOfField(t: Table, k: nat, cells: seq<Cell>)
    requires k < |t| && Typed(t, cells)
    ensures TypedCell(t[k], true, cells[Home(t, k)])
  {
    HomeOfMember(t, k);
    assert TypedCell(t[Home(t, k)], true, cells[Home(t, k)]);
  }

  lemma TypedUpdate(t: Table, k: nat, cells: seq<Cell>, c: Cell)
    requires k < |t| && Typed(t, cells) && TypedCell(t[k], true, c)
    ensures Typed(t, cells[Home(t, k) := c])
  {
    HomeOfMember(t, k);
    var h := Home(t, k);
    assert TypedCell(t[h], true, c);
    assert forall j :: 0 <= j < |t| && j != h ==> TypedCell(t[j], Home(t, j) == j, cells[j]);
  }

  lemma OneItem(c: Cell, size: nat, v: Value)
    requires c.Counted? || (c.Array? && size < |c.items|)
    ensures StoreItem(c, size, v) == Append(c, size, [v])
  {
    AppendOneMore(c, size, [], v);
    AppendNothing(c, size);
    assert [] + [v] == [v];
  }

  // ----- The record loop

  /** After `recs`, decoding `s` into `cells` has reached state `st` and `rest` is still to come. */
  ghost predicate Reached(t: Table, cells: seq<Cell>, s: Bytes, recs: seq<Rec>, st: State, rest: Bytes) {
    && |cells| == |t|
    && Split(t, s) == Precede(recs, Split(t, rest))
    && Fold(t, Fresh(cells), recs) == Some(st)
  }

  lemma ReachedStart(t: Table, cells: seq<Cell>, s: Bytes)
    requires |cells| == |t|
    ensures Reached(t, cells, s, [], Fresh(cells), s)
  {
    PrecedeNothing(Split(t, s));
  }

  lemma ReachedNext(t: Table, cells: seq<Cell>, s: Bytes, recs: seq<Rec>, st: State, rest: Bytes)
    requires Reached(t, cells, s, recs, st, rest) && rest != []
    ensures Next(t, rest).Bad? ==> NoInit(t, cells, s).None?
    ensures Next(t, rest).Stop? ==> Split(t, s) == Some(Framed(recs, true, Next(t, rest).rest))
    ensures Next(t, rest).Got? && Step(t, st, Next(t, rest).r).None? ==> NoInit(t, cells, s).None?
    ensures Next(t, rest).Got? && Step(t, st, Next(t, rest).r).Some? ==>
              Reached(t, cells, s, recs + [Next(t, rest).r], Step(t, st, Next(t, rest).r).value, Next(t, rest).rest)
  {
    hide Next, Step;
    match Next(t, rest)
    case Bad =>
    case Stop(_) => assert recs + [] == recs;
    case Got(r, more) =>
      PrecedeTwice(recs, [r], Split(t, more));
      FoldConcat(t, Fresh(cells), recs, [r]);
      FoldOfOne(t, st, r);
      if Split(t, more).Some? { FoldConcat(t, Fresh(cells), recs + [r], Split(t, more).value.recs); }
  }

  lemma ReachedEnd(t: Table, cells: seq<Cell>, s: Bytes, recs: seq<Rec>, st: State)
    requires Reached(t, cells, s, recs, st, [])
    ensures Split(t, s) == Some(Framed(recs, false, []))
  {
    assert recs + [] == recs;
  }

  /** A field of the table is stepped over as `ReadField` says. */
  lemma StepKnown(t: Table, st: State, k: nat, tag: nat, wireType: nat, after: Bytes)
    requires |st.cells| == |t| && Find(t, tag) == Some(k)
    ensures var n := Extent(ShapeOf(t, tag, wireType), after);
            var r := ReadField(t[k], st.cells[Home(t, k)], CountBefore(t[k], Some(k), st), wireType, after);
            && (n.None? ==> r.None?)
            && (n.Some? && (!t[k].FixedCount() || st.fixedField == Some(k) || RunComplete(t, st)) ==>
                  Step(t, st, Rec(tag, wireType, after[..n.value])) ==
                  if r.None? then None
                  else Some(State(st.cells[Home(t, k) := r.value.0.cell], FieldAfter(t[k], Some(k), st),
                                  r.value.0.count, SeenAfter(t[k], k, st))))
            && (n.Some? && t[k].FixedCount() && st.fixedField != Some(k) && !RunComplete(t, st) ==>
                  Step(t, st, Rec(tag, wireType, after[..n.value])).None?)
            && (r.Some? ==> n == Some(r.value.1))
  {
    hide CellAfter, Home;
  }

  /** The counter, the field it belongs to, the iterator and the mask agree with the state. */
  ghost predicate InStep(t: Table, st: State, iter: FieldIter, fixedCountField: Option<nat>, fixedCountSize: nat,
                         words: seq<nat>)
    reads iter
  {
    && iter.Valid() && iter.start == t
    && st.fixedField == fixedCountField && st.fixedCount == fixedCountSize
    && (fixedCountField.Some? ==>
          fixedCountField.value < |t| && t[fixedCountField.value].FixedCount() &&
          fixedCountSize <= t[fixedCountField.value].arraySize)
    && (t != [] && iter.pSize.LocalCounter? ==> fixedCountField == Some(iter.pos))
    && |words| == (PB_MAX_REQUIRED_FIELDS + 31) / 32
    && Holds(words, Indices(t, st.seen))
  }

  /** What pb_decode_noinit does with a field it has found. */
  method DecodeFound(stream: IStream, tag: nat, wireType: nat, iter: FieldIter, dest: Struct,
                     fieldsSeen: array<nat>, fixedCountField: Option<nat>, fixedCountSize: nat, ghost st: State)
    returns (ok: bool, newField: Option<nat>, newSize: nat)
    requires stream.Valid() && StaticTable(iter.start) && Typed(iter.start, dest.cells) && st.cells == dest.cells
    requires InStep(iter.start, st, iter, fixedCountField, fixedCountSize, fieldsSeen[..])
    requires Find(iter.start, tag) == Some(iter.pos)
    modifies stream, dest, iter, fieldsSeen
    ensures stream.Valid() && stream.End() <= old(stream.End())
    ensures Typed(iter.start, dest.cells)
    ensures var after := old(stream.Rest());
            var n := Extent(ShapeOf(iter.start, tag, wireType), after);
            && (ok <==> n.Some? && Step(iter.start, st, Rec(tag, wireType, after[..n.value])).Some?)
            && (ok ==>
                  var st' := Step(iter.start, st, Rec(tag, wireType, after[..n.value])).value;
                  && dest.cells == st'.cells
                  && InStep(iter.start, st', iter, newField, newSize, fieldsSeen[..])
                  && stream.End() == old(stream.End()) && stream.Rest() == after[n.value..])
    decreases iter.start, 0
  {
    hide Step, Extent, ShapeOf, ReadField, Holds, Indices, StaticTable, Typed;
    ghost var t, k := iter.start, iter.pos;
    var f := iter.start[iter.pos];
    FoundIsStatic(t, k);
    TypedLength(t, dest.cells);
    newField, newSize := fixedCountField, fixedCountSize;
    StepKnown(t, st, k, tag, wireType, stream.Rest());
    if f.ht.Repeated? && iter.pSize == InStruct(iter.pData) {
      if fixedCountField != Some(iter.pos) {
        if fixedCountField.Some? && fixedCountSize != iter.start[fixedCountField.value].arraySize {
          return false, newField, newSize;
        }
        newField, newSize := Some(iter.pos), 0;
      }
      iter.pSize := LocalCounter;
    }
    if f.ht.Required? && iter.requiredFieldIndex < PB_MAX_REQUIRED_FIELDS {
      Mark(fieldsSeen, iter.requiredFieldIndex, Indices(t, st.seen));
    }
    if f.ht.Required? { IndicesOfOneMore(t, st.seen, k); }
    ok, newSize := DecodeStaticField(stream, wireType, iter, dest, newSize);
  }

  /** The number of required fields, found by running the iterator to the end of the table. */
  method CountRequired(iter: FieldIter) returns (count: nat)
    requires iter.Valid()
    modifies iter
    ensures iter.Valid() && count == RequiredBefore(iter.start, |iter.start|)
  {
    count := iter.requiredFieldIndex;
    if iter.start == [] { return; }
    ghost var t := iter.start;
    var lastRequired := false;
    while true
      invariant iter.Valid()
      decreases |t| - iter.pos
    {
      count := iter.requiredFieldIndex;
      lastRequired := iter.start[iter.pos].ht.Required?;
      var more := iter.Next();
      if !more { break; }
    }
    if lastRequired { count := count + 1; }
  }

  /** The checks after the record loop: the last fixed-count array is complete and no required
      field is missing. */
  method CheckFinished(iter: FieldIter, fieldsSeen: array<nat>, fixedCountField: Option<nat>, fixedCountSize: nat,
                       ghost st: State)
    returns (ok: bool)
    requires |st.cells| == |iter.start|
    requires InStep(iter.start, st, iter, fixedCountField, fixedCountSize, fieldsSeen[..])
    modifies iter
    ensures ok <==> Finished(iter.start, st)
  {
    if fixedCountField.Some? && fixedCountSize != iter.start[fixedCountField.value].arraySize {
      return false;
    }
    var count := CountRequired(iter);
    if count > PB_MAX_REQUIRED_FIELDS { count := PB_MAX_REQUIRED_FIELDS; }
    IndicesCoverFields(iter.start, st.seen);
    ok := Check(fieldsSeen, count, Indices(iter.start, st.seen));
  }

  /** What pb_decode_noinit does with a tag that is not in the table. */
  method SkipUnknown(stream: IStream, t: Table, tag: nat, wireType: nat, found: bool, ghost st: State)
    returns (ok: bool)
    requires stream.Valid() && Find(t, tag).None? && |st.cells| == |t|
    requires found <==> t == [] && tag == 0
    modifies stream
    ensures stream.Valid() && stream.End() == old(stream.End())
    ensures var after := old(stream.Rest());
            var n := Extent(ShapeOf(t, tag, wireType), after);
            && (ok <==> n.Some? && Step(t, st, Rec(tag, wireType, after[..n.value])).Some?)
            && (ok ==>
                  && stream.Rest() == after[n.value..]
                  && Step(t, st, Rec(tag, wireType, after[..n.value])) == Some(st))
  {
    if found {
      // The terminator of an empty table answers to tag 0 and is read as a bool nobody sees.
      var value;
      ok, value := stream.DecodeVarint32();
    } else {
      ok := stream.SkipField(wireType);
    }
  }

  lemma NoInitOf(t: Table, cells: seq<Cell>, s: Bytes, recs: seq<Rec>, st: State, stopped: bool, left: Bytes,
                 rest: Bytes)
    requires Reached(t, cells, s, recs, st, rest) && Split(t, s) == Some(Framed(recs, stopped, left))
    ensures NoInit(t, cells, s) == if Finished(t, st) then Some(Decoded(st.cells, left)) else None
  {}

  /** One round of the record loop of pb_decode_noinit: it does what the record in front of
      the stream does to the state. */
  method DecodeRecord(stream: IStream, iter: FieldIter, dest: Struct, fieldsSeen: array<nat>,
                      fixedCountField: Option<nat>, fixedCountSize: nat, ghost st: State)
    returns (outcome: Outcome, newField: Option<nat>, newSize: nat)
    requires stream.Valid() && stream.bytesLeft > 0
    requires StaticTable(iter.start) && Typed(iter.start, dest.cells)
    requires st.cells == dest.cells && |st.cells| == |iter.start|
    requires InStep(iter.start, st, iter, fixedCountField, fixedCountSize, fieldsSeen[..])
    modifies stream, dest, iter, fieldsSeen
    ensures stream.Valid() && stream.End() <= old(stream.End())
        && (!outcome.Failed? ==> stream.End() == old(stream.End()))
    ensures Typed(iter.start, dest.cells)
    ensures match Next(iter.start, old(stream.Rest()))
            case Bad => outcome.Failed?
            case Stop(rest) =>
              outcome.Stopped? && stream.Rest() == rest && dest.cells == st.cells
              && InStep(iter.start, st, iter, newField, newSize, fieldsSeen[..])
            case Got(r, rest) =>
              var st' := Step(iter.start, st, r);
              if st'.None? then outcome.Failed?
              else
                outcome.Continued? && stream.Rest() == rest && dest.cells == st'.value.cells
                && InStep(iter.start, st'.value, iter, newField, newSize, fieldsSeen[..])
    decreases iter.start, 2
  {
    hide StaticTable, Step, Extent, ShapeOf, ReadKey, Holds, Indices;
    var t := iter.start;
    newField, newSize := fixedCountField, fixedCountSize;
    var tagOk, wireType, tag, eof := stream.DecodeTag();
    if !tagOk {
      outcome := if eof then Stopped else Failed;
      return;
    }
    var found, steps := iter.FindTag(tag);
    var ok;
    if !found || iter.start == [] {
      ok := SkipUnknown(stream, t, tag, wireType, found, st);
    } else {
      FoundIsFind(t, tag, iter.pos);
      ok, newField, newSize :=
        DecodeFound(stream, tag, wireType, iter, dest, fieldsSeen, fixedCountField, fixedCountSize, st);
    }
    outcome := if ok then Continued else Failed;
  }

  /** pb_decode_noinit */
  method DecodeNoInit(stream: IStream, t: Table, dest: Struct) returns (ok: bool)
    requires stream.Valid() && StaticTable(t) && Typed(t, dest.cells)
    modifies stream, dest
    ensures stream.Valid() && stream.End() <= old(stream.End())
    ensures Typed(t, dest.cells)
    ensures ok ==> stream.End() == old(stream.End())
    ensures ok == NoInit(t, old(dest.cells), old(stream.Rest())).Some?
    ensures ok ==> Decoded(dest.cells, stream.Rest()) == NoInit(t, old(dest.cells), old(stream.Rest())).value
    decreases t, 3
  {
    hide StaticTable, NoInit, Split, Fold, Step, Next, Finished, Reached, Holds, Indices;
    ghost var cells, s := dest.cells, stream.Rest();
    TypedLength(t, cells);
    var fieldsSeen := NewMask();
    var fixedCountField: Option<nat> := None;
    var fixedCountSize: nat := 0;
    var iter := new FieldIter(t, 0);
    ghost var recs: seq<Rec>, st, rest := [], Fresh(cells), s;
    var outcome := Continued;
    ReachedStart(t, cells, s);
    NothingSeen(t);
    while stream.bytesLeft > 0
      invariant stream.Valid() && stream.End() == old(stream.End()) && stream.Rest() == rest
      invariant iter.start == t
      invariant Typed(t, dest.cells) && st.cells == dest.cells && |st.cells| == |t|
      invariant InStep(t, st, iter, fixedCountField, fixedCountSize, fieldsSeen[..])
      invariant Reached(t, cells, s, recs, st, rest) && outcome.Continued?
      decreases stream.bytesLeft
    {
      ReachedNext(t, cells, s, recs, st, rest);
      outcome, fixedCountField, fixedCountSize :=
        DecodeRecord(stream, iter, dest, fieldsSeen, fixedCountField, fixedCountSize, st);
      if outcome.Failed? { return false; }
      if outcome.Stopped? { break; }
      ghost var r := Next(t, rest).r;
      recs, st, rest := recs + [r], Step(t, st, r).value, stream.Rest();
    }
    if !outcome.Stopped? { ReachedEnd(t, cells, s, recs, st); }
    NoInitOf(t, cells, s, recs, st, outcome.Stopped?, stream.Rest(), rest);
    ok := CheckFinished(iter, fieldsSeen, fixedCountField, fixedCountSize, st);
  }

  lemma FoundIsStatic(t: Table, k: nat)
    requires StaticTable(t) && k < |t|
    ensures StaticField(t[k])
  {}

  lemma TypedLength(t: Table, cells: seq<Cell>)
    requires Typed(t, cells)
    ensures |cells| == |t|
  {}

  lemma NothingSeen(t: Table)
    ensures Indices(t, {}) == {}
  {}

  /** With unique tags the field the iterator stops at is the one `Find` finds. */
  lemma FoundIsFind(t: Table, tag: nat, k: nat)
    requires StaticTable(t) && k < |t| && t[k].tag == tag && !t[k].lt.LExtension?
    ensures Find(t, tag) == Some(k)
  {
    var j := Find(t, tag).value;
  }

  lemma LeftAtDefault(t: Table, s: Bytes)
    ensures DecodeMessage(t, s).Some? ==> Split(t, s).Some? && |DecodeMessage(t, s).value.cells| == |t|
    ensures DecodeMessage(t, s).Some? ==> forall h :: 0 <= h < |t| && !Touched(t, Split(t, s).value.recs, h) ==>
              AtDefault(t[h], Home(t, h) == h, DecodeMessage(t, s).value.cells[h])
  {
    hide AtDefault, Touched, Home;
    if DecodeMessage(t, s).Some? {
      forall h | 0 <= h < |t| && !Touched(t, Split(t, s).value.recs, h)
        ensures AtDefault(t[h], Home(t, h) == h, DecodeMessage(t, s).value.cells[h])
      {
        AbsentFields(t, s, h);
      }
    }
  }

  /** pb_decode: fields for which there was no record are at their defaults. */
  method DecodeMessageInto(stream: IStream, t: Table, dest: Struct) returns (ok: bool)
    requires stream.Valid() && StaticTable(t)
    modifies stream, dest
    ensures stream.Valid() && Typed(t, dest.cells)
    ensures stream.End() <= old(stream.End()) && (ok ==> stream.End() == old(stream.End()))
    ensures ok == DecodeMessage(t, old(stream.Rest())).Some?
    ensures ok ==> Decoded(dest.cells, stream.Rest()) == DecodeMessage(t, old(stream.Rest())).value
    ensures ok ==> Within(t, dest.cells)
    ensures ok ==> forall h :: 0 <= h < |t| && !Touched(t, Split(t, old(stream.Rest())).value.recs, h) ==>
                     AtDefault(t[h], Home(t, h) == h, dest.cells[h])
  {
    hide Typed, StaticTable, Within, NoInit, AtDefault, Touched, Split;
    LeftAtDefault(t, stream.Rest());
    DefaultsAreTyped(t);
    DefaultsAreWithin(t);
    dest.cells := Defaults(t);
    ok := DecodeNoInit(stream, t, dest);
    if ok { NoInitKeepsWithin(t, Defaults(t), old(stream.Rest())); }
  }

  /** pb_decode_delimited: only the announced bytes decide, and however many of them decoding reads,
      the stream goes on right behind them. */
  method DecodeDelimited(stream: IStream, t: Table, dest: Struct) returns (ok: bool)
    requires stream.Valid() && StaticTable(t)
    modifies stream, dest
    ensures stream.Valid()
    ensures var s := old(stream.Rest());
            && ok == (Announced(s).Some? && DecodeMessage(t, Announced(s).value.0).Some?)
            && (ok ==>
                  && dest.cells == DecodeMessage(t, Announced(s).value.0).value.cells
                  && stream.End() == old(stream.End()) && stream.Rest() == s[Announced(s).value.1..])
  {
    hide Announced, DecodeMessage, StaticTable, Typed;
    var substream;
    ok, substream := stream.MakeStringSubstream();
    if !ok { return; }
    var status := DecodeMessageInto(substream, t, dest);
    ok := stream.CloseStringSubstream(substream);
    ok := status;
  }
}
