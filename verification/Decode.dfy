/** What decoding means: a fold over records.  The methods of Decoder are proved to compute this. */
module Decode {
  import opened Wrappers
  import opened Config
  import opened Message
  import opened Wire
  import Varint

  // ----- Integers of a given width in memory

  predicate IntSize(size: nat) { size == 1 || size == 2 || size == 4 || size == 8 }

  function Modulus(size: nat): (m: nat)
    ensures m > 0
  {
    if size == 1 then 0x100 else if size == 2 then 0x1_0000
    else if size == 4 then Varint.U32 else Varint.U64
  }

  /** A cast to a signed integer of `size` bytes. */
  function ToSigned(i: int, size: nat): int {
    var m := Modulus(size);
    if i % m >= m / 2 then i % m - m else i % m
  }

  /** Zigzag decoding of a 64-bit number. */
  function UnZigZag(v: nat): int {
    if v % 2 == 1 then -(v / 2) - 1 else v / 2
  }

  /** Little-endian. */
  function Number(p: Bytes): nat {
    if p == [] then 0 else p[0] + 256 * Number(p[1..])
  }

  // ----- One item

  /** The result of the PB_DECODERS entry for `f` on the payload `p`; `prior` is what the
      destination holds, which matters for submessages only. */
  function Item(f: Field, prior: Value, p: Bytes): Option<Value>
    decreases f, 1, 0
  {
    match f.lt
    case LBool =>
      if !Varint.IsVarint(p) then None
      else var v :- Varint.Value32(p); Some(VBool(v != 0))
    case LVarint =>
      var v :- Varint.Value64(p);
      var svalue := ToSigned(v, if f.dataSize == 8 then 8 else 4);
      if IntSize(f.dataSize) && ToSigned(svalue, f.dataSize) == svalue then Some(VInt(svalue)) else None
    case LUvarint =>
      var v :- Varint.Value64(p);
      if IntSize(f.dataSize) && v % Modulus(f.dataSize) == v then Some(VInt(v)) else None
    case LSvarint =>
      var v :- Varint.Value64(p);
      var svalue := UnZigZag(v);
      if IntSize(f.dataSize) && ToSigned(svalue, f.dataSize) == svalue then Some(VInt(svalue)) else None
    case LFixed32 => Some(VInt(Number(p)))
    case LFixed64 => Some(VInt(Number(p)))
    case LExtension => None
    case _ => var body :- Body(p); BodyItem(f, prior, body)
  }

  /** The same for a length-delimited item with the given body. */
  function BodyItem(f: Field, prior: Value, body: Bytes): Option<Value>
    decreases f, 0, 0
  {
    match f.lt
    case LBytes =>
      var allocSize := (|body| + BytesHeader()) % (SIZE_T_MAX + 1);
      if |body| > PB_SIZE_MAX || |body| > allocSize || allocSize > f.dataSize then None
      else Some(VBytes(body))
    case LString =>
      if (|body| + 1) % Varint.U32 < |body| || (|body| + 1) % Varint.U32 > f.dataSize then None
      else Some(VString(body))
    case LSubmessage(sub) =>
      if !prior.VMsg? || |prior.cells| != |sub| then None
      else var r :- NoInit(sub, prior.cells, body); Some(VMsg(r.cells))
    case LFixedLengthBytes =>
      if |body| > PB_SIZE_MAX then None
      else if body == [] then Some(VBytes(Zeros(f.dataSize)))
      else if |body| != f.dataSize then None
      else Some(VBytes(body))
    case _ => None
  }

  /** The items of a packed run, of which at most `room` fit. */
  function PackedRun(f: Field, room: nat, s: Bytes): (vs: Option<seq<Value>>)
    ensures vs.Some? ==> |vs.value| <= room
    decreases f, 2, |s|
  {
    if s == [] then Some([])
    else if room == 0 then None
    else
      var n :- Extent(ItemShape(f.lt), s);
      var v :- Item(f, Unset, s[..n]);
      var more :- PackedRun(f, room - 1, s[n..]);
      Some([v] + more)
  }

  /** The items one record adds to a repeated field that has `room` left. */
  function NewItems(f: Field, room: nat, r: Rec): (vs: Option<seq<Value>>)
    ensures vs.Some? ==> |vs.value| <= room
    decreases f, 3, 0
  {
    if ReadPacked(f, r.wt) then
      var body :- Body(r.payload);
      PackedRun(f, room, body)
    else if room == 0 then None
    else
      var v :- Item(f, DefaultItem(f), r.payload);
      Some([v])
  }

  /** pb_decode initialises a submessage that is an array entry or a union member. */
  function DefaultItem(f: Field): Value {
    if f.lt.LSubmessage? then VMsg(Defaults(f.lt.fields)) else Unset
  }

  // ----- One record

  /** `fixedField` and `fixedCount` follow the fixed-count array being received; `seen` are the
      required fields that have appeared. */
  datatype State = State(cells: seq<Cell>, fixedField: Option<nat>, fixedCount: nat, seen: set<nat>)

  function Fresh(cells: seq<Cell>): State {
    State(cells, None, 0, {})
  }

  /** The effect of one record on the struct. */
  function Step(t: Table, st: State, r: Rec): (st': Option<State>)
    requires |st.cells| == |t|
    ensures st'.Some? ==> |st'.value.cells| == |t|
    decreases t, 0, 0
  {
    var k := Find(t, r.tag);
    if k.None? then
      if SkipFails(t, r) then None else Some(st)
    else if t[k.value].FixedCount() && st.fixedField != k && !RunComplete(t, st) then None
    else
      var h := Home(t, k.value);
      var x :- CellAfter(t[k.value], st.cells[h], CountBefore(t[k.value], k, st), r);
      Some(State(st.cells[h := x.cell], FieldAfter(t[k.value], k, st), x.count, SeenAfter(t[k.value], k.value, st)))
  }

  /** In an empty table the terminator answers to tag 0 and is read as a bool nobody sees. */
  predicate SkipFails(t: Table, r: Rec) {
    t == [] && r.tag == 0 && (!Varint.IsVarint(r.payload) || Varint.Value32(r.payload).None?)
  }

  /** The fixed-count array being received, if any, has all its entries. */
  predicate RunComplete(t: Table, st: State) {
    match st.fixedField
    case None => true
    case Some(k) => k < |t| && st.fixedCount == t[k].arraySize
  }

  function CountBefore(f: Field, k: Option<nat>, st: State): nat {
    if f.FixedCount() && st.fixedField != k then 0 else st.fixedCount
  }

  function FieldAfter(f: Field, k: Option<nat>, st: State): Option<nat> {
    if f.FixedCount() then k else st.fixedField
  }

  function SeenAfter(f: Field, k: nat, st: State): set<nat> {
    if f.ht.Required? then st.seen + {k} else st.seen
  }

  datatype Stored = Stored(cell: Cell, count: nat)

  /** How many more items fit into an array that counts `used`, which may be more than it has. */
  function RoomLeft(f: Field, used: nat): nat {
    if used < f.arraySize then f.arraySize - used else 0
  }

  /** decode_field on a static field: the new contents of its cell, and of the counter that
      stands in for the missing count of a fixed-count array. */
  function CellAfter(f: Field, c: Cell, count: nat, r: Rec): (x: Option<Stored>)
    ensures x.Some? && !f.FixedCount() ==> x.value.count == count
    ensures x.Some? && f.FixedCount() ==> x.value.count <= f.arraySize
    decreases f, 4, 0
  {
    if !f.at.Static? then None
    else
      match f.ht
      case Required =>
        if !c.Plain? then None
        else var v :- Item(f, c.v, r.payload); Some(Stored(Plain(v), count))
      case Optional =>
        if f.sizeOffset == 0 then
          if !c.Plain? then None
          else var v :- Item(f, c.v, r.payload); Some(Stored(Plain(v), count))
        else
          if !c.Has? then None
          else var v :- Item(f, c.v, r.payload); Some(Stored(Has(true, v), count))
      case Oneof =>
        if !c.Union? then None
        else var v :- Item(f, DefaultItem(f), r.payload); Some(Stored(Union(f.tag, v), count))
      case Repeated =>
        if f.sizeOffset == 0 then
          if !c.Array? || |c.items| != f.arraySize || count > f.arraySize then None
          else
            var vs :- NewItems(f, RoomLeft(f, count), r);
            Some(Stored(Append(c, count, vs), count + |vs|))
        else
          if !c.Counted? then None
          else
            var vs :- NewItems(f, RoomLeft(f, |c.items|), r);
            Some(Stored(Append(c, |c.items|, vs), count))
  }

  /** The array after `vs` has been stored behind its first `count` items. */
  function Append(c: Cell, count: nat, vs: seq<Value>): (r: Cell)
    requires c.Counted? || c.Array?
    requires c.Array? ==> count + |vs| <= |c.items|
    ensures c.Counted? ==> r.Counted? && |r.items| == |c.items| + |vs|
    ensures c.Array? ==> r.Array? && |r.items| == |c.items|
  {
    if c.Counted? then Counted(c.items + vs) else Array(c.items[..count] + vs + c.items[count + |vs|..])
  }

  // ----- A whole message

  function Fold(t: Table, st: State, recs: seq<Rec>): (st': Option<State>)
    requires |st.cells| == |t|
    ensures st'.Some? ==> |st'.value.cells| == |t|
    decreases t, 1, |recs|
  {
    if recs == [] then Some(st)
    else var st1 :- Step(t, st, recs[0]); Fold(t, st1, recs[1..])
  }

  /** The checks after the record loop. */
  predicate Finished(t: Table, st: State) {
    && RunComplete(t, st)
    && forall k :: 0 <= k < |t| && t[k].ht.Required? && RequiredBefore(t, k) < PB_MAX_REQUIRED_FIELDS ==> k in st.seen
  }

  datatype Decoded = Decoded(cells: seq<Cell>, left: Bytes)

  /** pb_decode_noinit: decode into what the struct already holds. */
  function NoInit(t: Table, cells: seq<Cell>, s: Bytes): (r: Option<Decoded>)
    requires |cells| == |t|
    ensures r.Some? ==> |r.value.cells| == |t|
    decreases t, 2, 0
  {
    var fr :- Split(t, s);
    var st :- Fold(t, Fresh(cells), fr.recs);
    if Finished(t, st) then Some(Decoded(st.cells, fr.left)) else None
  }

  /** pb_decode */
  function DecodeMessage(t: Table, s: Bytes): (r: Option<Decoded>) {
    NoInit(t, Defaults(t), s)
  }
}
