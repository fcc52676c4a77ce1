/** What encoding means: the bytes a message turns into, and whether encoding succeeds.
    The methods of Encoder are proved to write exactly these bytes. */
module Encode {
  import opened Config
  import opened Message
  import opened Wire
  import opened Decode
  import Varint

  /** The bytes written before an operation ends, and its return value. */
  datatype Emit = Emit(bytes: Bytes, ok: bool) {
    function Then(next: Emit): Emit {
      if ok then Emit(bytes + next.bytes, next.ok) else this
    }
  }

  const Nothing := Emit([], true)
  const Failure := Emit([], false)

  function Written(bytes: Bytes): Emit { Emit(bytes, true) }

  /** A length-prefixed body; its size is known only if encoding it succeeds. */
  function Prefixed(body: Emit): Emit {
    if body.ok then Written(Delimit(body.bytes)) else Failure
  }

  /** Zigzag encoding of a signed 64-bit number. */
  function ZigZag(i: int): nat {
    if i < 0 then Varint.U64 - 1 - (2 * i) % Varint.U64 else (2 * i) % Varint.U64
  }

  /** Little-endian. */
  function NumberBytes(v: nat, size: nat): (p: Bytes)
    ensures |p| == size
  {
    if size == 0 then [] else [v % 256] + NumberBytes(v / 256, size - 1)
  }

  /** The length of the string in a buffer of `max` characters: it ends at a NUL. */
  function StrLen(chars: Bytes, max: nat): (n: nat)
    ensures n <= |chars| && n <= max
  {
    if chars == [] || max == 0 || chars[0] == 0 then 0 else 1 + StrLen(chars[1..], max - 1)
  }

  /** How far pb_enc_string looks for the NUL. */
  function MaxLen(f: Field): nat {
    if f.at.Pointer? then SIZE_T_MAX else f.dataSize
  }

  function WireType(lt: LType): nat {
    if lt.IsVarint() then WT_VARINT
    else if lt.LFixed32? then WT_32BIT
    else if lt.LFixed64? then WT_64BIT
    else WT_STRING
  }

  // ----- One item

  /** What the PB_ENCODERS entry for `f` writes. */
  function ItemEmit(f: Field, v: Value): Emit
    decreases f, 2, 0
  {
    match f.lt
    case LBool => if v.VBool? then Written(Varint.Encode(if v.b then 1 else 0)) else Failure
    case LVarint =>
      if v.VInt? && IntSize(f.dataSize) then Written(Varint.Encode(v.i % Varint.U64)) else Failure
    case LUvarint =>
      if v.VInt? && IntSize(f.dataSize) then Written(Varint.Encode(v.i % Varint.U64)) else Failure
    case LSvarint =>
      if v.VInt? && IntSize(f.dataSize) then Written(Varint.Encode(ZigZag(v.i))) else Failure
    case LFixed32 => if v.VInt? then Written(NumberBytes(v.i % Varint.U32, 4)) else Failure
    case LFixed64 => if v.VInt? then Written(NumberBytes(v.i % Varint.U64, 8)) else Failure
    case LBytes =>
      if !v.VBytes? then Failure
      else
        var allocSize := (|v.bytes| + BytesHeader()) % (SIZE_T_MAX + 1);
        if allocSize < |v.bytes| || (f.at.Static? && allocSize > f.dataSize) then Failure
        else Written(Delimit(v.bytes))
    case LString => if v.VString? then Written(Delimit(v.chars[..StrLen(v.chars, MaxLen(f))])) else Failure
    case LSubmessage(sub) =>
      if !v.VMsg? || |v.cells| != |sub| then Failure else Prefixed(MessageEmit(sub, v.cells, 0))
    case LExtension => Failure
    case LFixedLengthBytes =>
      if v.VBytes? && |v.bytes| == f.dataSize then Written(Delimit(v.bytes)) else Failure
  }

  /** The items of an array one after another, each preceded by `key`. */
  function ItemsEmit(f: Field, key: Bytes, items: seq<Value>): Emit
    decreases f, 3, |items|
  {
    if items == [] then Nothing
    else Written(key).Then(ItemEmit(f, items[0])).Then(ItemsEmit(f, key, items[1..]))
  }

  // ----- One field

  function FieldKey(f: Field): Bytes {
    KeyBytes(f.tag, WireType(f.lt))
  }

  predicate WritesPacked(f: Field) {
    f.lt.Packable() && !PB_ENCODE_ARRAYS_UNPACKED
  }

  /** encode_array */
  function ArrayEmit(f: Field, items: seq<Value>): Emit
    decreases f, 4, 0
  {
    if items == [] then Nothing
    else if !f.at.Pointer? && |items| > f.arraySize then Failure
    else if WritesPacked(f) then
      Written(KeyBytes(f.tag, WT_STRING)).Then(Prefixed(ItemsEmit(f, [], items)))
    else ItemsEmit(f, FieldKey(f), items)
  }

  function SingleEmit(f: Field, v: Value): Emit
    decreases f, 4, 0
  {
    Written(FieldKey(f)).Then(ItemEmit(f, v))
  }

  /** encode_field on a static field or pointer whose cell holds `c`. */
  function FieldEmit(f: Field, c: Cell): Emit
    decreases f, 5, 0
  {
    match f.ht
    case Required =>
      if f.at.Pointer? then if c.Link? && c.target.Some? then SingleEmit(f, c.target.value) else Failure
      else if c.Plain? then SingleEmit(f, c.v) else Failure
    case Optional =>
      if f.at.Pointer? then
        if !c.Link? then Failure else if c.target.Some? then SingleEmit(f, c.target.value) else Nothing
      else if f.sizeOffset == 0 then
        if !c.Plain? then Failure else if IsZero(f, c) then Nothing else SingleEmit(f, c.v)
      else
        if !c.Has? then Failure else if c.has then SingleEmit(f, c.v) else Nothing
    case Repeated =>
      if f.sizeOffset == 0 then
        if c.Array? && |c.items| == f.arraySize then ArrayEmit(f, c.items) else Failure
      else
        if c.Counted? then ArrayEmit(f, c.items) else Failure
    case Oneof =>
      if !c.Union? then Failure else if c.which == f.tag then SingleEmit(f, c.v) else Nothing
  }

  /** pb_check_proto3_default_value: whether the field counts as absent inside an implicit-presence
      submessage.  Of a pointer to a number it looks at as many bytes as the number has. */
  predicate IsZero(f: Field, c: Cell)
    decreases f, 1, 0
  {
    match f.ht
    case Required => false
    case Repeated => f.sizeOffset != 0 && c.Counted? && c.items == []
    case Oneof => c.Union? && c.which == 0
    case Optional =>
      if f.sizeOffset != 0 then c.Has? && !c.has
      else if f.at.Pointer? then
        c.Link? && if f.lt.Packable() then AllZero(c.memory, f.dataSize) else c.target.None?
      else c.Plain? && IsZeroValue(f, c.v)
  }

  /** The first `n` bytes are zero. */
  predicate AllZero(memory: Bytes, n: nat) {
    forall i :: 0 <= i < n && i < |memory| ==> memory[i] == 0
  }

  /** What C guarantees of a pointer in memory: it is null if all its bytes are zero.  The memory reaches as far as
      the presence check looks. */
  predicate PointerOk(f: Field, c: Cell) {
    && c.Link? && |c.memory| >= POINTER_SIZE && |c.memory| >= f.dataSize
    && (c.target.None? <==> AllZero(c.memory, POINTER_SIZE))
  }

  predicate IsZeroValue(f: Field, v: Value)
    decreases f, 0, 0
  {
    match f.lt
    case LBytes => v == VBytes([])
    case LString => v.VString? && StrLen(v.chars, 1) == 0
    case LFixedLengthBytes => f.dataSize == 0
    case LSubmessage(sub) =>
      v.VMsg? && |v.cells| == |sub| &&
      forall k :: 0 <= k < |sub| ==> IsZero(sub[k], v.cells[Home(sub, k)])
    case LBool => v == VBool(false)
    case LExtension => true
    case _ => v == VInt(0)
  }

  // ----- A whole message

  /** pb_encode, from field `k` on. */
  function MessageEmit(t: Table, cells: seq<Cell>, k: nat): Emit
    requires |cells| == |t| && k <= |t|
    decreases t, 0, |t| - k
  {
    if k == |t| then Nothing
    else FieldEmit(t[k], cells[Home(t, k)]).Then(MessageEmit(t, cells, k + 1))
  }

  /** pb_encode */
  function Encoding(t: Table, cells: seq<Cell>): Emit
    requires |cells| == |t|
  {
    MessageEmit(t, cells, 0)
  }
}
