/** The encoding methods of pb_encode.c, for static fields and pointers, proved to write what `Encode` says. */
module Encoder {
  import opened Absence
  import opened Wrappers
  import opened Bits
  import opened Config
  import opened Message
  import opened Wire
  import opened Decode
  import opened Encode
  import opened Cost
  import opened Iterator
  import opened Streams
  import Varint

  // ----- What a method adds to a stream

  /** From `a` to `b` the stream has taken the bytes of `e`, as far as there was room, and `ok`
      tells whether all of it was written and `e` is a success.  A sizing stream always has
      room. */
  ghost predicate Emitted(a: Snapshot, b: Snapshot, e: Emit, ok: bool) {
    && b.sizing == a.sizing && b.max == a.max
    && a.count <= b.count <= a.count + |e.bytes|
    && (if a.sizing then
          b.written == a.written && b.count == a.count + |e.bytes| && ok == e.ok
        else
          && b.written == a.written + e.bytes[..b.count - a.count]
          && (a.count + |e.bytes| <= a.max ==> b.count == a.count + |e.bytes|)
          && ok == (e.ok && a.count + |e.bytes| <= a.max))
  }

  lemma EmittedNothing(a: Snapshot)
    requires !a.sizing ==> a.count <= a.max
    ensures Emitted(a, a, Nothing, true) && Emitted(a, a, Failure, false)
  {
    assert a.written + [] == a.written;
  }

  lemma EmittedThen(a: Snapshot, b: Snapshot, c: Snapshot, e1: Emit, e2: Emit, ok: bool)
    requires Emitted(a, b, e1, true) && Emitted(b, c, e2, ok)
    ensures Emitted(a, c, e1.Then(e2), ok)
  {
    var n := c.count - b.count;
    if !a.sizing {
      assert (e1.bytes + e2.bytes)[..|e1.bytes| + n] == e1.bytes + e2.bytes[..n];
      assert e1.bytes[..|e1.bytes|] == e1.bytes;
      assert a.written + e1.bytes + e2.bytes[..n] == a.written + (e1.bytes + e2.bytes[..n]);
    }
  }

  lemma EmittedWrite(a: Snapshot, b: Snapshot, bytes: Bytes, ok: bool)
    requires a.sizing ==> ok && b == a.(count := a.count + |bytes|)
    requires !a.sizing ==> (ok <==> a.count + |bytes| <= a.max)
    requires !a.sizing ==> b == if ok then a.(written := a.written + bytes, count := a.count + |bytes|) else a
    ensures Emitted(a, b, Written(bytes), ok)
  {
    if !a.sizing {
      assert bytes[..|bytes|] == bytes;
      assert a.written + bytes[..0] == a.written;
    }
  }

  // ----- Varints, tags, fixed-size numbers

  /** pb_encode_varint */
  method EncodeVarint(stream: OStream, value: nat) returns (ok: bool)
    requires stream.Valid() && value < Varint.U64
    requires stream.bytesWritten + |Varint.Encode(value)| <= SIZE_T_MAX
    modifies stream, stream.buffer
    ensures stream.Valid() && Emitted(old(stream.Snap()), stream.Snap(), Written(Varint.Encode(value)), ok)
  {
    ghost var a := stream.Snap();
    if value <= 0x7F {
      ok := stream.Write([value], 1);
      EmittedWrite(a, stream.Snap(), [value], ok);
      return;
    }
    Varint.EncodeLength(value);
    var buffer := new Byte[10];
    var i := 0;
    var rest: nat := value;
    while rest > 0
      invariant i <= 10 && i <= |Varint.Encode(value)| <= 10
      invariant rest > 0 ==> Varint.Encode(value) == buffer[..i] + Varint.Encode(rest)
      invariant rest == 0 ==>
                  && i > 0 && i == |Varint.Encode(value)|
                  && Varint.Encode(value) == buffer[..i - 1] + [buffer[i - 1] % 128]
      modifies buffer
      decreases rest
    {
      ghost var before := buffer[..i];
      ghost var r := rest;
      buffer[i] := rest % 128 + 128;
      rest := rest / 128;
      i := i + 1;
      assert buffer[..i - 1] == before;
      EncodeRound(before, r, buffer[..i]);
    }
    buffer[i - 1] := buffer[i - 1] % 128;
    assert buffer[..i] == Varint.Encode(value);
    ok := stream.Write(buffer[..i], i);
    EmittedWrite(a, stream.Snap(), Varint.Encode(value), ok);
  }

  /** One round of the encoding loops: the group with its top bit set, and what is left. */
  lemma EncodeRound(before: Bytes, r: nat, after: Bytes)
    requires r > 0 && |after| == |before| + 1
    requires after[..|before|] == before && after[|before|] == r % 128 + 128
    ensures r >= 128 ==> before + Varint.Encode(r) == after + Varint.Encode(r / 128)
    ensures r < 128 ==> before + Varint.Encode(r) == after[..|before|] + [after[|before|] % 128]
  {
    assert after == before + [r % 128 + 128];
    if r >= 128 {
      assert before + ([r % 128 + 128] + Varint.Encode(r / 128)) == before + [r % 128 + 128] + Varint.Encode(r / 128);
    }
  }

  /** The 64-bit sign extension of the negative int32 whose 32-bit pattern is `value`. */
  function SignExtension(value: nat): nat
    requires Varint.U31 <= value < Varint.U32
  {
    value + Varint.U32 * (Varint.U32 - 1)
  }

  /** pb_encode_negative_varint: 32-bit arithmetic only, refilling the 32 high bits, which are all
      ones, from the top. */
  method EncodeNegativeVarint(stream: OStream, value: nat) returns (ok: bool)
    requires stream.Valid() && Varint.U31 <= value < Varint.U32
    requires stream.bytesWritten + 10 <= SIZE_T_MAX
    modifies stream, stream.buffer
    ensures |Varint.Encode(SignExtension(value))| == 10
    ensures stream.Valid()
    ensures Emitted(old(stream.Snap()), stream.Snap(), Written(Varint.Encode(SignExtension(value))), ok)
  {
    hide Refill, Simulates, SignExtension, Varint.Encode, Emitted;
    ghost var a := stream.Snap();
    ghost var wide := SignExtension(value);   // the 64-bit register this simulates
    ghost var all := Varint.Encode(wide);
    var buffer := new Byte[10];
    var i := 0;
    var compensation: nat := 32;
    var rest: nat := value;
    SimulationStarts(value);
    assert buffer[..0] == [];
    while rest > 0
      invariant i <= 10 && Simulates(all, buffer[..i], wide, rest, compensation)
      modifies buffer
      decreases wide
    {
      rest, compensation := NegativeRound(buffer, i, rest, compensation, all, wide);
      i := i + 1;
      wide := wide / 128;
    }
    SimulationEnds(all, buffer[..i], wide, compensation);
    ClearTopBit(buffer, i);
    ok := stream.Write(buffer[..i], i);
    EmittedWrite(a, stream.Snap(), all, ok);
  }

  /** One round of the loop of pb_encode_negative_varint. */
  method NegativeRound(buffer: array<Byte>, i: nat, value: nat, compensation: nat, ghost all: Bytes, ghost wide: nat)
    returns (rest: nat, left: nat)
    requires buffer.Length == 10 && i <= 10 && value > 0
    requires Simulates(all, buffer[..i], wide, value, compensation)
    modifies buffer
    ensures i < 10 && 0 < wide && wide / 128 < wide
    ensures Simulates(all, buffer[..i + 1], wide / 128, rest, left)
  {
    hide Refill, Simulates;
    ghost var done := buffer[..i];
    SimulationGoesOn(all, done, wide, value, compensation);
    buffer[i] := value % 128 + 128;
    rest, left := value / 128, compensation;
    if compensation > 0 {
      var bits := if compensation > 7 then 7 else compensation;
      rest := Refill(rest, bits);
      left := compensation - bits;
    }
    assert buffer[..i + 1] == done + [value % 128 + 128];
  }

  /** buffer[i - 1] &= 0x7F */
  method ClearTopBit(buffer: array<Byte>, i: nat)
    requires 0 < i <= buffer.Length
    modifies buffer
    ensures buffer[..i] == old(buffer[..i - 1]) + [old(buffer[i - 1]) % 128]
  {
    ghost var done := buffer[..i - 1];
    buffer[i - 1] := buffer[i - 1] % 128;
    assert buffer[..i] == done + [buffer[i - 1]];
  }

  /** After the bytes `done` the 32-bit register `rest` and `compensation` stand for the 64-bit register `wide`. */
  ghost predicate Simulates(all: Bytes, done: Bytes, wide: nat, rest: nat, compensation: nat) {
    && |all| == 10
    && compensation == (if |done| < 5 then 32 - 7 * |done| else 0)
    && wide / Varint.U31 == Ones(|done|) && rest == wide % Varint.U32
    && (wide > 0 ==> |done| < 10 && all == done + Varint.Encode(wide))
    && (wide == 0 ==> done != [] && all == done[..|done| - 1] + [done[|done| - 1] % 128])
  }

  lemma SimulationStarts(value: nat)
    requires Varint.U31 <= value < Varint.U32
    ensures |Varint.Encode(SignExtension(value))| == 10
    ensures Simulates(Varint.Encode(SignExtension(value)), [], SignExtension(value), value, 32)
  {
    RegisterStart(value);
    assert [] + Varint.Encode(SignExtension(value)) == Varint.Encode(SignExtension(value));
  }

  /** One round of the loop is one round of the 64-bit loop. */
  lemma SimulationGoesOn(all: Bytes, done: Bytes, wide: nat, rest: nat, compensation: nat)
    requires Simulates(all, done, wide, rest, compensation) && rest > 0
    ensures wide > 0 && |done| < 10 && rest / 128 < 0x200_0000 && wide / 128 < wide
    ensures compensation > 0 ==> compensation > 7 || compensation == 4
    ensures var bits := if compensation > 7 then 7 else compensation;
            var rest' := if compensation == 0 then rest / 128 else Refill(rest / 128, bits);
            Simulates(all, done + [rest % 128 + 128], wide / 128, rest', compensation - bits)
  {
    hide Varint.Encode, Ones;
    RegisterStep(wide, |done|);
    EncodeRound(done, wide, done + [rest % 128 + 128]);
    MoreThanOneByte(all, done, wide);
  }

  lemma MoreThanOneByte(all: Bytes, done: Bytes, wide: nat)
    requires |all| == 10 && wide > 0 && all == done + Varint.Encode(wide)
    ensures wide >= 128 ==> |done| < 9
  {
    if wide >= 128 { assert |Varint.Encode(wide / 128)| > 0; }
  }

  lemma SimulationEnds(all: Bytes, done: Bytes, wide: nat, compensation: nat)
    requires Simulates(all, done, wide, 0, compensation)
    ensures done != [] && all == done[..|done| - 1] + [done[|done| - 1] % 128]
  {
    hide Varint.Encode, Ones;
    RegisterEnd(wide, |done|);
  }

  /** The 32-bit decoder recovers the 32-bit pattern. */
  lemma NegativeVarintRoundTrip(value: nat)
    requires Varint.U31 <= value < Varint.U32
    ensures Varint.IsVarint(Varint.Encode(SignExtension(value)))
    ensures Varint.Value32(Varint.Encode(SignExtension(value))) == Some(value)
  {
    Varint.Decode32Ranges(SignExtension(value));
  }

  /** What is left of the 33 high bits of a negative number, all ones, after `i` rounds. */
  function Ones(i: nat): nat {
    if i == 0 then 0x1_FFFF_FFFF else Ones(i - 1) / 128
  }

  lemma RegisterStart(value: nat)
    requires Varint.U31 <= value < Varint.U32
    ensures SignExtension(value) > 0
    ensures SignExtension(value) / Varint.U31 == Ones(0) && SignExtension(value) % Varint.U32 == value
    ensures |Varint.Encode(SignExtension(value))| == 10
  {
    Varint.EncodeLength(SignExtension(value));
    Varint.EncodeLengthByRange(SignExtension(value));
  }

  lemma RegisterStep(wide: nat, i: nat)
    requires wide / Varint.U31 == Ones(i)
    ensures (wide / 128) / Varint.U31 == Ones(i + 1)
    ensures wide % Varint.U32 % 128 == wide % 128
    ensures wide % Varint.U32 / 128 < 0x200_0000
    ensures (wide / 128) % Varint.U32 == wide % Varint.U32 / 128 + 0x200_0000 * ((Ones(i) / 2) % 128)
    ensures (Ones(i) / 2) % 128 == (if i < 4 then 127 else if i == 4 then 15 else 0)
    ensures i < 5 ==> wide % Varint.U32 >= Varint.U31
    ensures i >= 5 ==> wide % Varint.U32 == wide
  {
    OnesValues(i);
    ShiftRegister(wide, Ones(i));
  }

  lemma {:induction false} OnesValues(i: nat)
    ensures i == 0 ==> Ones(i) == 0x1_FFFF_FFFF
    ensures i == 1 ==> Ones(i) == 0x3FF_FFFF
    ensures i == 2 ==> Ones(i) == 0x7_FFFF
    ensures i == 3 ==> Ones(i) == 0xFFF
    ensures i == 4 ==> Ones(i) == 0x1F
    ensures i >= 5 ==> Ones(i) == 0
  {
    if i > 0 { OnesValues(i - 1); }
  }

  /** Shifting a register wider than 32 bits, seen through its low 32 bits. */
  lemma ShiftRegister(wide: nat, ones: nat)
    requires wide / Varint.U31 == ones
    ensures (wide / 128) / Varint.U31 == ones / 128
    ensures wide % Varint.U32 % 128 == wide % 128
    ensures wide % Varint.U32 / 128 < 0x200_0000
    ensures (wide / 128) % Varint.U32 == wide % Varint.U32 / 128 + 0x200_0000 * ((ones / 2) % 128)
    ensures ones % 2 == 1 ==> wide % Varint.U32 >= Varint.U31
    ensures ones == 0 ==> wide % Varint.U32 == wide
  {
    var high, low := wide / Varint.U32, wide % Varint.U32;
    HalvesOfRegister(wide, ones, high, low);
    ShiftedHalves(wide, high / 128, high % 128, low);
    ShiftedOnes(wide);
  }

  lemma HalvesOfRegister(wide: nat, ones: nat, high: nat, low: nat)
    requires wide / Varint.U31 == ones && wide == Varint.U32 * high + low && low < Varint.U32
    ensures high == ones / 2 && (ones % 2 == 1 <==> low >= Varint.U31)
  {}

  lemma ShiftedHalves(wide: nat, h: nat, g: nat, low: nat)
    requires wide == Varint.U32 * (128 * h + g) + low && g < 128 && low < Varint.U32
    ensures wide / 128 == Varint.U32 * h + (0x200_0000 * g + low / 128)
    ensures (wide / 128) % Varint.U32 == low / 128 + 0x200_0000 * g
    ensures low % 128 == wide % 128 && low / 128 < 0x200_0000
  {
    QuotientOf(wide / 128, h, 0x200_0000 * g + low / 128);
  }

  lemma QuotientOf(x: nat, h: nat, r: nat)
    requires x == Varint.U32 * h + r && r < Varint.U32
    ensures x % Varint.U32 == r
  {}

  lemma ShiftedOnes(wide: nat)
    ensures (wide / 128) / Varint.U31 == (wide / Varint.U31) / 128
  {}

  /** value ^= (0xFF >> (8 - bits)) << 25: the bits set at the vacated top are added. */
  function Refill(rest: nat, bits: nat): (r: nat)
    requires rest < 0x200_0000 && (bits == 7 || bits == 4)
    ensures r == rest + 0x200_0000 * if bits == 7 then 127 else 15
  {
    assert Pow2(1) == 2 && Pow2(4) == 16;
    var top := 0xFF / Pow2(8 - bits);
    Varint.Shl25(top);
    Varint.Shl25(1);
    XorOfDisjoint(rest, top, 25);
    BitXor(rest, Shl(top, 25))
  }

  lemma RegisterEnd(wide: nat, i: nat)
    requires wide / Varint.U31 == Ones(i) && wide % Varint.U32 == 0
    ensures wide == 0
  {
    RegisterStep(wide, i);
  }

  // ----- What C's types and memory guarantee about what is encoded

  /** `v` has the type of the field, and no body in it is longer than a size_t can tell. */
  ghost predicate ValueWritable(f: Field, v: Value)
    decreases f, 0
  {
    match f.lt
    case LBool => v.VBool?
    case LBytes => v.VBytes? && |v.bytes| <= PB_SIZE_MAX
    case LString => v.VString?
    case LSubmessage(sub) =>
      && v.VMsg? && |v.cells| == |sub| && Writable(sub, v.cells)
      && |MessageEmit(sub, v.cells, 0).bytes| <= SIZE_T_MAX
    case LExtension => false
    case LFixedLengthBytes => v.VBytes? && |v.bytes| == f.dataSize
    case _ => v.VInt?
  }

  ghost predicate ItemsWritable(f: Field, items: seq<Value>)
    decreases f, 1
  {
    && (forall i :: 0 <= i < |items| ==> ValueWritable(f, items[i]))
    && (WritesPacked(f) ==> |ItemsEmit(f, [], items).bytes| <= SIZE_T_MAX)
  }

  ghost predicate FieldWritable(f: Field, c: Cell)
    decreases f, 2
  {
    && !f.at.Callback? && f.tag <= PB_SIZE_MAX && f.dataSize <= PB_SIZE_MAX && !f.lt.LExtension?
    && match f.ht
       case Required => if f.at.Pointer? then LinkWritable(f, c) else c.Plain? && ValueWritable(f, c.v)
       case Optional =>
         if f.at.Pointer? then LinkWritable(f, c)
         else if f.sizeOffset == 0 then c.Plain? && ValueWritable(f, c.v)
         else c.Has? && (c.has ==> ValueWritable(f, c.v))
       case Repeated =>
         (if f.sizeOffset == 0 then f.at.Static? && c.Array? && |c.items| == f.arraySize else c.Counted?)
         && ItemsWritable(f, c.items)
       case Oneof => f.sizeOffset != 0 && c.Union? && (c.which == f.tag ==> ValueWritable(f, c.v))
  }

  ghost predicate LinkWritable(f: Field, c: Cell)
    decreases f, 1
  {
    f.sizeOffset == 0 && PointerOk(f, c) && (c.target.Some? ==> ValueWritable(f, c.target.value))
  }

  ghost predicate Writable(t: Table, cells: seq<Cell>)
    decreases t
  {
    |cells| == |t| && forall k :: 0 <= k < |t| ==> FieldWritable(t[k], cells[Home(t, k)])
  }

  /** The method has written `e` to the stream, as far as it fits. */
  twostate predicate Writes(stream: OStream, e: Emit, ok: bool)
    requires old(stream.Valid())
    reads stream, stream.buffer
  {
    stream.Valid() && Emitted(old(stream.Snap()), stream.Snap(), e, ok)
  }

  // ----- Laws of Emit

  lemma ThenAssociates(a: Emit, b: Emit, c: Emit)
    ensures a.Then(b).Then(c) == a.Then(b.Then(c))
  {
    if a.ok && b.ok { assert a.bytes + b.bytes + c.bytes == a.bytes + (b.bytes + c.bytes); }
  }

  lemma ThenNothing(a: Emit)
    ensures a.Then(Nothing) == a && Nothing.Then(a) == a
  {
    assert a.bytes + [] == a.bytes && [] + a.bytes == a.bytes;
  }

  lemma PrefixedIsThen(body: Emit)
    requires body.ok
    ensures Prefixed(body) == Written(Varint.Encode(|body.bytes|)).Then(body)
  {}

  /** There is no room for `e`, and nothing of it has been written. */
  lemma EmittedNoRoom(a: Snapshot, e: Emit)
    requires !a.sizing && a.count <= a.max < a.count + |e.bytes|
    ensures Emitted(a, a, e, false)
  {
    assert a.written + e.bytes[..0] == a.written;
  }

  /** Writing stops at the first part that fails. */
  lemma EmittedStops(a: Snapshot, b: Snapshot, e1: Emit, e2: Emit)
    requires Emitted(a, b, e1, false)
    ensures Emitted(a, b, e1.Then(e2), false)
  {
    if e1.ok && !a.sizing {
      var n := b.count - a.count;
      assert (e1.bytes + e2.bytes)[..n] == e1.bytes[..n];
    }
  }

  // ----- Primitive encoders

  /** pb_encode_tag */
  method EncodeTag(stream: OStream, wireType: nat, fieldNumber: nat) returns (ok: bool)
    requires stream.Valid() && wireType < 8 && fieldNumber <= PB_SIZE_MAX
    requires stream.bytesWritten + |KeyBytes(fieldNumber, wireType)| <= SIZE_T_MAX
    modifies stream, stream.buffer
    ensures Writes(stream, Written(KeyBytes(fieldNumber, wireType)), ok)
  {
    var tag := 8 * fieldNumber + wireType;
    ok := EncodeVarint(stream, tag);
  }

  /** pb_encode_tag_for_field */
  method EncodeTagForField(stream: OStream, f: Field) returns (ok: bool)
    requires stream.Valid() && f.tag <= PB_SIZE_MAX && !f.lt.LExtension?
    requires stream.bytesWritten + |FieldKey(f)| <= SIZE_T_MAX
    modifies stream, stream.buffer
    ensures Writes(stream, Written(FieldKey(f)), ok)
  {
    var wireType := WT_STRING;
    if f.lt.IsVarint() { wireType := WT_VARINT; }
    else if f.lt.LFixed32? { wireType := WT_32BIT; }
    else if f.lt.LFixed64? { wireType := WT_64BIT; }
    ok := EncodeTag(stream, wireType, f.tag);
  }

  /** pb_encode_string */
  method EncodeString(stream: OStream, bytes: Bytes) returns (ok: bool)
    requires stream.Valid() && stream.bytesWritten + |Delimit(bytes)| <= SIZE_T_MAX
    modifies stream, stream.buffer
    ensures Writes(stream, Written(Delimit(bytes)), ok)
  {
    ghost var a := stream.Snap();
    ok := EncodeVarint(stream, |bytes|);
    ghost var b := stream.Snap();
    if !ok {
      EmittedStops(a, b, Written(Varint.Encode(|bytes|)), Written(bytes));
      return;
    }
    ok := stream.Write(bytes, |bytes|);
    EmittedWrite(b, stream.Snap(), bytes, ok);
    EmittedThen(a, b, stream.Snap(), Written(Varint.Encode(|bytes|)), Written(bytes), ok);
  }

  /** pb_encode_svarint */
  method EncodeSvarint(stream: OStream, value: int) returns (ok: bool)
    requires stream.Valid() && stream.bytesWritten + |Varint.Encode(ZigZag(value))| <= SIZE_T_MAX
    modifies stream, stream.buffer
    ensures Writes(stream, Written(Varint.Encode(ZigZag(value))), ok)
  {
    var shifted := (2 * value) % Varint.U64;
    var zigzagged := if value < 0 then Varint.U64 - 1 - shifted else shifted;
    ok := EncodeVarint(stream, zigzagged);
  }

  /** pb_encode_fixed32 */
  method EncodeFixed32(stream: OStream, val: nat) returns (ok: bool)
    requires stream.Valid() && stream.bytesWritten + 4 <= SIZE_T_MAX
    modifies stream, stream.buffer
    ensures Writes(stream, Written(NumberBytes(val, 4)), ok)
  {
    ghost var a := stream.Snap();
    var bytes := [val % 256, val / 0x100 % 256, val / 0x1_0000 % 256, val / 0x100_0000 % 256];
    FourNumberBytes(val);
    ok := stream.Write(bytes, 4);
    EmittedWrite(a, stream.Snap(), bytes, ok);
  }

  /** pb_encode_fixed64 */
  method EncodeFixed64(stream: OStream, val: nat) returns (ok: bool)
    requires stream.Valid() && stream.bytesWritten + 8 <= SIZE_T_MAX
    modifies stream, stream.buffer
    ensures Writes(stream, Written(NumberBytes(val, 8)), ok)
  {
    ghost var a := stream.Snap();
    var high := val / 0x1_0000_0000;
    var bytes := [val % 256, val / 0x100 % 256, val / 0x1_0000 % 256, val / 0x100_0000 % 256]
               + [high % 256, high / 0x100 % 256, high / 0x1_0000 % 256, high / 0x100_0000 % 256];
    EightNumberBytes(val);
    FourNumberBytes(val);
    FourNumberBytes(high);
    ok := stream.Write(bytes, 8);
    EmittedWrite(a, stream.Snap(), bytes, ok);
  }

  lemma FourNumberBytes(v: nat)
    ensures NumberBytes(v, 4) == [v % 256, v / 0x100 % 256, v / 0x1_0000 % 256, v / 0x100_0000 % 256]
  {
    FirstFour(v, 4);
    assert NumberBytes(v / 0x1_0000_0000, 0) == [];
  }

  lemma EightNumberBytes(v: nat)
    ensures NumberBytes(v, 8) == NumberBytes(v, 4) + NumberBytes(v / 0x1_0000_0000, 4)
  {
    FirstFour(v, 8);
    FourNumberBytes(v);
  }

  lemma FirstFour(v: nat, size: nat)
    requires size >= 4
    ensures NumberBytes(v, size) == [v % 256, v / 0x100 % 256, v / 0x1_0000 % 256, v / 0x100_0000 % 256]
                                    + NumberBytes(v / 0x1_0000_0000, size - 4)
  {
    var a, b, c := v / 256, v / 256 / 256, v / 256 / 256 / 256;
    assert NumberBytes(v, size) == [v % 256] + NumberBytes(a, size - 1);
    assert NumberBytes(a, size - 1) == [a % 256] + NumberBytes(b, size - 2);
    assert NumberBytes(b, size - 2) == [b % 256] + NumberBytes(c, size - 3);
    assert NumberBytes(c, size - 3) == [c % 256] + NumberBytes(c / 256, size - 4);
    assert b == v / 0x1_0000 && c == v / 0x100_0000 && c / 256 == v / 0x1_0000_0000;
  }

  // ----- Field encoders

  /** pb_enc_bytes */
  method EncBytes(stream: OStream, f: Field, bytes: Bytes) returns (ok: bool)
    requires stream.Valid() && f.lt.LBytes? && |bytes| <= PB_SIZE_MAX
    requires stream.bytesWritten + |ItemEmit(f, VBytes(bytes)).bytes| <= SIZE_T_MAX
    modifies stream, stream.buffer
    ensures Writes(stream, ItemEmit(f, VBytes(bytes)), ok)
  {
    var allocSize := (|bytes| + BytesHeader()) % (SIZE_T_MAX + 1);
    if allocSize < |bytes| || (f.at.Static? && allocSize > f.dataSize) {
      EmittedNothing(stream.Snap());
      return false;
    }
    ok := EncodeString(stream, bytes);
  }

  /** pb_enc_string: the length is that of the C string, at most the size of its buffer unless
      it is allocated. */
  method EncString(stream: OStream, f: Field, chars: Bytes) returns (ok: bool)
    requires stream.Valid() && f.lt.LString?
    requires stream.bytesWritten + |ItemEmit(f, VString(chars)).bytes| <= SIZE_T_MAX
    modifies stream, stream.buffer
    ensures Writes(stream, ItemEmit(f, VString(chars)), ok)
  {
    hide Emitted, StrLen;
    var size, maxSize := 0, f.dataSize;
    if f.at.Pointer? { maxSize := SIZE_T_MAX; }
    assert chars[0..] == chars;
    while size < maxSize && size < |chars| && chars[size] != 0
      invariant size <= maxSize && size <= |chars|
      invariant StrLen(chars, maxSize) == size + StrLen(chars[size..], maxSize - size)
      modifies {}
    {
      StrLenFrom(chars, maxSize, size);
      size := size + 1;
    }
    StrLenFrom(chars, maxSize, size);
    ok := EncodeString(stream, chars[..size]);
  }

  lemma StrLenFrom(chars: Bytes, max: nat, size: nat)
    requires size <= max && size <= |chars|
    ensures StrLen(chars[size..], max - size) ==
            if size < max && size < |chars|
                && chars[size] != 0 then 1 + StrLen(chars[size + 1..], max - size - 1) else 0
  {
    if size < |chars| { assert chars[size..][1..] == chars[size + 1..]; }
  }

  /** The scalar entries of the PB_ENCODERS table. */
  method EncScalar(stream: OStream, f: Field, v: Value) returns (ok: bool)
    requires stream.Valid() && f.lt.Packable() && ValueWritable(f, v)
    requires stream.bytesWritten + |ItemEmit(f, v).bytes| <= SIZE_T_MAX
    modifies stream, stream.buffer
    ensures Writes(stream, ItemEmit(f, v), ok)
  {
    if (f.lt.LVarint? || f.lt.LUvarint? || f.lt.LSvarint?) && !IntSize(f.dataSize) {
      EmittedNothing(stream.Snap());
      return false;
    }
    match f.lt {
      case LBool => ok := EncodeVarint(stream, if v.b then 1 else 0);
      case LVarint => ok := EncodeVarint(stream, v.i % Varint.U64);
      case LUvarint => ok := EncodeVarint(stream, v.i % Varint.U64);
      case LSvarint => ok := EncodeSvarint(stream, v.i);
      case LFixed32 => ok := EncodeFixed32(stream, v.i % Varint.U32);
      case LFixed64 => ok := EncodeFixed64(stream, v.i % Varint.U64);
    }
  }

  /** The PB_ENCODERS table. */
  method EncodeItem(stream: OStream, f: Field, v: Value, ghost depth: nat)
    returns (ok: bool, ghost visits: multiset<nat>)
    requires stream.Valid() && ValueWritable(f, v)
    requires stream.bytesWritten + |ItemEmit(f, v).bytes| <= SIZE_T_MAX
    modifies stream, stream.buffer
    ensures Writes(stream, ItemEmit(f, v), ok)
    ensures ok ==> visits == ItemVisits(f, v, !stream.sizing, depth)
    decreases f, 1
  {
    visits := multiset{};
    if f.lt.Packable() {
      ok := EncScalar(stream, f, v);
    } else {
      match f.lt {
        case LBytes => ok := EncBytes(stream, f, v.bytes);
        case LString => ok := EncString(stream, f, v.chars);
        case LSubmessage(sub) =>
          SubmessageVisits(f, v, depth);
          ok, visits := EncodeSubmessage(stream, sub, v.cells, depth);
        case LFixedLengthBytes => ok := EncodeString(stream, v.bytes);
      }
    }
  }

  /** pb_encode_submessage: sizes the body first, then writes it to a substream limited to that
      size.  It always takes exactly that size, so "submsg size changed" is never reached. */
  method EncodeSubmessage(stream: OStream, t: Table, cells: seq<Cell>, ghost depth: nat)
    returns (ok: bool, ghost visits: multiset<nat>)
    requires stream.Valid() && |cells| == |t| && Writable(t, cells) && |MessageEmit(t, cells, 0).bytes| <= SIZE_T_MAX
    requires stream.bytesWritten + |Prefixed(MessageEmit(t, cells, 0)).bytes| <= SIZE_T_MAX
    modifies stream, stream.buffer
    ensures Writes(stream, Prefixed(MessageEmit(t, cells, 0)), ok)
    ensures ok ==>
              visits == multiset{depth + 1} + MessageVisits(t, cells, 0, false, depth + 1)
                        + if stream.sizing then multiset{} else multiset{depth + 1} + MessageVisits(t, cells, 0,
                            true, depth + 1)
    decreases t, 2
  {
    visits := multiset{};
    ghost var inside;
    hide MessageVisits, MessageEmit, Emitted, Writable;
    ghost var body := MessageEmit(t, cells, 0);
    ghost var a := stream.Snap();
    var substream := new OStream.Sizing();
    ok, inside := EncodeMessage(substream, t, cells, depth + 1);
    visits := multiset{depth + 1} + inside;
    EmittedSize(substream.Snap(), body, ok);
    if !ok {
      EmittedNothing(a);
      return;
    }
    var size := substream.bytesWritten;
    PrefixedIsThen(body);
    ok := EncodeVarint(stream, size);
    ghost var b := stream.Snap();
    if !ok {
      EmittedStops(a, b, Written(Varint.Encode(size)), body);
      return;
    }
    EmittedAll(a, b, Varint.Encode(size));
    ok, inside := EncodeBody(stream, t, cells, size, depth + 1);
    visits := visits + inside;
    EmittedThen(a, b, stream.Snap(), Written(Varint.Encode(size)), body, ok);
  }

  /** The second half of pb_encode_submessage, after the length prefix. */
  method EncodeBody(stream: OStream, t: Table, cells: seq<Cell>, size: nat, ghost depth: nat)
    returns (ok: bool, ghost visits: multiset<nat>)
    requires stream.Valid() && |cells| == |t| && Writable(t, cells)
    requires MessageEmit(t, cells, 0).ok && size == |MessageEmit(t, cells, 0).bytes|
        && stream.bytesWritten + size <= SIZE_T_MAX
    modifies stream, stream.buffer
    ensures Writes(stream, MessageEmit(t, cells, 0), ok)
    ensures ok ==> visits == if stream.sizing then multiset{} else multiset{depth} + MessageVisits(t, cells, 0, true,
        depth)
    decreases t, 1
  {
    hide MessageVisits, MessageEmit, Emitted, Writable;
    visits := multiset{};
    ghost var body, b := MessageEmit(t, cells, 0), stream.Snap();
    if stream.sizing {
      ok := stream.Write([], size);
      EmittedCounted(b, body);
    } else if stream.bytesWritten + size > stream.maxSize {
      EmittedNoRoom(b, body);
      ok := false;
    } else {
      var substream := new OStream.Substream(stream, size);
      ghost var before := substream.Snap();
      ok, visits := EncodeMessage(substream, t, cells, depth);
      visits := multiset{depth} + visits;
      EmittedThrough(b, before, substream.Snap(), body, ok);
      stream.bytesWritten := stream.bytesWritten + substream.bytesWritten;
      stream.state := substream.state;
      assert ok && substream.bytesWritten == size;
      if substream.bytesWritten != size { return false, visits; }
    }
  }

  lemma EmittedSize(b: Snapshot, body: Emit, ok: bool)
    requires Emitted(Snapshot(true, [], 0, 0), b, body, ok)
    ensures ok == body.ok && b.count == |body.bytes|
  {}

  lemma EmittedAll(a: Snapshot, b: Snapshot, bytes: Bytes)
    requires Emitted(a, b, Written(bytes), true)
    ensures b.count == a.count + |bytes| && b.sizing == a.sizing && b.max == a.max
  {}

  lemma EmittedCounted(b: Snapshot, body: Emit)
    requires b.sizing && body.ok
    ensures Emitted(b, b.(count := b.count + |body.bytes|), body, true)
  {}

  /** What is written through a substream with exactly the space for `body` is written to the stream. */
  lemma EmittedThrough(b: Snapshot, before: Snapshot, after: Snapshot, body: Emit, ok: bool)
    requires !b.sizing && body.ok && b.count + |body.bytes| <= b.max
    requires before == Snapshot(false, b.written, 0, |body.bytes|) && Emitted(before, after, body, ok)
    ensures ok && after.count == |body.bytes|
    ensures Emitted(b, Snapshot(false, after.written, b.count + after.count, b.max), body, true)
  {}

  lemma SubmessageVisits(f: Field, v: Value, depth: nat)
    requires f.lt.LSubmessage? && v.VMsg? && |v.cells| == |f.lt.fields|
    ensures var sized := multiset{depth + 1} + MessageVisits(f.lt.fields, v.cells, 0, false, depth + 1);
            && ItemVisits(f, v, false, depth) == sized == sized + multiset{}
            && ItemVisits(f, v, true, depth)
                == sized + (multiset{depth + 1} + MessageVisits(f.lt.fields, v.cells, 0, true, depth + 1))
  {}

  // ----- Arrays

  /** The items of an array one after another, each preceded by its tag unless they are packed. */
  method EncodeItems(stream: OStream, f: Field, items: seq<Value>, packed: bool, ghost depth: nat)
    returns (ok: bool, ghost visits: multiset<nat>)
    requires stream.Valid() && f.tag <= PB_SIZE_MAX && !f.lt.LExtension? && forall i :: 0 <= i < |items| ==>
        ValueWritable(f, items[i])
    requires stream.bytesWritten + |ItemsEmit(f, if packed then [] else FieldKey(f), items).bytes| <= SIZE_T_MAX
    modifies stream, stream.buffer
    ensures Writes(stream, ItemsEmit(f, if packed then [] else FieldKey(f), items), ok)
    ensures ok ==> visits == ItemsVisits(f, items, !stream.sizing, depth)
    decreases f, 4
  {
    hide ItemVisits, ItemsVisits, Emitted, ItemEmit, ItemsEmit, ValueWritable, FieldKey;
    visits := multiset{};
    ghost var inside;
    ghost var key := if packed then [] else FieldKey(f);
    ghost var a, all := stream.Snap(), ItemsEmit(f, key, items);
    ghost var done := Nothing;
    EmittedNothing(a);
    ThenNothing(all);
    var i := 0;
    assert items[0..] == items;
    while i < |items|
      invariant i <= |items| && stream.Valid()
      invariant done.ok && done.Then(ItemsEmit(f, key, items[i..])) == all
      invariant Emitted(a, stream.Snap(), done, true)
      invariant visits + ItemsVisits(f, items[i..], !stream.sizing, depth)
          == ItemsVisits(f, items, !stream.sizing, depth)
    {
      ItemsVisitsUnfold(f, items[i..], !stream.sizing, depth);
      ItemsUnfold(f, key, items[i..]);
      assert items[i..][1..] == items[i + 1..];
      ghost var b := stream.Snap();
      ghost var part, more := Written(key).Then(ItemEmit(f, items[i])), ItemsEmit(f, key, items[i + 1..]);
      Room(a, b, done, part, more);
      ok, inside := EncodeEntry(stream, f, items[i], packed, depth);
      Advance(a, b, stream.Snap(), done, part, more, ok);
      if !ok { return; }
      visits := visits + inside;
      done := done.Then(part);
      i := i + 1;
    }
    ThenNothing(done);
    NoItems(f, key);
    ItemsVisitsUnfold(f, items[i..], !stream.sizing, depth);
    return true, visits;
  }

  /** One item of an array. */
  method EncodeEntry(stream: OStream, f: Field, v: Value, packed: bool, ghost depth: nat)
    returns (ok: bool, ghost visits: multiset<nat>)
    requires stream.Valid() && f.tag <= PB_SIZE_MAX && !f.lt.LExtension? && ValueWritable(f, v)
    requires stream.bytesWritten + |Written(if packed then [] else FieldKey(f)).Then(ItemEmit(f,
        v)).bytes| <= SIZE_T_MAX
    modifies stream, stream.buffer
    ensures Writes(stream, Written(if packed then [] else FieldKey(f)).Then(ItemEmit(f, v)), ok)
    ensures ok ==> visits == ItemVisits(f, v, !stream.sizing, depth)
    decreases f, 3
  {
    hide ItemVisits, Emitted, ItemEmit, ValueWritable;
    if packed {
      ThenNothing(ItemEmit(f, v));
      ok, visits := EncodeItem(stream, f, v, depth);
    } else {
      ok, visits := EncodeSingle(stream, f, v, depth);
    }
  }

  lemma NoItems(f: Field, key: Bytes)
    ensures ItemsEmit(f, key, []) == Nothing
  {}

  lemma ItemsVisitsUnfold(f: Field, items: seq<Value>, write: bool, depth: nat)
    ensures ItemsVisits(f, items, write, depth) ==
            if items == [] then multiset{}
            else ItemVisits(f, items[0], write, depth) + ItemsVisits(f, items[1..], write, depth)
  {}

  /** One part more of a longer write: either it is done, or the whole write fails here. */
  lemma Advance(a: Snapshot, b: Snapshot, c: Snapshot, done: Emit, part: Emit, rest: Emit, ok: bool)
    requires done.ok && Emitted(a, b, done, true) && Emitted(b, c, part, ok)
    ensures done.Then(part).Then(rest) == done.Then(part.Then(rest))
    ensures if ok then done.Then(part).ok && Emitted(a, c, done.Then(part), true)
            else Emitted(a, c, done.Then(part.Then(rest)), false)
  {
    ThenAssociates(done, part, rest);
    EmittedThen(a, b, c, done, part, ok);
    if !ok { EmittedStops(a, c, done.Then(part), rest); }
  }

  /** What is written so far and the next part are within the whole. */
  lemma Room(a: Snapshot, b: Snapshot, done: Emit, part: Emit, rest: Emit)
    requires done.ok && Emitted(a, b, done, true)
    ensures b.count + |part.bytes| <= a.count + |done.Then(part.Then(rest)).bytes|
  {}

  lemma ItemsUnfold(f: Field, key: Bytes, items: seq<Value>)
    requires items != []
    ensures ItemsEmit(f, key, items) == Written(key).Then(ItemEmit(f, items[0])).Then(ItemsEmit(f, key, items[1..]))
  {}

  /** The size of a packed array. */
  method PackedSize(f: Field, items: seq<Value>) returns (ok: bool, size: nat)
    requires f.lt.Packable() && f.tag <= PB_SIZE_MAX && ItemsWritable(f, items) && WritesPacked(f)
    ensures ok == ItemsEmit(f, [], items).ok
    ensures ok ==> size == |ItemsEmit(f, [], items).bytes|
    decreases f, 5
  {
    if f.lt.LFixed32? {
      FixedSize(f, 4, items);
      return true, 4 * |items|;
    }
    if f.lt.LFixed64? {
      FixedSize(f, 8, items);
      return true, 8 * |items|;
    }
    var sizeStream := new OStream.Sizing();
    ghost var visits;
    ok, visits := EncodeItems(sizeStream, f, items, true, 0);
    size := sizeStream.bytesWritten;
  }

  lemma {:induction false} FixedSize(f: Field, width: nat, items: seq<Value>)
    requires (f.lt.LFixed32? && width == 4) || (f.lt.LFixed64? && width == 8)
    requires forall i :: 0 <= i < |items| ==> ValueWritable(f, items[i])
    ensures ItemsEmit(f, [], items).ok && |ItemsEmit(f, [], items).bytes| == width * |items|
    decreases |items|
  {
    if items != [] { FixedSize(f, width, items[1..]); }
  }

  /** encode_array */
  method EncodeArray(stream: OStream, f: Field, items: seq<Value>, ghost depth: nat)
    returns (ok: bool, ghost visits: multiset<nat>)
    requires stream.Valid() && f.tag <= PB_SIZE_MAX && !f.lt.LExtension? && ItemsWritable(f, items)
    requires stream.bytesWritten + |ArrayEmit(f, items).bytes| <= SIZE_T_MAX
    modifies stream, stream.buffer
    ensures Writes(stream, ArrayEmit(f, items), ok)
    ensures ok ==> visits == ItemsVisits(f, items, !stream.sizing, depth)
    decreases f, 6
  {
    hide ItemVisits, ItemsVisits;
    visits := multiset{};
    ghost var a := stream.Snap();
    EmittedNothing(a);
    if |items| == 0 {
      ItemsVisitsUnfold(f, items, !stream.sizing, depth);
      return true, visits;
    }
    if !f.at.Pointer? && |items| > f.arraySize { return false, visits; }
    if f.lt.Packable() && !PB_ENCODE_ARRAYS_UNPACKED {
      PackableVisits(f, items, !stream.sizing, depth);
      ghost var key, body := Written(KeyBytes(f.tag, WT_STRING)), ItemsEmit(f, [], items);
      Room(a, a, Nothing, key, Prefixed(body));
      ThenNothing(key.Then(Prefixed(body)));
      ok := EncodeTag(stream, WT_STRING, f.tag);
      ghost var b := stream.Snap();
      if !ok {
        EmittedStops(a, b, key, Prefixed(body));
        return;
      }
      var size;
      ok, size := PackedSize(f, items);
      if !ok {
        EmittedNothing(b);
        EmittedThen(a, b, b, key, Failure, false);
        return;
      }
      PrefixedIsThen(body);
      ghost var prefix := Written(Varint.Encode(size));
      EncodedSizeIsShort(size);
      ok := EncodeVarint(stream, size);
      ghost var c := stream.Snap();
      Advance(a, b, c, key, prefix, body, ok);
      if !ok { return; }
      if stream.sizing {
        ok := stream.Write([], size);
        assert Emitted(c, stream.Snap(), body, ok);
      } else {
        ok, visits := EncodeItems(stream, f, items, true, depth);
      }
      EmittedThen(a, c, stream.Snap(), key.Then(prefix), body, ok);
    } else {
      ok, visits := EncodeItems(stream, f, items, false, depth);
    }
  }

  lemma EncodedSizeIsShort(size: nat)
    requires size <= SIZE_T_MAX
    ensures size < Varint.U64
  {}

  // ----- Fields and messages

  /** pb_check_proto3_default_value */
  method CheckDefault(f: Field, c: Cell) returns (isDefault: bool)
    requires FieldWritable(f, c)
    ensures isDefault == IsZero(f, c) && (isDefault <==> OmittedField(f, c))
    decreases f, 0
  {
    OmittedFieldIsZero(f, c);
    if f.ht.Required? {
      return false;
    } else if f.ht.Repeated? {
      if f.sizeOffset != 0 { return |c.items| == 0; }
      return false;
    } else if f.ht.Oneof? {
      return c.which == 0;
    } else if f.sizeOffset != 0 {
      return !c.has;
    }
    if f.at.Pointer? {
      if !f.lt.Packable() { return c.target.None?; }
      isDefault := CheckBytes(c.memory, f.dataSize);
      return;
    }
    match f.lt {
      case LBytes => return |c.v.bytes| == 0;
      case LString => return c.v.chars == [] || c.v.chars[0] == 0;
      case LFixedLengthBytes => return f.dataSize == 0;
      case LSubmessage(sub) => isDefault := CheckAllDefault(sub, c.v.cells);
      case LBool => return !c.v.b;
      case LVarint | LUvarint | LSvarint | LFixed32 | LFixed64 => return c.v.i == 0;
    }
  }

  /** The byte-by-byte comparison at the end of pb_check_proto3_default_value. */
  method CheckBytes(memory: Bytes, dataSize: nat) returns (zero: bool)
    requires dataSize <= |memory|
    ensures zero <==> AllZero(memory, dataSize)
  {
    for i := 0 to dataSize
      invariant forall j :: 0 <= j < i ==> memory[j] == 0
    {
      if memory[i] != 0 { return false; }
    }
    return true;
  }

  /** The loop of pb_check_proto3_default_value over the fields of a submessage. */
  method CheckAllDefault(t: Table, cells: seq<Cell>) returns (isDefault: bool)
    requires Writable(t, cells)
    ensures isDefault <==> forall k :: 0 <= k < |t| ==> IsZero(t[k], cells[Home(t, k)])
    decreases t
  {
    if |t| == 0 { return true; }
    var iter := new FieldIter(t, 0);
    while true
      invariant iter.Valid() && iter.start == t
      invariant forall k :: 0 <= k < iter.pos ==> IsZero(t[k], cells[Home(t, k)])
      decreases |t| - iter.pos
    {
      var zero := CheckDefault(t[iter.pos], cells[Home(t, iter.pos)]);
      if !zero { return false; }
      var more := iter.Next();
      if !more { return true; }
    }
  }

  /** encode_basic_field */
  method EncodeBasicField(stream: OStream, f: Field, c: Cell, ghost depth: nat)
    returns (ok: bool, ghost visits: multiset<nat>)
    requires stream.Valid() && FieldWritable(f, c)
    requires stream.bytesWritten + |FieldEmit(f, c).bytes| <= SIZE_T_MAX
    modifies stream, stream.buffer
    ensures Writes(stream, FieldEmit(f, c), ok)
    ensures ok ==> visits == FieldVisits(f, c, !stream.sizing, depth)
    decreases f, 7
  {
    hide ItemVisits, ItemsVisits, Emitted, ItemEmit, ArrayEmit, IsZero, ValueWritable, ItemsWritable;
    visits := multiset{};
    EmittedNothing(stream.Snap());
    var implicitHas := true;
    if f.sizeOffset == 0 && f.ht.Optional? {
      var isDefault := CheckDefault(f, c);
      implicitHas := !isDefault;
    }
    var value: Option<Value> := None;
    if f.at.Pointer? && !f.ht.Repeated? && !f.ht.Oneof? {
      // The pointer decides.
      value := c.target;
      implicitHas := value.Some?;
    } else if c.Plain? || c.Has? || c.Union? {
      value := Some(c.v);
    }
    match f.ht {
      case Required =>
        if value.None? { return false, visits; }
        ok, visits := EncodeSingle(stream, f, value.value, depth);
      case Optional =>
        if (if f.sizeOffset != 0 then c.has else implicitHas) {
          ok, visits := EncodeSingle(stream, f, value.value, depth);
        } else {
          ok := true;
        }
      case Repeated =>
        ok, visits := EncodeArray(stream, f, c.items, depth);
      case Oneof =>
        if c.which == f.tag {
          ok, visits := EncodeSingle(stream, f, c.v, depth);
        } else {
          ok := true;
        }
    }
  }

  method EncodeSingle(stream: OStream, f: Field, v: Value, ghost depth: nat)
    returns (ok: bool, ghost visits: multiset<nat>)
    requires stream.Valid() && f.tag <= PB_SIZE_MAX && ValueWritable(f, v)
    requires stream.bytesWritten + |SingleEmit(f, v).bytes| <= SIZE_T_MAX
    modifies stream, stream.buffer
    ensures Writes(stream, SingleEmit(f, v), ok)
    ensures ok ==> visits == ItemVisits(f, v, !stream.sizing, depth)
    decreases f, 2
  {
    hide ItemVisits;
    visits := multiset{};
    ghost var a := stream.Snap();
    ok := EncodeTagForField(stream, f);
    ghost var b := stream.Snap();
    if !ok {
      EmittedStops(a, b, Written(FieldKey(f)), ItemEmit(f, v));
      return;
    }
    ok, visits := EncodeItem(stream, f, v, depth);
    EmittedThen(a, b, stream.Snap(), Written(FieldKey(f)), ItemEmit(f, v), ok);
  }

  /** pb_encode */
  method EncodeMessage(stream: OStream, t: Table, cells: seq<Cell>, ghost depth: nat)
    returns (ok: bool, ghost visits: multiset<nat>)
    requires stream.Valid() && |cells| == |t| && Writable(t, cells)
    requires stream.bytesWritten + |MessageEmit(t, cells, 0).bytes| <= SIZE_T_MAX
    modifies stream, stream.buffer
    ensures Writes(stream, MessageEmit(t, cells, 0), ok)
    ensures ok ==> visits == MessageVisits(t, cells, 0, !stream.sizing, depth)
    decreases t, 0
  {
    hide FieldVisits, MessageVisits, Emitted, FieldEmit, MessageEmit, Writable, FieldWritable, Home, WrittenUpTo;
    visits := multiset{};
    ghost var inside, done := multiset{}, Nothing;
    ghost var a := stream.Snap();
    NothingWritten(t, cells, a);
    NothingVisited(t, cells, !stream.sizing, depth);
    if |t| == 0 { return true, visits; }
    var iter := new FieldIter(t, 0);
    while true
      invariant iter.Valid() && iter.start == t && fresh(iter) && stream.Valid()
      invariant WrittenUpTo(t, cells, iter.pos, a, stream.Snap(), done)
      invariant visits + MessageVisits(t, cells, iter.pos, !stream.sizing, depth)
             == MessageVisits(t, cells, 0, !stream.sizing, depth)
      decreases |t| - iter.pos
    {
      ghost var k, b := iter.pos, stream.Snap();
      WritableAt(t, cells, k);
      RoomForField(t, cells, k, a, b, done);
      ok, inside := EncodeBasicField(stream, t[iter.pos], cells[Home(t, iter.pos)], depth);
      FieldWritten(t, cells, k, a, b, stream.Snap(), done, ok);
      if !ok { return; }
      FieldVisited(t, cells, k, !stream.sizing, depth);
      visits := visits + inside;
      done := done.Then(FieldEmit(t[k], cells[Home(t, k)]));
      var more := iter.Next();
      if !more { break; }
    }
    return true, visits;
  }

  /** The fields before `k` have been written between `a` and `b`; they make up `done`. */
  ghost predicate WrittenUpTo(t: Table, cells: seq<Cell>, k: nat, a: Snapshot, b: Snapshot, done: Emit)
    requires |cells| == |t| && k <= |t|
  {
    done.ok && done.Then(MessageEmit(t, cells, k)) == MessageEmit(t, cells, 0) && Emitted(a, b, done, true)
  }

  lemma NothingWritten(t: Table, cells: seq<Cell>, a: Snapshot)
    requires |cells| == |t| && (!a.sizing ==> a.count <= a.max)
    ensures WrittenUpTo(t, cells, 0, a, a, Nothing)
    ensures t == [] ==> Emitted(a, a, MessageEmit(t, cells, 0), true)
  {
    hide Emitted;
    ThenNothing(MessageEmit(t, cells, 0));
    EmittedNothing(a);
  }

  lemma RoomForField(t: Table, cells: seq<Cell>, k: nat, a: Snapshot, b: Snapshot, done: Emit)
    requires |cells| == |t| && k < |t| && WrittenUpTo(t, cells, k, a, b, done)
    ensures b.count + |FieldEmit(t[k], cells[Home(t, k)]).bytes| <= a.count + |MessageEmit(t, cells, 0).bytes|
  {
    hide Emitted, FieldEmit, Home;
    Room(a, b, done, FieldEmit(t[k], cells[Home(t, k)]), MessageEmit(t, cells, k + 1));
  }

  /** One more field: either it is written, or the whole message fails here. */
  lemma FieldWritten(t: Table, cells: seq<Cell>, k: nat, a: Snapshot, b: Snapshot, c: Snapshot, done: Emit, ok: bool)
    requires |cells| == |t| && k < |t| && WrittenUpTo(t, cells, k, a, b, done)
    requires Emitted(b, c, FieldEmit(t[k], cells[Home(t, k)]), ok)
    ensures var more := done.Then(FieldEmit(t[k], cells[Home(t, k)]));
            && (if ok then WrittenUpTo(t, cells, k + 1, a, c, more) else Emitted(a, c, MessageEmit(t, cells, 0), false))
            && (ok && k + 1 == |t| ==> Emitted(a, c, MessageEmit(t, cells, 0), true))
  {
    hide Emitted, FieldEmit, Home;
    var part := FieldEmit(t[k], cells[Home(t, k)]);
    Advance(a, b, c, done, part, MessageEmit(t, cells, k + 1), ok);
    ThenNothing(done.Then(part));
  }

  lemma NothingVisited(t: Table, cells: seq<Cell>, write: bool, depth: nat)
    requires |cells| == |t|
    ensures MessageVisits(t, cells, |t|, write, depth) == multiset{}
  {}

  lemma FieldVisited(t: Table, cells: seq<Cell>, k: nat, write: bool, depth: nat)
    requires |cells| == |t| && k < |t|
    ensures MessageVisits(t, cells, k, write, depth)
         == FieldVisits(t[k], cells[Home(t, k)], write, depth) + MessageVisits(t, cells, k + 1, write, depth)
    ensures k + 1 == |t| ==> MessageVisits(t, cells, k + 1, write, depth) == multiset{}
  {
    hide FieldVisits, Home;
  }

  lemma WritableAt(t: Table, cells: seq<Cell>, k: nat)
    requires Writable(t, cells) && k < |t|
    ensures FieldWritable(t[k], cells[Home(t, k)])
  {}

  /** pb_encode at the top: what it writes, and how often it enters the submessages. */
  method EncodeTop(stream: OStream, t: Table, cells: seq<Cell>) returns (ok: bool, ghost visits: multiset<nat>)
    requires stream.Valid() && Writable(t, cells)
    requires stream.bytesWritten + |Encoding(t, cells).bytes| <= SIZE_T_MAX
    modifies stream, stream.buffer
    ensures Writes(stream, Encoding(t, cells), ok)
    ensures ok && !stream.sizing ==> forall d: nat :: d > 0 ==> visits[d] == (d + 1) * Submessages(t, cells)[d]
    ensures ok && stream.sizing ==> visits == Submessages(t, cells)
  {
    ok, visits := EncodeMessage(stream, t, cells, 0);
    forall d: nat | d > 0 ensures MessageVisits(t, cells, 0, true, 0)[d] == (d + 1) * Submessages(t, cells)[d] {
      VisitsByDepth(t, cells, d);
    }
  }

  /** pb_encode_delimited */
  method EncodeDelimited(stream: OStream, t: Table, cells: seq<Cell>) returns (ok: bool)
    requires stream.Valid() && Writable(t, cells) && |Encoding(t, cells).bytes| <= SIZE_T_MAX
    requires stream.bytesWritten + |Prefixed(Encoding(t, cells)).bytes| <= SIZE_T_MAX
    modifies stream, stream.buffer
    ensures Writes(stream, Prefixed(Encoding(t, cells)), ok)
  {
    ghost var visits;
    ok, visits := EncodeSubmessage(stream, t, cells, 0);
  }

  /** pb_encode_nullterminated */
  method EncodeNullTerminated(stream: OStream, t: Table, cells: seq<Cell>) returns (ok: bool)
    requires stream.Valid() && Writable(t, cells)
    requires stream.bytesWritten + |Encoding(t, cells).Then(Written([0])).bytes| <= SIZE_T_MAX
    modifies stream, stream.buffer
    ensures Writes(stream, Encoding(t, cells).Then(Written([0])), ok)
  {
    ghost var a := stream.Snap();
    ghost var visits;
    ok, visits := EncodeTop(stream, t, cells);
    ghost var b := stream.Snap();
    if !ok {
      EmittedStops(a, b, Encoding(t, cells), Written([0]));
      return;
    }
    ok := stream.Write([0], 1);
    EmittedWrite(b, stream.Snap(), [0], ok);
    EmittedThen(a, b, stream.Snap(), Encoding(t, cells), Written([0]), ok);
  }

  /** pb_get_encoded_size: the sizing pass counts exactly the bytes a real encode writes. */
  method GetEncodedSize(t: Table, cells: seq<Cell>) returns (ok: bool, size: nat)
    requires Writable(t, cells) && |Encoding(t, cells).bytes| <= SIZE_T_MAX
    ensures ok == Encoding(t, cells).ok
    ensures ok ==> size == |Encoding(t, cells).bytes|
  {
    var stream := new OStream.Sizing();
    ghost var visits;
    ok, visits := EncodeMessage(stream, t, cells, 0);
    size := stream.bytesWritten;
  }

  /** pb_get_encoded_size, then pb_encode into a fresh buffer: a message whose sizing pass succeeds is written
      exactly when its size is within the capacity; what has been written is always a prefix of the
      encoding that stays within the capacity. */
  method EncodeToBuffer(t: Table, cells: seq<Cell>, capacity: nat)
    returns (sized: bool, size: nat, ok: bool, written: Bytes)
    requires Writable(t, cells) && |Encoding(t, cells).bytes| <= SIZE_T_MAX && capacity <= SIZE_T_MAX
    ensures sized ==> (ok <==> size <= capacity)
    ensures !sized ==> !ok
    ensures |written| <= capacity && written <= Encoding(t, cells).bytes
    ensures ok ==> |written| == size && written == Encoding(t, cells).bytes
  {
    hide Emitted;
    sized, size := GetEncodedSize(t, cells);
    var buffer := new Byte[capacity];
    var stream := new OStream.FromBuffer(buffer);
    ghost var visits;
    ok, visits := EncodeTop(stream, t, cells);
    FreshBuffer(capacity, stream.Snap(), Encoding(t, cells), ok);
    written := buffer[..stream.state];
  }

  /** What has been written to a fresh buffer. */
  lemma FreshBuffer(capacity: nat, after: Snapshot, e: Emit, ok: bool)
    requires Emitted(Snapshot(false, [], 0, capacity), after, e, ok)
    ensures ok <==> e.ok && |e.bytes| <= capacity
    ensures after.count <= |e.bytes| && after.written == e.bytes[..after.count] && (ok ==> after.written == e.bytes)
    ensures |after.written| == after.count
  {
    assert [] + e.bytes[..after.count] == e.bytes[..after.count];
    if ok { assert e.bytes[..|e.bytes|] == e.bytes; }
  }
}
