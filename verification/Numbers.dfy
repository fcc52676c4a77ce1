/** What each scalar type accepts from the wire and puts on it, with all bounds written out
    (pb_encode.c:769-899, pb_decode.c:1262-1548). */
module Numbers {
  import opened Wrappers
  import opened Config
  import opened Message
  import opened Wire
  import opened Decode
  import opened Encode
  import opened WellFormed
  import opened Chunks
  import Varint

  // ----- Ranges

  /** What an unsigned integer of `size` bytes holds. */
  predicate Unsigned(size: nat, i: int) {
    || (size == 1 && 0 <= i <= 255)
    || (size == 2 && 0 <= i <= 65535)
    || (size == 4 && 0 <= i <= 4294967295)
    || (size == 8 && 0 <= i <= 18446744073709551615)
  }

  /** What a signed integer of `size` bytes holds. */
  predicate Signed(size: nat, i: int) {
    || (size == 1 && -128 <= i <= 127)
    || (size == 2 && -32768 <= i <= 32767)
    || (size == 4 && -2147483648 <= i <= 2147483647)
    || (size == 8 && -9223372036854775808 <= i <= 9223372036854775807)
  }

  /** A pattern of 32 bits as a signed number. */
  function AsInt32(v: nat): int {
    var low := v % 4294967296;
    if low <= 2147483647 then low else low - 4294967296
  }

  /** A pattern of 64 bits as a signed number. */
  function AsInt64(v: nat): int
    requires v <= 18446744073709551615
  {
    if v <= 9223372036854775807 then v else v - 18446744073709551616
  }

  predicate Wide(f: Field) {
    f.dataSize == 1 || f.dataSize == 2 || f.dataSize == 4 || f.dataSize == 8
  }

  // ----- Decoding integers

  /** An unsigned field takes exactly the numbers that its width holds, and as they are. */
  lemma DecodeUnsigned(f: Field, prior: Value, p: Bytes, v: nat)
    requires f.lt.LUvarint? && Wide(f) && Varint.Value64(p) == Some(v)
    ensures Item(f, prior, p) == if Unsigned(f.dataSize, v) then Some(VInt(v)) else None
  {
    Value64IsWide(p);
    if Unsigned(f.dataSize, v) { Fits(v, Modulus(f.dataSize)); }
  }

  lemma Value64IsWide(p: Bytes)
    requires Varint.Value64(p).Some?
    ensures Varint.Value64(p).value <= 18446744073709551615
  {}

  /** A zigzag field takes exactly the numbers that its width holds: even patterns are the non-negative ones. */
  lemma DecodeZigZag(f: Field, prior: Value, p: Bytes, v: nat)
    requires f.lt.LSvarint? && Wide(f) && Varint.Value64(p) == Some(v)
    ensures var i: int := if v % 2 == 0 then v / 2 else -((v + 1) / 2);
            Item(f, prior, p) == if Signed(f.dataSize, i) then Some(VInt(i)) else None
  {
    Value64IsWide(p);
    var i: int := if v % 2 == 0 then v / 2 else -((v + 1) / 2);
    assert UnZigZag(v) == i;
    SignedFits(i, f.dataSize);
  }

  /** A signed number survives the cast to its width exactly when the width holds it. */
  lemma SignedFits(i: int, size: nat)
    requires -9223372036854775808 <= i <= 9223372036854775807
    requires size == 1 || size == 2 || size == 4 || size == 8
    ensures ToSigned(i, size) == i <==> Signed(size, i)
  {
    if Signed(size, i) && i < 0 { NegativeFits(i, size); }
    if Signed(size, i) && i >= 0 { Fits(i, Modulus(size)); }
  }

  lemma NegativeFits(i: int, size: nat)
    requires Signed(size, i) && i < 0
    ensures i % Modulus(size) == i + Modulus(size)
  {
    if size == 1 { Negative8(i); }
    if size == 2 { Negative16(i); }
    if size == 4 { Negative32(i); }
    if size == 8 { Negative64(i); }
  }

  lemma Negative8(i: int)
    requires -128 <= i < 0
    ensures i % 256 == i + 256
  {}

  lemma Negative16(i: int)
    requires -32768 <= i < 0
    ensures i % 65536 == i + 65536
  {}

  lemma Negative32(i: int)
    requires -2147483648 <= i < 0
    ensures i % 4294967296 == i + 4294967296
  {}

  lemma Negative64(i: int)
    requires -9223372036854775808 <= i < 0
    ensures i % 18446744073709551616 == i + 18446744073709551616
  {}

  /** A plain signed field of 8 bytes takes every number.  A narrower one looks at the low 32 bits only, and takes
      them if its width holds the number they stand for. */
  lemma DecodeSigned(f: Field, prior: Value, p: Bytes, v: nat)
    requires f.lt.LVarint? && Wide(f) && Varint.Value64(p) == Some(v)
    ensures f.dataSize == 8 ==> Item(f, prior, p) == Some(VInt(AsInt64(v)))
    ensures f.dataSize < 8 ==>
              Item(f, prior, p) == if Signed(f.dataSize, AsInt32(v)) then Some(VInt(AsInt32(v))) else None
  {
    Value64IsWide(p);
    if f.dataSize == 8 {
      Fits(v, Varint.U64);
      SignedFits(AsInt64(v), 8);
    } else {
      SignedFits(AsInt32(v), f.dataSize);
    }
  }

  /** No other width is accepted, on either side. */
  lemma OddWidth(f: Field, prior: Value, p: Bytes, i: int)
    requires (f.lt.LUvarint? || f.lt.LVarint? || f.lt.LSvarint?) && !Wide(f)
    ensures Item(f, prior, p) == None && ItemEmit(f, VInt(i)) == Failure
  {}

  // ----- Encoding integers

  /** Unsigned numbers are varints of themselves, signed ones of their 64-bit pattern, and zigzag maps 0, -1, 1, -2 to
      0, 1, 2, 3 and so on. */
  lemma EncodeIntegers(f: Field, i: int)
    requires Wide(f)
    ensures f.lt.LUvarint? && Unsigned(8, i) ==> ItemEmit(f, VInt(i)) == Written(Varint.Encode(i))
    ensures f.lt.LVarint? && Signed(8, i) ==>
              ItemEmit(f, VInt(i)) == Written(Varint.Encode(if i >= 0 then i else i + 18446744073709551616))
    ensures f.lt.LSvarint? && Signed(8, i) ==>
              ItemEmit(f, VInt(i)) == Written(Varint.Encode(if i >= 0 then 2 * i else -2 * i - 1))
  {
    hide Varint.Encode;
    if Unsigned(8, i) { Fits(i, Varint.U64); }
    if Signed(8, i) {
      Pattern64(i);
      Doubled(i);
    }
  }

  lemma Pattern64(i: int)
    requires Signed(8, i)
    ensures i % 18446744073709551616 == if i >= 0 then i else i + 18446744073709551616
  {
    if i < 0 { Negative64(i); } else { Fits(i, 18446744073709551616); }
  }

  lemma Doubled(i: int)
    requires Signed(8, i)
    ensures ZigZag(i) == if i >= 0 then 2 * i else -2 * i - 1
  {
    var m := 18446744073709551616;
    if i >= 0 { Fits(2 * i, m); } else { Below(2 * i); }
  }

  lemma Below(j: int)
    requires -18446744073709551616 <= j < 0
    ensures j % 18446744073709551616 == j + 18446744073709551616
  {}

  /** The values that make a field well formed are exactly those its C type holds. */
  lemma WellFormedIntegers(f: Field, i: int)
    requires Wide(f)
    ensures f.lt.LUvarint? ==> (ValueOk(f, VInt(i)) <==> Unsigned(f.dataSize, i))
    ensures f.lt.LVarint? || f.lt.LSvarint? ==> (ValueOk(f, VInt(i)) <==> Signed(f.dataSize, i))
    ensures f.lt.LFixed32? ==> (ValueOk(f, VInt(i)) <==> 0 <= i <= 4294967295)
    ensures f.lt.LFixed64? ==> (ValueOk(f, VInt(i)) <==> 0 <= i <= 18446744073709551615)
  {
    if Signed(8, i) {
      SignedFits(i, f.dataSize);
    } else {
      assert ToSigned(i, f.dataSize) != i;
    }
  }

  // ----- Other scalars

  /** A bool is true for every 32-bit varint but zero, and is written as 1 or 0. */
  lemma Bools(f: Field, prior: Value, v: nat, b: bool)
    requires f.lt.LBool? && v <= 4294967295
    ensures Item(f, prior, Varint.Encode(v)) == Some(VBool(v > 0))
    ensures ItemEmit(f, VBool(b)) == Written(if b then [1] else [0])
  {
    Varint.Decode32Ranges(v);
    VarintItem(v);
  }

  /** Fixed-size numbers are little-endian. */
  lemma Fixed(f: Field, g: Field, prior: Value, a: Byte, b: Byte, c: Byte, d: Byte, p: Bytes)
    requires f.lt.LFixed32? && g.lt.LFixed64? && |p| == 4
    ensures Item(f, prior, [a, b, c, d]) == Some(VInt(a + 256 * b + 65536 * c + 16777216 * d))
    ensures Item(g, prior, p + [a, b, c, d])
            == Some(VInt(p[0] + 256 * p[1] + 65536 * p[2] + 16777216 * p[3]
                         + 4294967296 * (a + 256 * b + 65536 * c + 16777216 * d)))
    ensures ItemEmit(f, VInt(a + 256 * b + 65536 * c + 16777216 * d)) == Written([a, b, c, d])
  {
    FourBytes(a, b, c, d);
    var q := p + [a, b, c, d];
    assert p[..] == [p[0], p[1], p[2], p[3]];
    EightBytes(q);
    assert q[4..] == [a, b, c, d];
    FourDigits(a, b, c, d);
  }

  lemma FourBytes(a: Byte, b: Byte, c: Byte, d: Byte)
    ensures Number([a, b, c, d]) == a + 256 * b + 65536 * c + 16777216 * d
  {
    assert [a, b, c, d][1..] == [b, c, d] && [b, c, d][1..] == [c, d] && [c, d][1..] == [d];
    assert Number([d][1..]) == 0;
    assert Number([d]) == d && Number([c, d]) == c + 256 * d && Number([b, c, d]) == b + 256 * (c + 256 * d);
  }

  lemma EightBytes(q: Bytes)
    requires |q| == 8
    ensures Number(q) == q[0] + 256 * q[1] + 65536 * q[2] + 16777216 * q[3] + 4294967296 * Number(q[4..])
  {
    assert q[1..][1..] == q[2..] && q[2..][1..] == q[3..] && q[3..][1..] == q[4..];
    assert Number(q) == q[0] + 256 * Number(q[1..]) && Number(q[1..]) == q[1] + 256 * Number(q[2..]);
    assert Number(q[2..]) == q[2] + 256 * Number(q[3..]) && Number(q[3..]) == q[3] + 256 * Number(q[4..]);
  }

  lemma FourDigits(a: Byte, b: Byte, c: Byte, d: Byte)
    ensures var v := a + 256 * b + 65536 * c + 16777216 * d;
            v % 4294967296 == v && NumberBytes(v, 4) == [a, b, c, d]
  {
    var v := a + 256 * b + 65536 * c + 16777216 * d;
    assert v / 256 == b + 256 * c + 65536 * d && v / 256 / 256 == c + 256 * d && v / 256 / 256 / 256 == d;
    assert NumberBytes(d, 1) == [d] by { assert NumberBytes(d / 256, 0) == []; }
    assert NumberBytes(c + 256 * d, 2) == [c] + [d];
    assert NumberBytes(b + 256 * c + 65536 * d, 3) == [b] + ([c] + [d]);
  }

  /** A byte string is stored exactly when it fits behind its count, a string when it fits with its terminator, and
      a byte string of fixed length when it has that length or is empty, which stands for zeros. */
  lemma DecodeSized(f: Field, prior: Value, body: Bytes)
    requires f.dataSize <= PB_SIZE_MAX && |body| < 4294967296
    ensures f.lt.LBytes? ==>
              Item(f, prior, Delimit(body)) == if |body| + BytesHeader() <= f.dataSize then Some(VBytes(body)) else None
    ensures f.lt.LString? ==>
              Item(f, prior, Delimit(body)) == if |body| + 1 <= f.dataSize then Some(VString(body)) else None
    ensures f.lt.LFixedLengthBytes? ==>
              Item(f, prior, Delimit(body)) ==
              if |body| == f.dataSize then Some(VBytes(body))
              else if |body| == 0 then Some(VBytes(seq(f.dataSize, _ => 0)))
              else None
  {
    hide Body, Extent, Delimit, BodyItem, BytesHeader;
    BodyOfDelimit(body);
    if f.lt.LBytes? { BytesBody(f, prior, body); }
    if f.lt.LString? { StringBody(f, prior, body); }
    if f.lt.LFixedLengthBytes? { FixedBody(f, prior, body); }
  }

  /** A size and a little more, as a size_t holds it. */
  lemma Wrapped(n: nat, more: nat, m: nat)
    requires n < m && more < m
    ensures (n + more) % m == if n + more < m then n + more else n + more - m
  {}

  lemma BytesBody(f: Field, prior: Value, body: Bytes)
    requires f.lt.LBytes? && f.dataSize <= PB_SIZE_MAX && |body| < 4294967296
    ensures BodyItem(f, prior, body) == if |body| + BytesHeader() <= f.dataSize then Some(VBytes(body)) else None
  {
    Wrapped(|body|, BytesHeader(), SIZE_T_MAX + 1);
  }

  lemma StringBody(f: Field, prior: Value, body: Bytes)
    requires f.lt.LString? && f.dataSize <= PB_SIZE_MAX && |body| < 4294967296
    ensures BodyItem(f, prior, body) == if |body| + 1 <= f.dataSize then Some(VString(body)) else None
  {
    Wrapped(|body|, 1, Varint.U32);
  }

  lemma FixedBody(f: Field, prior: Value, body: Bytes)
    requires f.lt.LFixedLengthBytes? && f.dataSize <= PB_SIZE_MAX
    ensures BodyItem(f, prior, body) ==
            if |body| == f.dataSize then Some(VBytes(body))
            else if |body| == 0 then Some(VBytes(seq(f.dataSize, _ => 0)))
            else None
  {
    assert Zeros(f.dataSize) == seq(f.dataSize, _ => 0);
    if body == [] && f.dataSize == 0 { assert Zeros(0) == body; }
  }

  /** The count in front of a byte string has the width of a pb_size_t. */
  lemma HeaderIsCount()
    ensures PB_SIZE_MAX + 1 == if BytesHeader() == 1 then 256 else if BytesHeader() == 2 then 65536 else 4294967296
    ensures BytesHeader() == 1 || BytesHeader() == 2 || BytesHeader() == 4
  {}

  /** A byte string is written exactly when it fits its field. */
  lemma EncodeBytes(f: Field, bytes: Bytes)
    requires f.lt.LBytes? && f.at.Static? && f.dataSize <= PB_SIZE_MAX && |bytes| <= PB_SIZE_MAX
    ensures ItemEmit(f, VBytes(bytes)) ==
            if |bytes| + BytesHeader() <= f.dataSize then Written(Delimit(bytes)) else Failure
  {
    hide Delimit;
    Wrapped(|bytes|, BytesHeader(), SIZE_T_MAX + 1);
  }

  /** A string ends at its first NUL, whatever is behind it. */
  lemma EncodeString(f: Field, chars: Bytes, rest: Bytes)
    requires f.lt.LString? && f.at.Static? && |chars| < f.dataSize
    requires forall j :: 0 <= j < |chars| ==> chars[j] != 0
    ensures ItemEmit(f, VString(chars)) == Written(Delimit(chars))
    ensures ItemEmit(f, VString(chars + [0] + rest)) == Written(Delimit(chars))
  {
    WholeString(chars, f.dataSize);
    CutString(chars, rest, f.dataSize);
    assert chars[..|chars|] == chars && (chars + [0] + rest)[..|chars|] == chars;
  }

  lemma {:induction false} CutString(chars: Bytes, rest: Bytes, max: nat)
    requires |chars| < max && forall j :: 0 <= j < |chars| ==> chars[j] != 0
    ensures StrLen(chars + [0] + rest, max) == |chars|
  {
    if chars != [] {
      assert (chars + [0] + rest)[1..] == chars[1..] + [0] + rest;
      CutString(chars[1..], rest, max - 1);
    }
  }
}
