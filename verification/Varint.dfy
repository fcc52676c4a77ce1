/** Base 128 varints: the encoding, its positional value, and the two decoders of
    pb_decode.c, which agree only on some inputs. */
module Varint {
  import opened Wrappers
  import opened Bits

  type Byte = x: nat | x < 256
  type Bytes = seq<Byte>

  const U31 := 0x8000_0000
  const U32 := 0x1_0000_0000
  const U63 := 0x8000_0000_0000_0000
  const U64 := 0x1_0000_0000_0000_0000


  /** The canonical encoding: 7-bit groups, least significant first, all but the last with
      the top bit set. */
  function Encode(v: nat): (p: Bytes)
    ensures |p| > 0
  {
    if v < 128 then [v] else [v % 128 + 128] + Encode(v / 128)
  }

  /** `p` is one whole varint: only its last byte has the top bit clear. */
  predicate IsVarint(p: Bytes) {
    |p| > 0 && if p[0] >= 128 then IsVarint(p[1..]) else |p| == 1
  }

  /** The positional value of the 7-bit groups of `p`. */
  function Value(p: Bytes): nat {
    if p == [] then 0 else p[0] % 128 + 128 * Value(p[1..])
  }

  /** The number of bytes up to the first one with the top bit clear. */
  function Length(s: Bytes): (n: Option<nat>)
    ensures n.Some? ==> 0 < n.value <= |s| && IsVarint(s[..n.value])
  {
    if s == [] then None
    else if s[0] < 128 then Some(1)
    else
      var r := Length(s[1..]);
      if r.None? then None
      else
        assert s[..r.value + 1][1..] == s[1..][..r.value];
        Some(r.value + 1)
  }

  /** What pb_decode_varint makes of the varint `p`: an eleventh byte is an overflow. */
  function Value64(p: Bytes): Option<nat> {
    if |p| > 10 then None else Some(Value(p) % U64)
  }

  /** What pb_decode_varint32 makes of the varint `p`. */
  function Value32(p: Bytes): Option<nat>
    requires IsVarint(p)
  {
    if |p| == 1 then Some(p[0]) else Loop32(p, 1, 7, p[0] % 128)
  }

  /** The multibyte loop of pb_decode_varint32_eof at byte `i`; `bitpos` is an 8-bit counter. */
  function Loop32(p: Bytes, i: nat, bitpos: nat, result: nat): Option<nat>
    requires i < |p|
    decreases |p| - i
  {
    var r := Accept32(p[i], bitpos, result);
    if r.None? then None
    else if i + 1 < |p| then Loop32(p, i + 1, (bitpos + 7) % 256, r.value)
    else if (bitpos + 7) % 256 == 35 && (p[i] / 16) % 8 != 0 then None
    else r
  }

  function Accept32(b: Byte, bitpos: nat, result: nat): Option<nat> {
    if bitpos >= 32 then
      var signExtension := if bitpos < 63 then 0xFF else 0x01;
      if b % 128 != 0 && (result / U31 == 0 || b != signExtension) then None else Some(result)
    else
      Some(BitOr(result, Shl(b % 128, bitpos) % U32))
  }

  // ----- The encoding and the positional value

  /** The encoding is one varint and denotes the number encoded. */
  lemma {:induction false} EncodeIsVarint(v: nat)
    ensures IsVarint(Encode(v)) && Value(Encode(v)) == v
  {
    if v >= 128 { EncodeIsVarint(v / 128); }
  }

  /** A 64-bit number takes at most ten bytes. */
  lemma EncodeLength(v: nat)
    requires v < U64
    ensures |Encode(v)| <= 10
  {
    ShlValues(1);
    EncodeBound(v, 9);
  }

  lemma {:induction false} EncodeBound(v: nat, n: nat)
    requires v < Pow2(7 * n + 7)
    ensures |Encode(v)| <= n + 1
  {
    Shl7(1, 7 * n);
    if n == 0 {
      assert Shl(1, 7) == 128;
    } else if v >= 128 {
      assert v / 128 < Pow2(7 * n);
      EncodeBound(v / 128, n - 1);
    }
  }

  lemma Shl7(x: nat, k: nat)
    ensures Shl(x, k + 7) == 128 * Shl(x, k)
  {
    assert Shl(x, k + 1) == 2 * Shl(x, k);
    assert Shl(x, k + 2) == 2 * Shl(x, k + 1);
    assert Shl(x, k + 3) == 2 * Shl(x, k + 2);
    assert Shl(x, k + 4) == 2 * Shl(x, k + 3);
    assert Shl(x, k + 5) == 2 * Shl(x, k + 4);
    assert Shl(x, k + 6) == 2 * Shl(x, k + 5);
    assert Shl(x, k + 7) == 2 * Shl(x, k + 6);
  }

  /** Whatever follows a varint, its length is found. */
  lemma {:induction false} LengthOfPrefix(p: Bytes, rest: Bytes)
    requires IsVarint(p)
    ensures Length(p + rest) == Some(|p|)
  {
    assert (p + rest)[0] == p[0];
    if p[0] >= 128 {
      assert (p + rest)[1..] == p[1..] + rest;
      LengthOfPrefix(p[1..], rest);
    }
  }

  /** pb_decode_varint inverts pb_encode_varint on all of uint64, whatever bytes follow. */
  lemma Decode64InvertsEncode(v: nat, rest: Bytes)
    requires v < U64
    ensures |Encode(v)| <= 10
    ensures Length(Encode(v) + rest) == Some(|Encode(v)|)
    ensures Value64(Encode(v)) == Some(v)
  {
    EncodeLength(v);
    EncodeIsVarint(v);
    LengthOfPrefix(Encode(v), rest);
  }

  // ----- The loops compute the positional value

  lemma {:induction false} ValueSnoc(p: Bytes, b: Byte)
    ensures Value(p + [b]) == Value(p) + Shl(b % 128, 7 * |p|)
  {
    if p == [] {
      assert p + [b] == [b];
      assert Value([b][1..]) == 0;
    } else {
      assert (p + [b])[1..] == p[1..] + [b];
      ValueSnoc(p[1..], b);
      Shl7(b % 128, 7 * (|p| - 1));
    }
  }

  lemma {:induction false} ValueBelow(p: Bytes)
    ensures Value(p) < Pow2(7 * |p|)
  {
    if p != [] {
      ValueBelow(p[1..]);
      Shl7(1, 7 * (|p| - 1));
    }
  }

  /** The shifts that occur in the decoders, as products. */
  lemma ShlValues(x: nat)
    ensures Shl(x, 7) == 0x80 * x && Shl(x, 14) == 0x4000 * x && Shl(x, 21) == 0x20_0000 * x
    ensures Shl(x, 28) == 0x1000_0000 * x && Shl(x, 32) == U32 * x && Shl(x, 35) == 0x8_0000_0000 * x
    ensures Shl(x, 63) == U63 * x && Shl(x, 70) == 0x40_0000_0000_0000_0000 * x
  {
    Shl7(x, 0); Shl7(x, 7); Shl7(x, 14); Shl7(x, 21); Shl7(x, 28);
    Shl7(x, 35); Shl7(x, 42); Shl7(x, 49); Shl7(x, 56); Shl7(x, 63);
    assert Shl(x, 29) == 2 * Shl(x, 28);
    assert Shl(x, 30) == 2 * Shl(x, 29);
    assert Shl(x, 31) == 2 * Shl(x, 30);
    assert Shl(x, 32) == 2 * Shl(x, 31);
  }

  lemma Shl25(x: nat)
    ensures Shl(x, 25) == 0x200_0000 * x
  {
    ShlValues(x);
    assert Shl(x, 22) == 2 * Shl(x, 21);
    assert Shl(x, 23) == 2 * Shl(x, 22);
    assert Shl(x, 24) == 2 * Shl(x, 23);
    assert Shl(x, 25) == 2 * Shl(x, 24);
  }

  /** A shift by at least 32 leaves nothing in the low 32 bits. */
  lemma {:induction false} ShlClears32(x: nat, k: nat)
    requires k >= 32
    ensures Shl(x, k) % U32 == 0
  {
    if k == 32 {
      ShlValues(x);
      Multiple(x);
    } else {
      ShlClears32(x, k - 1);
      DoubledMultiple(Shl(x, k - 1));
    }
  }

  lemma Multiple(x: nat)
    ensures (U32 * x) % U32 == 0
  {}

  lemma DoubledMultiple(m: nat)
    requires m % U32 == 0
    ensures (2 * m) % U32 == 0
  {}

  /** One or-step of the 32-bit loop adds the next group, modulo 2^32. */
  lemma Or32(p: Bytes, b: Byte, v: nat, x: nat, k: nat)
    requires 1 <= |p| <= 4
    requires v == Value(p) && x == b % 128 && k == 7 * |p|
    ensures v < 0x1000_0000
    ensures BitOr(v, Shl(x, k) % U32) == Value(p + [b]) % U32
  {
    ValueSnoc(p, b);
    ValueBelow(p);
    Within28(k);
    if |p| < 4 {
      ValueBelow(p + [b]);
      Within28(k + 7);
      OrEarly(v, x, k);
    } else {
      OrFifth(v, x, k);
    }
  }

  lemma OrEarly(v: nat, x: nat, k: nat)
    requires v < Pow2(k) && v + Shl(x, k) < U32
    ensures BitOr(v, Shl(x, k) % U32) == (v + Shl(x, k)) % U32
  {
    OrOfDisjoint(v, x, k);
    var m := Shl(x, k);
    assert m % U32 == m;
  }

  lemma OrFifth(v: nat, x: nat, k: nat)
    requires v < 0x1000_0000 && x < 128 && k == 28
    ensures BitOr(v, Shl(x, k) % U32) == (v + Shl(x, k)) % U32
  {
    FifthGroup(v, x);
    ShlValues(1);
    ShlValues(x);
    ShlValues(x % 16);
    OrOfDisjoint(v, x % 16, k);
  }

  lemma FifthGroup(v: nat, x: nat)
    requires v < 0x1000_0000 && x < 128
    ensures (0x1000_0000 * x) % U32 == 0x1000_0000 * (x % 16)
    ensures (v + 0x1000_0000 * x) % U32 == v + 0x1000_0000 * (x % 16)
  {}

  lemma Within28(k: nat)
    requires k <= 28
    ensures Pow2(k) <= 0x1000_0000
  {
    ShlValues(1);
    if k < 28 { Pow2Increases(k, 28); }
  }

  lemma AddMultiple(a: nat, m: nat)
    requires m % U32 == 0
    ensures (a + m) % U32 == a % U32
  {}

  /** One or-step of the 64-bit loop adds the next group, modulo 2^64. */
  lemma Or64(p: Bytes, b: Byte, k: nat)
    requires |p| <= 9 && k == 7 * |p|
    ensures BitOr(Value(p) % U64, Shl(b % 128, k) % U64) == Value(p + [b]) % U64
  {
    ValueSnoc(p, b);
    ValueBelow(p);
    ShlValues(1);
    if |p| < 9 {
      ValueBelow(p + [b]);
      Within63(k);
      Within63(k + 7);
      OrBelow64(Value(p), b % 128, k);
    } else {
      OrTenth(Value(p), b % 128, k);
    }
  }

  lemma Within63(k: nat)
    requires k <= 63
    ensures Pow2(k) <= U63
  {
    ShlValues(1);
    if k < 63 { Pow2Increases(k, 63); }
  }

  lemma OrBelow64(v: nat, x: nat, k: nat)
    requires v < Pow2(k) <= U63 && v + Shl(x, k) < U64
    ensures BitOr(v % U64, Shl(x, k) % U64) == (v + Shl(x, k)) % U64
  {
    OrOfDisjoint(v, x, k);
    Below64(v);
    Below64(Shl(x, k));
    Below64(v + Shl(x, k));
  }

  lemma OrTenth(v: nat, x: nat, k: nat)
    requires v < U63 && x < 128 && k == 63
    ensures BitOr(v % U64, Shl(x, k) % U64) == (v + Shl(x, k)) % U64
  {
    TenthGroup(v, x);
    ShlValues(1);
    ShlValues(x);
    ShlValues(x % 2);
    OrOfDisjoint(v, x % 2, k);
    Below64(v);
  }

  lemma TenthGroup(v: nat, x: nat)
    requires v < U63 && x < 128
    ensures (U63 * x) % U64 == U63 * (x % 2)
    ensures (v + U63 * x) % U64 == v + U63 * (x % 2)
  {}

  lemma Below64(v: nat)
    requires v < U64
    ensures v % U64 == v
  {}

  /** On varints of at most ten bytes, a successful 32-bit decode yields the low 32 bits of
      the 64-bit result. */
  lemma Low32(p: Bytes)
    requires IsVarint(p) && |p| <= 10
    requires Value32(p).Some?
    ensures Value64(p).Some? && Value32(p).value == Value64(p).value % U32
  {
    if |p| == 1 {
      OneByte(p);
    } else {
      hide Value, Loop32;
      FirstGroup(p);
      LoopIsLow32(p, 1, p[0] % 128);
      LowOfLow(Value(p));
    }
  }

  lemma OneByte(p: Bytes)
    requires IsVarint(p) && |p| == 1
    ensures Value(p) == p[0] && Value64(p) == Some(p[0]) && p[0] % U32 == p[0]
  {
    assert Value(p) == p[0];
  }

  lemma FirstGroup(p: Bytes)
    requires p != []
    ensures Value(p[..1]) == p[0] % 128 && Value(p[..1]) % U32 == p[0] % 128
  {
    assert p[..1][1..] == [];
    SmallMod(p[0] % 128);
  }

  lemma LowOfLow(v: nat)
    ensures (v % U64) % U32 == v % U32
  {}

  lemma {:induction false} LoopIsLow32(p: Bytes, i: nat, result: nat)
    requires 1 <= i < |p| <= 10
    requires result == Value(p[..i]) % U32
    requires Loop32(p, i, 7 * i, result).Some?
    ensures Loop32(p, i, 7 * i, result).value == Value(p) % U32
    decreases |p| - i
  {
    hide Value, Shl, BitOr, Accept32;
    StepIsLow32(p, i, result);
    if i + 1 < |p| {
      LoopIsLow32(p, i + 1, Accept32(p[i], 7 * i, result).value);
    } else {
      assert p[..i + 1] == p;
    }
  }

  lemma StepIsLow32(p: Bytes, i: nat, result: nat)
    requires 1 <= i < |p| <= 10
    requires result == Value(p[..i]) % U32
    requires Accept32(p[i], 7 * i, result).Some?
    ensures Accept32(p[i], 7 * i, result).value == Value(p[..i + 1]) % U32
  {
    hide Value, Shl, BitOr;
    if i >= 5 { LateGroup(p, i); } else { EarlyGroup(p, i); }
  }

  /** Groups at bit 35 and up do not reach the low 32 bits. */
  lemma LateGroup(p: Bytes, i: nat)
    requires 5 <= i < |p|
    ensures Value(p[..i + 1]) % U32 == Value(p[..i]) % U32
  {
    var m := Shl(p[i] % 128, 7 * i);
    assert p[..i] + [p[i]] == p[..i + 1];
    ValueSnoc(p[..i], p[i]);
    ShlClears32(p[i] % 128, 7 * i);
    AddMultiple(Value(p[..i]), m);
  }

  lemma EarlyGroup(p: Bytes, i: nat)
    requires 1 <= i < |p| && i <= 4
    ensures BitOr(Value(p[..i]) % U32, Shl(p[i] % 128, 7 * i) % U32) == Value(p[..i + 1]) % U32
  {
    hide Value, Shl, BitOr;
    assert p[..i] + [p[i]] == p[..i + 1];
    Or32(p[..i], p[i], Value(p[..i]), p[i] % 128, 7 * i);
    SmallMod(Value(p[..i]));
  }

  // ----- Which canonical encodings the 32-bit decoder accepts

  /** The `i`-th 7-bit group of `v`. */
  function Group(v: nat, i: nat): (g: nat)
    ensures g < 128
  {
    if i == 0 then v % 128 else Group(v / 128, i - 1)
  }

  /** The numbers below 2^64 whose canonical encoding the 32-bit decoder accepts: those
      below 2^32, and those with bits 63 and 31 set whose groups 5 to 8 are each all zeros or all
      ones (groups are not compared with one another, and bits 32 to 34 are not looked at). */
  predicate Accepted32(v: nat) {
    v < U32 ||
    (v >= U63 && (v / U31) % 2 == 1 && MiddleGroupsUniform(v))
  }

  predicate MiddleGroupsUniform(v: nat) {
    forall i :: 5 <= i <= 8 ==> Group(v, i) == 0 || Group(v, i) == 127
  }

  /** The 32-bit decoder accepts a canonical encoding exactly when `Accepted32` holds, and
      then yields the low 32 bits. */
  lemma Decode32OfCanonical(v: nat)
    requires v < U64
    ensures IsVarint(Encode(v))
    ensures Value32(Encode(v)) == if Accepted32(v) then Some(v % U32) else None
  {
    EncodeIsVarint(v);
    EncodeLength(v);
    AcceptsExactly(v);
    if Accepted32(v) {
      Low32(Encode(v));
      LowOfLow(v);
    }
  }

  lemma AcceptsExactly(v: nat)
    requires v < U64 && IsVarint(Encode(v)) && |Encode(v)| <= 10
    ensures Value32(Encode(v)).Some? <==> Accepted32(v)
  {
    hide Accept32, Loop32;
    var p := Encode(v);
    EncodeLengthByRange(v);
    if |p| >= 2 {
      assert p[..1][1..] == [];
      var negative := |p| >= 5 && (Value(p[..5]) % U32) / U31 == 1;
      LoopAccepts(p, 1, p[0] % 128, negative);
      if |p| == 5 { FiveBytes(v); }
      if |p| >= 6 { SixOrMoreBytes(v, negative); }
    }
  }

  lemma FiveBytes(v: nat)
    requires |Encode(v)| == 5
    ensures (Encode(v)[4] / 16) % 8 == 0 <==> v < U32
  {
    var p := Encode(v);
    EncodeIsVarint(v);
    assert p[..5] == p;
    LowBits(p);
    EncodeByte(v, 4);
    assert v / 0x1000_0000 == p[4];
  }

  lemma SixOrMoreBytes(v: nat, negative: bool)
    requires 6 <= |Encode(v)| <= 10 && v < U64
    requires negative <==> (Value(Encode(v)[..5]) % U32) / U31 == 1
    ensures Tail32Ok(Encode(v), 1, negative) <==>
            |Encode(v)| == 10 && (v / U31) % 2 == 1 && MiddleGroupsUniform(v)
  {
    var p := Encode(v);
    EncodeIsVarint(v);
    LowBits(p);
    Bit31(Value(p[..5]), Value(p[5..]));
    forall i | 5 <= i < |p| ensures p[i] == Group(v, i) + (if i + 1 < |p| then 128 else 0) { EncodeByte(v, i); }
    LastGroup(v);
    if |p| == 10 {
      TopByte(v);
      TailOfTen(v, negative);
    } else {
      assert p[|p| - 1] % 128 != 0;
    }
  }

  lemma TailOfTen(v: nat, negative: bool)
    requires |Encode(v)| == 10 && Encode(v)[9] == 1
    ensures Tail32Ok(Encode(v), 1, negative) <==>
            negative && MiddleGroupsUniform(v)
  {
    var p := Encode(v);
    forall i | 5 <= i <= 8 ensures p[i] == Group(v, i) + 128 { EncodeByte(v, i); }
    if Tail32Ok(p, 1, negative) {
      assert p[9] % 128 != 0;
      assert p[5] % 128 == Group(v, 5) && p[6] % 128 == Group(v, 6);
      assert p[7] % 128 == Group(v, 7) && p[8] % 128 == Group(v, 8);
    }
  }

  lemma TopByte(v: nat)
    requires |Encode(v)| == 10 && v < U64
    ensures Encode(v)[9] == 1
  {
    var p := Encode(v);
    EncodeIsVarint(v);
    SplitValue(p, 9);
    EncodeByte(v, 9);
    LastGroup(v);
    assert p[9..] == [p[9]];
    assert Value(p[9..]) == p[9];
    ShlValues(p[9]);
  }

  lemma Bit31(low: nat, high: nat)
    ensures ((low + 0x8_0000_0000 * high) / U31) % 2 == 1 <==> (low % U32) / U31 == 1
  {}

  lemma {:induction false} EncodeByte(v: nat, i: nat)
    requires i < |Encode(v)|
    ensures Encode(v)[i] == Group(v, i) + (if i + 1 < |Encode(v)| then 128 else 0)
  {
    if v >= 128 && i > 0 { EncodeByte(v / 128, i - 1); }
  }

  lemma {:induction false} EncodeLengthFrom(v: nat, n: nat)
    requires Pow2(7 * n) <= v
    ensures |Encode(v)| > n
  {
    if n > 0 {
      Shl7(1, 7 * (n - 1));
      Pow2Positive(7 * n - 7);
      EncodeLengthFrom(v / 128, n - 1);
    }
  }

  lemma {:induction false} Pow2Positive(k: nat)
    ensures Pow2(k) > 0
  {
    if k > 0 { Pow2Positive(k - 1); }
  }

  /** How many bytes the numbers on either side of 2^28, 2^32, 2^35 and 2^63 take. */
  lemma EncodeLengthByRange(v: nat)
    requires v < U64
    ensures v < U32 ==> |Encode(v)| <= 5
    ensures v < 0x8_0000_0000 ==> |Encode(v)| <= 5
    ensures v < 0x1000_0000 <==> |Encode(v)| <= 4
    ensures v >= 0x8_0000_0000 ==> |Encode(v)| >= 6
    ensures v < U63 <==> |Encode(v)| <= 9
  {
    ShlValues(1);
    if v < 0x1000_0000 { EncodeBound(v, 3); } else { EncodeLengthFrom(v, 4); }
    if v < 0x8_0000_0000 { EncodeBound(v, 4); } else { EncodeLengthFrom(v, 5); }
    if v < U63 { EncodeBound(v, 8); } else { EncodeLengthFrom(v, 9); }
  }

  /** The last group of a canonical encoding longer than one byte is not zero. */
  lemma {:induction false} LastGroup(v: nat)
    ensures |Encode(v)| >= 2 ==> Group(v, |Encode(v)| - 1) != 0
    ensures |Encode(v)| == 1 ==> Group(v, 0) == v
  {
    if v >= 128 { LastGroup(v / 128); }
  }

  /** Bits 28 and up of a varint of at least five bytes. */
  lemma LowBits(p: Bytes)
    requires |p| >= 5
    ensures Value(p) == Value(p[..5]) + 0x8_0000_0000 * Value(p[5..])
    ensures Value(p[..5]) / 0x1000_0000 == p[4] % 128
    ensures Value(p[..4]) < 0x1000_0000
    ensures Value(p[..5]) < 0x8_0000_0000
  {
    assert p[1..][1..] == p[2..];
    assert p[2..][1..] == p[3..];
    assert p[3..][1..] == p[4..];
    assert p[4..][1..] == p[5..];
    ValueBelow(p[..4]);
    ValueBelow(p[..5]);
    ShlValues(1);
    assert p[..4] + [p[4]] == p[..5];
    ValueSnoc(p[..4], p[4]);
    ShlValues(p[4] % 128);
    FirstFive(p);
  }

  lemma FirstFive(p: Bytes)
    requires |p| >= 5
    ensures Value(p) == Value(p[..5]) + 0x8_0000_0000 * Value(p[5..])
  {
    SplitValue(p, 5);
    ShlValues(Value(p[5..]));
  }

  lemma {:induction false} SplitValue(p: Bytes, n: nat)
    requires n <= |p|
    ensures Value(p) == Value(p[..n]) + Shl(Value(p[n..]), 7 * n)
  {
    if n > 0 {
      SplitValue(p[1..], n - 1);
      assert p[1..][..n - 1] == p[..n][1..];
      assert p[1..][n - 1..] == p[n..];
      Shl7(Value(p[n..]), 7 * (n - 1));
    } else {
      assert p[0..] == p;
    }
  }

  /** The loop fails only on a byte above bit 32 that is neither empty nor sign extension, or
      on a fifth and last byte with bits that do not fit. */
  predicate Tail32Ok(p: Bytes, i: nat, negative: bool)
    requires i <= |p|
  {
    forall j :: i <= j < |p| && j >= 5 ==>
      p[j] % 128 == 0 || (negative && p[j] == (if 7 * j < 63 then 0xFF else 0x01))
  }

  lemma {:induction false} LoopAccepts(p: Bytes, i: nat, result: nat, negative: bool)
    requires 1 <= i < |p| <= 10
    requires result == Value(p[..i]) % U32
    requires negative <==> |p| >= 5 && (Value(p[..5]) % U32) / U31 == 1
    ensures Loop32(p, i, 7 * i, result).Some? <==>
            Tail32Ok(p, i, negative) && (|p| == 5 ==> (p[4] / 16) % 8 == 0)
    decreases |p| - i
  {
    hide Value, Shl, BitOr, IsVarint, Tail32Ok;
    var r := Accept32(p[i], 7 * i, result);
    TailStep(p, i, negative);
    TailEnd(p, negative);
    if i < 5 {
      StepIsLow32(p, i, result);
    } else {
      Stable32(p, i);
      assert result / U31 == 0 <==> !negative;
    }
    if r.Some? && i + 1 < |p| {
      if i >= 5 { Stable32(p, i + 1); }
      LoopAccepts(p, i + 1, r.value, negative);
    }
  }

  lemma TailEnd(p: Bytes, negative: bool)
    ensures Tail32Ok(p, |p|, negative)
  {}

  lemma TailStep(p: Bytes, i: nat, negative: bool)
    requires i < |p|
    ensures Tail32Ok(p, i, negative) <==>
            Tail32Ok(p, i + 1, negative) &&
            (i >= 5 ==> p[i] % 128 == 0 || (negative && p[i] == (if 7 * i < 63 then 0xFF else 0x01)))
  {}

  /** Above the fifth byte the low 32 bits no longer change. */
  lemma {:induction false} Stable32(p: Bytes, i: nat)
    requires 5 <= i <= |p|
    ensures Value(p[..i]) % U32 == Value(p[..5]) % U32
  {
    hide Value;
    if i > 5 {
      Stable32(p, i - 1);
      LateGroup(p, i - 1);
    }
  }

  /** Such a number that is neither below 2^32 nor the sign extension of an int32. */
  lemma AcceptedThoughNotExtended()
    ensures var v := U63 + U31;
            && U32 <= v < U64 - U31 && IsVarint(Encode(v)) && Value32(Encode(v)) == Some(U31)
  {
    hide Encode, IsVarint, Value32, Group;
    var v := U63 + U31;
    EncodeIsVarint(v);
    forall i | 5 <= i <= 8 ensures Group(v, i) == 0 { GroupsOfWitness(i); }
    Decode32OfCanonical(v);
  }

  lemma GroupsOfWitness(i: nat)
    requires 5 <= i <= 8
    ensures Group(U63 + U31, i) == 0
  {
    var v := U63 + U31;
    var a, b, c := v / 128, v / 128 / 128, v / 128 / 128 / 128;
    assert Group(v, i) == Group(a, i - 1) == Group(b, i - 2) == Group(c, i - 3) == Group(c / 128, i - 4);
    assert c / 128 / 128 == 0x1000_0000;
    assert Group(c / 128, i - 4) == Group(0x1000_0000, i - 5);
    if i > 5 { assert Group(0x1000_0000, i - 5) == Group(0x20_0000, i - 6); }
    if i > 6 { assert Group(0x20_0000, i - 6) == Group(0x4000, i - 7); }
    if i > 7 { assert Group(0x4000, i - 7) == Group(0x80, i - 8); }
  }

  /** Every number below 2^32 and every sign-extended negative int32 is accepted; nothing
      between 2^32 and 2^63 is. */
  lemma Decode32Ranges(v: nat)
    requires v < U64
    ensures IsVarint(Encode(v))
    ensures v < U32 ==> Value32(Encode(v)) == Some(v)
    ensures v >= U64 - U31 ==> Value32(Encode(v)) == Some(v - (U64 - U32))
    ensures U32 <= v < U63 ==> Value32(Encode(v)).None?
  {
    Decode32OfCanonical(v);
    if v < U32 { SmallMod(v); }
    if v >= U64 - U31 {
      NegativeMod(v);
      forall i | 5 <= i <= 8 ensures Group(v, i) == 127 { GroupOfNegative(v, i); }
    }
  }

  lemma SmallMod(v: nat)
    requires v < U32
    ensures v % U32 == v
  {}

  lemma NegativeMod(v: nat)
    requires U64 - U31 <= v < U64
    ensures v % U32 == v - (U64 - U32)
    ensures (v / U31) % 2 == 1
  {}

  lemma GroupOfNegative(v: nat, i: nat)
    requires U64 - U31 <= v < U64
    requires 5 <= i <= 8
    ensures Group(v, i) == 127
  {
    var e := v / 0x8_0000_0000;
    assert e == 0x1FFF_FFFF;
    GroupShift(v, i);
    assert Group(e, 0) == 127;
    assert Group(e, 1) == Group(e / 128, 0) == 127;
    assert Group(e, 2) == Group(e / 128, 1) == Group(e / 128 / 128, 0) == 127;
    assert Group(e, 3) == Group(e / 128, 2) == Group(e / 128 / 128, 1) == Group(e / 128 / 128 / 128, 0) == 127;
  }

  lemma GroupShift(v: nat, i: nat)
    requires i >= 5
    ensures Group(v, i) == Group(v / 0x8_0000_0000, i - 5)
  {
    var a := v / 128;
    var b := a / 128;
    var c := b / 128;
    var d := c / 128;
    assert Group(v, i) == Group(a, i - 1);
    assert Group(a, i - 1) == Group(b, i - 2);
    assert Group(b, i - 2) == Group(c, i - 3);
    assert Group(c, i - 3) == Group(d, i - 4);
    assert d / 128 == v / 0x8_0000_0000;
  }
}
