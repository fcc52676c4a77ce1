/** Buffer streams and the primitive readers and writers (pb_decode.c, pb_encode.c). */
module Streams {
  import opened Wrappers
  import opened Bits
  import opened Config
  import opened Message
  import opened Wire
  import Varint

  /** What one round of a record loop ends in. */
  datatype Outcome = Failed | Stopped | Continued

  // ----- Input

  /** pb_istream_t reading from a memory buffer. */
  class IStream {
    const buffer: Bytes
    var state: nat
    var bytesLeft: nat

    ghost predicate Valid()
      reads this
    {
      state + bytesLeft <= |buffer|
    }

    /** The bytes still to be read. */
    ghost function Rest(): (s: Bytes)
      requires Valid()
      reads this
    {
      buffer[state..state + bytesLeft]
    }

    /** Where the stream will end.  Reading does not move it. */
    ghost function End(): nat
      reads this
    {
      state + bytesLeft
    }

    /** pb_istream_from_buffer */
    constructor (buf: Bytes)
      ensures Valid() && Rest() == buf && buffer == buf && state == 0
    {
      buffer := buf;
      state, bytesLeft := 0, |buf|;
    }

    constructor Copy(stream: IStream, size: nat)
      requires stream.Valid() && size <= stream.bytesLeft
      ensures Valid() && buffer == stream.buffer && state == stream.state && bytesLeft == size
    {
      buffer, state, bytesLeft := stream.buffer, stream.state, size;
    }

    /** pb_read with buf_read: copies to `dest`, or skips if there is none. */
    method Read(dest: array?<Byte>, count: nat) returns (ok: bool)
      requires Valid() && (dest != null ==> count <= dest.Length)
      modifies this, dest
      ensures Valid() && End() == old(End())
      ensures ok <==> count <= old(bytesLeft)
      ensures if ok then Rest() == old(Rest())[count..] else Rest() == old(Rest())
      ensures ok && dest != null ==> dest[..count] == old(Rest())[..count]
    {
      if count == 0 { return true; }
      if bytesLeft < count { return false; }
      var source := state;
      PartsOf(buffer, source, source + bytesLeft, count);
      state := state + count;
      if dest != null {
        var i := 0;
        while i < count
          invariant i <= count
          invariant dest[..i] == buffer[source..source + i]
          modifies dest
        {
          dest[i] := buffer[source + i];
          i := i + 1;
        }
      }
      bytesLeft := bytesLeft - count;
      return true;
    }

    /** pb_readbyte */
    method ReadByte() returns (ok: bool, byte: Byte)
      requires Valid()
      modifies this
      ensures Valid() && End() == old(End())
      ensures ok <==> old(bytesLeft) > 0
      ensures ok ==> byte == old(Rest())[0] && Rest() == old(Rest())[1..]
      ensures !ok ==> Rest() == old(Rest())
    {
      if bytesLeft == 0 { return false, 0; }
      byte := buffer[state];
      state := state + 1;
      bytesLeft := bytesLeft - 1;
      return true, byte;
    }

    /** pb_decode_varint32_eof */
    method DecodeVarint32Eof() returns (ok: bool, dest: nat, eof: bool)
      requires Valid()
      modifies this
      ensures Valid() && End() == old(End()) && bytesLeft <= old(bytesLeft)
      ensures eof <==> old(bytesLeft) == 0
      ensures ok == Reads32(old(Rest())).Some?
      ensures ok ==> dest == Reads32(old(Rest())).value.0 && Rest() == old(Rest())[Reads32(old(Rest())).value.1..]
    {
      hide BitOr, Shl;
      ghost var s := Rest();
      dest, eof := 0, false;
      var byte;
      ok, byte := ReadByte();
      if !ok {
        return false, 0, bytesLeft == 0;
      }
      if byte < 128 {
        assert Varint.Length(s) == Some(1);
        return true, byte, false;
      }
      var bitpos: nat := 7;
      var result: nat := byte % 128;
      ghost var i := 1;
      while true
        invariant Valid() && End() == old(End())
        invariant 1 <= i <= |s| && Rest() == s[i..]
        invariant forall j :: 0 <= j < i ==> s[j] >= 128
        invariant Varint.Length(s).Some? ==>
                    i < Varint.Length(s).value &&
                    Varint.Value32(s[..Varint.Length(s).value])
                    == Varint.Loop32(s[..Varint.Length(s).value], i, bitpos, result)
        decreases |s| - i
      {
        ok, byte := ReadByte();
        if !ok {
          NoLength(s);
          return false, 0, false;
        }
        if bitpos >= 32 {
          var signExtension := if bitpos < 63 then 0xFF else 0x01;
          if byte % 128 != 0 && (result / Varint.U31 == 0 || byte != signExtension) {
            return false, 0, false;
          }
        } else {
          result := BitOr(result, Shl(byte % 128, bitpos) % Varint.U32);
        }
        bitpos := (bitpos + 7) % 256;
        i := i + 1;
        if byte < 128 {
          LengthIs(s, i);
          break;
        }
        LengthOver(s, i);
      }
      if bitpos == 35 && (byte / 16) % 8 != 0 {
        return false, 0, false;
      }
      return true, result, false;
    }

    /** pb_decode_varint32 */
    method DecodeVarint32() returns (ok: bool, dest: nat)
      requires Valid()
      modifies this
      ensures Valid() && End() == old(End()) && bytesLeft <= old(bytesLeft)
      ensures ok == Reads32(old(Rest())).Some?
      ensures ok ==> dest == Reads32(old(Rest())).value.0 && Rest() == old(Rest())[Reads32(old(Rest())).value.1..]
    {
      var eof;
      ok, dest, eof := DecodeVarint32Eof();
    }

    /** pb_decode_varint */
    method DecodeVarint() returns (ok: bool, dest: nat)
      requires Valid()
      modifies this
      ensures Valid() && End() == old(End()) && bytesLeft <= old(bytesLeft)
      ensures ok == Reads64(old(Rest())).Some?
      ensures ok ==> dest == Reads64(old(Rest())).value.0 && Rest() == old(Rest())[Reads64(old(Rest())).value.1..]
    {
      ghost var s := Rest();
      var byte: Byte := 0;
      var bitpos := 0;
      var result := 0;
      ghost var i := 0;
      while true
        invariant Valid() && End() == old(End())
        invariant i <= |s| && i <= 10 && Rest() == s[i..] && bitpos == 7 * i
        invariant forall j :: 0 <= j < i ==> s[j] >= 128
        invariant result == Varint.Value(s[..i]) % Varint.U64
        decreases |s| - i
      {
        if bitpos >= 64 {
          LengthOver(s, 10);
          return false, 0;
        }
        ok, byte := ReadByte();
        if !ok {
          NoLength(s);
          return false, 0;
        }
        assert s[..i] + [byte] == s[..i + 1];
        Varint.Or64(s[..i], byte, bitpos);
        result := BitOr(result, Shl(byte % 128, bitpos) % Varint.U64);
        bitpos := bitpos + 7;
        i := i + 1;
        if byte < 128 {
          LengthIs(s, i);
          break;
        }
      }
      return true, result;
    }

    /** pb_skip_varint */
    method SkipVarint() returns (ok: bool)
      requires Valid()
      modifies this
      ensures Valid() && End() == old(End())
      ensures ok == Varint.Length(old(Rest())).Some?
      ensures ok ==> Rest() == old(Rest())[Varint.Length(old(Rest())).value..]
    {
      ghost var s := Rest();
      ghost var i := 0;
      var byte := new Byte[1];
      while true
        invariant Valid() && End() == old(End()) && i <= |s| && Rest() == s[i..]
        invariant forall j :: 0 <= j < i ==> s[j] >= 128
        decreases |s| - i
      {
        ok := Read(byte, 1);
        if !ok {
          NoLength(s);
          return false;
        }
        assert byte[..1] == s[i..][..1];
        i := i + 1;
        if byte[0] < 128 {
          LengthIs(s, i);
          return true;
        }
      }
    }

    /** pb_skip_string */
    method SkipString() returns (ok: bool)
      requires Valid()
      modifies this
      ensures Valid() && End() == old(End())
      ensures ok == Extent(Delimited, old(Rest())).Some?
      ensures ok ==> Rest() == old(Rest())[Extent(Delimited, old(Rest())).value..]
    {
      AnnouncedIsExtent(Rest());
      var length;
      ok, length := DecodeVarint32();
      if !ok { return false; }
      ok := Read(null, length);
    }

    /** pb_skip_field: stops exactly at the end of the payload. */
    method SkipField(wireType: nat) returns (ok: bool)
      requires Valid()
      modifies this
      ensures Valid() && End() == old(End())
      ensures ok == Extent(WireShape(wireType), old(Rest())).Some?
      ensures ok ==> Rest() == old(Rest())[Extent(WireShape(wireType), old(Rest())).value..]
    {
      if wireType == WT_VARINT { ok := SkipVarint(); }
      else if wireType == WT_64BIT { ok := Read(null, 8); }
      else if wireType == WT_STRING { ok := SkipString(); }
      else if wireType == WT_32BIT { ok := Read(null, 4); }
      else { ok := false; }
    }

    /** pb_decode_tag */
    method DecodeTag() returns (ok: bool, wireType: nat, tag: nat, eof: bool)
      requires Valid()
      modifies this
      ensures Valid() && End() == old(End())
      ensures old(bytesLeft) == 0 ==> !ok && eof
      ensures old(bytesLeft) > 0 ==>
                match ReadKey(old(Rest()))
                case BadKey => !ok && !eof
                case ZeroKey(rest) => !ok && eof && Rest() == rest
                case Key(t, w, rest) => ok && tag == t && wireType == w && Rest() == rest
    {
      var temp;
      wireType, tag := 0, 0;
      ok, temp, eof := DecodeVarint32Eof();
      if !ok {
        return;
      }
      if temp == 0 {
        return false, 0, 0, true;
      }
      tag := temp / 8;
      wireType := temp % 8;
    }

    /** pb_make_string_substream: the substream takes exactly the announced bytes away from
        this stream, and nothing else. */
    method MakeStringSubstream() returns (ok: bool, substream: IStream)
      requires Valid()
      modifies this
      ensures Valid() && (ok ==> fresh(substream) && substream.Valid() && substream.buffer == buffer)
      ensures ok == Announced(old(Rest())).Some?
      ensures ok ==> substream.Rest() == Announced(old(Rest())).value.0
      ensures ok ==> substream.End() + bytesLeft == old(End())
      ensures !ok ==> End() == old(End())
      ensures End() <= old(End())
      ensures ok ==> bytesLeft == old(bytesLeft) - Announced(old(Rest())).value.1
      ensures ok ==> substream.bytesLeft < old(bytesLeft) && bytesLeft < old(bytesLeft)
      ensures ok ==>
                buffer[substream.End()..substream.End() + bytesLeft] == old(Rest())[Announced(old(Rest())).value.1..]
    {
      hide Reads32;
      ghost var s, start, end := Rest(), state, End();
      var size;
      ok, size := DecodeVarint32();
      substream := this;
      if !ok { return; }
      ghost var h := Reads32(s).value.1;
      assert |Rest()| == |s[h..]|;
      if bytesLeft < size { return false, this; }
      PartsOf(buffer, start, end, h);
      PartsOf(buffer, start + h, end, size);
      PartsOf(buffer, start, end, h + size);
      substream := new IStream.Copy(this, size);
      bytesLeft := bytesLeft - size;
    }

    /** pb_close_string_substream: whatever the substream has consumed, this stream goes on
        right after the announced bytes. */
    method CloseStringSubstream(substream: IStream) returns (ok: bool)
      requires substream != this && substream.Valid() && substream.buffer == buffer
      requires substream.End() + bytesLeft <= |buffer|
      modifies this, substream
      ensures ok && Valid()
      ensures state == old(substream.End()) && bytesLeft == old(bytesLeft)
      ensures Rest() == buffer[old(substream.End())..old(substream.End() + bytesLeft)]
    {
      if substream.bytesLeft != 0 {
        ok := substream.Read(null, substream.bytesLeft);
        if !ok { return false; }
      }
      state := substream.state;
      return true;
    }
  }

  // ----- Output

  /** The observable part of an output stream: what it has put into the buffer so far, how many
      bytes it has counted, and its limit. */
  datatype Snapshot = Snapshot(sizing: bool, written: Bytes, count: nat, max: nat)

  /** pb_ostream_t: it writes to a memory buffer, or only counts (`callback == NULL`). */
  class OStream {
    const sizing: bool
    const buffer: array<Byte>
    var state: nat
    var maxSize: nat
    var bytesWritten: nat

    ghost predicate Valid()
      reads this
    {
      && bytesWritten <= SIZE_T_MAX
      && (!sizing ==> bytesWritten <= maxSize <= SIZE_T_MAX && state + (maxSize - bytesWritten) <= buffer.Length)
    }

    ghost function Snap(): (snap: Snapshot)
      requires Valid()
      reads this, buffer
    {
      Snapshot(sizing, if sizing then [] else buffer[..state], bytesWritten, maxSize)
    }

    /** pb_ostream_from_buffer */
    constructor FromBuffer(buf: array<Byte>)
      requires buf.Length <= SIZE_T_MAX
      ensures Valid() && buffer == buf && Snap() == Snapshot(false, [], 0, buf.Length)
    {
      sizing, buffer := false, buf;
      state, maxSize, bytesWritten := 0, buf.Length, 0;
    }

    /** PB_OSTREAM_SIZING */
    constructor Sizing()
      ensures Valid() && fresh(buffer) && Snap() == Snapshot(true, [], 0, 0)
    {
      sizing, buffer := true, new Byte[0];
      state, maxSize, bytesWritten := 0, 0, 0;
    }

    /** The substream of pb_encode_submessage: it writes where `stream` would, up to `size` bytes. */
    constructor Substream(stream: OStream, size: nat)
      requires stream.Valid() && !stream.sizing && stream.bytesWritten + size <= stream.maxSize
      ensures Valid() && buffer == stream.buffer && Snap() == Snapshot(false, stream.Snap().written, 0, size)
    {
      sizing, buffer := false, stream.buffer;
      state, maxSize, bytesWritten := stream.state, size, 0;
    }

    /** buf_write */
    method BufWrite(buf: Bytes, count: nat)
      requires !sizing && |buf| == count && state + count <= buffer.Length
      modifies this`state, buffer
      ensures state == old(state) + count && buffer[..state] == old(buffer[..state]) + buf
    {
      var dest := state;
      state := dest + count;
      var i := 0;
      while i < count
        invariant i <= count && state == old(state) + count
        invariant buffer[..dest + i] == old(buffer[..state]) + buf[..i]
      {
        buffer[dest + i] := buf[i];
        i := i + 1;
      }
    }

    /** pb_write: the sum of the sizes wraps in a size_t.  A buffer refuses a sum that has wrapped; a sizing
        stream goes on counting. */
    method Write(buf: Bytes, count: nat) returns (ok: bool)
      requires Valid() && count <= SIZE_T_MAX && (!sizing ==> |buf| == count)
      modifies this, buffer
      ensures Valid()
      ensures sizing ==> ok && Snap() == old(Snap()).(count := InSizeT(old(bytesWritten) + count))
      ensures !sizing ==> (ok <==> old(bytesWritten) + count <= old(maxSize))
      ensures !sizing ==>
                Snap() == if ok then old(Snap()).(written := old(Snap()).written + buf,
                    count := old(bytesWritten) + count)
                          else old(Snap())
    {
      SumWraps(bytesWritten, count);
      var total := (bytesWritten + count) % (SIZE_T_MAX + 1);
      if count > 0 && !sizing {
        if total < bytesWritten || total > maxSize { return false; }
        BufWrite(buf, count);
      }
      bytesWritten := total;
      return true;
    }
  }

  /** What is left in a size_t of the sum of two of its values. */
  function InSizeT(sum: nat): nat
    requires sum <= 2 * SIZE_T_MAX
  {
    if sum <= SIZE_T_MAX then sum else sum - SIZE_T_MAX - 1
  }

  lemma SumWraps(a: nat, b: nat)
    requires a <= SIZE_T_MAX && b <= SIZE_T_MAX
    ensures (a + b) % (SIZE_T_MAX + 1) == InSizeT(a + b)
  {}

  /** What reading `n` bytes of a stretch of the buffer gives and leaves. */
  lemma PartsOf(buffer: Bytes, from: nat, to: nat, n: nat)
    requires from + n <= to <= |buffer|
    ensures buffer[from..to][n..] == buffer[from + n..to]
    ensures buffer[from..to][..n] == buffer[from..from + n]
  {}

  /** The value and length of the varint in front of `s`, as the 32-bit decoder sees it. */
  function Reads32(s: Bytes): (r: Option<(nat, nat)>)
    ensures r.Some? ==> 0 < r.value.1 <= |s|
  {
    var n :- Varint.Length(s);
    var v :- Varint.Value32(s[..n]);
    Some((v, n))
  }

  /** The same for the 64-bit decoder. */
  function Reads64(s: Bytes): (r: Option<(nat, nat)>)
    ensures r.Some? ==> 0 < r.value.1 <= |s|
  {
    var n :- Varint.Length(s);
    var v :- Varint.Value64(s[..n]);
    Some((v, n))
  }

  /** The body announced by the length prefix in front of `s`, and the length of both. */
  function Announced(s: Bytes): (r: Option<(Bytes, nat)>)
    ensures r.Some? ==> |r.value.0| < r.value.1 <= |s|
  {
    var (size, h) :- Reads32(s);
    if |s| - h < size then None else Some((s[h..][..size], h + size))
  }

  lemma AnnouncedIsExtent(s: Bytes)
    ensures Announced(s).Some? <==> Extent(Delimited, s).Some?
    ensures Announced(s).Some? ==> Extent(Delimited, s) == Some(Announced(s).value.1)
    ensures Announced(s).Some? ==> Body(s[..Announced(s).value.1]) == Some(Announced(s).value.0)
  {
    if Announced(s).Some? {
      var (size, h) := Reads32(s).value;
      var p := s[..h + size];
      Varint.LengthOfPrefix(s[..h], s[h..h + size]);
      assert p == s[..h] + s[h..h + size];
      assert p[..h] == s[..h];
      assert p[h..h + size] == s[h..][..size];
    }
  }

  /** What is written with its length in front is announced as it is. */
  lemma AnnouncedIsBody(body: Bytes, rest: Bytes)
    requires |body| < Varint.U32
    ensures Announced(Delimit(body) + rest) == Some((body, |Delimit(body)|))
  {
    var p := Varint.Encode(|body|);
    Varint.Decode32Ranges(|body|);
    Varint.LengthOfPrefix(p, body + rest);
    assert Delimit(body) + rest == p + (body + rest);
    assert (p + (body + rest))[..|p|] == p && (p + (body + rest))[|p|..][..|body|] == body;
  }

  // ----- Lengths of varints found byte by byte

  lemma {:induction false} LengthIs(s: Bytes, n: nat)
    requires 0 < n <= |s| && s[n - 1] < 128
    requires forall j :: 0 <= j < n - 1 ==> s[j] >= 128
    ensures Varint.Length(s) == Some(n)
  {
    if n > 1 { LengthIs(s[1..], n - 1); }
  }

  lemma {:induction false} LengthOver(s: Bytes, n: nat)
    requires n <= |s| && forall j :: 0 <= j < n ==> s[j] >= 128
    ensures Varint.Length(s).Some? ==> Varint.Length(s).value > n
  {
    if n > 0 { LengthOver(s[1..], n - 1); }
  }

  lemma NoLength(s: Bytes)
    requires forall j :: 0 <= j < |s| ==> s[j] >= 128
    ensures Varint.Length(s).None?
  {
    LengthOver(s, |s|);
  }
}
