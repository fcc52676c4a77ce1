/** Framing: how a byte string splits into records, before any field is stored.
    How far a record extends depends on the table, because the decoder reads a known field by
    its own type and ignores the wire type, except for packed arrays. */
module Wire {
  import opened Wrappers
  import opened Message
  import Varint

  /** One record: its tag, its wire type, and all bytes after the key. */
  datatype Rec = Rec(tag: nat, wt: nat, payload: Bytes)

  const WT_VARINT := 0
  const WT_64BIT := 1
  const WT_STRING := 2
  const WT_32BIT := 5

  datatype Shape = VarintShape | Bits64 | Bits32 | Delimited | NoShape

  /** How many bytes of `s` a payload of the given shape takes. */
  function Extent(shape: Shape, s: Bytes): (n: Option<nat>)
    ensures n.Some? ==> 0 < n.value <= |s|
  {
    match shape
    case VarintShape => Varint.Length(s)
    case Bits64 => if |s| >= 8 then Some(8) else None
    case Bits32 => if |s| >= 4 then Some(4) else None
    case Delimited =>
      var n := Varint.Length(s);
      if n.None? then None
      else
        var size := Varint.Value32(s[..n.value]);
        if size.None? || |s| - n.value < size.value then None else Some(n.value + size.value)
    case NoShape => None
  }

  /** The bytes a length prefix announces; None if the prefix or the bytes are missing. */
  function Body(p: Bytes): (body: Option<Bytes>)
    ensures body.Some? ==> |body.value| < |p|
  {
    var n := Varint.Length(p);
    if n.None? then None
    else
      var size := Varint.Value32(p[..n.value]);
      if size.None? || |p| - n.value < size.value then None
      else Some(p[n.value..n.value + size.value])
  }

  /** What pb_skip_field skips. */
  function WireShape(wt: nat): Shape {
    if wt == WT_VARINT then VarintShape
    else if wt == WT_64BIT then Bits64
    else if wt == WT_STRING then Delimited
    else if wt == WT_32BIT then Bits32
    else NoShape
  }

  /** What the decoder of one item of type `lt` reads. */
  function ItemShape(lt: LType): Shape {
    if lt.IsVarint() then VarintShape
    else if lt.LFixed32? then Bits32
    else if lt.LFixed64? then Bits64
    else if lt.LExtension? then NoShape
    else Delimited
  }

  /** Whether a record of wire type `wt` is read as a packed array. */
  predicate ReadPacked(f: Field, wt: nat) {
    f.ht.Repeated? && wt == WT_STRING && f.lt.Packable()
  }

  /** The shape of a record.  In an empty table the terminator answers to tag 0 and reads
      as a bool. */
  function ShapeOf(t: Table, tag: nat, wt: nat): Shape {
    var k := Find(t, tag);
    if k.Some? then
      if ReadPacked(t[k.value], wt) then Delimited else ItemShape(t[k.value].lt)
    else if t == [] && tag == 0 then VarintShape
    else WireShape(wt)
  }

  datatype Key = BadKey | ZeroKey(rest: Bytes) | Key(tag: nat, wt: nat, rest: Bytes)

  /** pb_decode_tag on a non-empty stream. */
  function ReadKey(s: Bytes): (key: Key)
    ensures !key.BadKey? ==> |key.rest| < |s|
  {
    var n := Varint.Length(s);
    if n.None? then BadKey
    else
      var temp := Varint.Value32(s[..n.value]);
      if temp.None? then BadKey
      else if temp.value == 0 then ZeroKey(s[n.value..])
      else Key(temp.value / 8, temp.value % 8, s[n.value..])
  }

  /** The records of a byte string up to its end or up to a zero key, which stops the loop;
      `left` is what the loop leaves unread. */
  datatype Framed = Framed(recs: seq<Rec>, stopped: bool, left: Bytes)

  function Split(t: Table, s: Bytes): (fr: Option<Framed>)
    ensures fr.Some? && !fr.value.stopped ==> fr.value.left == []
    decreases |s|
  {
    if s == [] then Some(Framed([], false, []))
    else
      match Next(t, s)
      case Bad => None
      case Stop(rest) => Some(Framed([], true, rest))
      case Got(r, rest) => Precede([r], Split(t, rest))
  }

  function Precede(recs: seq<Rec>, fr: Option<Framed>): Option<Framed> {
    if fr.None? then None else Some(fr.value.(recs := recs + fr.value.recs))
  }

  datatype Front = Bad | Stop(rest: Bytes) | Got(r: Rec, rest: Bytes)

  /** The record at the front of `s`. */
  function Next(t: Table, s: Bytes): (front: Front)
    ensures front.Got? ==> |front.rest| < |s|
  {
    match ReadKey(s)
    case BadKey => Bad
    case ZeroKey(rest) => Stop(rest)
    case Key(tag, wt, rest) =>
      var n := Extent(ShapeOf(t, tag, wt), rest);
      if n.None? then Bad else Got(Rec(tag, wt, rest[..n.value]), rest[n.value..])
  }

  /** The number of items in a packed run. */
  function CountItems(shape: Shape, s: Bytes): Option<nat>
    decreases |s|
  {
    if s == [] then Some(0)
    else
      var n :- Extent(shape, s);
      var more :- CountItems(shape, s[n..]);
      Some(1 + more)
  }

  // ----- Writing records

  function KeyBytes(tag: nat, wt: nat): (p: Bytes)
    ensures |p| > 0
  {
    Varint.Encode(8 * tag + wt)
  }

  function RecBytes(r: Rec): (p: Bytes)
    ensures |p| > 0
  {
    KeyBytes(r.tag, r.wt) + r.payload
  }

  function RecsBytes(recs: seq<Rec>): Bytes {
    if recs == [] then [] else RecBytes(recs[0]) + RecsBytes(recs[1..])
  }

  function Delimit(body: Bytes): (p: Bytes) {
    Varint.Encode(|body|) + body
  }

  /** `r` is a record the decoder of table `t` frames exactly as written. */
  ghost predicate WellFramed(t: Table, r: Rec) {
    && 0 < 8 * r.tag + r.wt < Varint.U32
    && r.wt < 8
    && Extent(ShapeOf(t, r.tag, r.wt), r.payload) == Some(|r.payload|)
  }

  // ----- Framing laws

  /** What is framed does not depend on the bytes that follow. */
  lemma ExtentOfPrefix(shape: Shape, p: Bytes, rest: Bytes)
    requires Extent(shape, p) == Some(|p|)
    ensures Extent(shape, p + rest) == Some(|p|)
  {
    if shape.VarintShape? || shape.Delimited? {
      var n := Varint.Length(p).value;
      Varint.LengthOfPrefix(p[..n], p[n..] + rest);
      assert p[..n] + (p[n..] + rest) == p + rest;
      assert (p + rest)[..n] == p[..n];
    }
  }

  lemma BodyOfDelimit(body: Bytes)
    requires |body| < Varint.U32
    ensures Extent(Delimited, Delimit(body)) == Some(|Delimit(body)|)
    ensures Body(Delimit(body)) == Some(body)
  {
    var p := Varint.Encode(|body|);
    Varint.Decode32Ranges(|body|);
    Varint.LengthOfPrefix(p, body);
    assert Delimit(body)[..|p|] == p;
    assert Delimit(body)[|p|..|p| + |body|] == body;
  }

  lemma ReadKeyInvertsKeyBytes(tag: nat, wt: nat, rest: Bytes)
    requires 0 < 8 * tag + wt < Varint.U32 && wt < 8
    ensures ReadKey(KeyBytes(tag, wt) + rest) == Key(tag, wt, rest)
  {
    var p := KeyBytes(tag, wt);
    Varint.Decode32Ranges(8 * tag + wt);
    Varint.LengthOfPrefix(p, rest);
    assert (p + rest)[..|p|] == p;
    assert (p + rest)[|p|..] == rest;
  }

  /** Reading one record off the front of a byte string. */
  lemma NextRecord(t: Table, r: Rec, rest: Bytes)
    requires WellFramed(t, r)
    ensures Next(t, RecBytes(r) + rest) == Got(r, rest)
  {
    assert RecBytes(r) + rest == KeyBytes(r.tag, r.wt) + (r.payload + rest);
    ReadKeyInvertsKeyBytes(r.tag, r.wt, r.payload + rest);
    ExtentOfPrefix(ShapeOf(t, r.tag, r.wt), r.payload, rest);
    assert (r.payload + rest)[..|r.payload|] == r.payload;
    assert (r.payload + rest)[|r.payload|..] == rest;
  }

  /** Splitting inverts the writing of a list of records. */
  lemma {:induction false} SplitInvertsRecsBytes(t: Table, recs: seq<Rec>)
    requires forall r :: r in recs ==> WellFramed(t, r)
    ensures Split(t, RecsBytes(recs)) == Some(Framed(recs, false, []))
  {
    if recs != [] {
      SplitInvertsRecsBytes(t, recs[1..]);
      NextRecord(t, recs[0], RecsBytes(recs[1..]));
      assert [recs[0]] + recs[1..] == recs;
    }
  }

  /** If `a` splits to its end without a zero key, then what follows is split on its own. */
  lemma {:induction false} SplitConcat(t: Table, a: Bytes, b: Bytes)
    requires Split(t, a).Some? && !Split(t, a).value.stopped
    ensures Split(t, a + b) == Precede(Split(t, a).value.recs, Split(t, b))
    decreases |a|
  {
    if a == [] {
      assert a + b == b;
      PrecedeNothing(Split(t, b));
    } else {
      var Got(r, rest) := Next(t, a);
      NextOfConcat(t, a, b);
      SplitConcat(t, rest, b);
      PrecedeTwice([r], Split(t, rest).value.recs, Split(t, b));
    }
  }

  lemma PrecedeNothing(fr: Option<Framed>)
    ensures Precede([], fr) == fr
  {
    if fr.Some? { assert [] + fr.value.recs == fr.value.recs; }
  }

  lemma PrecedeTwice(a: seq<Rec>, b: seq<Rec>, fr: Option<Framed>)
    ensures Precede(a, Precede(b, fr)) == Precede(a + b, fr)
  {
    if fr.Some? { assert a + (b + fr.value.recs) == (a + b) + fr.value.recs; }
  }

  lemma NextOfConcat(t: Table, a: Bytes, b: Bytes)
    requires Next(t, a).Got?
    ensures Next(t, a + b) == Next(t, a).(rest := Next(t, a).rest + b)
  {
    var Key(tag, wt, rest) := ReadKey(a);
    ReadKeyOfConcat(a, b);
    ExtentOfConcat(ShapeOf(t, tag, wt), rest, b);
  }

  lemma ExtentOfConcat(shape: Shape, s: Bytes, b: Bytes)
    requires Extent(shape, s).Some?
    ensures Extent(shape, s + b) == Extent(shape, s)
    ensures var n := Extent(shape, s).value;
            (s + b)[..n] == s[..n] && (s + b)[n..] == s[n..] + b
  {
    var n := Extent(shape, s).value;
    ExtentShrinks(shape, s);
    ExtentOfPrefix(shape, s[..n], s[n..] + b);
    assert s[..n] + (s[n..] + b) == s + b;
  }

  lemma ExtentShrinks(shape: Shape, s: Bytes)
    requires Extent(shape, s).Some?
    ensures Extent(shape, s[..Extent(shape, s).value]) == Extent(shape, s)
  {
    if shape.VarintShape? || shape.Delimited? {
      var m := Extent(shape, s).value;
      var n := Varint.Length(s).value;
      Varint.LengthOfPrefix(s[..n], s[..m][n..]);
      assert s[..n] + s[..m][n..] == s[..m];
      assert s[..m][..n] == s[..n];
    }
  }

  lemma ReadKeyOfConcat(a: Bytes, b: Bytes)
    requires ReadKey(a).Key?
    ensures ReadKey(a + b) == ReadKey(a).(rest := ReadKey(a).rest + b)
  {
    var n := Varint.Length(a).value;
    Varint.LengthOfPrefix(a[..n], a[n..] + b);
    assert a[..n] + (a[n..] + b) == a + b;
    assert (a + b)[..n] == a[..n] && (a + b)[n..] == a[n..] + b;
  }
}
