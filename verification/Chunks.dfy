/** Repeated fields on the wire: packed runs and single records in any mixture. */
module Chunks {
  import opened Wrappers
  import opened Config
  import opened Message
  import opened Wire
  import opened Decode
  import opened Encode
  import opened WellFormed
  import opened DecodeLaws
  import Varint

  // ----- Scalar items

  lemma SignedRoundTrip(i: int, size: nat, wide: nat)
    requires IntSize(size) && ToSigned(i, size) == i
    requires wide == if size == 8 then 8 else 4
    ensures 0 <= i % Varint.U64 < Varint.U64
    ensures ToSigned(i % Varint.U64, wide) == i
  {
  }

  lemma ZigZagRoundTrip(i: int, size: nat)
    requires IntSize(size) && ToSigned(i, size) == i
    ensures 0 <= ZigZag(i) < Varint.U64
    ensures UnZigZag(ZigZag(i)) == i
  {
    if i < 0 {
      assert (2 * i) % Varint.U64 == Varint.U64 + 2 * i;
    } else {
      assert (2 * i) % Varint.U64 == 2 * i;
    }
  }

  lemma {:induction false} NumberRoundTrip4(v: nat)
    requires v < Varint.U32
    ensures Number(NumberBytes(v, 4)) == v
  {
    NumberStep(v, 4);
    NumberStep(v / 0x100, 3);
    NumberStep(v / 0x100 / 0x100, 2);
    NumberStep(v / 0x100 / 0x100 / 0x100, 1);
    assert Number(NumberBytes(v / 0x100 / 0x100 / 0x100 / 0x100, 0)) == 0;
  }

  lemma {:induction false} NumberRoundTrip8(v: nat)
    requires v < Varint.U64
    ensures Number(NumberBytes(v, 8)) == v
  {
    NumberStep(v, 8);
    NumberStep(v / 0x100, 7);
    NumberStep(v / 0x100 / 0x100, 6);
    NumberStep(v / 0x100 / 0x100 / 0x100, 5);
    var w := v / 0x100 / 0x100 / 0x100 / 0x100;
    assert w == v / Varint.U32;
    NumberRoundTrip4(w);
  }

  lemma NumberStep(v: nat, size: nat)
    requires size > 0
    ensures Number(NumberBytes(v, size)) == v % 256 + 256 * Number(NumberBytes(v / 256, size - 1))
  {
    assert NumberBytes(v, size)[1..] == NumberBytes(v / 256, size - 1);
  }

  /** Decoding inverts encoding on scalars, strings and byte strings. */
  lemma ScalarRoundTrip(f: Field, v: Value, prior: Value)
    requires FieldOk(f) && ValueOk(f, v) && !f.lt.LSubmessage?
    ensures var e := ItemEmit(f, v);
            e.ok && Extent(ItemShape(f.lt), e.bytes) == Some(|e.bytes|) && Item(f, prior, e.bytes) == Some(v)
  {
    match f.lt
    case LBool => BoolRoundTrip(f, v, prior);
    case LVarint => SignedItem(f, v, prior);
    case LSvarint => SignedItem(f, v, prior);
    case LUvarint => UnsignedItem(f, v, prior);
    case LFixed32 => FixedItem(f, v, prior);
    case LFixed64 => FixedItem(f, v, prior);
    case LBytes => BytesItem(f, v, prior);
    case LString => StringItem(f, v, prior);
    case LFixedLengthBytes => BytesItem(f, v, prior);
  }

  lemma BoolRoundTrip(f: Field, v: Value, prior: Value)
    requires f.lt.LBool? && v.VBool?
    ensures var e := ItemEmit(f, v);
            e.ok && Extent(ItemShape(f.lt), e.bytes) == Some(|e.bytes|) && Item(f, prior, e.bytes) == Some(v)
  {
    var n := if v.b then 1 else 0;
    Varint.Decode32Ranges(n);
    VarintItem(n);
  }

  lemma SignedItem(f: Field, v: Value, prior: Value)
    requires (f.lt.LVarint? || f.lt.LSvarint?) && IntSize(f.dataSize) && ValueOk(f, v)
    ensures var e := ItemEmit(f, v);
            e.ok && Extent(ItemShape(f.lt), e.bytes) == Some(|e.bytes|) && Item(f, prior, e.bytes) == Some(v)
  {
    if f.lt.LVarint? {
      SignedRoundTrip(v.i, f.dataSize, if f.dataSize == 8 then 8 else 4);
      VarintItem(v.i % Varint.U64);
    } else {
      ZigZagRoundTrip(v.i, f.dataSize);
      VarintItem(ZigZag(v.i));
    }
  }

  lemma UnsignedItem(f: Field, v: Value, prior: Value)
    requires f.lt.LUvarint? && IntSize(f.dataSize) && ValueOk(f, v)
    ensures var e := ItemEmit(f, v);
            e.ok && Extent(ItemShape(f.lt), e.bytes) == Some(|e.bytes|) && Item(f, prior, e.bytes) == Some(v)
  {
    UnsignedFits(v.i, f.dataSize);
    VarintItem(v.i);
  }

  lemma FixedItem(f: Field, v: Value, prior: Value)
    requires (f.lt.LFixed32? || f.lt.LFixed64?) && ValueOk(f, v)
    ensures var e := ItemEmit(f, v);
            e.ok && Extent(ItemShape(f.lt), e.bytes) == Some(|e.bytes|) && Item(f, prior, e.bytes) == Some(v)
  {
    if f.lt.LFixed32? {
      NumberRoundTrip4(v.i);
      Fits(v.i, Varint.U32);
    } else {
      NumberRoundTrip8(v.i);
      Fits(v.i, Varint.U64);
    }
  }

  lemma BytesItem(f: Field, v: Value, prior: Value)
    requires f.at.Static? && (f.lt.LBytes? || f.lt.LFixedLengthBytes?) && f.dataSize <= PB_SIZE_MAX && ValueOk(f, v)
    ensures var e := ItemEmit(f, v);
            e.ok && Extent(ItemShape(f.lt), e.bytes) == Some(|e.bytes|) && Item(f, prior, e.bytes) == Some(v)
  {
    BodyOfDelimit(v.bytes);
    if f.lt.LBytes? {
      Fits(|v.bytes| + BytesHeader(), SIZE_T_MAX + 1);
    } else if v.bytes == [] {
      assert v.bytes == Zeros(f.dataSize);
    }
  }

  lemma StringItem(f: Field, v: Value, prior: Value)
    requires f.at.Static? && f.lt.LString? && f.dataSize <= PB_SIZE_MAX && ValueOk(f, v)
    ensures var e := ItemEmit(f, v);
            e.ok && Extent(ItemShape(f.lt), e.bytes) == Some(|e.bytes|) && Item(f, prior, e.bytes) == Some(v)
  {
    hide Extent, Body, Delimit, StrLen;
    WholeString(v.chars, f.dataSize);
    assert v.chars[..StrLen(v.chars, f.dataSize)] == v.chars;
    BodyOfDelimit(v.chars);
    Fits(|v.chars| + 1, Varint.U32);
  }

  lemma Fits(i: nat, m: nat)
    requires i < m
    ensures i % m == i
  {}

  lemma UnsignedFits(i: nat, size: nat)
    requires i < Modulus(size) && IntSize(size)
    ensures i % Varint.U64 == i && i % Modulus(size) == i && i < Varint.U64
  {
    Fits(i, Varint.U64);
    Fits(i, Modulus(size));
  }

  lemma VarintItem(v: nat)
    requires v < Varint.U64
    ensures Varint.Length(Varint.Encode(v)) == Some(|Varint.Encode(v)|)
    ensures Varint.Value64(Varint.Encode(v)) == Some(v)
  {
    Varint.Decode64InvertsEncode(v, []);
    assert Varint.Encode(v) + [] == Varint.Encode(v);
  }

  lemma {:induction false} WholeString(chars: Bytes, max: nat)
    requires |chars| < max && forall i :: 0 <= i < |chars| ==> chars[i] != 0
    ensures StrLen(chars, max) == |chars|
  {
    if chars != [] { WholeString(chars[1..], max - 1); }
  }

  // ----- Packed runs

  /** A packed run decodes to the items it was written from, if they fit. */
  lemma {:induction false} PackedRunRoundTrip(f: Field, room: nat, vs: seq<Value>)
    requires FieldOk(f) && f.lt.Packable() && forall i :: 0 <= i < |vs| ==> ValueOk(f, vs[i])
    ensures ItemsEmit(f, [], vs).ok
    ensures PackedRun(f, room, ItemsEmit(f, [], vs).bytes) == if |vs| <= room then Some(vs) else None
    decreases |vs|
  {
    if vs != [] {
      var rest := ItemsEmit(f, [], vs[1..]).bytes;
      PackedRunRoundTrip(f, if room > 0 then room - 1 else 0, vs[1..]);
      PackedStep(f, room, vs[0], rest);
      ItemsEmitStep(f, [], vs);
      assert [] + ItemEmit(f, vs[0]).bytes == ItemEmit(f, vs[0]).bytes;
      assert [vs[0]] + vs[1..] == vs;
    }
  }

  lemma ItemsEmitStep(f: Field, key: Bytes, vs: seq<Value>)
    requires vs != [] && ItemEmit(f, vs[0]).ok
    ensures ItemsEmit(f, key, vs) ==
            Emit(key + ItemEmit(f, vs[0]).bytes + ItemsEmit(f, key, vs[1..]).bytes, ItemsEmit(f, key, vs[1..]).ok)
  {}

  lemma PackedStep(f: Field, room: nat, v: Value, rest: Bytes)
    requires FieldOk(f) && f.lt.Packable() && ValueOk(f, v)
    ensures ItemEmit(f, v).ok
    ensures room == 0 ==> PackedRun(f, room, ItemEmit(f, v).bytes + rest).None?
    ensures room > 0 ==>
              var more := PackedRun(f, room - 1, rest);
              PackedRun(f, room, ItemEmit(f, v).bytes + rest) == if more.None? then None else Some([v] + more.value)
  {
    var p := ItemEmit(f, v).bytes;
    ScalarRoundTrip(f, v, Unset);
    ExtentOfPrefix(ItemShape(f.lt), p, rest);
    assert (p + rest)[..|p|] == p && (p + rest)[|p|..] == rest;
  }

  // ----- Records that add items to a repeated field

  /** The state in which field `k` has received `done` and nothing else about `st` changed. */
  function Receiving(t: Table, k: nat, st: State, done: seq<Value>): (r: State)
    requires k < |t| && |st.cells| == |t| && |done| <= t[k].arraySize
    ensures |r.cells| == |t|
  {
    var f := t[k];
    State(st.cells[Home(t, k) := ReceivingCell(f, done)], FieldAfter(f, Some(k), st),
          ReceivingCount(f, done, st.fixedCount), st.seen)
  }

  function ReceivingCell(f: Field, done: seq<Value>): Cell
    requires |done| <= f.arraySize
  {
    if f.FixedCount() then Array(done + Unsets(f.arraySize - |done|)) else Counted(done)
  }

  function ReceivingCount(f: Field, done: seq<Value>, count: nat): nat {
    if f.FixedCount() then |done| else count
  }

  function Unsets(n: nat): (vs: seq<Value>)
    ensures |vs| == n
  {
    seq(n, _ => Unset)
  }

  ghost predicate IsRepeated(t: Table, k: nat) {
    k < |t| && TableOk(t) && FieldOk(t[k]) && t[k].ht.Repeated?
  }

  /** The field with a tag is the one found by it. */
  lemma FindByTag(t: Table, k: nat)
    requires k < |t| && TableOk(t)
    ensures FieldOk(t[k]) && Find(t, t[k].tag) == Some(k)
  {
    assert FieldOk(t[k]);
    var j := Find(t, t[k].tag).value;
  }

  /** A record of a repeated field appends its items, if there is room for them. */
  lemma ReceiveRecord(t: Table, k: nat, st: State, done: seq<Value>, r: Rec)
    requires IsRepeated(t, k) && r.tag == t[k].tag
    requires |st.cells| == |t| && |done| <= t[k].arraySize
    ensures var vs := NewItems(t[k], t[k].arraySize - |done|, r);
            Step(t, Receiving(t, k, st, done), r)
            == if vs.None? then None else Some(Receiving(t, k, st, done + vs.value))
  {
    hide NewItems, CellAfter, TableOk, FieldOk, ReceivingCell, ReceivingCount, RequiredBefore;
    FindByTag(t, k);
    var f, h := t[k], Home(t, k);
    var c, n := ReceivingCell(f, done), ReceivingCount(f, done, st.fixedCount);
    ReceiveCell(f, done, st.fixedCount, r);
    var x := CellAfter(f, c, n, r);
    if x.Some? { assert st.cells[h := c][h := x.value.cell] == st.cells[h := x.value.cell]; }
  }

  lemma ReceiveCell(f: Field, done: seq<Value>, count: nat, r: Rec)
    requires f.ht.Repeated? && f.at.Static? && |done| <= f.arraySize
    ensures var vs := NewItems(f, f.arraySize - |done|, r);
            CellAfter(f, ReceivingCell(f, done), ReceivingCount(f, done, count), r)
            == if vs.None? then None
               else Some(Stored(ReceivingCell(f, done + vs.value), ReceivingCount(f, done + vs.value, count)))
  {
    var vs := NewItems(f, f.arraySize - |done|, r);
    if vs.Some? && f.FixedCount() {
      var items := done + Unsets(f.arraySize - |done|);
      assert items[..|done|] == done;
      assert items[|done| + |vs.value|..] == Unsets(f.arraySize - |done + vs.value|);
    }
  }

  // ----- Chunks

  /** Items of a repeated field as they may appear on the wire: one at a time or packed. */
  datatype Chunk = One(v: Value) | Run(vs: seq<Value>) {
    function Items(): seq<Value> {
      if One? then [v] else vs
    }
  }

  function Flatten(chunks: seq<Chunk>): seq<Value> {
    if chunks == [] then [] else chunks[0].Items() + Flatten(chunks[1..])
  }

  function ChunkRec(f: Field, c: Chunk): Rec {
    match c
    case One(v) => Rec(f.tag, WireType(f.lt), ItemEmit(f, v).bytes)
    case Run(vs) => Rec(f.tag, WT_STRING, Delimit(ItemsEmit(f, [], vs).bytes))
  }

  function ChunkRecs(f: Field, chunks: seq<Chunk>): (recs: seq<Rec>)
    ensures |recs| == |chunks|
    ensures forall i :: 0 <= i < |chunks| ==> recs[i] == ChunkRec(f, chunks[i])
  {
    seq(|chunks|, i requires 0 <= i < |chunks| => ChunkRec(f, chunks[i]))
  }

  /** A chunk of scalars whose run, if it is one, has a 32-bit size. */
  ghost predicate ChunkOk(f: Field, c: Chunk) {
    && (forall i :: 0 <= i < |c.Items()| ==> ValueOk(f, c.Items()[i]))
    && (c.Run? ==> |ItemsEmit(f, [], c.vs).bytes| < Varint.U32)
  }

  /** A record of one chunk is framed as written and carries the chunk's items. */
  lemma ChunkIsRecord(t: Table, k: nat, c: Chunk, room: nat)
    requires IsRepeated(t, k) && t[k].lt.Packable() && ChunkOk(t[k], c)
    ensures WellFramed(t, ChunkRec(t[k], c))
    ensures NewItems(t[k], room, ChunkRec(t[k], c)) == if |c.Items()| <= room then Some(c.Items()) else None
  {
    var f := t[k];
    FindByTag(t, k);
    match c
    case One(v) =>
      assert c.Items()[0] == v;
      ScalarRoundTrip(f, v, DefaultItem(f));
    case Run(vs) =>
      assert c.Items() == vs;
      PackedRunRoundTrip(f, room, vs);
      BodyOfDelimit(ItemsEmit(f, [], vs).bytes);
  }

  /** Receiving chunks one after another appends their items, exactly when all of them fit. */
  lemma {:induction false} ReceiveChunks(t: Table, k: nat, st: State, done: seq<Value>, chunks: seq<Chunk>)
    requires IsRepeated(t, k) && t[k].lt.Packable() && forall c :: c in chunks ==> ChunkOk(t[k], c)
    requires |st.cells| == |t| && |done| <= t[k].arraySize
    ensures Fold(t, Receiving(t, k, st, done), ChunkRecs(t[k], chunks))
            == if |done| + |Flatten(chunks)| <= t[k].arraySize
               then Some(Receiving(t, k, st, done + Flatten(chunks))) else None
    decreases |chunks|
  {
    hide Step, ItemsEmit, ItemEmit, WellFramed, ChunkOk, TableOk, FieldOk;
    if chunks == [] {
      assert done + [] == done;
    } else {
      var items := chunks[0].Items();
      ReceiveChunk(t, k, st, done, chunks[0]);
      if |done| + |items| <= t[k].arraySize {
        ReceiveChunks(t, k, st, done + items, chunks[1..]);
        assert done + items + Flatten(chunks[1..]) == done + Flatten(chunks);
      }
      FoldFirst(t, Receiving(t, k, st, done), ChunkRecs(t[k], chunks));
      assert ChunkRecs(t[k], chunks)[1..] == ChunkRecs(t[k], chunks[1..]);
    }
  }

  lemma FoldFirst(t: Table, st: State, recs: seq<Rec>)
    requires |st.cells| == |t| && recs != []
    ensures var a := Step(t, st, recs[0]);
            Fold(t, st, recs) == if a.None? then None else Fold(t, a.value, recs[1..])
  {}

  lemma ReceiveChunk(t: Table, k: nat, st: State, done: seq<Value>, c: Chunk)
    requires IsRepeated(t, k) && t[k].lt.Packable() && ChunkOk(t[k], c)
    requires |st.cells| == |t| && |done| <= t[k].arraySize
    ensures Step(t, Receiving(t, k, st, done), ChunkRec(t[k], c))
            == if |done| + |c.Items()| <= t[k].arraySize then Some(Receiving(t, k, st, done + c.Items())) else None
  {
    hide Step, NewItems, ItemsEmit, ItemEmit, WellFramed;
    ChunkIsRecord(t, k, c, t[k].arraySize - |done|);
    ReceiveRecord(t, k, st, done, ChunkRec(t[k], c));
  }

  /** Packing equivalence: wherever a counted repeated scalar may appear, any two ways of splitting
      the same items into packed runs and single records decode to the same result, and
      the records succeed exactly when the items fit the array. */
  lemma PackingEquivalence(
    t: Table, k: nat, cells: seq<Cell>, a: Bytes, ra: seq<Rec>, chunks: seq<Chunk>, others: seq<Chunk>, b: Bytes)
    requires IsRepeated(t, k) && !t[k].FixedCount() && t[k].lt.Packable()
    requires |cells| == |t| && SplitsInto(t, a, ra)
    requires Fold(t, Fresh(cells), ra).Some? ==>
               var c := Fold(t, Fresh(cells), ra).value.cells[Home(t, k)];
               c.Counted? && |c.items| <= t[k].arraySize
    requires (forall c :: c in chunks ==> ChunkOk(t[k], c)) && (forall c :: c in others ==> ChunkOk(t[k], c))
    requires Flatten(chunks) == Flatten(others)
    ensures NoInit(t, cells, a + RecsBytes(ChunkRecs(t[k], chunks)) + b)
         == NoInit(t, cells, a + RecsBytes(ChunkRecs(t[k], others)) + b)
    ensures Fold(t, Fresh(cells), ra).Some? ==>
              var st := Fold(t, Fresh(cells), ra).value;
              var items := st.cells[Home(t, k)].items;
              Fold(t, st, ChunkRecs(t[k], chunks))
              == if |items| + |Flatten(chunks)| <= t[k].arraySize
                 then Some(st.(cells := st.cells[Home(t, k) := Counted(items + Flatten(chunks))])) else None
  {
    ChunksSplit(t, k, chunks);
    ChunksSplit(t, k, others);
    if Fold(t, Fresh(cells), ra).Some? {
      var st, h := Fold(t, Fresh(cells), ra).value, Home(t, k);
      var items := st.cells[h].items;
      assert st.cells[h := Counted(items)] == st.cells;
      assert Receiving(t, k, st, items) == st;
      ReceiveChunks(t, k, st, items, chunks);
      ReceiveChunks(t, k, st, items, others);
    }
    ReplaceRecords(t, cells, a, ra, RecsBytes(ChunkRecs(t[k], chunks)), ChunkRecs(t[k], chunks),
                   RecsBytes(ChunkRecs(t[k], others)), ChunkRecs(t[k], others), b);
  }

  lemma ChunksSplit(t: Table, k: nat, chunks: seq<Chunk>)
    requires IsRepeated(t, k) && t[k].lt.Packable() && forall c :: c in chunks ==> ChunkOk(t[k], c)
    ensures SplitsInto(t, RecsBytes(ChunkRecs(t[k], chunks)), ChunkRecs(t[k], chunks))
  {
    forall r | r in ChunkRecs(t[k], chunks) ensures WellFramed(t, r) {
      var i :| 0 <= i < |chunks| && r == ChunkRec(t[k], chunks[i]);
      ChunkIsRecord(t, k, chunks[i], 0);
    }
    SplitInvertsRecsBytes(t, ChunkRecs(t[k], chunks));
  }
}
