/** Inputs on which the account of blocks goes wrong, and for which structs there are any. */
module Probes {
  import opened Wrappers
  import opened Config
  import opened Heap
  import opened HeapDecoder
  import opened Slips
  import opened Streams
  import Message
  import Varint
  import Wire

  // ----- Entries and the inputs that lead to them

  /** A field, and an entry of it if it is an array. */
  datatype Hop = Hop(field: nat, index: nat)

  /** The entry of a static array that a path through static submessages ends in, counted or not. */
  function EntryAt(s: Struct, path: seq<Hop>): Option<Struct>
    decreases |path|
  {
    if path == [] || path[0].field >= |s.cells| then None
    else
      match s.cells[path[0].field]
      case Inline(inner) => EntryAt(inner, path[1..])
      case InlineArray(_, items) =>
        if path[0].index >= |items| then None
        else if |path| == 1 then Some(items[path[0].index])
        else EntryAt(items[path[0].index], path[1..])
      case _ => None
  }

  /** An input that follows the path: empty entries up to the one wanted, then its key with the body that
      leads on, or with nothing behind it at the end of the path. */
  function Probe(S: Schema, id: nat, path: seq<Hop>): Varint.Bytes
    decreases |path|
  {
    if path == [] || id >= |S.tables| || path[0].field >= |S.tables[id]|
        || !S.tables[id][path[0].field].kind.Sub? then []
    else
      var f := S.tables[id][path[0].field];
      var key := Wire.KeyBytes(f.tag, Wire.WT_STRING);
      EmptyEntries(key, if f.repeated then path[0].index else 0) + key
      + if |path| == 1 then [] else Wire.Delimit(Probe(S, f.kind.id, path[1..]))
  }

  function EmptyEntries(key: Varint.Bytes, n: nat): Varint.Bytes {
    if n == 0 then [] else key + [0] + EmptyEntries(key, n - 1)
  }

  /** The tags on the path are protobuf tags, the bodies have 32-bit sizes, and the entries that are passed
      over may be empty. */
  predicate Sendable(S: Schema, id: nat, path: seq<Hop>)
    decreases |path|
  {
    && path != [] && id < |S.tables| && path[0].field < |S.tables[id]|
    && var f := S.tables[id][path[0].field];
       && f.at.Static? && f.kind.Sub? && f.tag < 0x2000_0000
       && (f.repeated && path[0].index > 0 ==> !S.Demands(f.kind.id))
       && (|path| > 1 ==> Sendable(S, f.kind.id, path[1..]) && |Probe(S, f.kind.id, path[1..])| < Varint.U32)
  }

  /** The input for the first entry of an array of the message itself is the key of the array. */
  lemma ProbeOfFirst(S: Schema, id: nat, k: nat)
    requires id < |S.tables| && k < |S.tables[id]| && S.tables[id][k].kind.Sub?
    ensures Probe(S, id, [Hop(k, 0)]) == Wire.KeyBytes(S.tables[id][k].tag, Wire.WT_STRING)
  {
    var key := Wire.KeyBytes(S.tables[id][k].tag, Wire.WT_STRING);
    assert [] + key + [] == key;
  }

  /** A message with an array of one submessage, which has one pointer field. */
  const NEST := Schema([[HField(1, Sub(1), Message.Static, false, true, 1, 1)],
                        [HField(1, Data(Wire.WT_VARINT, true), Message.Pointer, false, false, 1, 0)]], [1, 0])

  /** Such a message in which the entry, not counted, still refers to a block. */
  function Stale(block: nat): Struct {
    Struct([InlineArray(0, [Struct([Ref(To(block, Items(1)))])])])
  }

  /** There are structs that are not clean, and whose every entry can be led to. */
  lemma StaleIsNotClean(block: nat)
    ensures NEST.Ok() && NEST.Distinct() && Typed(NEST, 0, Stale(block), true) && Typed(NEST, 0, Stale(block), false)
    ensures forall path :: EntryAt(Stale(block), path).Some? <==> path == [Hop(0, 0)]
    ensures Sendable(NEST, 0, [Hop(0, 0)])
    ensures Owned(Stale(block)) == multiset{} && Owned(EntryAt(Stale(block), [Hop(0, 0)]).value) == multiset{block}
    ensures !Clean(SetDefaults(Stale(block)))
  {
    var s := Stale(block);
    var entry := s.cells[0].items[0];
    var p := entry.cells[0].p;
    assert OwnedContent(p.content) == multiset{} && OwnedCells(entry.cells[1..]) == multiset{};
    assert OwnedCell(entry.cells[0]) == OwnedPtr(p) == multiset{block};
    assert OwnedCell(s.cells[0]) == OwnedStructs(s.cells[0].items, 0) == OwnedCells(s.cells[1..]) == multiset{};
    assert !BlankCell(entry.cells[0]) && !CleanCell(SetDefaults(s).cells[0]);
    assert TypedCell(NEST, NEST.tables[1][0], entry.cells[0], false);
    assert TypedCell(NEST, NEST.tables[0][0], s.cells[0], true);
    TypedEverywhere(NEST, 0, s);
    forall path: seq<Hop> ensures EntryAt(s, path).Some? <==> path == [Hop(0, 0)] { OnlyEntry(block, path); }
  }

  lemma OnlyEntry(block: nat, path: seq<Hop>)
    ensures EntryAt(Stale(block), path).Some? <==> path == [Hop(0, 0)]
  {
    var entry := Stale(block).cells[0].items[0];
    if |path| > 1 { assert EntryAt(entry, path[1..]).None?; }
  }

  /** What stands behind the keys of a path. */
  function Tail(S: Schema, id: nat, path: seq<Hop>): Varint.Bytes {
    if |path| <= 1 then [] else Wire.Delimit(Probe(S, id, path[1..]))
  }

  /** The first hop of a path that leads to an entry. */
  lemma FirstHop(S: Schema, id: nat, s: Struct, path: seq<Hop>)
    requires S.Ok() && Typed(S, id, s, false) && Sendable(S, id, path) && EntryAt(s, path).Some?
    ensures path != [] && id < |S.tables| && path[0].field < |s.cells| == |S.tables[id]|
    ensures var f, c := S.tables[id][path[0].field], s.cells[path[0].field];
            && f.at.Static? && f.kind.Sub? && f.tag < 0x2000_0000 && f.arraySize <= PB_SIZE_MAX
            && (|path| > 1 ==> |Probe(S, f.kind.id, path[1..])| < Varint.U32 && Sendable(S, f.kind.id, path[1..]))
            && (if f.repeated then
                  && c.InlineArray? && path[0].index < |c.items| == f.arraySize
                  && (path[0].index > 0 ==> !S.Demands(f.kind.id))
                  && Typed(S, f.kind.id, c.items[path[0].index], false)
                  && EntryAt(s, path)
                     == if |path| == 1 then Some(c.items[path[0].index]) else EntryAt(c.items[path[0].index], path[1..])
                else
                  c.Inline? && |path| > 1 && Typed(S, f.kind.id, c.s, false)
                      && EntryAt(s, path) == EntryAt(c.s, path[1..]))
            && var key := Wire.KeyBytes(f.tag, Wire.WT_STRING);
               Probe(S, id, path)
               == EmptyEntries(key, if f.repeated then path[0].index else 0) + key + Tail(S, f.kind.id, path)
  {
    var f, c := S.tables[id][path[0].field], s.cells[path[0].field];
    assert S.FieldOk(id, f) && TypedCell(S, f, c, false);
  }

  lemma DefaultAt(s: Struct, k: nat)
    requires k < |s.cells|
    ensures |SetDefaults(s).cells| == |s.cells|
    ensures SetDefaults(s).cells[k] ==
            match s.cells[k]
            case Flat => Flat
            case Inline(inner) => Inline(SetDefaults(inner))
            case InlineArray(_, items) => InlineArray(0, items)
            case Ref(_) => Ref(Null)
            case RefArray(_, _) => RefArray(0, Null)
  {}

  /** Decoding a probe into any struct is bound to count the entry at its end as it was. */
  lemma {:induction false} ProbeIsForeseen(S: Schema, id: nat, s: Struct, path: seq<Hop>)
    requires S.Ok() && S.Distinct() && Typed(S, id, s, false) && Sendable(S, id, path) && EntryAt(s, path).Some?
    ensures Foreseen(S, id, SetDefaults(s), Probe(S, id, path)) == Counted(EntryAt(s, path).value)
    decreases |path|, 1
  {
    hide Foreseen, ForeseenSub, AfterEmpty, Schema.Distinct, Schema.Demands, Owned, Typed, TypedCell, Sendable,
        EntryAt, Probe;
    FirstHop(S, id, s, path);
    var k := path[0].field;
    var f, c := S.tables[id][k], s.cells[k];
    DefaultAt(s, k);
    if f.repeated {
      ProbeEntries(S, id, s, path, SetDefaults(s), 0);
    } else {
      var key, tail := Wire.KeyBytes(f.tag, Wire.WT_STRING), Tail(S, f.kind.id, path);
      assert EmptyEntries(key, 0) + key + tail == key + tail;
      FrontOfProbe(S, id, SetDefaults(s), k, tail);
      ProbeIsForeseen(S, f.kind.id, c.s, path[1..]);
      BodyForeseen(S, f.kind.id, SetDefaults(c.s), false, Probe(S, f.kind.id, path[1..]));
    }
  }

  /** A body is decoded into the submessage, or into the defaults of a new entry. */
  lemma BodyForeseen(S: Schema, id: nat, s: Struct, entry: bool, body: Varint.Bytes)
    requires |body| < Varint.U32
    ensures ForeseenSub(S, id, s, entry, Wire.Delimit(body))
        == Foreseen(S, id, if entry then SetDefaults(s) else s, body)
  {
    hide Foreseen;
    AnnouncedIsBody(body, []);
    assert Wire.Delimit(body) + [] == Wire.Delimit(body);
  }

  /** The same for an array whose first `j` entries have been passed over. */
  lemma {:induction false} ProbeEntries(S: Schema, id: nat, s: Struct, path: seq<Hop>, d: Struct, j: nat)
    requires S.Ok() && S.Distinct() && Typed(S, id, s, false) && Sendable(S, id, path) && EntryAt(s, path).Some?
    requires S.tables[id][path[0].field].repeated && |d.cells| == |s.cells| && j <= path[0].index
    requires var c, c' := s.cells[path[0].field], d.cells[path[0].field];
             && c.InlineArray? && c'.InlineArray? && c'.count == j && |c'.items| == |c.items|
             && forall i :: j <= i < |c.items| ==> c'.items[i] == c.items[i]
    ensures var f := S.tables[id][path[0].field];
            var key := Wire.KeyBytes(f.tag, Wire.WT_STRING);
            Foreseen(S, id, d, EmptyEntries(key, path[0].index - j) + key + Tail(S, f.kind.id, path))
            == Counted(EntryAt(s, path).value)
    decreases |path|, 0, path[0].index - j
  {
    hide Foreseen, ForeseenField, ForeseenSub, AfterEmpty, Schema.Distinct, Schema.Demands, Owned, Typed, TypedCell,
      Sendable, EntryAt, Probe, SetDefaults;
    FirstHop(S, id, s, path);
    var k, index := path[0].field, path[0].index;
    var f, c, c' := S.tables[id][k], s.cells[k], d.cells[k];
    var key, tail := Wire.KeyBytes(f.tag, Wire.WT_STRING), Tail(S, f.kind.id, path);
    if j == index {
      assert EmptyEntries(key, 0) + key + tail == key + tail;
      FrontOfProbe(S, id, d, k, tail);
      if |path| > 1 { ProbeIsForeseen(S, f.kind.id, c.items[index], path[1..]); }
      LastHop(S, f, c', path, tail);
    } else {
      var rest := EmptyEntries(key, index - j - 1) + key + tail;
      assert EmptyEntries(key, index - j) + key + tail == key + ([0] + rest);
      FrontOfProbe(S, id, d, k, [0] + rest);
      EmptyEntry(S, f, c', rest);
      var d' := Struct(d.cells[k := AfterEmpty(S, f, c', [0] + rest).value.0]);
      ProbeEntries(S, id, s, path, d', j + 1);
    }
  }

  /** The entry that the path goes through or ends in. */
  lemma LastHop(S: Schema, f: HField, c: Cell, path: seq<Hop>, tail: Varint.Bytes)
    requires f.at.Static? && f.kind.Sub? && f.repeated && c.InlineArray?
    requires path != [] && c.count == path[0].index < |c.items| == f.arraySize && tail == Tail(S, f.kind.id, path)
    requires |path| > 1 ==> |Probe(S, f.kind.id, path[1..])| < Varint.U32
    ensures ForeseenField(S, f, c, tail) ==
            if |path| == 1 then Counted(c.items[c.count])
            else Foreseen(S, f.kind.id, SetDefaults(c.items[c.count]), Probe(S, f.kind.id, path[1..]))
  {
    hide Foreseen, Probe;
    if |path| > 1 {
      BodyForeseen(S, f.kind.id, c.items[c.count], true, Probe(S, f.kind.id, path[1..]));
    } else {
      assert Announced([]).None?;
    }
  }

  /** The record at the front of a probe. */
  lemma FrontOfProbe(S: Schema, id: nat, d: Struct, k: nat, rest: Varint.Bytes)
    requires S.Distinct() && id < |S.tables| && k < |S.tables[id]| == |d.cells| && S.tables[id][k].tag < 0x2000_0000
    ensures var f, c := S.tables[id][k], d.cells[k];
            var x, next := ForeseenField(S, f, c, rest), AfterEmpty(S, f, c, rest);
            Foreseen(S, id, d, Wire.KeyBytes(f.tag, Wire.WT_STRING) + rest) ==
            if !x.NoSlip? || next.None? then x else Foreseen(S, id, Struct(d.cells[k := next.value.0]), next.value.1)
  {
    hide ForeseenField, AfterEmpty;
    Wire.ReadKeyInvertsKeyBytes(S.tables[id][k].tag, Wire.WT_STRING, rest);
    OnlyField(S, id, k);
  }

  lemma EmptyEntry(S: Schema, f: HField, c: Cell, rest: Varint.Bytes)
    requires f.at.Static? && f.kind.Sub? && f.repeated && c.InlineArray? && c.count < f.arraySize <= PB_SIZE_MAX
    requires c.count < |c.items| && !S.Demands(f.kind.id)
    ensures ForeseenField(S, f, c, [0] + rest).NoSlip?
    ensures AfterEmpty(S, f, c, [0] + rest)
         == Some((InlineArray(c.count + 1, c.items[c.count := SetDefaults(c.items[c.count])]), rest))
  {
    assert Wire.Delimit([]) == [0];
    AnnouncedIsBody([], rest);
    CountsOn(c.count);
    NothingForeseen(S, f.kind.id, SetDefaults(c.items[c.count]));
  }

  lemma NothingForeseen(S: Schema, id: nat, s: Struct)
    ensures Foreseen(S, id, s, []).NoSlip?
  {
    assert Wire.ReadKey([]).BadKey?;
  }

  // ----- Which structs are safe

  /** Into a clean struct nothing is bound to gain a block. */
  lemma {:induction false} CleanGainsNothing(S: Schema, id: nat, s: Struct, bytes: Varint.Bytes)
    requires S.Ok() && Clean(s)
    ensures Gain(Foreseen(S, id, s, bytes)) == multiset{}
    decreases |bytes|, 1
  {
    match Wire.ReadKey(bytes)
    case Key(tag, _, rest) =>
      if id < |S.tables| && FieldOf(S.tables[id], tag).Some? && FieldOf(S.tables[id], tag).value < |s.cells| {
        var k := FieldOf(S.tables[id], tag).value;
        var f, c := S.tables[id][k], s.cells[k];
        assert CleanCell(c) && S.FieldOk(id, f);
        CleanFieldGainsNothing(S, f, c, rest);
        var next := AfterEmpty(S, f, c, rest);
        if next.Some? {
          AfterEmptyIsClean(S, f, c, rest);
          CleanGainsNothing(S, id, Struct(s.cells[k := next.value.0]), next.value.1);
        }
      }
    case _ =>
  }

  lemma CleanFieldGainsNothing(S: Schema, f: HField, c: Cell, rest: Varint.Bytes)
    requires S.Ok() && CleanCell(c)
    ensures Gain(ForeseenField(S, f, c, rest)) == multiset{}
    decreases |rest|, 0
  {
    if f.at.Static? && f.kind.Sub? {
      if f.repeated && c.InlineArray? && c.count < f.arraySize && c.count < |c.items| {
        var entry := c.items[c.count];
        BlankOwnsNothing(entry);
        DefaultsOfBlank(entry);
        if Announced(rest).Some? { CleanGainsNothing(S, f.kind.id, SetDefaults(entry), Announced(rest).value.0); }
      } else if !f.repeated && c.Inline? && Announced(rest).Some? {
        CleanGainsNothing(S, f.kind.id, c.s, Announced(rest).value.0);
      }
    }
  }

  lemma AfterEmptyIsClean(S: Schema, f: HField, c: Cell, rest: Varint.Bytes)
    requires CleanCell(c) && AfterEmpty(S, f, c, rest).Some? && f.arraySize <= PB_SIZE_MAX
    ensures CleanCell(AfterEmpty(S, f, c, rest).value.0)
  {
    hide Clean, Blank, SetDefaults;
    CountsOn(c.count);
    DefaultsOfBlank(c.items[c.count]);
  }

  /** No entry of a static array owns a block. */
  ghost predicate Quiet(s: Struct) {
    forall path: seq<Hop> :: EntryAt(s, path).Some? ==> Owned(EntryAt(s, path).value) == multiset{}
  }

  lemma QuietInside(s: Struct, hop: Hop, inner: Struct)
    requires Quiet(s) && hop.field < |s.cells|
    requires var c := s.cells[hop.field];
             c == Inline(inner) || (c.InlineArray? && hop.index < |c.items| && c.items[hop.index] == inner)
    ensures Quiet(inner)
  {
    forall path: seq<Hop> | EntryAt(inner, path).Some? ensures Owned(EntryAt(inner, path).value) == multiset{} {
      assert ([hop] + path)[1..] == path;
      assert EntryAt(s, [hop] + path) == EntryAt(inner, path);
    }
  }

  lemma {:induction false} QuietIsBlank(s: Struct)
    requires Quiet(s) && Owned(s) == multiset{}
    ensures Blank(s)
    decreases s
  {
    forall k | 0 <= k < |s.cells| ensures BlankCell(s.cells[k]) {
      OwnedCellsAt(s.cells, k);
      match s.cells[k]
      case Inline(inner) =>
        QuietInside(s, Hop(k, 0), inner);
        QuietIsBlank(inner);
      case InlineArray(_, items) => EntriesAreBlank(s, k);
      case Ref(p) => NullOwnsNothing(p);
      case RefArray(_, p) => NullOwnsNothing(p);
      case Flat =>
    }
  }

  lemma EntriesAreBlank(s: Struct, k: nat)
    requires Quiet(s) && k < |s.cells| && s.cells[k].InlineArray?
    ensures forall i :: 0 <= i < |s.cells[k].items| ==> Blank(s.cells[k].items[i])
    decreases s, 0
  {
    var items := s.cells[k].items;
    forall i | 0 <= i < |items| ensures Blank(items[i]) {
      assert EntryAt(s, [Hop(k, i)]) == Some(items[i]);
      QuietInside(s, Hop(k, i), items[i]);
      QuietIsBlank(items[i]);
    }
  }

  lemma {:induction false} QuietIsClean(s: Struct)
    requires Quiet(s)
    ensures Clean(SetDefaults(s))
    decreases s
  {
    forall k | 0 <= k < |s.cells| ensures CleanCell(DefaultCell(s.cells[k])) {
      match s.cells[k]
      case Inline(inner) =>
        QuietInside(s, Hop(k, 0), inner);
        QuietIsClean(inner);
      case InlineArray(_, items) => EntriesAreBlank(s, k);
      case _ =>
    }
  }

  /** If every entry can be led to, then the structs into which no input is bound to make pb_decode gain a
      block are exactly the clean ones. */
  lemma CleanExactly(S: Schema, id: nat, s: Struct)
    requires S.Ok() && S.Distinct() && Typed(S, id, s, false)
    requires forall path :: EntryAt(s, path).Some? ==> Sendable(S, id, path)
    ensures Clean(SetDefaults(s)) <==>
            forall bytes: Varint.Bytes :: Gain(Foreseen(S, id, SetDefaults(s), bytes)) == multiset{}
  {
    if Clean(SetDefaults(s)) {
      forall bytes: Varint.Bytes ensures Gain(Foreseen(S, id, SetDefaults(s), bytes)) == multiset{} {
        CleanGainsNothing(S, id, SetDefaults(s), bytes);
      }
    } else if Quiet(s) {
      QuietIsClean(s);
    } else {
      var path: seq<Hop> :| EntryAt(s, path).Some? && Owned(EntryAt(s, path).value) != multiset{};
      ProbeIsForeseen(S, id, s, path);
      assert Gain(Foreseen(S, id, SetDefaults(s), Probe(S, id, path))) != multiset{};
    }
  }

  // ----- Runs that go wrong

  /** pb_decode on a probe fails, and its release frees every block the entry at the end refers to.  Those that
      were live were not allocated by this decode; the others are freed a second time. */
  method StaleRun(alloc: Allocator, S: Schema, id: nat, s: Struct, path: seq<Hop>) returns (ok: bool, r: Struct)
    requires alloc.Valid() && S.Ok() && S.Distinct() && Typed(S, id, s, false)
    requires Sendable(S, id, path) && EntryAt(s, path).Some?
    modifies alloc
    ensures !ok && Owned(r) == multiset{}
    ensures forall b :: b in Owned(EntryAt(s, path).value) ==>
              b !in alloc.live && (b in old(alloc.live) || alloc.faults[b] > old(alloc.faults)[b])
    ensures alloc.live == old(alloc.live) && alloc.faults == old(alloc.faults)
        <==> Owned(EntryAt(s, path).value) == multiset{}
  {
    hide Typed, Clean, Blank, Owned, SetDefaults, Foreseen, FaultsAreDead, Schema.Distinct, Schema.Roomy, Probe,
        EntryAt,
      Sendable;
    ProbeIsForeseen(S, id, s, path);
    var stream := new IStream(Probe(S, id, path));
    ok, r := DecodeMessage(alloc, S, id, s, stream);
    ghost var gain := Owned(EntryAt(s, path).value);
    forall b | b in gain ensures b !in alloc.live && (b in old(alloc.live) || alloc.faults[b] > old(alloc.faults)[b]) {
      GainedAreFreed(old(alloc.live), alloc.live, old(alloc.gained), gain, old(alloc.faults), alloc.faults,
          alloc.lost, b);
    }
    AddedNothing(old(alloc.gained), gain);
  }

  lemma GainedAreFreed(l0: set<nat>, l1: set<nat>, gained: multiset<nat>, gain: multiset<nat>,
                       faults0: multiset<nat>, faults1: multiset<nat>, lost: multiset<nat>, b: nat)
    requires Balance(Book(multiset(l0) + gained, faults0 + lost), Book(multiset(l1) + (gained + gain), faults1 + lost),
                     multiset{}, multiset{})
    requires faults0 == faults1 || FaultsAreDead(faults0, faults1, l1)
    requires gain[b] > 0
    ensures b !in l1 && (b in l0 || faults1[b] > faults0[b])
  {
    assert (multiset(l1) + (gained + gain) + (faults0 + lost) + multiset{})[b]
        == (multiset(l0) + gained + (faults1 + lost) + multiset{})[b];
    assert multiset(l0)[b] <= 1;
  }

  lemma AddedNothing(a: multiset<nat>, x: multiset<nat>)
    ensures a + x == a <==> x == multiset{}
  {
    if a + x == a {
      forall e ensures x[e] == 0 { assert (a + x)[e] == a[e]; }
    }
  }

  /** pb_decode_noinit, then pb_release, where the first record is one more for an array of PB_SIZE_MAX entries
      that is full: the blocks of its entries stay live, and nothing refers to them any more. */
  method OverflowRun(alloc: Allocator, S: Schema, id: nat, s: Struct, k: nat, wireType: nat, rest: Varint.Bytes)
    returns (ok: bool, r: Struct)
    requires alloc.Valid() && S.Ok() && S.Distinct() && Typed(S, id, s, true) && Owned(s) <= multiset(alloc.live)
    requires k < |s.cells| && s.cells[k].InlineArray? && s.cells[k].count == PB_SIZE_MAX
    requires S.tables[id][k].tag < 0x2000_0000 && wireType < 8 && 8 * S.tables[id][k].tag + wireType > 0
    modifies alloc
    ensures !ok && Owned(r) == multiset{} && alloc.faults == old(alloc.faults)
    ensures forall b :: b in OwnedStructs(s.cells[k].items, |s.cells[k].items|) ==> b in alloc.live
    ensures forall b :: b in Owned(s) && b !in OwnedStructs(s.cells[k].items, |s.cells[k].items|) ==> b !in alloc.live
  {
    hide Typed, Clean, Blank, Owned, Foreseen, FaultsAreDead, Balance, Schema.Distinct, Schema.Roomy, OwnedStructs;
    ghost var items := s.cells[k].items;
    TypedShape(S, id, s);
    FullArray(S, id, s, k, wireType, rest);
    var stream := new IStream(Wire.KeyBytes(S.tables[id][k].tag, wireType) + rest);
    ok, r := DecodeNoInit(alloc, S, id, s, stream);
    ghost var b1, live, faults, held := alloc.Books(), alloc.live, alloc.faults, Owned(r);
    ghost var lost := OwnedStructs(items, |items|);
    assert alloc.gained == old(alloc.gained);
    OwnedIsLive(old(alloc.live), live, alloc.gained, faults, old(alloc.lost), alloc.lost, Owned(s), held);
    r := ReleaseStruct(alloc, S, id, r);
    FreesLive(live, alloc.live, alloc.gained, faults, alloc.faults, alloc.lost, held);
    BalanceTwice(old(alloc.Books()), b1, alloc.Books(), Owned(s), held, multiset{});
    forall b | b in Owned(s) ensures b in alloc.live <==> b in lost {
      LostStayLive(old(alloc.live), alloc.live, alloc.gained, alloc.faults, old(alloc.lost), lost, Owned(s), b);
    }
    forall b | b in lost ensures b in Owned(s) { assert lost[b] <= Owned(s)[b]; }
  }

  lemma LostStayLive(l0: set<nat>, l1: set<nat>, gained: multiset<nat>, faults: multiset<nat>,
                     lost0: multiset<nat>, lost: multiset<nat>, before: multiset<nat>, b: nat)
    requires Balance(Book(multiset(l0) + gained, faults + lost0), Book(multiset(l1) + gained, faults + (lost0 + lost)),
                     before, multiset{})
    requires before <= multiset(l0) && lost <= before && before[b] > 0
    ensures b in l1 <==> b in lost
  {
    assert (multiset(l1) + gained + (faults + lost0) + before)[b]
        == (multiset(l0) + gained + (faults + (lost0 + lost)) + multiset{})[b];
    assert before[b] <= multiset(l0)[b] <= 1 && lost[b] <= before[b];
  }

  lemma FullArray(S: Schema, id: nat, s: Struct, k: nat, wireType: nat, rest: Varint.Bytes)
    requires S.Ok() && S.Distinct() && Typed(S, id, s, true) && k < |s.cells|
    requires s.cells[k].InlineArray? && s.cells[k].count == PB_SIZE_MAX
    requires S.tables[id][k].tag < 0x2000_0000 && wireType < 8 && 8 * S.tables[id][k].tag + wireType > 0
    ensures Foreseen(S, id, s, Wire.KeyBytes(S.tables[id][k].tag, wireType) + rest) == Wrapped(s.cells[k].items)
    ensures OwnedStructs(s.cells[k].items, |s.cells[k].items|) <= Owned(s)
  {
    var f, c := S.tables[id][k], s.cells[k];
    assert TypedCell(S, f, c, true) && S.FieldOk(id, f);
    Wire.ReadKeyInvertsKeyBytes(f.tag, wireType, rest);
    OnlyField(S, id, k);
    OwnedCellsAt(s.cells, k);
  }
}
