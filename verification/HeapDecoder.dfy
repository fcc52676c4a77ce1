/** pb_release and the decoder's allocations (pb_decode.c:482-675, 1075-1087, 1154-1259, 1431-1525).
    Whether the decoder accepts the value of an item is left open, so every result holds
    whichever items are rejected. */
module HeapDecoder {
  import opened Wrappers
  import opened Config
  import opened Forms
  import opened Heap
  import opened Slips
  import opened Streams
  import Varint
  import Wire

  // ----- Allocation

  /** The overflow check of allocate_field, which divides only when a size needs more than half
      of the bits: it lets through exactly the products that fit in a size_t. */
  predicate SizesFit(dataSize: nat, arraySize: nat): (fits: bool)
    requires 0 < dataSize <= SIZE_T_MAX && 0 < arraySize <= SIZE_T_MAX
    ensures fits <==> dataSize * arraySize <= SIZE_T_MAX
  {
    var checkLimit := if SIZE_T_MAX == 0xFFFF_FFFF then 0x1_0000 else 0x1_0000_0000;
    if dataSize >= checkLimit || arraySize >= checkLimit then
      QuotientFits(SIZE_T_MAX, dataSize, arraySize);
      !(SIZE_T_MAX / arraySize < dataSize)
    else
      SmallProduct(dataSize, arraySize, checkLimit - 1);
      true
  }

  lemma QuotientFits(max: nat, a: nat, b: nat)
    requires b > 0
    ensures max / b >= a <==> a * b <= max
  {
    var q := max / b;
    assert q * b <= max < (q + 1) * b;
    if q >= a { assert q * b >= a * b; } else { assert a * b >= (q + 1) * b; }
  }

  lemma SmallProduct(a: nat, b: nat, m: nat)
    requires a <= m && b <= m
    ensures a * b <= m * m
  {
    assert a * b <= m * b <= m * m;
  }

  function Name(p: Ptr): multiset<nat> {
    if p.To? then multiset{p.block} else multiset{}
  }

  function Behind(p: Ptr): multiset<nat> {
    if p.To? then OwnedContent(p.content) else multiset{}
  }

  /** allocate_field: allocates a block, or replaces the one `p` points to. */
  method AllocateField(alloc: Allocator, p: Ptr, dataSize: nat, arraySize: nat) returns (ok: bool, block: nat)
    requires alloc.Valid() && OwnedPtr(p) <= multiset(alloc.live)
    requires dataSize <= SIZE_T_MAX && arraySize <= SIZE_T_MAX
    modifies alloc
    ensures Steady(alloc)
    ensures ok ==> 0 < dataSize * arraySize <= SIZE_T_MAX
    ensures Conserves(alloc, OwnedPtr(p), if ok then multiset{block} + Behind(p) else OwnedPtr(p))
    ensures !ok ==> alloc.live == old(alloc.live)
    ensures !ok && dataSize > 0 && arraySize > 0 ==> Refused(alloc)
  {
    block := 0;
    if dataSize == 0 || arraySize == 0 { return false, block; }
    if !SizesFit(dataSize, arraySize) {
      alloc.Refuse();
      return false, block;
    }
    ghost var live := alloc.live;
    if p.To? { assert OwnedPtr(p)[p.block] > 0; }
    ok, block := alloc.Realloc(p, dataSize * arraySize);
    if ok { Reallocated(live, alloc.live, alloc.faults, alloc.gained, alloc.lost, p, block); }
  }

  lemma Reallocated(l0: set<nat>, l1: set<nat>, faults: multiset<nat>, gained: multiset<nat>, lost: multiset<nat>,
                    p: Ptr, block: nat)
    requires multiset(l1) + Name(p) == multiset(l0) + multiset{block}
    ensures Balance(Book(multiset(l0) + gained, faults + lost), Book(multiset(l1) + gained, faults + lost),
                    OwnedPtr(p), multiset{block} + Behind(p))
  {
    assert OwnedPtr(p) == Name(p) + Behind(p);
    forall e
      ensures (multiset(l1) + gained + (faults + lost) + OwnedPtr(p))[e]
           == (multiset(l0) + gained + (faults + lost) + (multiset{block} + Behind(p)))[e]
    {
      assert (multiset(l1) + Name(p))[e] == (multiset(l0) + multiset{block})[e];
    }
  }

  // ----- Releasing

  /** pb_free of a block that refers to no other. */
  method FreeOne(alloc: Allocator, p: Ptr)
    requires alloc.Valid() && Behind(p) == multiset{}
    modifies alloc
    ensures Frees(alloc, OwnedPtr(p))
  {
    hide OwnedPtr, Balance, FaultsAreDead;
    ghost var live, faults := alloc.live, alloc.faults;
    alloc.Free(p);
    OneFreed(live, alloc.live, faults, alloc.faults, alloc.gained, alloc.lost, p);
  }

  lemma OneFreed(l0: set<nat>, l1: set<nat>, faults0: multiset<nat>, faults1: multiset<nat>, gained: multiset<nat>,
                 lost: multiset<nat>, p: Ptr)
    requires Behind(p) == multiset{}
    requires l1 == l0 - (if p.To? then {p.block} else {})
    requires faults1 == faults0 + (if p.To? && p.block !in l0 then multiset{p.block} else multiset{})
    ensures Balance(Book(multiset(l0) + gained, faults0 + lost), Book(multiset(l1) + gained, faults1 + lost),
                    OwnedPtr(p), multiset{})
    ensures FaultsAreDead(faults0, faults1, l1)
  {
    assert OwnedPtr(p) == Name(p) + Behind(p);
    forall e
      ensures (multiset(l1) + gained + (faults0 + lost) + OwnedPtr(p))[e]
           == (multiset(l0) + gained + (faults1 + lost) + multiset{})[e]
    {
      assert multiset(l0)[e] == if e in l0 then 1 else 0;
      assert multiset(l1)[e] == if e in l1 then 1 else 0;
    }
  }

  /** pb_release: it frees what the struct refers to and nothing else, and afterwards the struct
      refers to no block.  A clean struct then names none at all. */
  method ReleaseStruct(alloc: Allocator, S: Schema, id: nat, s: Struct) returns (r: Struct)
    requires alloc.Valid() && S.Ok() && Typed(S, id, s, false)
    modifies alloc
    ensures Frees(alloc, Owned(s))
    ensures Owned(r) == multiset{} && Typed(S, id, r, false) && (Clean(s) ==> Blank(r))
    decreases s, 1
  {
    hide Balance, CellsReleased, FaultsAreDead, TypedCell, CleanCell;
    var cells := s.cells;
    var k := 0;
    NoMoreFaults(alloc.faults, alloc.live);
    Unmoved(alloc.Books(), Owned(s));
    NoneReleased(S, id, s);
    while k < |S.tables[id]|
      invariant k <= |cells| == |s.cells| && CellsReleased(S, id, s, cells, k)
      invariant Conserves(alloc, Owned(s), OwnedCells(cells)) && OnlyFrees(alloc)
    {
      ghost var b, live, faults := alloc.Books(), alloc.live, alloc.faults;
      CellToRelease(S, id, s, cells, k);
      var cell := ReleaseField(alloc, S, S.tables[id][k], s.cells[k]);
      CellChanged(old(alloc.Books()), b, alloc.Books(), Owned(s), cells, k, cell);
      MoreFaults(old(alloc.faults), faults, alloc.faults, live, alloc.live);
      OneMoreReleased(S, id, s, cells, k, cell);
      cells := cells[k := cell];
      k := k + 1;
    }
    AllReleased(S, id, s, cells);
    r := Struct(cells);
  }

  /** The cells before `k` have been released, the others are as they were. */
  ghost predicate CellsReleased(S: Schema, id: nat, s: Struct, cells: seq<Cell>, k: nat) {
    && id < |S.tables| && |cells| == |s.cells| == |S.tables[id]| && k <= |cells|
    && (forall j :: 0 <= j < k ==> OwnedCell(cells[j]) == multiset{} && (CleanCell(s.cells[j]) ==> BlankCell(cells[j])))
    && (forall j :: k <= j < |cells| ==> cells[j] == s.cells[j])
    && (forall j :: 0 <= j < |cells| ==> TypedCell(S, S.tables[id][j], cells[j], false))
  }

  lemma NoneReleased(S: Schema, id: nat, s: Struct)
    requires Typed(S, id, s, false)
    ensures CellsReleased(S, id, s, s.cells, 0)
  {
    hide TypedCell, OwnedCell;
  }

  lemma CellToRelease(S: Schema, id: nat, s: Struct, cells: seq<Cell>, k: nat)
    requires S.Ok() && CellsReleased(S, id, s, cells, k) && k < |cells|
    ensures cells[k] == s.cells[k] && TypedCell(S, S.tables[id][k], s.cells[k], false)
    ensures S.FieldOk(id, S.tables[id][k])
  {
    hide TypedCell, OwnedCell;
  }

  lemma OneMoreReleased(S: Schema, id: nat, s: Struct, cells: seq<Cell>, k: nat, c: Cell)
    requires CellsReleased(S, id, s, cells, k) && k < |cells| && TypedCell(S, S.tables[id][k], c, false)
    requires OwnedCell(c) == multiset{} && (CleanCell(s.cells[k]) ==> BlankCell(c))
    ensures CellsReleased(S, id, s, cells[k := c], k + 1)
  {
    hide TypedCell, OwnedCell, CleanCell, BlankCell;
  }

  lemma AllReleased(S: Schema, id: nat, s: Struct, cells: seq<Cell>)
    requires CellsReleased(S, id, s, cells, |cells|)
    ensures OwnedCells(cells) == multiset{} && Typed(S, id, Struct(cells), false)
    ensures Clean(s) ==> Blank(Struct(cells))
  {
    hide TypedCell, OwnedCell, CleanCell, BlankCell;
    NothingOwned(cells);
  }

  /** Releasing what owns nothing frees nothing. */
  lemma NothingFreed(l0: set<nat>, l1: set<nat>, gained: multiset<nat>, faults0: multiset<nat>, faults1: multiset<nat>,
                     lost: multiset<nat>)
    requires Balance(Book(multiset(l0) + gained, faults0 + lost), Book(multiset(l1) + gained, faults1 + lost),
                     multiset{}, multiset{})
    requires FaultsAreDead(faults0, faults1, l1)
    ensures l0 == l1 && faults0 == faults1
  {
    FreesLive(l0, l1, gained, faults0, faults1, lost, multiset{});
    forall e ensures e in l0 <==> e in l1 {
      assert (multiset(l1) + gained + (faults0 + lost) + multiset{})[e]
          == (multiset(l0) + gained + (faults1 + lost) + multiset{})[e];
    }
  }

  lemma NoMoreFaults(faults: multiset<nat>, live: set<nat>)
    ensures FaultsAreDead(faults, faults, live)
  {}

  /** The loop over the entries of an array of submessages. */
  method ReleaseStructs(alloc: Allocator, S: Schema, id: nat, items: seq<Struct>, count: nat) returns (r: seq<Struct>)
    requires alloc.Valid() && S.Ok() && count <= |items|
    requires forall i :: 0 <= i < |items| ==> Typed(S, id, items[i], false)
    modifies alloc
    ensures Frees(alloc, OwnedStructs(items, count))
    ensures |r| == |items| && OwnedStructs(r, count) == multiset{}
    ensures forall i :: 0 <= i < count && Clean(items[i]) ==> Blank(r[i])
    ensures forall i :: count <= i < |items| ==> r[i] == items[i]
    ensures forall i :: 0 <= i < |r| ==> Typed(S, id, r[i], false)
    decreases items, 0
  {
    hide Balance, Typed, Clean, Blank, Owned, OwnedStructs, FaultsAreDead;
    r := items;
    var i := 0;
    NoMoreFaults(alloc.faults, alloc.live);
    Unmoved(alloc.Books(), OwnedStructs(items, count));
    while i < count
      invariant i <= count && |r| == |items|
      invariant Conserves(alloc, OwnedStructs(items, count), OwnedStructs(r, count)) && OnlyFrees(alloc)
      invariant forall j :: 0 <= j < i ==> Owned(r[j]) == multiset{} && (Clean(items[j]) ==> Blank(r[j]))
      invariant forall j :: i <= j < |r| ==> r[j] == items[j]
      invariant forall j :: 0 <= j < |r| ==> Typed(S, id, r[j], false)
    {
      ghost var b, live, faults := alloc.Books(), alloc.live, alloc.faults;
      var s := ReleaseStruct(alloc, S, id, items[i]);
      StructChanged(old(alloc.Books()), b, alloc.Books(), OwnedStructs(items, count), r, count, i, s);
      MoreFaults(old(alloc.faults), faults, alloc.faults, live, alloc.live);
      r := r[i := s];
      i := i + 1;
    }
    NothingOwnedBy(r, count);
  }

  /** The loop over the entries of an array of strings or byte strings. */
  method FreeTexts(alloc: Allocator, ptrs: seq<Ptr>) returns (r: seq<Ptr>)
    requires alloc.Valid() && forall i :: 0 <= i < |ptrs| ==> IsText(ptrs[i])
    modifies alloc
    ensures Frees(alloc, OwnedPtrs(ptrs)) && OwnedPtrs(r) == multiset{}
  {
    hide Balance, OwnedPtrs, FaultsAreDead;
    r := ptrs;
    var i := 0;
    NoMoreFaults(alloc.faults, alloc.live);
    Unmoved(alloc.Books(), OwnedPtrs(ptrs));
    while i < |ptrs|
      invariant i <= |r| == |ptrs|
      invariant Conserves(alloc, OwnedPtrs(ptrs), OwnedPtrs(r)) && OnlyFrees(alloc)
      invariant forall j :: 0 <= j < i ==> r[j] == Null
      invariant forall j :: i <= j < |r| ==> r[j] == ptrs[j]
    {
      ghost var b, live, faults := alloc.Books(), alloc.live, alloc.faults;
      FreeOne(alloc, r[i]);
      PtrChanged(old(alloc.Books()), b, alloc.Books(), OwnedPtrs(ptrs), r, i, Null);
      MoreFaults(old(alloc.faults), faults, alloc.faults, live, alloc.live);
      r := r[i := Null];
      i := i + 1;
    }
    NullsOwnNothing(r);
  }

  lemma {:induction false} NullsOwnNothing(ptrs: seq<Ptr>)
    requires forall i :: 0 <= i < |ptrs| ==> ptrs[i] == Null
    ensures OwnedPtrs(ptrs) == multiset{}
  {
    if ptrs != [] { NullsOwnNothing(ptrs[1..]); }
  }

  /** The first half of pb_release_single_field for a pointer: what the block refers to is freed,
      before the block itself. */
  method ReleaseContent(alloc: Allocator, S: Schema, f: HField, c: Cell) returns (p: Ptr)
    requires alloc.Valid() && S.Ok() && TypedCell(S, f, c, false) && f.at.Pointer?
    modifies alloc
    ensures Frees(alloc, Behind(c.p)) && Behind(p) == multiset{}
    ensures Name(p) == Name(c.p)
    decreases c, 0
  {
    hide Balance, Typed, Clean, Blank, Owned, OwnedStructs, OwnedPtrs, FaultsAreDead;
    p := c.p;
    NoMoreFaults(alloc.faults, alloc.live);
    Unmoved(alloc.Books(), Behind(p));
    if p.To? {
      if f.kind.Sub? && f.repeated {
        var items := ReleaseStructs(alloc, S, f.kind.id, p.content.items, c.count);
        p := To(p.block, Bodies(items));
      } else if f.kind.Sub? {
        var inner := ReleaseStruct(alloc, S, f.kind.id, p.content.s);
        p := To(p.block, Body(inner));
      } else if f.kind.Text? && f.repeated {
        var ptrs := FreeTexts(alloc, p.content.ptrs);
        p := To(p.block, Texts(ptrs));
      }
    }
  }

  /** pb_release_single_field on a pointer. */
  method ReleasePointer(alloc: Allocator, S: Schema, f: HField, c: Cell) returns (r: Cell)
    requires alloc.Valid() && S.Ok() && TypedCell(S, f, c, false) && f.at.Pointer?
    modifies alloc
    ensures Frees(alloc, OwnedCell(c))
    ensures r == if f.repeated then RefArray(0, Null) else Ref(Null)
    decreases c, 1
  {
    hide Balance, TypedCell, FaultsAreDead, OwnedContent;
    PointerCell(S, f, c);
    var p := ReleaseContent(alloc, S, f, c);
    ghost var b, live, faults := alloc.Books(), alloc.live, alloc.faults;
    FreeOne(alloc, p);
    OneAfterTheOther(old(alloc.Books()), b, alloc.Books(), Behind(c.p), OwnedPtr(p));
    assert OwnedPtr(p) == Name(p) + Behind(p) == Name(c.p);
    assert OwnedPtr(c.p) == Name(c.p) + Behind(c.p) == Behind(c.p) + OwnedPtr(p);
    MoreFaults(old(alloc.faults), faults, alloc.faults, live, alloc.live);
    r := if f.repeated then RefArray(0, Null) else Ref(Null);
  }

  lemma PointerCell(S: Schema, f: HField, c: Cell)
    requires TypedCell(S, f, c, false) && f.at.Pointer?
    ensures (if f.repeated then c.RefArray? else c.Ref?) && OwnedCell(c) == OwnedPtr(c.p)
  {}

  lemma OneAfterTheOther(b0: Book, b1: Book, b2: Book, x: multiset<nat>, y: multiset<nat>)
    requires Balance(b0, b1, x, multiset{}) && Balance(b1, b2, y, multiset{})
    ensures Balance(b0, b2, x + y, multiset{})
  {
    forall e ensures (b2.plus + b0.minus + (x + y))[e] == (b0.plus + b2.minus + multiset{})[e] {
      assert (b1.plus + b0.minus + x)[e] == (b0.plus + b1.minus + multiset{})[e];
      assert (b2.plus + b1.minus + y)[e] == (b1.plus + b2.minus + multiset{})[e];
    }
  }

  /** pb_release_single_field */
  method ReleaseField(alloc: Allocator, S: Schema, f: HField, c: Cell) returns (r: Cell)
    requires alloc.Valid() && S.Ok() && TypedCell(S, f, c, false) && !f.at.Callback?
    modifies alloc
    ensures Frees(alloc, OwnedCell(c))
    ensures OwnedCell(r) == multiset{} && TypedCell(S, f, r, false) && (CleanCell(c) ==> BlankCell(r))
    ensures f.at.Pointer? ==> r == if f.repeated then RefArray(0, Null) else Ref(Null)
    ensures f.at.Static? && f.repeated && f.kind.Sub? ==> r.InlineArray? && r.count == c.count
    decreases c, 2
  {
    hide Balance, Typed, Clean, Blank, Owned, OwnedStructs, FaultsAreDead;
    r := c;
    NoMoreFaults(alloc.faults, alloc.live);
    Unmoved(alloc.Books(), OwnedCell(c));
    if f.kind.Sub? && f.at.Static? {
      if f.repeated {
        // Protects against a count beyond the array.
        var count := if c.count > f.arraySize then f.arraySize else c.count;
        var items := ReleaseStructs(alloc, S, f.kind.id, c.items, count);
        r := InlineArray(c.count, items);
      } else {
        var inner := ReleaseStruct(alloc, S, f.kind.id, c.s);
        r := Inline(inner);
      }
    } else if f.at.Pointer? {
      r := ReleasePointer(alloc, S, f, c);
    }
  }

  // ----- Items

  /** A field decoder for data: reads one item, and may reject it. */
  method ReadData(alloc: Allocator, stream: IStream, wireType: nat) returns (ok: bool)
    requires stream.Valid()
    modifies alloc`refusals, stream
    ensures stream.Valid() && stream.End() == old(stream.End())
    ensures ok ==> stream.bytesLeft < old(stream.bytesLeft)
    ensures var n := Wire.Extent(Wire.WireShape(wireType), old(stream.Rest()));
            && (ok ==> n.Some? && stream.Rest() == old(stream.Rest())[n.value..])
            && (!ok && n.Some? ==> Refused(alloc))
    ensures alloc.refusals >= old(alloc.refusals)
  {
    ghost var s := stream.Rest();
    ok := stream.SkipField(wireType);
    if ok {
      assert |stream.Rest()| < |s|;
      if * {
        alloc.Refuse();
        ok := false;
      }
    }
  }

  /** The size of a string or byte string with its terminator or count, where neither the 32-bit nor the size_t
      arithmetic wraps. */
  method TextSize(isString: bool, size: nat) returns (ok: bool, allocSize: nat)
    ensures ok <==> TextFits(isString, size)
    ensures ok ==> 0 < allocSize == size + (if isString then 1 else BytesHeader()) <= SIZE_T_MAX
  {
    if isString {
      allocSize := (size + 1) % Varint.U32;
      WrapsBelow(size, 1, Varint.U32);
      if allocSize < size { return false, 0; }
    } else {
      if size > PB_SIZE_MAX { return false, 0; }
      allocSize := (size + BytesHeader()) % (SIZE_T_MAX + 1);
      WrapsBelow(size, BytesHeader(), SIZE_T_MAX + 1);
      if size > allocSize { return false, 0; }
    }
    ok := true;
  }

  /** A sum that wraps is less than what was added to. */
  lemma WrapsBelow(size: nat, more: nat, m: nat)
    requires 0 < more < m
    ensures (size + more) % m >= size <==> size + more < m
    ensures size + more < m ==> (size + more) % m == size + more
  {
    if size >= m {
      assert (size + more) % m < m;
    } else if size + more >= m {
      assert (size + more) % m == size + more - m;
    }
  }


  /** The announced size, and the bytes behind it. */
  lemma AnnouncedSize(s: Varint.Bytes)
    ensures var size, x := Reads32(s), Announced(s);
            && (x.Some? <==> size.Some? && size.value.1 + size.value.0 <= |s|)
            && (x.Some? ==> |x.value.0| == size.value.0 && x.value.1 == size.value.1 + size.value.0)
            && (x.Some? ==> s[size.value.1..][size.value.0..] == s[x.value.1..])
  {
    hide Reads32;
  }

  /** pb_dec_string and pb_dec_bytes for a pointer: the block is sized for what is announced,
      with room for the terminator or the count in front. */
  method DecText(alloc: Allocator, p: Ptr, isString: bool, stream: IStream) returns (ok: bool, q: Ptr)
    requires alloc.Valid() && IsText(p) && OwnedPtr(p) <= multiset(alloc.live) && stream.Valid()
    modifies alloc, stream
    ensures stream.Valid() && stream.End() == old(stream.End())
    ensures ok ==> stream.bytesLeft < old(stream.bytesLeft)
    ensures Conserves(alloc, OwnedPtr(p), OwnedPtr(q)) && Steady(alloc) && IsText(q)
    ensures ok ==> var size := Reads32(old(stream.Rest()));
                   size.Some? && q.To? && q.content.capacity == size.value.0 + if isString then 1 else BytesHeader()
    ensures var x := Announced(old(stream.Rest()));
            && (ok ==> x.Some? && TextFits(isString, |x.value.0|) && stream.Rest() == old(stream.Rest())[x.value.1..])
            && (!ok && x.Some? && TextFits(isString, |x.value.0|) ==> Refused(alloc))
  {
    ghost var s := stream.Rest();
    AnnouncedSize(s);
    q := p;
    Unmoved(alloc.Books(), OwnedPtr(p));
    hide Balance, Reads32, Announced, TextFits;
    var size, allocSize;
    ok, size := stream.DecodeVarint32();
    if !ok { return; }
    assert |stream.Rest()| < |s|;
    ok, allocSize := TextSize(isString, size);
    if !ok { return; }
    var block;
    ok, block := AllocateField(alloc, p, allocSize, 1);
    if !ok { return; }
    q := To(block, Items(allocSize));
    assert OwnedPtr(q) == multiset{block} + Behind(p);
    ok := stream.Read(null, size);
  }

  /** pb_dec_submessage: the entries of arrays, which have been counted already, go through
      pb_decode; other submessages are added to. */
  method DecSubmessage(alloc: Allocator, S: Schema, id: nat, s: Struct, entry: bool, stream: IStream)
    returns (ok: bool, r: Struct)
    requires alloc.Valid() && S.Ok() && stream.Valid() && Typed(S, id, s, !entry)
    requires !entry ==> Owned(s) <= multiset(alloc.live)
    modifies alloc, stream
    ensures stream.Valid() && stream.End() <= old(stream.End())
    ensures Conserves(alloc, if entry then multiset{} else Owned(s), Owned(r))
    ensures Bounded(alloc) && (ok ==> Steady(alloc)) && Typed(S, id, r, ok)
    ensures (if entry then Blank(s) else Clean(s)) && S.Roomy() ==> Clean(r) && Straight(alloc)
    ensures ok ==> Announced(old(stream.Rest())).Some? && stream.End() == old(stream.End())
    ensures ok ==> stream.bytesLeft < old(stream.bytesLeft) &&
                   stream.Rest() == old(stream.Rest())[Announced(old(stream.Rest())).value.1..]
    ensures Announced(old(stream.Rest())).None? ==>
              !ok && r == s && Slipped(alloc, ForeseenSub(S, id, s, entry, old(stream.Rest())))
                  && alloc.live == old(alloc.live)
    ensures var slip := ForeseenSub(S, id, s, entry, old(stream.Rest()));
            S.Distinct() && !slip.NoSlip? ==> !ok && Slipped(alloc, slip)
    ensures Announced(old(stream.Rest())).Some? && Announced(old(stream.Rest())).value.0 == [] && !S.Demands(id) ==>
              ok && r == if entry then SetDefaults(s) else s
    ensures var a := Announced(old(stream.Rest()));
            S.Distinct() && a.Some? ==>
              StructAs(After(S, id, if entry then SetDefaults(Erase(s)) else Erase(s), a.value.0),
                ok, r, alloc.refusals > old(alloc.refusals))
    decreases stream.bytesLeft, 1
  {
    hide Balance, Typed, Clean, Blank, Owned, Foreseen, Announced, SetDefaults, FaultsAreDead, Schema.Demands,
      Schema.Distinct, Schema.Roomy, After;
    r := s;
    SubmessageStart(alloc, S, id, s, entry);
    var substream;
    ok, substream := stream.MakeStringSubstream();
    if !ok {
      // The entry is counted all the same, with whatever it held.
      if entry { CountedAsItWas(alloc, s); }
      return;
    }
    var status;
    status, r := DecodeInside(alloc, S, id, s, entry, substream);
    ok := stream.CloseStringSubstream(substream);
    ok := status;
  }

  /** The choice between pb_decode and pb_decode_noinit for the body of a submessage. */
  method DecodeInside(alloc: Allocator, S: Schema, id: nat, s: Struct, entry: bool, substream: IStream)
    returns (ok: bool, r: Struct)
    requires alloc.Valid() && S.Ok() && substream.Valid() && Typed(S, id, s, !entry)
    requires !entry ==> Owned(s) <= multiset(alloc.live)
    modifies alloc, substream
    ensures substream.Valid() && substream.End() <= old(substream.End())
    ensures ok ==> substream.End() == old(substream.End())
    ensures Conserves(alloc, if entry then multiset{} else Owned(s), Owned(r))
    ensures Bounded(alloc) && (ok ==> Steady(alloc)) && Typed(S, id, r, ok)
    ensures (if entry then Blank(s) else Clean(s)) && S.Roomy() ==> Clean(r) && Straight(alloc)
    ensures var slip := Foreseen(S, id, if entry then SetDefaults(s) else s, old(substream.Rest()));
            S.Distinct() && !slip.NoSlip? ==> !ok && Slipped(alloc, slip)
    ensures old(substream.Rest()) == [] && !S.Demands(id) ==> ok && r == if entry then SetDefaults(s) else s
    ensures S.Distinct() ==>
              StructAs(After(S, id, if entry then SetDefaults(Erase(s)) else Erase(s), old(substream.Rest())),
                ok, r, alloc.refusals > old(alloc.refusals))
    decreases substream.bytesLeft, 9
  {
    hide Balance, Typed, Clean, Blank, Owned, Foreseen, SetDefaults, FaultsAreDead, Schema.Demands, Schema.Distinct,
      After;
    if entry {
      SubmessageStart(alloc, S, id, s, entry);
      ok, r := DecodeMessage(alloc, S, id, s, substream);
    } else {
      ok, r := DecodeNoInit(alloc, S, id, s, substream);
    }
  }

  lemma SubmessageStart(alloc: Allocator, S: Schema, id: nat, s: Struct, entry: bool)
    requires Typed(S, id, s, !entry)
    ensures Typed(S, id, s, false)
    ensures Balance(alloc.Books(), alloc.Books(), Owned(s), Owned(s))
    ensures Blank(s) ==> Clean(s) && Owned(s) == multiset{} && Clean(SetDefaults(s))
  {
    if !entry { TypedEverywhere(S, id, s); }
    if Blank(s) { BlankOwnsNothing(s); DefaultsOfBlank(s); }
  }

  /** Books that an entry is counted without having been initialised. */
  ghost method CountedAsItWas(alloc: Allocator, s: Struct)
    requires alloc.Valid()
    modifies alloc`gained
    ensures alloc.gained == old(alloc.gained) + Owned(s)
    ensures Conserves(alloc, multiset{}, Owned(s))
  {
    alloc.gained := alloc.gained + Owned(s);
  }

  // ----- Fields

  /** A static array gets one more entry, which is counted before it is initialised.  When the
      array is full or the entry cannot be read, the account is off by exactly what the record
      makes the array count or forget. */
  method DecodeStaticEntry(alloc: Allocator, S: Schema, i: nat, f: HField, c: Cell, stream: IStream)
    returns (ok: bool, r: Cell)
    requires alloc.Valid() && S.Ok() && i < |S.tables| && S.FieldOk(i, f) && stream.Valid()
    requires f.at.Static? && f.kind.Sub? && f.repeated && TypedCell(S, f, c, true)
    modifies alloc, stream
    ensures stream.Valid() && stream.End() <= old(stream.End())
    ensures ok ==> stream.End() == old(stream.End()) && stream.bytesLeft < old(stream.bytesLeft)
    ensures Conserves(alloc, OwnedCell(c), OwnedCell(r))
    ensures Bounded(alloc) && (ok ==> Steady(alloc)) && TypedCell(S, f, r, ok)
    ensures CleanCell(c) && S.HasRoomForCount(f) && S.Roomy() ==> CleanCell(r) && Straight(alloc)
    ensures r.InlineArray? && c.InlineArray? && r.count == CountUp(c.count) && |r.items| == |c.items|
    ensures forall j :: 0 <= j < |c.items| && j != c.count ==> r.items[j] == c.items[j]
    ensures ok ==> c.count < f.arraySize
    ensures c.count >= f.arraySize || Announced(old(stream.Rest())).None? ==>
              && !ok && r.items == c.items && alloc.live == old(alloc.live)
              && Slipped(alloc, ForeseenField(S, f, c, old(stream.Rest())))
    ensures var slip := ForeseenField(S, f, c, old(stream.Rest()));
            S.Distinct() && !slip.NoSlip? ==> !ok && Slipped(alloc, slip)
    ensures var next := AfterEmpty(S, f, c, old(stream.Rest()));
            next.Some? ==> ok && next.value == (r, stream.Rest())
    ensures S.Distinct() ==>
              FieldAs(AfterSingle(S, i, f, EraseCell(c), old(stream.Rest())), ok, r,
                old(stream.Rest()), stream.Rest(), alloc.refusals > old(alloc.refusals))
    decreases stream.bytesLeft, 2
  {
    hide Balance, Typed, Clean, Blank, TypedCell, CleanCell, Owned, OwnedCell, OwnedStructs, ForeseenSub, Announced,
      SetDefaults, FaultsAreDead, Schema.Demands, Schema.Distinct, Schema.Roomy, Schema.HasRoomForCount,
      After, AfterSingle, Erase, EraseCell, FieldAs, StructAs, SubStart, SubStored;
    EntryAt(S, f, c);
    var size := c.count;
    if size >= f.arraySize {
      r := RefuseEntry(alloc, S, f, c);
      NoRoom(S, f, c);
      NoPlace(S, i, f, c, r, old(stream.Rest()), stream.Rest(), alloc.refusals > old(alloc.refusals));
      return false, r;
    }
    var s;
    ok, s := DecSubmessage(alloc, S, f.kind.id, c.items[size], true, stream);
    r := InlineArray(CountUp(size), c.items[size := s]);
    EntryStored(S, f, c, s, ok);
    EntryAdded(old(alloc.Books()), alloc.Books(), c.items, size, s);
    EntryForm(S, f, c, s);
    if S.Distinct() {
      SubFormed(S, i, f, EraseCell(c), SetDefaults(Erase(c.items[size])), s, r, ok, old(stream.Rest()), stream.Rest(),
        alloc.refusals > old(alloc.refusals));
    }
  }

  lemma NoRoom(S: Schema, f: HField, c: Cell)
    requires S.Ok() && f.kind.Sub? && f.kind.id < |S.tables| && f.at.Static? && f.repeated
    requires c.InlineArray? && c.count >= f.arraySize
    ensures SubStart(S, f, EraseCell(c)).None?
  {
    hide Erase;
  }

  /** A full array counts the record that does not fit. */
  method RefuseEntry(alloc: Allocator, S: Schema, f: HField, c: Cell) returns (r: Cell)
    requires alloc.Valid() && S.Ok() && f.at.Static? && f.kind.Sub? && f.repeated && f.arraySize <= PB_SIZE_MAX
    requires f.kind.id < |S.tables| && TypedCell(S, f, c, true) && c.InlineArray? && c.count >= f.arraySize
    modifies alloc
    ensures r == InlineArray(CountUp(c.count), c.items) && TypedCell(S, f, r, false)
    ensures Conserves(alloc, OwnedCell(c), OwnedCell(r))
    ensures alloc.live == old(alloc.live) && alloc.faults == old(alloc.faults) && alloc.gained == old(alloc.gained)
    ensures alloc.lost == old(alloc.lost) +
                          if c.count == PB_SIZE_MAX then OwnedStructs(c.items, |c.items|) else multiset{}
    ensures CleanCell(c) && S.HasRoomForCount(f) ==> CleanCell(r) && Straight(alloc)
  {
    hide Balance, Typed, Clean, Blank, TypedCell, CleanCell, Owned, OwnedCell, OwnedStructs, Schema.HasRoomForCount;
    EntryAt(S, f, c);
    r := InlineArray(CountUp(c.count), c.items);
    if c.count == PB_SIZE_MAX {
      ForgottenByWrap(alloc, c.items);
    } else {
      Unmoved(alloc.Books(), OwnedCell(c));
    }
  }

  /** Books that the count of a full array has wrapped to zero. */
  ghost method ForgottenByWrap(alloc: Allocator, items: seq<Struct>)
    requires alloc.Valid() && |items| == PB_SIZE_MAX
    modifies alloc`lost
    ensures alloc.lost == old(alloc.lost) + OwnedStructs(items, |items|)
    ensures Conserves(alloc, OwnedCell(InlineArray(|items|, items)), OwnedCell(InlineArray(CountUp(|items|), items)))
  {
    CountWraps();
    alloc.lost := alloc.lost + OwnedStructs(items, |items|);
  }

  lemma EntryAdded(b0: Book, b1: Book, items: seq<Struct>, size: nat, s: Struct)
    requires size < |items| && size < PB_SIZE_MAX && Balance(b0, b1, multiset{}, Owned(s))
    ensures Balance(b0, b1, OwnedCell(InlineArray(size, items)),
        OwnedCell(InlineArray(CountUp(size), items[size := s])))
  {
    hide Balance, Owned;
    CountsOn(size);
    OwnedStructsSame(items, items[size := s], size);
    assert OwnedStructs(items[size := s], size + 1) == Owned(s) + OwnedStructs(items, size);
    BalanceWhole(b0, b1, multiset{}, Owned(s), OwnedCell(InlineArray(size, items)),
                 OwnedCell(InlineArray(CountUp(size), items[size := s])));
  }

  lemma EntryAt(S: Schema, f: HField, c: Cell)
    requires f.at.Static? && f.kind.Sub? && f.repeated && f.arraySize <= PB_SIZE_MAX
    requires S.Ok() && f.kind.id < |S.tables|
    requires TypedCell(S, f, c, true)
    ensures c.InlineArray? && |c.items| == f.arraySize && c.count <= f.arraySize
    ensures c.count < f.arraySize ==> Typed(S, f.kind.id, c.items[c.count], false)
    ensures c.count < f.arraySize && CleanCell(c) ==> Blank(c.items[c.count])
    ensures c.count >= f.arraySize ==> TypedCell(S, f, InlineArray(CountUp(c.count), c.items), false)
    ensures c.count >= f.arraySize && f.arraySize < PB_SIZE_MAX ==>
              OwnedCell(InlineArray(CountUp(c.count), c.items)) == OwnedCell(c)
    ensures c.count >= f.arraySize && CleanCell(c) && S.HasRoomForCount(f) ==>
              CleanCell(InlineArray(CountUp(c.count), c.items))
    ensures c.count == PB_SIZE_MAX && S.HasRoomForCount(f) ==> OwnedStructs(c.items, |c.items|) == multiset{}
  {
    hide Typed, Clean, Blank, Schema.HoldsPointers;
    if c.count >= f.arraySize {
      if f.arraySize < PB_SIZE_MAX { CountsOn(c.count); } else { CountWraps(); }
      forall j | 0 <= j < |c.items| ensures Typed(S, f.kind.id, c.items[j], false) {
        TypedEverywhere(S, f.kind.id, c.items[j]);
      }
      if f.arraySize == PB_SIZE_MAX && S.HasRoomForCount(f) { PointerlessEntries(S, f, c); }
    }
  }

  lemma PointerlessEntries(S: Schema, f: HField, c: Cell)
    requires S.Ok() && f.kind.Sub? && f.kind.id < |S.tables| && !S.HoldsPointers(f.kind.id)
    requires c.InlineArray? && forall j :: 0 <= j < |c.items| ==> Typed(S, f.kind.id, c.items[j], false)
    ensures OwnedStructs(c.items, |c.items|) == multiset{} && forall j :: 0 <= j < |c.items| ==> Blank(c.items[j])
  {
    hide Typed, Blank;
    forall j | 0 <= j < |c.items| ensures Blank(c.items[j]) && Owned(c.items[j]) == multiset{} {
      PointerlessIsBlank(S, f.kind.id, c.items[j]);
      BlankOwnsNothing(c.items[j]);
    }
    NothingOwnedBy(c.items, |c.items|);
  }

  lemma EntryStored(S: Schema, f: HField, c: Cell, s: Struct, strict: bool)
    requires f.at.Static? && f.kind.Sub? && f.repeated && f.arraySize <= PB_SIZE_MAX
    requires TypedCell(S, f, c, true) && c.count < f.arraySize && Typed(S, f.kind.id, s, strict)
    ensures var r := InlineArray(CountUp(c.count), c.items[c.count := s]);
            TypedCell(S, f, r, strict) && (CleanCell(c) && Clean(s) ==> CleanCell(r))
  {
    hide Typed, Clean, Blank, CountUp;
    var items := c.items[c.count := s];
    assert CountUp(c.count) == c.count + 1 by { CountsOn(c.count); }
    forall j | 0 <= j < |items| ensures Typed(S, f.kind.id, items[j], strict && j < c.count + 1) {
      if j < c.count { TypedEverywhere(S, f.kind.id, c.items[j]); }
    }
  }

  /** decode_static_field */
  method DecodeStaticField(alloc: Allocator, S: Schema, i: nat, f: HField, c: Cell, wireType: nat, stream: IStream)
    returns (ok: bool, r: Cell)
    requires alloc.Valid() && S.Ok() && i < |S.tables| && S.FieldOk(i, f) && stream.Valid()
    requires f.at.Static? && TypedCell(S, f, c, true) && OwnedCell(c) <= multiset(alloc.live)
    modifies alloc, stream
    ensures stream.Valid() && stream.End() <= old(stream.End())
    ensures ok ==> stream.End() == old(stream.End()) && stream.bytesLeft < old(stream.bytesLeft)
    ensures Conserves(alloc, OwnedCell(c), OwnedCell(r))
    ensures Bounded(alloc) && (ok ==> Steady(alloc)) && TypedCell(S, f, r, ok)
    ensures CleanCell(c) && S.HasRoomForCount(f) && S.Roomy() ==> CleanCell(r) && Straight(alloc)
    ensures var slip := ForeseenField(S, f, c, old(stream.Rest()));
            S.Distinct() && !slip.NoSlip? ==> !ok && Slipped(alloc, slip)
    ensures var next := AfterEmpty(S, f, c, old(stream.Rest()));
            next.Some? ==> ok && next.value == (r, stream.Rest())
    ensures S.Distinct() ==>
              FieldAs(AfterField(S, i, f, EraseCell(c), wireType, old(stream.Rest())), ok, r,
                old(stream.Rest()), stream.Rest(), alloc.refusals > old(alloc.refusals))
    decreases stream.bytesLeft, 3
  {
    hide Balance, Typed, Clean, Blank, Owned, OwnedStructs, ForeseenSub, Announced, SetDefaults, FaultsAreDead,
      Schema.Demands, Schema.Distinct, Schema.HasRoomForCount, After, AfterSingle, AfterPacked, Erase, EraseCell,
      StructAs, SubStart, SubStored, Wire.Extent, Wire.CountItems;
    r := c;
    Unmoved(alloc.Books(), OwnedCell(c));
    if !f.kind.Sub? { StaticForm(S, i, f, EraseCell(c), wireType, stream.Rest()); }
    match f.kind
    case Sub(id) =>
      if f.repeated {
        ok, r := DecodeStaticEntry(alloc, S, i, f, c, stream);
      } else {
        var s;
        ok, s := DecSubmessage(alloc, S, id, c.s, false, stream);
        r := Inline(s);
        InlineForm(S, f, c, s);
        if S.Distinct() {
          SubFormed(S, i, f, EraseCell(c), Erase(c.s), s, r, ok, old(stream.Rest()), stream.Rest(),
            alloc.refusals > old(alloc.refusals));
        }
      }
    case Text(_) =>
      ok := ReadData(alloc, stream, Wire.WT_STRING);
    case Data(itemType, packable) =>
      if f.repeated && wireType == Wire.WT_STRING && packable {
        ok := SkipPacked(alloc, stream, itemType);
      } else {
        ok := ReadData(alloc, stream, itemType);
      }
  }

  /** The packed branch of decode_static_field: the array may be full before the run ends. */
  method SkipPacked(alloc: Allocator, stream: IStream, itemType: nat) returns (ok: bool)
    requires stream.Valid()
    modifies alloc`refusals, stream
    ensures stream.Valid() && stream.End() <= old(stream.End()) && alloc.refusals >= old(alloc.refusals)
    ensures ok ==> stream.End() == old(stream.End()) && stream.bytesLeft < old(stream.bytesLeft)
    ensures var x := Announced(old(stream.Rest()));
            var count := if x.None? then None else Wire.CountItems(Wire.WireShape(itemType), x.value.0);
            && (ok ==> count.Some? && stream.Rest() == old(stream.Rest())[x.value.1..])
            && (!ok && count.Some? ==> Refused(alloc))
  {
    hide Announced, Wire.CountItems, Wire.Extent;
    var substream;
    ok, substream := stream.MakeStringSubstream();
    if !ok { return; }
    ok := SkipRun(alloc, substream, itemType);
    if !ok { return; }
    ok := stream.CloseStringSubstream(substream);
  }

  method SkipRun(alloc: Allocator, substream: IStream, itemType: nat) returns (ok: bool)
    requires substream.Valid()
    modifies alloc`refusals, substream
    ensures substream.Valid() && substream.End() == old(substream.End()) && alloc.refusals >= old(alloc.refusals)
    ensures var count := Wire.CountItems(Wire.WireShape(itemType), old(substream.Rest()));
            (ok ==> count.Some?) && (!ok && count.Some? ==> Refused(alloc))
  {
    hide Wire.CountItems, Wire.Extent;
    ghost var shape, body := Wire.WireShape(itemType), substream.Rest();
    while substream.bytesLeft > 0
      invariant substream.Valid() && substream.End() == old(substream.End()) && alloc.refusals >= old(alloc.refusals)
      invariant Wire.CountItems(shape, body).Some? <==> Wire.CountItems(shape, substream.Rest()).Some?
      decreases substream.bytesLeft
    {
      ItemsFrom(shape, substream.Rest());
      if * {
        alloc.Refuse();
        return false;
      }
      ok := ReadData(alloc, substream, itemType);
      if !ok { return; }
    }
    ItemsFrom(shape, substream.Rest());
    ok := true;
  }

  /** How far the packed branch of decode_pointer_field grows an array that is full: room for all
      items that can still follow if they take their full width, or else for one. */
  function GrownSize(room: nat, bytesLeft: nat, dataSize: nat): (grown: nat)
    requires room < PB_SIZE_MAX && bytesLeft > 0 && dataSize > 0
    ensures room < grown <= PB_SIZE_MAX
    ensures grown == room + 1 || (grown - room) * dataSize >= bytesLeft
  {
    var remain := (bytesLeft - 1) / dataSize + 1;
    assert remain * dataSize >= bytesLeft by { RoundedUp(bytesLeft - 1, dataSize); }
    if remain < PB_SIZE_MAX - room then room + remain else room + 1
  }

  lemma RoundedUp(n: nat, d: nat)
    requires d > 0
    ensures (n / d + 1) * d >= n + 1
  {
    assert n == (n / d) * d + n % d;
  }

  /** The block has space for `room` items, and that is enough for those counted. */
  predicate HasRoom(c: Cell, room: nat) {
    && c.RefArray? && c.count <= room <= PB_SIZE_MAX
    && (c.p.Null? ==> room == 0)
    && (c.p.To? ==> c.p.content.Items? && room <= c.p.content.capacity)
  }

  /** Makes space for one more item in a full array. */
  method GrowPacked(alloc: Allocator, f: HField, c: Cell, room: nat, bytesLeft: nat)
    returns (ok: bool, r: Cell, newRoom: nat)
    requires alloc.Valid() && HasRoom(c, room) && OwnedPtr(c.p) <= multiset(alloc.live)
    requires c.count < PB_SIZE_MAX && 0 < f.dataSize <= PB_SIZE_MAX && bytesLeft > 0
    modifies alloc
    ensures r.RefArray? && r.count == c.count && HasRoom(r, r.count)
    ensures ok ==> HasRoom(r, newRoom) && r.count < newRoom
    ensures !ok ==> Refused(alloc)
    ensures Conserves(alloc, OwnedPtr(c.p), OwnedPtr(r.p)) && Steady(alloc)
  {
    hide Balance;
    r, newRoom := c, room;
    ok := true;
    Unmoved(alloc.Books(), OwnedPtr(c.p));
    if c.count + 1 > room {
      newRoom := GrownSize(room, bytesLeft, f.dataSize);
      var block;
      ok, block := AllocateField(alloc, c.p, f.dataSize, newRoom);
      if !ok { return; }
      r := RefArray(c.count, To(block, Items(newRoom)));
      assert OwnedPtr(r.p) == multiset{block} + Behind(c.p);
    }
  }

  /** One round of the packed branch of decode_pointer_field: the count stays within the space and
      within PB_SIZE_MAX, and the item is written inside the block. */
  method DecodePackedItem(alloc: Allocator, f: HField, c: Cell, room: nat, substream: IStream)
    returns (ok: bool, r: Cell, newRoom: nat)
    requires alloc.Valid() && substream.Valid() && substream.bytesLeft > 0
    requires 0 < f.dataSize <= PB_SIZE_MAX && f.kind.Data?
    requires HasRoom(c, room) && OwnedPtr(c.p) <= multiset(alloc.live)
    modifies alloc, substream
    ensures substream.Valid() && substream.End() == old(substream.End())
    ensures r.RefArray? && Conserves(alloc, OwnedPtr(c.p), OwnedPtr(r.p)) && Steady(alloc)
    ensures HasRoom(r, r.count) && r.count == c.count + (if ok then 1 else 0)
    ensures ok ==> HasRoom(r, newRoom) && r.p.To? && r.p.content.Items? && c.count < r.p.content.capacity
    ensures ok ==> var n := Wire.Extent(Wire.WireShape(f.kind.wireType), old(substream.Rest()));
                   && n.Some? && substream.Rest() == old(substream.Rest())[n.value..]
                   && substream.bytesLeft < old(substream.bytesLeft)
    ensures var n := Wire.Extent(Wire.WireShape(f.kind.wireType), old(substream.Rest()));
            !ok && c.count < PB_SIZE_MAX && n.Some? ==> Refused(alloc)
  {
    hide Balance, Wire.Extent, OwnedPtr;
    r, newRoom := c, room;
    Unmoved(alloc.Books(), OwnedPtr(c.p));
    if c.count == PB_SIZE_MAX { return false, r, newRoom; }
    ok, r, newRoom := GrowPacked(alloc, f, c, room, substream.bytesLeft);
    if !ok { return; }
    ok := ReadData(alloc, substream, f.kind.wireType);
    if !ok { return; }
    r := RefArray(r.count + 1, r.p);
  }

  /** The loop of the packed branch of decode_pointer_field. */
  method DecodePackedRun(alloc: Allocator, f: HField, c: Cell, substream: IStream) returns (status: bool, r: Cell)
    requires alloc.Valid() && substream.Valid() && 0 < f.dataSize <= PB_SIZE_MAX && f.kind.Data?
    requires c.RefArray? && HasRoom(c, c.count) && OwnedPtr(c.p) <= multiset(alloc.live)
    modifies alloc, substream
    ensures substream.Valid() && substream.End() == old(substream.End())
    ensures r.RefArray? && r.count >= c.count && HasRoom(r, r.count)
    ensures Conserves(alloc, OwnedPtr(c.p), OwnedPtr(r.p)) && Steady(alloc)
    ensures status ==>
              Wire.CountItems(Wire.WireShape(f.kind.wireType), old(substream.Rest())) == Some(r.count - c.count)
    ensures r.count == c.count ==> r == c || !status
    ensures var count := Wire.CountItems(Wire.WireShape(f.kind.wireType), old(substream.Rest()));
            !status && count.Some? && c.count + count.value <= PB_SIZE_MAX ==> Refused(alloc)
  {
    hide Balance, OwnedPtr, HasRoom, Wire.CountItems, Wire.Extent;
    ghost var shape, body := Wire.WireShape(f.kind.wireType), substream.Rest();
    Unmoved(alloc.Books(), OwnedPtr(c.p));
    r := c;
    var room := c.count;
    while substream.bytesLeft > 0
      invariant substream.Valid() && substream.End() == old(substream.End())
      invariant r.RefArray? && HasRoom(r, room) && HasRoom(r, r.count) && r.count >= c.count
      invariant Wire.CountItems(shape, body)
             == AfterItems(r.count - c.count, Wire.CountItems(shape, substream.Rest()))
      invariant Conserves(alloc, OwnedPtr(c.p), OwnedPtr(r.p)) && Steady(alloc)
      invariant r.count == c.count ==> r == c
      decreases substream.bytesLeft
    {
      ItemsFrom(shape, substream.Rest());
      OwnedIsLive(old(alloc.live), alloc.live, alloc.gained, alloc.faults, old(alloc.lost), alloc.lost,
          OwnedPtr(c.p), OwnedPtr(r.p));
      ghost var b, before := alloc.Books(), OwnedPtr(r.p);
      status, r, room := DecodePackedItem(alloc, f, r, room, substream);
      BalanceTwice(old(alloc.Books()), b, alloc.Books(), OwnedPtr(c.p), before, OwnedPtr(r.p));
      if !status { return; }
    }
    ItemsFrom(shape, substream.Rest());
    status := true;
  }

  /** The packed branch of decode_pointer_field. */
  method DecodePackedPointer(alloc: Allocator, S: Schema, i: nat, f: HField, c: Cell, stream: IStream)
    returns (ok: bool, r: Cell)
    requires alloc.Valid() && S.Ok() && i < |S.tables| && S.FieldOk(i, f) && stream.Valid()
    requires f.at.Pointer? && f.kind.Data? && f.repeated
    requires TypedCell(S, f, c, true) && OwnedCell(c) <= multiset(alloc.live)
    modifies alloc, stream
    ensures stream.Valid() && stream.End() <= old(stream.End())
    ensures ok ==> stream.End() == old(stream.End()) && stream.bytesLeft < old(stream.bytesLeft)
    ensures Conserves(alloc, OwnedCell(c), OwnedCell(r)) && Steady(alloc)
    ensures TypedCell(S, f, r, true) && TypedCell(S, f, r, false) && CleanCell(r)
    ensures r.RefArray? && c.RefArray? && r.count >= c.count
    ensures ok ==> Announced(old(stream.Rest())).Some? &&
                   Wire.CountItems(Wire.WireShape(f.kind.wireType), Announced(old(stream.Rest())).value.0)
                   == Some(r.count - c.count)
    ensures FieldAs(AfterPacked(f, EraseCell(c), old(stream.Rest())), ok, r,
                old(stream.Rest()), stream.Rest(), alloc.refusals > old(alloc.refusals))
  {
    hide Balance, TypedCell, CleanCell, OwnedPtr, HasRoom, Announced, AfterPacked;
    ArrayCell(S, f, c);
    PackedStart(S, f, c);
    PackedForm(f, c, c, stream.Rest());
    r := c;
    Unmoved(alloc.Books(), OwnedCell(c));
    var status, substream;
    ok, substream := stream.MakeStringSubstream();
    if !ok { return; }
    status, r := DecodePackedRun(alloc, f, c, substream);
    PackedCell(S, f, r, r.count);
    PackedForm(f, c, r, old(stream.Rest()));
    ok := stream.CloseStringSubstream(substream);
    ok := status;
  }

  function AfterItems(n: nat, more: Option<nat>): Option<nat> {
    if more.None? then None else Some(n + more.value)
  }

  lemma ItemsFrom(shape: Wire.Shape, rest: Varint.Bytes)
    ensures rest == [] ==> Wire.CountItems(shape, rest) == Some(0)
    ensures var n := Wire.Extent(shape, rest);
            rest != [] ==>
              Wire.CountItems(shape, rest) ==
              if n.None? then None else AfterItems(1, Wire.CountItems(shape, rest[n.value..]))
  {
    hide Wire.Extent;
  }

  /** The form of an array behind a pointer after a packed run. */
  lemma PackedForm(f: HField, c: Cell, r: Cell, rest: Varint.Bytes)
    requires f.at.Pointer? && f.kind.Data?
    requires c.RefArray? && r.RefArray? && HasRoom(r, r.count) && r.count >= c.count
    ensures var x, count := Announced(rest), Wire.CountItems(Wire.WireShape(f.kind.wireType),
                if Announced(rest).Some? then Announced(rest).value.0 else []);
            var y := AfterPacked(f, EraseCell(c), rest);
            && (y.Some? <==> x.Some? && count.Some? && (count.value == 0 || c.count + count.value <= PB_SIZE_MAX))
            && (x.Some? && count == Some(r.count - c.count) && (r.count == c.count ==> r == c) ==>
                  y == Some((EraseCell(r), x.value.1)))
  {
    hide Announced, Wire.CountItems;
    if r.count > c.count {
      assert r.p.To? && EraseContent(r.p.content) == Items(0);
      assert ErasePtr(r.p) == To(0, Items(0));
    }
  }

  lemma PackedStart(S: Schema, f: HField, c: Cell)
    requires f.at.Pointer? && f.repeated && f.kind.Data? && TypedCell(S, f, c, true)
    ensures c.RefArray? && HasRoom(c, c.count) && TypedCell(S, f, c, false) && CleanCell(c)
  {}

  lemma PackedCell(S: Schema, f: HField, c: Cell, room: nat)
    requires f.at.Pointer? && f.repeated && f.kind.Data? && HasRoom(c, room)
    ensures TypedCell(S, f, c, true) && TypedCell(S, f, c, false) && CleanCell(c)
  {}

  /** The other branch for arrays: the array grows by one entry, which is cleared, counted and
      then decoded. */
  method DecodePointerEntry(alloc: Allocator, S: Schema, i: nat, f: HField, c: Cell, stream: IStream)
    returns (ok: bool, r: Cell)
    requires alloc.Valid() && S.Ok() && i < |S.tables| && S.FieldOk(i, f) && stream.Valid()
    requires f.at.Pointer? && f.repeated
    requires TypedCell(S, f, c, true) && OwnedCell(c) <= multiset(alloc.live)
    modifies alloc, stream
    ensures stream.Valid() && stream.End() <= old(stream.End())
    ensures ok ==> stream.End() == old(stream.End()) && stream.bytesLeft < old(stream.bytesLeft)
    ensures Conserves(alloc, OwnedCell(c), OwnedCell(r))
    ensures Bounded(alloc) && (ok ==> Steady(alloc)) && TypedCell(S, f, r, ok)
    ensures CleanCell(c) && S.Roomy() ==> CleanCell(r) && Straight(alloc)
    ensures r == c || OneMoreEntry(c, r)
    ensures ok ==> OneMoreEntry(c, r)
    ensures S.Distinct() ==>
              FieldAs(AfterSingle(S, i, f, EraseCell(c), old(stream.Rest())), ok, r,
                old(stream.Rest()), stream.Rest(), alloc.refusals > old(alloc.refusals))
    decreases stream.bytesLeft, 4
  {
    hide Balance, TypedCell, CleanCell, OwnedPtr, OneMoreEntry, FaultsAreDead, AfterSingle,
      EraseCell;
    ArrayCell(S, f, c);
    r := c;
    ok := false;
    Unmoved(alloc.Books(), OwnedCell(c));
    TypedCellEverywhere(S, f, c);
    if c.count == PB_SIZE_MAX {
      FullForm(S, i, f, c, stream.Rest());
      return;
    }
    var block;
    ok, block := AllocateField(alloc, c.p, f.dataSize, c.count + 1);
    if !ok { return; }
    ghost var b, grown := alloc.Books(), multiset{block} + Behind(c.p);
    OwnedIsLive(old(alloc.live), alloc.live, alloc.gained, alloc.faults, old(alloc.lost), alloc.lost, OwnedPtr(c.p),
        grown);
    ok, r := DecodeNewEntry(alloc, S, i, f, c, block, stream);
    BalanceTwice(old(alloc.Books()), b, alloc.Books(), OwnedPtr(c.p), grown, OwnedPtr(r.p));
  }

  /** The array has one more entry, and the others are what they were. */
  predicate OneMoreEntry(c: Cell, r: Cell) {
    && c.RefArray? && r.RefArray? && r.count == c.count + 1 && r.p.To?
    && match r.p.content
       case Texts(ptrs) => |ptrs| == c.count + 1
           && ptrs[..c.count] == (if c.p.To? && c.p.content.Texts? then c.p.content.ptrs else [])
       case Bodies(items) => |items| == c.count + 1
           && items[..c.count] == (if c.p.To? && c.p.content.Bodies? then c.p.content.items else [])
       case Items(capacity) => capacity == c.count + 1
       case Body(_) => false
  }

  lemma ArrayCell(S: Schema, f: HField, c: Cell)
    requires TypedCell(S, f, c, true) && f.at.Pointer? && f.repeated
    ensures c.RefArray? && c.count <= PB_SIZE_MAX
    ensures f.kind.Data? && c.p.To? ==> c.p.content.Items?
  {}

  /** The new entry at the end of the array that has moved to `block`. */
  method DecodeNewEntry(alloc: Allocator, S: Schema, i: nat, f: HField, c: Cell, block: nat, stream: IStream)
    returns (ok: bool, r: Cell)
    requires alloc.Valid() && S.Ok() && i < |S.tables| && S.FieldOk(i, f) && stream.Valid()
    requires f.at.Pointer? && f.repeated
    requires TypedCell(S, f, c, true) && c.RefArray? && c.count < PB_SIZE_MAX
    requires multiset{block} + Behind(c.p) <= multiset(alloc.live)
    modifies alloc, stream
    ensures stream.Valid() && stream.End() <= old(stream.End())
    ensures ok ==> stream.End() == old(stream.End()) && stream.bytesLeft < old(stream.bytesLeft)
    ensures r.RefArray? && Conserves(alloc, multiset{block} + Behind(c.p), OwnedPtr(r.p))
    ensures Bounded(alloc) && (ok ==> Steady(alloc)) && TypedCell(S, f, r, ok)
    ensures CleanCell(c) && S.Roomy() ==> CleanCell(r) && Straight(alloc)
    ensures OneMoreEntry(c, r)
    ensures S.Distinct() ==>
              FieldAs(AfterSingle(S, i, f, EraseCell(c), old(stream.Rest())), ok, r,
                old(stream.Rest()), stream.Rest(), alloc.refusals > old(alloc.refusals))
    decreases stream.bytesLeft, 3
  {
    hide Balance, TypedCell, CleanCell, OwnedPtr, OneMoreEntry, FaultsAreDead, AfterSingle, EraseCell,
      AfterItem, Wire.Extent;
    match f.kind {
      case Data(itemType, _) =>
        r := RefArray(c.count + 1, To(block, Items(c.count + 1)));
        NewData(alloc, S, f, c, block);
        DataForm(S, i, f, c, stream.Rest());
        ItemForm(f, c, block, c.count + 1);
        ok := ReadData(alloc, stream, itemType);
      case Text(_) =>
        ok, r := DecodeTextEntry(alloc, S, i, f, c, block, stream);
      case Sub(_) =>
        ok, r := DecodeStructEntry(alloc, S, i, f, c, block, stream);
    }
  }

  lemma NewData(alloc: Allocator, S: Schema, f: HField, c: Cell, block: nat)
    requires f.at.Pointer? && f.repeated && f.kind.Data? && TypedCell(S, f, c, true) && c.RefArray?
        && c.count < PB_SIZE_MAX
    ensures var r := RefArray(c.count + 1, To(block, Items(c.count + 1)));
            && TypedCell(S, f, r, true) && TypedCell(S, f, r, false) && CleanCell(r) && OneMoreEntry(c, r)
            && Balance(alloc.Books(), alloc.Books(), multiset{block} + Behind(c.p), OwnedPtr(r.p))
  {}

  /** A string or byte string at the end of the array that has moved to `block`. */
  method DecodeTextEntry(alloc: Allocator, S: Schema, i: nat, f: HField, c: Cell, block: nat, stream: IStream)
    returns (ok: bool, r: Cell)
    requires alloc.Valid() && S.Ok() && i < |S.tables| && S.FieldOk(i, f) && stream.Valid()
    requires f.at.Pointer? && f.repeated && f.kind.Text?
    requires TypedCell(S, f, c, true) && c.RefArray? && c.count < PB_SIZE_MAX
    modifies alloc, stream
    ensures stream.Valid() && stream.End() == old(stream.End())
    ensures ok ==> stream.bytesLeft < old(stream.bytesLeft)
    ensures r.RefArray? && Conserves(alloc, multiset{block} + Behind(c.p), OwnedPtr(r.p)) && Steady(alloc)
    ensures Bounded(alloc) && TypedCell(S, f, r, ok) && CleanCell(r) && OneMoreEntry(c, r)
    ensures S.Distinct() ==>
              FieldAs(AfterSingle(S, i, f, EraseCell(c), old(stream.Rest())), ok, r,
                old(stream.Rest()), stream.Rest(), alloc.refusals > old(alloc.refusals))
  {
    hide Balance, TypedCell, CleanCell, OwnedPtr, OneMoreEntry, FaultsAreDead, IsText, Announced,
      TextFits, AfterSingle, EraseCell, AfterItem;
    TextsBefore(S, f, c);
    TextForm(S, i, f, c, stream.Rest());
    ghost var ptrs := if c.p.To? then c.p.content.ptrs else [];
    var q;
    ok, q := DecText(alloc, Null, f.kind.isString, stream);
    r := RefArray(c.count + 1, To(block, Texts((if c.p.To? then c.p.content.ptrs else []) + [q])));
    TextsAfter(S, f, c, q, block, ok);
    if ok { TextsForm(f, c, block, q); }
    TextAdded(old(alloc.Books()), alloc.Books(), c.p, block, ptrs, q);
  }

  lemma TextsBefore(S: Schema, f: HField, c: Cell)
    requires f.at.Pointer? && f.repeated && f.kind.Text? && TypedCell(S, f, c, true)
    ensures c.RefArray? && (if c.p.To? then c.p.content.Texts? && |c.p.content.ptrs| == c.count else c.count == 0)
    ensures IsText(Null) && OwnedPtr(Null) == multiset{}
  {}

  lemma TextsAfter(S: Schema, f: HField, c: Cell, q: Ptr, block: nat, strict: bool)
    requires f.at.Pointer? && f.repeated && f.kind.Text? && TypedCell(S, f, c, true) && IsText(q)
    requires c.RefArray? && c.count < PB_SIZE_MAX && (c.p.To? ==> c.p.content.Texts?)
    ensures var r := RefArray(c.count + 1, To(block, Texts((if c.p.To? then c.p.content.ptrs else []) + [q])));
            TypedCell(S, f, r, strict) && CleanCell(r) && OneMoreEntry(c, r)
  {}

  lemma TextsBehind(p: Ptr, ptrs: seq<Ptr>)
    requires if p.To? then p.content == Texts(ptrs) else ptrs == []
    ensures Behind(p) == OwnedPtrs(ptrs)
  {}

  lemma TextAdded(b0: Book, b1: Book, p: Ptr, block: nat, ptrs: seq<Ptr>, q: Ptr)
    requires ptrs == (if p.To? && p.content.Texts? then p.content.ptrs else []) && (p.To? ==> p.content.Texts?)
    requires Balance(b0, b1, multiset{}, OwnedPtr(q))
    ensures Balance(b0, b1, multiset{block} + Behind(p), OwnedPtr(To(block, Texts(ptrs + [q]))))
  {
    hide Balance, OwnedPtrs;
    OwnedPtrsSnoc(ptrs, q);
    TextsBehind(p, ptrs);
    assert OwnedPtr(To(block, Texts(ptrs + [q]))) == multiset{block} + OwnedPtrs(ptrs + [q]);
    BalanceWhole(b0, b1, multiset{}, OwnedPtr(q), multiset{block} + Behind(p), OwnedPtr(To(block, Texts(ptrs + [q]))));
  }

  /** A submessage at the end of the array that has moved to `block`.  It starts from zero. */
  method DecodeStructEntry(alloc: Allocator, S: Schema, i: nat, f: HField, c: Cell, block: nat, stream: IStream)
    returns (ok: bool, r: Cell)
    requires alloc.Valid() && S.Ok() && i < |S.tables| && S.FieldOk(i, f) && stream.Valid()
    requires f.at.Pointer? && f.repeated && f.kind.Sub?
    requires TypedCell(S, f, c, true) && c.RefArray? && c.count < PB_SIZE_MAX
    modifies alloc, stream
    ensures stream.Valid() && stream.End() <= old(stream.End())
    ensures ok ==> stream.End() == old(stream.End()) && stream.bytesLeft < old(stream.bytesLeft)
    ensures r.RefArray? && Conserves(alloc, multiset{block} + Behind(c.p), OwnedPtr(r.p))
    ensures Bounded(alloc) && (ok ==> Steady(alloc)) && TypedCell(S, f, r, ok)
    ensures CleanCell(c) && S.Roomy() ==> CleanCell(r) && Straight(alloc)
    ensures OneMoreEntry(c, r)
    ensures Announced(old(stream.Rest())).None? ==>
              !ok && r.p.To? && r.p.content.Bodies? && |r.p.content.items| == c.count + 1 &&
              r.p.content.items[c.count] == Zero(S, f.kind.id)
    ensures S.Distinct() ==>
              FieldAs(AfterSingle(S, i, f, EraseCell(c), old(stream.Rest())), ok, r,
                old(stream.Rest()), stream.Rest(), alloc.refusals > old(alloc.refusals))
    decreases stream.bytesLeft, 2
  {
    hide Balance, Typed, TypedCell, CleanCell, Clean, Blank, OwnedPtr, Owned, OneMoreEntry, FaultsAreDead, Announced,
      After, AfterSingle, Erase, EraseCell, FieldAs, StructAs, SubStart, SubStored, SetDefaults;
    BodiesBefore(S, f, c);
    var id := f.kind.id;
    var entry := Zero(S, id);
    ZeroIsBlank(S, id);
    TypedEverywhere(S, id, entry);
    var s;
    ok, s := DecSubmessage(alloc, S, id, entry, true, stream);
    var items := (if c.p.To? then c.p.content.items else []) + [s];
    r := RefArray(c.count + 1, To(block, Bodies(items)));
    BodiesAfter(S, f, c, s, items, block, ok);
    BodyAdded(old(alloc.Books()), alloc.Books(), c.p, block, items);
    ArrayForm(S, f, c, block, s);
    if S.Distinct() {
      SubFormed(S, i, f, EraseCell(c), SetDefaults(Erase(entry)), s, r, ok, old(stream.Rest()), stream.Rest(),
        alloc.refusals > old(alloc.refusals));
    }
  }

  lemma BodiesBefore(S: Schema, f: HField, c: Cell)
    requires f.at.Pointer? && f.repeated && f.kind.Sub? && TypedCell(S, f, c, true)
    ensures c.RefArray? && (if c.p.To? then c.p.content.Bodies? && |c.p.content.items| == c.count else c.count == 0)
  {}

  lemma BodiesAfter(S: Schema, f: HField, c: Cell, s: Struct, items: seq<Struct>, block: nat, strict: bool)
    requires f.at.Pointer? && f.repeated && f.kind.Sub? && TypedCell(S, f, c, true) && Typed(S, f.kind.id, s, strict)
    requires c.RefArray? && c.count < PB_SIZE_MAX && (c.p.To? ==> c.p.content.Bodies?)
    requires items == (if c.p.To? then c.p.content.items else []) + [s]
    ensures var r := RefArray(c.count + 1, To(block, Bodies(items)));
            TypedCell(S, f, r, strict) && OneMoreEntry(c, r) && (CleanCell(c) && Clean(s) ==> CleanCell(r))
  {
    hide Typed, Clean;
    forall j | 0 <= j < |items| ensures Typed(S, f.kind.id, items[j], strict) {
      if j < c.count && !strict { TypedEverywhere(S, f.kind.id, items[j]); }
    }
  }

  lemma BodyAdded(b0: Book, b1: Book, p: Ptr, block: nat, items: seq<Struct>)
    requires p.To? ==> p.content.Bodies?
    requires items != [] && items[..|items| - 1] == (if p.To? then p.content.items else [])
    requires Balance(b0, b1, multiset{}, Owned(items[|items| - 1]))
    ensures Balance(b0, b1, multiset{block} + Behind(p), OwnedPtr(To(block, Bodies(items))))
  {
    hide Balance, Owned;
    var n := |items| - 1;
    var before := if p.To? then p.content.items else [];
    forall j | 0 <= j < n ensures items[j] == before[j] { assert items[..n][j] == items[j]; }
    OwnedStructsSame(before, items, n);
    assert Behind(p) == OwnedStructs(before, n);
    assert OwnedContent(Bodies(items)) == OwnedStructs(items, n + 1) == Owned(items[n]) + OwnedStructs(items, n);
    assert OwnedPtr(To(block, Bodies(items))) == multiset{block} + OwnedContent(Bodies(items));
    BalanceWhole(b0, b1, multiset{}, Owned(items[n]), multiset{block} + Behind(p), OwnedPtr(To(block, Bodies(items))));
  }

  /** A number, or anything else without pointers, behind a pointer. */
  method DecodePointerData(alloc: Allocator, S: Schema, i: nat, f: HField, c: Cell, stream: IStream)
    returns (ok: bool, r: Cell)
    requires alloc.Valid() && S.Ok() && i < |S.tables| && S.FieldOk(i, f) && stream.Valid()
    requires f.at.Pointer? && !f.repeated && f.kind.Data?
    requires TypedCell(S, f, c, true) && OwnedCell(c) <= multiset(alloc.live)
    modifies alloc, stream
    ensures stream.Valid() && stream.End() <= old(stream.End())
    ensures ok ==> stream.End() == old(stream.End()) && stream.bytesLeft < old(stream.bytesLeft)
    ensures Conserves(alloc, OwnedCell(c), OwnedCell(r))
    ensures Bounded(alloc) && (ok ==> Steady(alloc)) && TypedCell(S, f, r, ok)
    ensures CleanCell(c) && S.Roomy() ==> CleanCell(r) && Straight(alloc)
    ensures ok ==> r.Ref? && r.p.To?
    ensures S.Distinct() ==>
              FieldAs(AfterSingle(S, i, f, EraseCell(c), old(stream.Rest())), ok, r,
                old(stream.Rest()), stream.Rest(), alloc.refusals > old(alloc.refusals))
  {
    hide Balance, TypedCell, CleanCell, Owned, FaultsAreDead, AfterSingle, EraseCell, AfterItem, Announced, TextFits,
      Wire.Extent;
    RefCell(S, f, c);
    r := c;
    Unmoved(alloc.Books(), OwnedCell(c));
    var block;
    ItemRef(S, f, c.p, false);
    ok, block := AllocateField(alloc, c.p, f.dataSize, 1);
    if !ok { return; }
    r := Ref(To(block, Items(1)));
    ItemRef(S, f, r.p, true);
    ItemRef(S, f, r.p, false);
    assert OwnedPtr(r.p) == multiset{block} + Behind(c.p);
    DataForm(S, i, f, c, stream.Rest());
    ItemForm(f, c, block, 1);
    ok := ReadData(alloc, stream, f.kind.wireType);
  }

  /** A string or byte string behind a pointer. */
  method DecodePointerText(alloc: Allocator, S: Schema, i: nat, f: HField, c: Cell, stream: IStream)
    returns (ok: bool, r: Cell)
    requires alloc.Valid() && S.Ok() && i < |S.tables| && S.FieldOk(i, f) && stream.Valid()
    requires f.at.Pointer? && !f.repeated && f.kind.Text?
    requires TypedCell(S, f, c, true) && OwnedCell(c) <= multiset(alloc.live)
    modifies alloc, stream
    ensures stream.Valid() && stream.End() <= old(stream.End())
    ensures ok ==> stream.End() == old(stream.End()) && stream.bytesLeft < old(stream.bytesLeft)
    ensures Conserves(alloc, OwnedCell(c), OwnedCell(r))
    ensures Bounded(alloc) && (ok ==> Steady(alloc)) && TypedCell(S, f, r, ok)
    ensures CleanCell(c) && S.Roomy() ==> CleanCell(r) && Straight(alloc)
    ensures ok ==> r.Ref? && r.p.To?
    ensures S.Distinct() ==>
              FieldAs(AfterSingle(S, i, f, EraseCell(c), old(stream.Rest())), ok, r,
                old(stream.Rest()), stream.Rest(), alloc.refusals > old(alloc.refusals))
  {
    hide Balance, TypedCell, CleanCell, Owned, FaultsAreDead, AfterSingle, EraseCell, AfterItem, Announced, TextFits,
      Wire.Extent;
    RefCell(S, f, c);
    r := c;
    Unmoved(alloc.Books(), OwnedCell(c));
    var q;
    TextForm(S, i, f, c, stream.Rest());
    ok, q := DecText(alloc, c.p, f.kind.isString, stream);
    r := Ref(q);
    ItemRef(S, f, q, ok);
    if ok { ItemForm(f, c, q.block, q.content.capacity); }
  }

  /** The branch of decode_pointer_field for fields that are not repeated. */
  method DecodePointerValue(alloc: Allocator, S: Schema, i: nat, f: HField, c: Cell, stream: IStream)
    returns (ok: bool, r: Cell)
    requires alloc.Valid() && S.Ok() && i < |S.tables| && S.FieldOk(i, f) && stream.Valid()
    requires f.at.Pointer? && !f.repeated
    requires TypedCell(S, f, c, true) && OwnedCell(c) <= multiset(alloc.live)
    modifies alloc, stream
    ensures stream.Valid() && stream.End() <= old(stream.End())
    ensures ok ==> stream.End() == old(stream.End()) && stream.bytesLeft < old(stream.bytesLeft)
    ensures Conserves(alloc, OwnedCell(c), OwnedCell(r))
    ensures Bounded(alloc) && (ok ==> Steady(alloc)) && TypedCell(S, f, r, ok)
    ensures CleanCell(c) && S.Roomy() ==> CleanCell(r) && Straight(alloc)
    ensures ok ==> r.Ref? && r.p.To?
    ensures S.Distinct() ==>
              FieldAs(AfterSingle(S, i, f, EraseCell(c), old(stream.Rest())), ok, r,
                old(stream.Rest()), stream.Rest(), alloc.refusals > old(alloc.refusals))
    decreases stream.bytesLeft, 4
  {
    hide Balance, TypedCell, CleanCell, Owned, OwnedCell, FaultsAreDead, AfterSingle, EraseCell, FieldAs;
    match f.kind {
      case Text(_) => ok, r := DecodePointerText(alloc, S, i, f, c, stream);
      case Data(_, _) => ok, r := DecodePointerData(alloc, S, i, f, c, stream);
      case Sub(_) => ok, r := DecodePointerStruct(alloc, S, i, f, c, stream);
    }
  }

  /** A submessage behind a pointer: a duplicate replaces the one that came before, all of whose
      blocks are given back. */
  method DecodePointerStruct(alloc: Allocator, S: Schema, i: nat, f: HField, c: Cell, stream: IStream)
    returns (ok: bool, r: Cell)
    requires alloc.Valid() && S.Ok() && i < |S.tables| && S.FieldOk(i, f) && stream.Valid()
    requires f.at.Pointer? && !f.repeated && f.kind.Sub?
    requires TypedCell(S, f, c, true) && OwnedCell(c) <= multiset(alloc.live)
    modifies alloc, stream
    ensures stream.Valid() && stream.End() <= old(stream.End())
    ensures ok ==> stream.End() == old(stream.End()) && stream.bytesLeft < old(stream.bytesLeft)
    ensures Conserves(alloc, OwnedCell(c), OwnedCell(r))
    ensures Bounded(alloc) && (ok ==> Steady(alloc)) && TypedCell(S, f, r, ok)
    ensures CleanCell(c) && S.Roomy() ==> CleanCell(r) && Straight(alloc)
    ensures forall b :: b in OwnedCell(c) ==> b in alloc.released && b !in alloc.live
    ensures ok ==> r.Ref? && r.p.To?
    ensures S.Distinct() ==>
              FieldAs(AfterSingle(S, i, f, EraseCell(c), old(stream.Rest())), ok, r,
                old(stream.Rest()), stream.Rest(), alloc.refusals > old(alloc.refusals))
    decreases stream.bytesLeft, 3
  {
    hide Balance, Typed, TypedCell, CleanCell, OwnedPtr, OwnedCell, FaultsAreDead, AfterSingle, EraseCell;
    RefCell(S, f, c);
    TypedCellEverywhere(S, f, c);
    r := Ref(Null);
    var block;
    ok, block := ReplaceBlock(alloc, S, f, c);
    if !ok { return; }
    ghost var b := alloc.Books();
    ok, r := DecodeNewStruct(alloc, S, i, f, c, block, stream);
    BalanceTwice(old(alloc.Books()), b, alloc.Books(), OwnedCell(c), multiset{block}, OwnedCell(r));
  }

  /** Gives back all that is behind a pointer to a submessage and allocates a new block for it. */
  method ReplaceBlock(alloc: Allocator, S: Schema, f: HField, c: Cell) returns (ok: bool, block: nat)
    requires alloc.Valid() && S.Ok() && TypedCell(S, f, c, false) && OwnedCell(c) <= multiset(alloc.live)
    requires f.at.Pointer? && !f.repeated && f.kind.Sub? && f.dataSize <= SIZE_T_MAX
    modifies alloc
    ensures Steady(alloc) && Conserves(alloc, OwnedCell(c), if ok then multiset{block} else multiset{})
    ensures forall b :: b in OwnedCell(c) ==> b in alloc.released
    ensures !ok && f.dataSize > 0 ==> Refused(alloc)
  {
    hide Balance, TypedCell, OwnedPtr, OwnedCell, FaultsAreDead;
    var r := ReleaseDuplicate(alloc, S, f, c);
    ghost var b := alloc.Books();
    NewBlock(0);
    ok, block := AllocateField(alloc, Null, f.dataSize, 1);
    NewBlock(block);
    BalanceTwice(old(alloc.Books()), b, alloc.Books(), OwnedCell(c), multiset{},
        if ok then multiset{block} else multiset{});
  }

  lemma NewBlock(block: nat)
    ensures multiset{block} + Behind(Null) == multiset{block} && OwnedPtr(Null) == multiset{}
  {}

  /** The submessage in a new block. */
  method DecodeNewStruct(alloc: Allocator, S: Schema, i: nat, f: HField, ghost c: Cell, block: nat, stream: IStream)
    returns (ok: bool, r: Cell)
    requires alloc.Valid() && S.Ok() && i < |S.tables| && S.FieldOk(i, f) && stream.Valid()
    requires f.at.Pointer? && !f.repeated && f.kind.Sub?
    modifies alloc, stream
    ensures stream.Valid() && stream.End() <= old(stream.End())
    ensures ok ==> stream.End() == old(stream.End()) && stream.bytesLeft < old(stream.bytesLeft)
    ensures Conserves(alloc, multiset{block}, OwnedCell(r))
    ensures Bounded(alloc) && (ok ==> Steady(alloc)) && TypedCell(S, f, r, ok)
    ensures S.Roomy() ==> CleanCell(r) && Straight(alloc)
    ensures r.Ref? && r.p.To?
    ensures S.Distinct() ==>
              FieldAs(AfterSingle(S, i, f, EraseCell(c), old(stream.Rest())), ok, r,
                old(stream.Rest()), stream.Rest(), alloc.refusals > old(alloc.refusals))
    decreases stream.bytesLeft, 2
  {
    hide Balance, Typed, Clean, Blank, TypedCell, CleanCell, Owned, OwnedPtr, OwnedCell, FaultsAreDead,
      Announced, After, AfterSingle, Erase, EraseCell, FieldAs, StructAs, SubStart, SubStored;
    var zero := Zero(S, f.kind.id);
    StructBehind(S, f.kind.id, zero);
    ghost var b := alloc.Books();
    var s;
    ok, s := DecSubmessage(alloc, S, f.kind.id, zero, false, stream);
    r := Ref(To(block, Body(s)));
    StructRef(S, f, s, block, ok);
    RefForm(S, f, EraseCell(c), block, s);
    if S.Distinct() {
      SubFormed(S, i, f, EraseCell(c), Erase(zero), s, r, ok, old(stream.Rest()), stream.Rest(),
        alloc.refusals > old(alloc.refusals));
    }
    BalanceWhole(b, alloc.Books(), multiset{}, Owned(s), multiset{block}, OwnedCell(r));
  }

  /** What decode_pointer_field does first with a submessage. */
  method ReleaseDuplicate(alloc: Allocator, S: Schema, f: HField, c: Cell) returns (r: Cell)
    requires alloc.Valid() && S.Ok() && TypedCell(S, f, c, false) && OwnedCell(c) <= multiset(alloc.live)
    requires f.at.Pointer? && !f.repeated && f.kind.Sub?
    modifies alloc
    ensures r == Ref(Null) && Steady(alloc) && Conserves(alloc, OwnedCell(c), multiset{})
    ensures forall b :: b in OwnedCell(c) ==> b in alloc.released && b !in alloc.live
  {
    hide Balance, TypedCell, OwnedCell, FaultsAreDead;
    PointerCell(S, f, c);
    r := c;
    if c.p.To? {
      r := ReleaseField(alloc, S, f, c);
      FreesLive(old(alloc.live), alloc.live, alloc.gained, old(alloc.faults), alloc.faults, alloc.lost, OwnedCell(c));
      forall b | b in OwnedCell(c) ensures b in alloc.released && b !in alloc.live {
        FreedFromLive(old(alloc.live), alloc.live, alloc.gained, alloc.faults + alloc.lost, OwnedCell(c), b);
      }
    } else {
      NullOwnsNothing(c.p);
      Unmoved(alloc.Books(), multiset{});
    }
  }

  lemma RefCell(S: Schema, f: HField, c: Cell)
    requires f.at.Pointer? && !f.repeated && TypedCell(S, f, c, true)
    ensures c.Ref? && (!f.kind.Sub? ==> IsText(c.p))
    ensures TypedCell(S, f, Ref(Null), false) && CleanCell(Ref(Null))
    ensures OwnedCell(Ref(Null)) == multiset{} == OwnedPtr(Null) && OwnedCell(c) == OwnedPtr(c.p)
  {}

  lemma ItemRef(S: Schema, f: HField, p: Ptr, strict: bool)
    requires f.at.Pointer? && !f.repeated && !f.kind.Sub? && IsText(p)
    ensures TypedCell(S, f, Ref(p), strict) && CleanCell(Ref(p))
  {}

  lemma StructRef(S: Schema, f: HField, s: Struct, block: nat, strict: bool)
    requires f.at.Pointer? && !f.repeated && f.kind.Sub? && Typed(S, f.kind.id, s, strict)
    ensures var r := Ref(To(block, Body(s)));
            TypedCell(S, f, r, strict) && (Clean(s) ==> CleanCell(r)) && OwnedCell(r) == multiset{block} + Owned(s)
  {
    assert OwnedContent(Body(s)) == Owned(s);
  }

  lemma StructBehind(S: Schema, id: nat, zero: Struct)
    requires S.Ok() && id < |S.tables| && zero == Zero(S, id)
    ensures Typed(S, id, zero, true) && Clean(zero) && Owned(zero) == multiset{}
  {
    ZeroIsBlank(S, id);
    BlankOwnsNothing(zero);
  }

  /** decode_field */
  method DecodeField(alloc: Allocator, S: Schema, i: nat, f: HField, c: Cell, wireType: nat, stream: IStream)
    returns (ok: bool, r: Cell)
    requires alloc.Valid() && S.Ok() && i < |S.tables| && S.FieldOk(i, f) && stream.Valid()
    requires TypedCell(S, f, c, true) && OwnedCell(c) <= multiset(alloc.live)
    modifies alloc, stream
    ensures stream.Valid() && stream.End() <= old(stream.End())
    ensures ok ==> stream.End() == old(stream.End()) && stream.bytesLeft < old(stream.bytesLeft)
    ensures Conserves(alloc, OwnedCell(c), OwnedCell(r))
    ensures Bounded(alloc) && (ok ==> Steady(alloc)) && TypedCell(S, f, r, ok)
    ensures CleanCell(c) && S.HasRoomForCount(f) && S.Roomy() ==> CleanCell(r) && Straight(alloc)
    ensures var slip := ForeseenField(S, f, c, old(stream.Rest()));
            S.Distinct() && !slip.NoSlip? ==> !ok && Slipped(alloc, slip)
    ensures var next := AfterEmpty(S, f, c, old(stream.Rest()));
            next.Some? ==> ok && next.value == (r, stream.Rest())
    ensures S.Distinct() ==>
              FieldAs(AfterField(S, i, f, EraseCell(c), wireType, old(stream.Rest())), ok, r,
                old(stream.Rest()), stream.Rest(), alloc.refusals > old(alloc.refusals))
    decreases stream.bytesLeft, 5
  {
    hide Balance, TypedCell, CleanCell, OwnedCell, Schema.HasRoomForCount, FaultsAreDead, ForeseenSub, Announced,
      AfterSingle, AfterPacked, EraseCell;
    if f.at.Static? {
      ok, r := DecodeStaticField(alloc, S, i, f, c, wireType, stream);
    } else if !f.repeated {
      ok, r := DecodePointerValue(alloc, S, i, f, c, stream);
    } else if wireType == Wire.WT_STRING && f.kind.Data? && f.kind.packable {
      ok, r := DecodePackedPointer(alloc, S, i, f, c, stream);
    } else {
      ok, r := DecodePointerEntry(alloc, S, i, f, c, stream);
    }
  }

  // ----- Messages

  lemma StructAfterField(S: Schema, id: nat, s: Struct, k: nat, c: Cell, strict: bool)
    requires Typed(S, id, s, true) && k < |s.cells| && TypedCell(S, S.tables[id][k], c, strict)
    ensures Typed(S, id, Struct(s.cells[k := c]), strict)
    ensures Clean(s) && CleanCell(c) ==> Clean(Struct(s.cells[k := c]))
  {
    hide TypedCell, CleanCell;
    forall j | 0 <= j < |s.cells| ensures TypedCell(S, S.tables[id][j], s.cells[k := c][j], strict) {
      if !strict { TypedCellEverywhere(S, S.tables[id][j], s.cells[j]); }
    }
  }

  /** One round of the record loop of pb_decode_noinit.  `counting` tells whether a fixed-count array may
      have been seen. */
  method DecodeRecord(alloc: Allocator, S: Schema, id: nat, s: Struct, counting: bool, stream: IStream)
    returns (outcome: Outcome, r: Struct, nowCounting: bool)
    requires alloc.Valid() && S.Ok() && stream.Valid() && stream.bytesLeft > 0
    requires Typed(S, id, s, true) && Owned(s) <= multiset(alloc.live)
    modifies alloc, stream
    ensures stream.Valid() && stream.End() <= old(stream.End())
    ensures !outcome.Failed? ==> stream.End() == old(stream.End()) && stream.bytesLeft < old(stream.bytesLeft)
    ensures Conserves(alloc, Owned(s), Owned(r))
    ensures Bounded(alloc) && (!outcome.Failed? ==> Steady(alloc)) && Typed(S, id, r, !outcome.Failed?)
    ensures Clean(s) && S.Roomy() ==> Clean(r) && Straight(alloc)
    ensures var slip := Foreseen(S, id, s, old(stream.Rest()));
            S.Distinct() && !slip.NoSlip? ==>
              if outcome.Continued? then Foreseen(S, id, r, stream.Rest()) == slip
              else outcome.Failed? && Slipped(alloc, slip)
    ensures var x := After(S, id, Erase(s), old(stream.Rest()));
            S.Distinct() ==>
              match outcome
              case Failed => x.Some? ==> Refused(alloc)
              case Stopped => x == Some(Erase(r))
              case Continued => x == After(S, id, Erase(r), stream.Rest())
    decreases stream.bytesLeft, 6, 1
  {
    hide Balance, Typed, Clean, Owned, FaultsAreDead, Foreseen, Schema.Distinct, Schema.Roomy, After, AfterKey, Erase;
    ghost var bytes := stream.Rest();
    outcome, r, nowCounting := Failed, s, counting;
    Unmoved(alloc.Books(), Owned(s));
    TypedEverywhere(S, id, s);
    TypedShape(S, id, s);
    NothingAhead(S, id, s, bytes);
    AfterRecord(S, id, Erase(s), bytes);
    var tagOk, wireType, tag, eof := stream.DecodeTag();
    if !tagOk {
      if eof {
        assert |stream.Rest()| < |bytes|;
        outcome := Stopped;
      }
      return;
    }
    assert |stream.Rest()| < |bytes|;
    var ok;
    ok, r, nowCounting := DecodeTagged(alloc, S, id, s, counting, tag, wireType, stream, bytes);
    if ok { outcome := Continued; }
  }

  /** Without a key in front no slip is ahead. */
  lemma NothingAhead(S: Schema, id: nat, s: Struct, bytes: Varint.Bytes)
    ensures !Wire.ReadKey(bytes).Key? ==> Foreseen(S, id, s, bytes).NoSlip?
  {}

  /** A record after its key. */
  method DecodeTagged(alloc: Allocator, S: Schema, id: nat, s: Struct, counting: bool, tag: nat, wireType: nat,
                      stream: IStream, ghost bytes: Varint.Bytes)
    returns (ok: bool, r: Struct, nowCounting: bool)
    requires alloc.Valid() && S.Ok() && stream.Valid() && Wire.ReadKey(bytes) == Wire.Key(tag, wireType, stream.Rest())
    requires Typed(S, id, s, true) && Owned(s) <= multiset(alloc.live)
    requires id < |S.tables| && |s.cells| == |S.tables[id]|
    modifies alloc, stream
    ensures stream.Valid() && stream.End() <= old(stream.End())
    ensures ok ==> stream.End() == old(stream.End()) && stream.bytesLeft < old(stream.bytesLeft)
    ensures Conserves(alloc, Owned(s), Owned(r))
    ensures Bounded(alloc) && (ok ==> Steady(alloc)) && Typed(S, id, r, ok)
    ensures Clean(s) && S.Roomy() ==> Clean(r) && Straight(alloc)
    ensures var slip := Foreseen(S, id, s, bytes);
            S.Distinct() && !slip.NoSlip? ==>
              if ok then Foreseen(S, id, r, stream.Rest()) == slip else Slipped(alloc, slip)
    ensures var x := AfterKey(S, id, Erase(s), tag, wireType, old(stream.Rest()));
            S.Distinct() ==> if ok then x == Some((Erase(r), stream.Rest())) else x.Some? ==> Refused(alloc)
    decreases stream.bytesLeft, 7
  {
    hide Balance, Typed, Clean, Owned, FaultsAreDead, Foreseen, ForeseenField, AfterEmpty, Schema.Distinct,
      Schema.Roomy, Erase, AfterField, Wire.Extent;
    r, nowCounting := s, counting;
    Unmoved(alloc.Books(), Owned(s));
    TypedEverywhere(S, id, s);
    SlipAhead(S, id, s, bytes);
    var table := S.tables[id];
    if k: nat :| k < |table| && table[k].tag == tag {
      var f := table[k];
      OnlyField(S, id, k);
      OnlySubmessagesSlip(S, f, s.cells[k], stream.Rest());
      if f.at.Static? && f.repeated && !f.kind.Sub? {
        // A fixed-count array; the one before it may be incomplete.
        if * {
          alloc.Refuse();
          return false, r, nowCounting;
        }
        nowCounting := true;
      }
      ok, r := DecodeKnown(alloc, S, id, s, k, wireType, stream);
    } else if table == [] && tag == 0 {
      ok := ReadData(alloc, stream, Wire.WT_VARINT);
    } else {
      ghost var before := stream.Rest();
      ok := stream.SkipField(wireType);
      if ok { assert |stream.Rest()| < |before|; }
    }
  }

  /** A record of field `k`, after its key. */
  method DecodeKnown(alloc: Allocator, S: Schema, id: nat, s: Struct, k: nat, wireType: nat, stream: IStream)
    returns (ok: bool, r: Struct)
    requires alloc.Valid() && S.Ok() && stream.Valid()
    requires Typed(S, id, s, true) && Owned(s) <= multiset(alloc.live)
    requires id < |S.tables| && |s.cells| == |S.tables[id]| && k < |s.cells|
    modifies alloc, stream
    ensures stream.Valid() && stream.End() <= old(stream.End())
    ensures ok ==> stream.End() == old(stream.End()) && stream.bytesLeft < old(stream.bytesLeft)
    ensures Conserves(alloc, Owned(s), Owned(r))
    ensures Bounded(alloc) && (ok ==> Steady(alloc)) && Typed(S, id, r, ok)
    ensures Clean(s) && S.Roomy() ==> Clean(r) && Straight(alloc)
    ensures var f, c := S.tables[id][k], s.cells[k];
            var slip, next := ForeseenField(S, f, c, old(stream.Rest())), AfterEmpty(S, f, c, old(stream.Rest()));
            && (S.Distinct() && !slip.NoSlip? ==> !ok && Slipped(alloc, slip))
            && (next.Some? ==> ok && r == Struct(s.cells[k := next.value.0]) && stream.Rest() == next.value.1)
    ensures var x := AfterField(S, id, S.tables[id][k], Erase(s).cells[k], wireType, old(stream.Rest()));
            S.Distinct() ==>
              if ok then
                && x.Some? && Erase(r) == Struct(Erase(s).cells[k := x.value.0])
                && x.value.1 <= |old(stream.Rest())| && stream.Rest() == old(stream.Rest())[x.value.1..]
              else x.Some? ==> Refused(alloc)
    decreases stream.bytesLeft, 6
  {
    hide Balance, Typed, Clean, TypedCell, CleanCell, OwnedCells, OwnedCell, FaultsAreDead, ForeseenField, AfterEmpty,
      Schema.Distinct, Schema.Roomy, Schema.HasRoomForCount, Erase, EraseCell, AfterField;
    CellAt(S, id, s, k);
    OwnedCellsAt(s.cells, k);
    var c;
    Unmoved(alloc.Books(), Owned(s));
    ok, c := DecodeField(alloc, S, id, S.tables[id][k], s.cells[k], wireType, stream);
    CellChanged(old(alloc.Books()), old(alloc.Books()), alloc.Books(), Owned(s), s.cells, k, c);
    StructAfterField(S, id, s, k, c, ok);
    EraseUpdate(s, k, c);
    ErasedCell(s, k);
    r := Struct(s.cells[k := c]);
  }

  lemma ErasedCell(s: Struct, k: nat)
    requires k < |s.cells|
    ensures Erase(s).cells[k] == EraseCell(s.cells[k])
  {}

  /** pb_decode_noinit: whatever the outcome, the blocks that pb_release would free afterwards are those
      it would have freed before, less those freed and plus those allocated meanwhile; the account is
      off only by what a static array has come to count or to forget. */
  method DecodeNoInit(alloc: Allocator, S: Schema, id: nat, s: Struct, stream: IStream) returns (ok: bool, r: Struct)
    requires alloc.Valid() && S.Ok() && stream.Valid() && Typed(S, id, s, true) && Owned(s) <= multiset(alloc.live)
    modifies alloc, stream
    ensures stream.Valid() && stream.End() <= old(stream.End()) && (ok ==> stream.End() == old(stream.End()))
    ensures Conserves(alloc, Owned(s), Owned(r))
    ensures Bounded(alloc) && (ok ==> Steady(alloc)) && Typed(S, id, r, ok)
    ensures Clean(s) && S.Roomy() ==> Clean(r) && Straight(alloc)
    ensures var slip := Foreseen(S, id, s, old(stream.Rest()));
            S.Distinct() && !slip.NoSlip? ==> !ok && Slipped(alloc, slip)
    ensures old(stream.Rest()) == [] && !S.Demands(id) ==> ok && r == s
    ensures S.Distinct() ==> StructAs(After(S, id, Erase(s), old(stream.Rest())),
                ok, r, alloc.refusals > old(alloc.refusals))
    decreases stream.bytesLeft, 7
  {
    hide Balance, Typed, Clean, Owned, FaultsAreDead, Foreseen, Schema.Distinct, Schema.Roomy, Schema.Demands,
      After, Erase;
    ghost var slip, bytes := Foreseen(S, id, s, stream.Rest()), stream.Rest();
    var outcome, counting := Continued, false;
    r := s;
    Unmoved(alloc.Books(), Owned(s));
    while stream.bytesLeft > 0 && outcome.Continued?
      invariant stream.Valid() && stream.bytesLeft <= old(stream.bytesLeft) && !outcome.Failed?
      invariant stream.End() == old(stream.End())
      invariant Conserves(alloc, Owned(s), Owned(r)) && Steady(alloc) && Typed(S, id, r, true)
      invariant Clean(s) && S.Roomy() ==> Clean(r)
      invariant S.Distinct() && !slip.NoSlip? ==> outcome.Continued? && Foreseen(S, id, r, stream.Rest()) == slip
      invariant stream.bytesLeft == old(stream.bytesLeft) ==> r == s && !counting
      invariant S.Distinct() ==>
                  After(S, id, Erase(s), bytes)
                  == if outcome.Stopped? then Some(Erase(r)) else After(S, id, Erase(r), stream.Rest())
      decreases stream.bytesLeft
    {
      ghost var b, before := alloc.Books(), Owned(r);
      OwnedIsLive(old(alloc.live), alloc.live, alloc.gained, alloc.faults, alloc.lost, alloc.lost, Owned(s), before);
      outcome, r, counting := DecodeRecord(alloc, S, id, r, counting, stream);
      BalanceTwice(old(alloc.Books()), b, alloc.Books(), Owned(s), before, Owned(r));
      if outcome.Failed? { return false, r; }
    }
    TypedShape(S, id, r);
    SlipAhead(S, id, r, stream.Rest());
    AfterRecord(S, id, Erase(r), stream.Rest());
    TypedEverywhere(S, id, r);
    ok := true;
    // The last fixed-count array may be incomplete, and a required field may be missing.
    if counting || S.Demands(id) {
      if * {
        alloc.Refuse();
        ok := false;
      }
    }
  }

  lemma TypedShape(S: Schema, id: nat, s: Struct)
    requires Typed(S, id, s, true)
    ensures id < |S.tables| && |s.cells| == |S.tables[id]|
  {}

  lemma CellAt(S: Schema, id: nat, s: Struct, k: nat)
    requires S.Ok() && Typed(S, id, s, true) && k < |s.cells|
    ensures TypedCell(S, S.tables[id][k], s.cells[k], true) && S.FieldOk(id, S.tables[id][k])
    ensures Clean(s) ==> CleanCell(s.cells[k])
    ensures S.Roomy() ==> S.HasRoomForCount(S.tables[id][k])
  {}

  /** What is foreseen is decided by the record in front. */
  lemma SlipAhead(S: Schema, id: nat, s: Struct, bytes: Varint.Bytes)
    requires id < |S.tables| && |s.cells| == |S.tables[id]|
    ensures bytes == [] ==> Foreseen(S, id, s, bytes).NoSlip?
    ensures match Wire.ReadKey(bytes)
            case Key(tag, _, rest) =>
              var k := FieldOf(S.tables[id], tag);
              if k.None? then Foreseen(S, id, s, bytes).NoSlip?
              else
                var f, c := S.tables[id][k.value], s.cells[k.value];
                var x, next := ForeseenField(S, f, c, rest), AfterEmpty(S, f, c, rest);
                Foreseen(S, id, s, bytes) ==
                if !x.NoSlip? || next.None? then x
                else Foreseen(S, id, Struct(s.cells[k.value := next.value.0]), next.value.1)
            case _ => Foreseen(S, id, s, bytes).NoSlip?
  {
    hide ForeseenField, AfterEmpty;
  }

  lemma OnlySubmessagesSlip(S: Schema, f: HField, c: Cell, rest: Varint.Bytes)
    ensures !f.kind.Sub? ==> ForeseenField(S, f, c, rest).NoSlip? && AfterEmpty(S, f, c, rest).None?
  {}

  lemma ArrivedAtDefaults(S: Schema, id: nat, s: Struct, r: Struct, bytes: Varint.Bytes)
    requires S.Ok() && S.Distinct() && Typed(S, id, s, false)
    requires After(S, id, Erase(SetDefaults(s)), bytes) == Some(Erase(r))
    ensures id < |S.tables| && AllArrived(S, id, r, Records(S.tables[id], bytes))
  {
    hide After, Erase, Records, AllArrived, Arrived, Typed;
    TypedLoosely(S, id, s);
    FormArrived(S, id, SetDefaults(s), r, bytes);
    ArrivedFromDefaults(S, id, s, r, Records(S.tables[id], bytes));
  }

  /** pb_decode: after success every pointer is set for which there is a record, and arrays count what is on the
      wire.  A failed decode leaves nothing for pb_release to free.  It has given back exactly the
      blocks it allocated if and only if no static array has come to count or to forget any. */
  method DecodeMessage(alloc: Allocator, S: Schema, id: nat, s: Struct, stream: IStream) returns (ok: bool, r: Struct)
    requires alloc.Valid() && S.Ok() && stream.Valid() && Typed(S, id, s, false)
    modifies alloc, stream
    ensures stream.Valid() && stream.End() <= old(stream.End()) && (ok ==> stream.End() == old(stream.End()))
    ensures Conserves(alloc, multiset{}, Owned(r))
    ensures Bounded(alloc) && (ok ==> Steady(alloc)) && Typed(S, id, r, ok)
    ensures !ok ==> Owned(r) == multiset{}
    ensures !ok ==> (alloc.live == old(alloc.live) && alloc.faults == old(alloc.faults) <==> Straight(alloc))
    ensures Clean(SetDefaults(s)) && S.Roomy() ==> Straight(alloc) && Clean(r) && (!ok ==> Blank(r))
    ensures var slip := Foreseen(S, id, SetDefaults(s), old(stream.Rest()));
            S.Distinct() && !slip.NoSlip? ==> !ok && Slipped(alloc, slip)
    ensures old(stream.Rest()) == [] && !S.Demands(id) ==> ok && r == SetDefaults(s)
    ensures S.Distinct() ==> StructAs(After(S, id, SetDefaults(Erase(s)), old(stream.Rest())),
                ok, r, alloc.refusals > old(alloc.refusals))
    ensures ok && S.Distinct() ==>
              id < |S.tables| && AllArrived(S, id, r, Records(S.tables[id], old(stream.Rest())))
    decreases stream.bytesLeft, 8
  {
    hide Typed, Clean, Blank, Owned, SetDefaults, Foreseen, Balance, FaultsAreDead, Schema.Distinct, Schema.Demands,
        Schema.Roomy, After, Erase, AllArrived, Records;
    var d := SetDefaults(s);
    DefaultsAreTyped(S, id, s);
    EraseDefaults(s);
    DefaultsOwnNothing(s);
    ok, r := DecodeNoInit(alloc, S, id, d, stream);
    if ok && S.Distinct() { ArrivedAtDefaults(S, id, s, r, old(stream.Rest())); }
    if !ok {
      ghost var b, live, faults, held := alloc.Books(), alloc.live, alloc.faults, Owned(r);
      if alloc.gained == old(alloc.gained) {
        OwnedIsLive(old(alloc.live), live, alloc.gained, faults, old(alloc.lost), alloc.lost, multiset{}, held);
      }
      r := ReleaseStruct(alloc, S, id, r);
      if alloc.gained == old(alloc.gained) {
        FreesLive(live, alloc.live, alloc.gained, faults, alloc.faults, alloc.lost, held);
      }
      BalanceTwice(old(alloc.Books()), b, alloc.Books(), multiset{}, held, multiset{});
      MoreFaults(old(alloc.faults), faults, alloc.faults, live, alloc.live);
      NothingLeft(alloc);
      if Blank(r) { BlankOwnsNothing(r); }
    }
  }

  /** When nothing is owned before and after, every block is back where it was exactly when the account
      is straight. */
  twostate lemma NothingLeft(alloc: Allocator)
    requires Conserves(alloc, multiset{}, multiset{}) && Bounded(alloc)
    ensures alloc.live == old(alloc.live) && alloc.faults == old(alloc.faults) <==> Straight(alloc)
  {
    var p, q := alloc.Books(), old(alloc.Books());
    if Straight(alloc) {
      forall e ensures e in alloc.live <==> e in old(alloc.live) {
        assert (p.plus + q.minus + multiset{})[e] == (q.plus + p.minus + multiset{})[e];
      }
    }
    if alloc.live == old(alloc.live) && alloc.faults == old(alloc.faults) {
      forall e ensures alloc.gained[e] + old(alloc.lost)[e] == old(alloc.gained)[e] + alloc.lost[e] {
        assert (p.plus + q.minus + multiset{})[e] == (q.plus + p.minus + multiset{})[e];
      }
    }
  }

  /** pb_release of a struct that refers to no block, such as one that has been released: nothing changes. */
  method ReleaseAgain(alloc: Allocator, S: Schema, id: nat, s: Struct) returns (r: Struct)
    requires alloc.Valid() && S.Ok() && Typed(S, id, s, false) && Owned(s) == multiset{}
    modifies alloc
    ensures alloc.live == old(alloc.live) && alloc.released == old(alloc.released) && alloc.next == old(alloc.next)
    ensures alloc.faults == old(alloc.faults) && Straight(alloc) && alloc.Valid()
    ensures alloc.refusals >= old(alloc.refusals)
    ensures Owned(r) == multiset{} && (Blank(s) ==> Blank(r))
  {
    hide Typed, Clean, Blank, Owned, Balance, FaultsAreDead;
    if Blank(s) { BlankOwnsNothing(s); }
    r := ReleaseStruct(alloc, S, id, s);
    NothingFreed(old(alloc.live), alloc.live, alloc.gained, old(alloc.faults), alloc.faults, alloc.lost);
    forall b ensures b in alloc.released <==> b in old(alloc.released) {}
  }

  /** pb_decode, then pb_release, then pb_release once more, which changes nothing.  Every block is back
      where it was if and only if no static array has come to count or to forget any; a clean struct and
      room in the counts of the arrays that can hold pointers are enough for that on every input. */
  method Lifecycle(alloc: Allocator, S: Schema, id: nat, s: Struct, stream: IStream) returns (ok: bool, r: Struct)
    requires alloc.Valid() && S.Ok() && stream.Valid() && Typed(S, id, s, false)
    modifies alloc, stream
    ensures alloc.Valid() && Owned(r) == multiset{} && Bounded(alloc)
    ensures alloc.live == old(alloc.live) && alloc.faults == old(alloc.faults) <==> Straight(alloc)
    ensures Straight(alloc) ==> forall b: nat :: old(alloc.next) <= b < alloc.next ==> b in alloc.released
    ensures Clean(SetDefaults(s)) && S.Roomy() ==> Straight(alloc) && Blank(r)
    ensures ok ==> Straight(alloc)
    ensures var x := After(S, id, SetDefaults(Erase(s)), old(stream.Rest()));
            S.Distinct() ==> if ok then x.Some? else x.Some? ==> Refused(alloc)
    ensures var slip := Foreseen(S, id, SetDefaults(s), old(stream.Rest()));
            S.Distinct() && !slip.NoSlip? ==> !ok && Slipped(alloc, slip)
  {
    hide Typed, Clean, Blank, Owned, SetDefaults, Foreseen, Balance, FaultsAreDead, Schema.Distinct, Schema.Demands,
        Schema.Roomy, After, Erase, AllArrived, Records;
    ok, r := DecodeMessage(alloc, S, id, s, stream);
    if ok { TypedEverywhere(S, id, r); }
    ghost var b, live, faults, held := alloc.Books(), alloc.live, alloc.faults, Owned(r);
    if alloc.gained == old(alloc.gained) {
      OwnedIsLive(old(alloc.live), live, alloc.gained, faults, old(alloc.lost), alloc.lost, multiset{}, held);
    }
    r := ReleaseStruct(alloc, S, id, r);
    if alloc.gained == old(alloc.gained) {
      FreesLive(live, alloc.live, alloc.gained, faults, alloc.faults, alloc.lost, held);
    }
    BalanceTwice(old(alloc.Books()), b, alloc.Books(), multiset{}, held, multiset{});
    MoreFaults(old(alloc.faults), faults, alloc.faults, live, alloc.live);
    NothingLeft(alloc);
    r := ReleaseAgain(alloc, S, id, r);
  }
}
