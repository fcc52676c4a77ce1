/** Memory under PB_ENABLE_MALLOC: which blocks a message refers to, the allocator, and the account
    that decoding and releasing have to keep (pb_decode.c:482-675, 1075-1087, 1154-1259). */
module Heap {
  import opened Config
  import opened Message

  // ----- Descriptors and memory

  /** What a field holds as far as the heap is concerned: data without pointers, a string or
      byte string, or a submessage given by its index in the schema. */
  datatype Kind = Data(wireType: nat, packable: bool) | Text(isString: bool) | Sub(id: nat)

  datatype HField =
    HField(tag: nat, kind: Kind, at: AType, required: bool, repeated: bool, dataSize: nat, arraySize: nat)

  type HTable = seq<HField>

  /** All message types of a program.  They may refer to one another in cycles through pointer
      fields; `rank` bounds the nesting of static submessages. */
  datatype Schema = Schema(tables: seq<HTable>, rank: seq<nat>) {
    ghost predicate Ok() {
      && |rank| == |tables|
      && forall i, k :: 0 <= i < |tables| && 0 <= k < |tables[i]| ==> FieldOk(i, tables[i][k])
    }

    predicate FieldOk(i: nat, f: HField)
      requires i < |rank|
    {
      && !f.at.Callback?
      && 0 < f.dataSize <= PB_SIZE_MAX && f.arraySize <= PB_SIZE_MAX
      && (f.kind.Sub? ==> f.kind.id < |tables| && f.kind.id < |rank|)
      && (f.kind.Sub? && f.at.Static? ==> rank[f.kind.id] < rank[i])
    }

    /** Message type `id` has pointer fields, of its own or in submessages that it holds in place. */
    ghost predicate HoldsPointers(id: nat)
      requires Ok() && id < |tables|
      decreases rank[id], 1
    {
      exists k :: 0 <= k < |tables[id]| && FieldHoldsPointers(id, tables[id][k])
    }

    ghost predicate FieldHoldsPointers(i: nat, f: HField)
      requires Ok() && i < |tables| && FieldOk(i, f)
      decreases rank[i], 0
    {
      f.at.Pointer? || (f.at.Static? && f.kind.Sub? && HoldsPointers(f.kind.id))
    }

    /** In a static array whose entries can hold pointers, the count can exceed the size by one. */
    ghost predicate HasRoomForCount(f: HField)
      requires Ok() && (f.kind.Sub? ==> f.kind.id < |tables|)
    {
      f.kind.Sub? && f.at.Static? && f.repeated ==> f.arraySize < PB_SIZE_MAX || !HoldsPointers(f.kind.id)
    }

    /** All static arrays of submessages have that room. */
    ghost predicate Roomy()
      requires Ok()
    {
      forall i, k :: 0 <= i < |tables| && 0 <= k < |tables[i]| ==> HasRoomForCount(tables[i][k])
    }

    /** No two fields of a message have the same tag. */
    ghost predicate Distinct() {
      forall i, j, k :: 0 <= i < |tables| && 0 <= j < k < |tables[i]| ==> tables[i][j].tag != tables[i][k].tag
    }

    /** Message type `id` has a required field, so that an empty message is incomplete. */
    predicate Demands(id: nat) {
      id < |tables| && exists k :: 0 <= k < |tables[id]| && tables[id][k].required
    }
  }

  /** The contents of a struct.  A cell without pointers is `Flat`; a static array of submessages is
      its count and all its entries, whatever they hold. */
  datatype Struct = Struct(cells: seq<Cell>)

  datatype Cell =
    | Flat
    | Inline(s: Struct)
    | InlineArray(count: nat, items: seq<Struct>)
    | Ref(p: Ptr)
    | RefArray(count: nat, p: Ptr)

  datatype Ptr = Null | To(block: nat, content: Content)

  /** A block holds data with room for `capacity` items, a submessage, an array of pointers to
      strings, or an array of submessages. */
  datatype Content = Items(capacity: nat) | Body(s: Struct) | Texts(ptrs: seq<Ptr>) | Bodies(items: seq<Struct>)

  // ----- Ownership

  /** The blocks pb_release would free: those a struct refers to, directly or through other blocks,
      but not through entries of static arrays that are not counted. */
  function Owned(s: Struct): multiset<nat>
    decreases s, 0
  {
    OwnedCells(s.cells)
  }

  function OwnedCells(cells: seq<Cell>): multiset<nat>
    decreases cells, 0
  {
    if cells == [] then multiset{} else OwnedCell(cells[0]) + OwnedCells(cells[1..])
  }

  function OwnedCell(c: Cell): multiset<nat>
    decreases c, 0
  {
    match c
    case Flat => multiset{}
    case Inline(s) => Owned(s)
    case InlineArray(count, items) => OwnedStructs(items, Visited(count, |items|))
    case Ref(p) => OwnedPtr(p)
    case RefArray(_, p) => OwnedPtr(p)
  }

  /** How many entries of a static array pb_release visits: it does not trust a count beyond the array. */
  function Visited(count: nat, arraySize: nat): (n: nat)
    ensures n <= arraySize
  {
    if count > arraySize then arraySize else count
  }

  function OwnedPtr(p: Ptr): multiset<nat>
    decreases p, 0
  {
    match p
    case Null => multiset{}
    case To(b, content) => multiset{b} + OwnedContent(content)
  }

  function OwnedContent(c: Content): multiset<nat>
    decreases c, 0
  {
    match c
    case Items(_) => multiset{}
    case Body(s) => Owned(s)
    case Texts(ptrs) => OwnedPtrs(ptrs)
    case Bodies(items) => OwnedStructs(items, |items|)
  }

  function OwnedPtrs(ptrs: seq<Ptr>): multiset<nat>
    decreases ptrs, 0
  {
    if ptrs == [] then multiset{} else OwnedPtr(ptrs[0]) + OwnedPtrs(ptrs[1..])
  }

  /** The blocks the first `n` entries refer to. */
  function OwnedStructs(items: seq<Struct>, n: nat): multiset<nat>
    requires n <= |items|
    decreases items, n
  {
    if n == 0 then multiset{} else Owned(items[n - 1]) + OwnedStructs(items, n - 1)
  }

  lemma AddBoth(x: multiset<nat>, a: multiset<nat>, b: multiset<nat>, c: multiset<nat>, d: multiset<nat>)
    requires a + b == c + d
    ensures (x + a) + b == (x + c) + d
  {
    assert (x + a) + b == x + (a + b);
    assert (x + c) + d == x + (c + d);
  }

  lemma {:induction false} OwnedCellsUpdate(cells: seq<Cell>, i: nat, c: Cell)
    requires i < |cells|
    ensures OwnedCells(cells[i := c]) + OwnedCell(cells[i]) == OwnedCells(cells) + OwnedCell(c)
  {
    if i > 0 {
      assert cells[i := c][1..] == cells[1..][i - 1 := c];
      OwnedCellsUpdate(cells[1..], i - 1, c);
      AddBoth(OwnedCell(cells[0]), OwnedCells(cells[1..][i - 1 := c]), OwnedCell(cells[i]), OwnedCells(cells[1..]),
          OwnedCell(c));
    } else {
      assert cells[i := c][1..] == cells[1..];
    }
  }

  lemma {:induction false} OwnedCellsAt(cells: seq<Cell>, i: nat)
    requires i < |cells|
    ensures OwnedCell(cells[i]) <= OwnedCells(cells)
  {
    if i > 0 { OwnedCellsAt(cells[1..], i - 1); }
  }

  /** Entries that are not looked at do not matter. */
  lemma {:induction false} OwnedStructsSame(items: seq<Struct>, items': seq<Struct>, n: nat)
    requires n <= |items| && n <= |items'| && forall j :: 0 <= j < n ==> items[j] == items'[j]
    ensures OwnedStructs(items, n) == OwnedStructs(items', n)
    decreases n
  {
    if n > 0 { OwnedStructsSame(items, items', n - 1); }
  }

  lemma {:induction false} OwnedStructsUpdate(items: seq<Struct>, n: nat, i: nat, s: Struct)
    requires i < n <= |items|
    ensures OwnedStructs(items[i := s], n) + Owned(items[i]) == OwnedStructs(items, n) + Owned(s)
    decreases n
  {
    if i < n - 1 {
      OwnedStructsUpdate(items, n - 1, i, s);
      AddBoth(Owned(items[n - 1]), OwnedStructs(items[i := s], n - 1), Owned(items[i]), OwnedStructs(items, n - 1),
          Owned(s));
    } else {
      OwnedStructsSame(items, items[i := s], n - 1);
    }
  }

  lemma {:induction false} OwnedStructsAt(items: seq<Struct>, n: nat, i: nat)
    requires i < n <= |items|
    ensures Owned(items[i]) <= OwnedStructs(items, n)
    decreases n
  {
    if i < n - 1 { OwnedStructsAt(items, n - 1, i); }
  }

  lemma {:induction false} OwnedPtrsUpdate(ptrs: seq<Ptr>, i: nat, p: Ptr)
    requires i < |ptrs|
    ensures OwnedPtrs(ptrs[i := p]) + OwnedPtr(ptrs[i]) == OwnedPtrs(ptrs) + OwnedPtr(p)
  {
    if i > 0 {
      assert ptrs[i := p][1..] == ptrs[1..][i - 1 := p];
      OwnedPtrsUpdate(ptrs[1..], i - 1, p);
      AddBoth(OwnedPtr(ptrs[0]), OwnedPtrs(ptrs[1..][i - 1 := p]), OwnedPtr(ptrs[i]), OwnedPtrs(ptrs[1..]),
          OwnedPtr(p));
    } else {
      assert ptrs[i := p][1..] == ptrs[1..];
    }
  }

  lemma {:induction false} OwnedPtrsAt(ptrs: seq<Ptr>, i: nat)
    requires i < |ptrs|
    ensures OwnedPtr(ptrs[i]) <= OwnedPtrs(ptrs)
  {
    if i > 0 { OwnedPtrsAt(ptrs[1..], i - 1); }
  }

  lemma {:induction false} OwnedPtrsSnoc(ptrs: seq<Ptr>, p: Ptr)
    ensures OwnedPtrs(ptrs + [p]) == OwnedPtrs(ptrs) + OwnedPtr(p)
  {
    if ptrs == [] {
      assert [] + [p] == [p];
      assert OwnedPtrs([p][1..]) == multiset{};
    } else {
      assert (ptrs + [p])[1..] == ptrs[1..] + [p];
      OwnedPtrsSnoc(ptrs[1..], p);
    }
  }

  // ----- The allocator

  /** What stands on either side of the account: `plus` are the live blocks and those the decoder has
      come to answer for without allocating them; `minus` are the blocks freed while they were not
      live and those it has ceased to answer for without freeing them. */
  datatype Book = Book(plus: multiset<nat>, minus: multiset<nat>)

  /** malloc: blocks have never-reused names, and every block ever handed out is live or has been
      given back.  Freeing anything else is undefined in C; here it is recorded in `faults`.
      `gained` and `lost` are not the allocator's: they record the blocks that a static array has
      begun or ceased to count without their being allocated or freed.  `refusals` counts what is left
      open here: blocks that cannot be had, items whose value is rejected, and messages that are
      incomplete. */
  class Allocator {
    var live: set<nat>
    var released: set<nat>
    var next: nat
    var faults: multiset<nat>
    ghost var gained: multiset<nat>
    ghost var lost: multiset<nat>
    ghost var refusals: nat

    ghost predicate Valid()
      reads this
    {
      live !! released && forall b: nat :: b < next <==> b in live || b in released
    }

    ghost function Books(): Book
      reads this
    {
      Book(multiset(live) + gained, faults + lost)
    }

    /** pb_free */
    method Free(p: Ptr)
      requires Valid()
      modifies this
      ensures Valid() && next == old(next) && gained == old(gained) && lost == old(lost)
      ensures refusals == old(refusals)
      ensures live == old(live) - (if p.To? then {p.block} else {})
      ensures released == old(released) + (if p.To? then {p.block} * old(live) else {})
      ensures faults == old(faults) + (if p.To? && p.block !in old(live) then multiset{p.block} else multiset{})
    {
      if p.To? {
        if p.block in live {
          live := live - {p.block};
          released := released + {p.block};
        } else {
          faults := faults + multiset{p.block};
        }
      }
    }

    /** Something that is left open here has been refused. */
    ghost method Refuse()
      modifies this`refusals
      ensures refusals == old(refusals) + 1
    {
      refusals := refusals + 1;
    }

    /** pb_realloc: fails and changes nothing, grows the block in place, or moves it. */
    method Realloc(p: Ptr, size: nat) returns (ok: bool, block: nat)
      requires Valid() && (p.To? ==> p.block in live)
      modifies this
      ensures Valid() && next >= old(next) && old(released) <= released
      ensures faults == old(faults) && gained == old(gained) && lost == old(lost)
      ensures refusals == old(refusals) + if ok then 0 else 1
      ensures !ok ==> live == old(live)
      ensures ok ==>
                multiset(live) + (if p.To? then multiset{p.block} else multiset{})
                == multiset(old(live)) + multiset{block}
    {
      block := next;
      if * {
        refusals := refusals + 1;
        return false, block;
      }
      if p.To? {
        if * { return true, p.block; }
        live := live - {p.block};
        released := released + {p.block};
      }
      live := live + {next};
      next := next + 1;
      return true, block;
    }
  }

  // ----- The account

  /** What was owned before and what is owned after differ by what the books have changed. */
  ghost predicate Balance(b0: Book, b1: Book, before: multiset<nat>, after: multiset<nat>) {
    b1.plus + b0.minus + before == b0.plus + b1.minus + after
  }

  /** Blocks are accounted for; those given back stay given back. */
  twostate predicate Conserves(alloc: Allocator, before: multiset<nat>, after: multiset<nat>)
    reads alloc
  {
    && alloc.Valid() && alloc.next >= old(alloc.next) && old(alloc.released) <= alloc.released
    && alloc.refusals >= old(alloc.refusals)
    && Balance(old(alloc.Books()), alloc.Books(), before, after)
  }

  /** Something has been refused meanwhile. */
  twostate predicate Refused(alloc: Allocator)
    reads alloc
  {
    alloc.refusals > old(alloc.refusals)
  }

  /** No array has begun or ceased to count blocks behind the allocator's back. */
  twostate predicate Straight(alloc: Allocator)
    reads alloc
  {
    alloc.gained == old(alloc.gained) && alloc.lost == old(alloc.lost)
  }

  /** Nothing has gone wrong. */
  twostate predicate Steady(alloc: Allocator)
    reads alloc
  {
    Straight(alloc) && alloc.faults == old(alloc.faults)
  }

  /** What may go wrong: at most one of the two slips, a fault only after a gain, and a faulty free
      only of a block that is not live. */
  twostate predicate Bounded(alloc: Allocator)
    reads alloc
  {
    && (alloc.gained == old(alloc.gained) || alloc.lost == old(alloc.lost))
    && old(alloc.lost) <= alloc.lost
    && (alloc.gained == old(alloc.gained) ==> alloc.faults == old(alloc.faults))
    && (alloc.faults == old(alloc.faults) || FaultsAreDead(old(alloc.faults), alloc.faults, alloc.live))
  }

  ghost predicate FaultsAreDead(before: multiset<nat>, after: multiset<nat>, live: set<nat>) {
    forall b: nat :: after[b] != before[b] ==> after[b] > before[b] && b !in live
  }

  lemma BalanceTwice(b0: Book, b1: Book, b2: Book, a: multiset<nat>, b: multiset<nat>, c: multiset<nat>)
    requires Balance(b0, b1, a, b) && Balance(b1, b2, b, c)
    ensures Balance(b0, b2, a, c)
  {
    forall e ensures (b2.plus + b0.minus + a)[e] == (b0.plus + b2.minus + c)[e] {
      assert (b1.plus + b0.minus + a)[e] == (b0.plus + b1.minus + b)[e];
      assert (b2.plus + b1.minus + b)[e] == (b1.plus + b2.minus + c)[e];
    }
  }

  /** A part changed, the rest did not: the whole balances if the part does. */
  lemma BalanceWhole(b0: Book, b1: Book, part: multiset<nat>, part': multiset<nat>,
                     whole: multiset<nat>, whole': multiset<nat>)
    requires Balance(b0, b1, part, part') && whole' + part == whole + part'
    ensures Balance(b0, b1, whole, whole')
  {
    forall e ensures (b1.plus + b0.minus + whole)[e] == (b0.plus + b1.minus + whole')[e] {
      assert (b1.plus + b0.minus + part)[e] == (b0.plus + b1.minus + part')[e];
      assert (whole' + part)[e] == (whole + part')[e];
    }
  }

  lemma Unmoved(b: Book, a: multiset<nat>)
    ensures Balance(b, b, a, a)
  {}

  /** As long as nothing goes wrong, what is owned is live. */
  lemma OwnedIsLive(l0: set<nat>, l1: set<nat>, gained: multiset<nat>, faults: multiset<nat>,
                    lost0: multiset<nat>, lost1: multiset<nat>, before: multiset<nat>, after: multiset<nat>)
    requires Balance(Book(multiset(l0) + gained, faults + lost0), Book(multiset(l1) + gained, faults + lost1),
        before, after)
    requires before <= multiset(l0) && lost0 <= lost1
    ensures after <= multiset(l1)
  {
    forall e ensures after[e] <= multiset(l1)[e] {
      assert (multiset(l1) + gained + (faults + lost0) + before)[e]
          == (multiset(l0) + gained + (faults + lost1) + after)[e];
      assert lost0[e] <= lost1[e] && before[e] <= multiset(l0)[e];
    }
  }

  /** What releasing does: it only frees, and exactly `before`. */
  twostate predicate Frees(alloc: Allocator, before: multiset<nat>)
    reads alloc
  {
    Conserves(alloc, before, multiset{}) && OnlyFrees(alloc)
  }

  twostate predicate OnlyFrees(alloc: Allocator)
    reads alloc
  {
    && Straight(alloc) && alloc.next == old(alloc.next) && alloc.live <= old(alloc.live)
    && FaultsAreDead(old(alloc.faults), alloc.faults, alloc.live)
  }

  lemma MoreFaults(f0: multiset<nat>, f1: multiset<nat>, f2: multiset<nat>, l1: set<nat>, l2: set<nat>)
    requires FaultsAreDead(f0, f1, l1) && FaultsAreDead(f1, f2, l2) && l2 <= l1
    ensures FaultsAreDead(f0, f2, l2)
  {}

  /** Freeing what is live goes without a fault. */
  lemma FreesLive(l0: set<nat>, l1: set<nat>, gained: multiset<nat>, faults0: multiset<nat>, faults1: multiset<nat>,
                  lost: multiset<nat>, before: multiset<nat>)
    requires Balance(Book(multiset(l0) + gained, faults0 + lost), Book(multiset(l1) + gained, faults1 + lost),
        before, multiset{})
    requires before <= multiset(l0) && FaultsAreDead(faults0, faults1, l1)
    ensures faults1 == faults0
  {
    forall e ensures faults1[e] == faults0[e] {
      assert (multiset(l1) + gained + (faults0 + lost) + before)[e]
          == (multiset(l0) + gained + (faults1 + lost) + multiset{})[e];
      assert before[e] <= multiset(l0)[e];
    }
  }

  /** What has been freed while it was live is live no more. */
  lemma FreedFromLive(l0: set<nat>, l1: set<nat>, gained: multiset<nat>, minus: multiset<nat>, before: multiset<nat>,
                      b: nat)
    requires Balance(Book(multiset(l0) + gained, minus), Book(multiset(l1) + gained, minus), before, multiset{})
    requires before <= multiset(l0) && before[b] > 0
    ensures b in l0 && b !in l1
  {
    assert (multiset(l1) + gained + minus + before)[b] == (multiset(l0) + gained + minus + multiset{})[b];
    assert before[b] <= multiset(l0)[b] <= 1;
  }

  // A second step changed one part of a whole: a cell of a struct, an entry of an array, what is
  // behind a pointer.

  lemma CellChanged(b0: Book, b1: Book, b2: Book, a: multiset<nat>, cells: seq<Cell>, k: nat, c: Cell)
    requires k < |cells|
    requires Balance(b0, b1, a, OwnedCells(cells)) && Balance(b1, b2, OwnedCell(cells[k]), OwnedCell(c))
    ensures Balance(b0, b2, a, OwnedCells(cells[k := c]))
  {
    hide Balance, OwnedCells, OwnedCell;
    OwnedCellsUpdate(cells, k, c);
    BalanceWhole(b1, b2, OwnedCell(cells[k]), OwnedCell(c), OwnedCells(cells), OwnedCells(cells[k := c]));
    BalanceTwice(b0, b1, b2, a, OwnedCells(cells), OwnedCells(cells[k := c]));
  }

  lemma StructChanged(b0: Book, b1: Book, b2: Book, a: multiset<nat>, items: seq<Struct>, n: nat, i: nat, s: Struct)
    requires i < n <= |items|
    requires Balance(b0, b1, a, OwnedStructs(items, n)) && Balance(b1, b2, Owned(items[i]), Owned(s))
    ensures Balance(b0, b2, a, OwnedStructs(items[i := s], n))
  {
    hide Balance, OwnedStructs, Owned;
    OwnedStructsUpdate(items, n, i, s);
    BalanceWhole(b1, b2, Owned(items[i]), Owned(s), OwnedStructs(items, n), OwnedStructs(items[i := s], n));
    BalanceTwice(b0, b1, b2, a, OwnedStructs(items, n), OwnedStructs(items[i := s], n));
  }

  lemma PtrChanged(b0: Book, b1: Book, b2: Book, a: multiset<nat>, ptrs: seq<Ptr>, i: nat, p: Ptr)
    requires i < |ptrs|
    requires Balance(b0, b1, a, OwnedPtrs(ptrs)) && Balance(b1, b2, OwnedPtr(ptrs[i]), OwnedPtr(p))
    ensures Balance(b0, b2, a, OwnedPtrs(ptrs[i := p]))
  {
    hide Balance, OwnedPtrs, OwnedPtr;
    OwnedPtrsUpdate(ptrs, i, p);
    BalanceWhole(b1, b2, OwnedPtr(ptrs[i]), OwnedPtr(p), OwnedPtrs(ptrs), OwnedPtrs(ptrs[i := p]));
    BalanceTwice(b0, b1, b2, a, OwnedPtrs(ptrs), OwnedPtrs(ptrs[i := p]));
  }

  // ----- Static arrays

  /** One more in a pb_size_t. */
  function CountUp(count: nat): nat {
    (count + 1) % (PB_SIZE_MAX + 1)
  }

  lemma CountsOn(count: nat)
    requires count < PB_SIZE_MAX
    ensures CountUp(count) == count + 1
  {}

  lemma CountWraps()
    ensures CountUp(PB_SIZE_MAX) == 0
  {}

  /** Counting one more entry adds the blocks it refers to. */
  lemma EntryCounted(count: nat, items: seq<Struct>)
    requires count < |items| <= PB_SIZE_MAX
    ensures CountUp(count) == count + 1
    ensures OwnedCell(InlineArray(CountUp(count), items)) == OwnedCell(InlineArray(count, items)) + Owned(items[count])
  {
    CountsOn(count);
  }

  /** A static array that counts an entry without initialising it answers for the same blocks as
      before if and only if the entry refers to none. */
  lemma CountedEntryIsHarmless(count: nat, items: seq<Struct>)
    requires count < |items| <= PB_SIZE_MAX
    ensures OwnedCell(InlineArray(CountUp(count), items)) == OwnedCell(InlineArray(count, items))
            <==> Owned(items[count]) == multiset{}
  {
    EntryCounted(count, items);
    var before, entry := OwnedCell(InlineArray(count, items)), Owned(items[count]);
    if before + entry == before {
      forall e ensures entry[e] == 0 { assert (before + entry)[e] == before[e]; }
    }
  }

  /** A full static array that counts one record more answers for the same blocks as before if and
      only if its count has room for that, or the array refers to no block. */
  lemma OverflowIsHarmless(items: seq<Struct>)
    requires |items| <= PB_SIZE_MAX
    ensures OwnedCell(InlineArray(CountUp(|items|), items)) == OwnedCell(InlineArray(|items|, items))
            <==> |items| < PB_SIZE_MAX || OwnedStructs(items, |items|) == multiset{}
  {
    if |items| == PB_SIZE_MAX { CountWraps(); } else { CountsOn(|items|); }
  }

  // ----- Types and tidiness of memory

  /** The struct has the shape of message type `id`.  While decoding goes well (`strict`), counts of
      static arrays stay within the arrays; elsewhere they may be anything.  Entries that are not
      counted hold whatever was there. */
  ghost predicate Typed(S: Schema, id: nat, s: Struct, strict: bool)
    decreases s, 1
  {
    id < |S.tables| && |s.cells| == |S.tables[id]| &&
    forall k :: 0 <= k < |s.cells| ==> TypedCell(S, S.tables[id][k], s.cells[k], strict)
  }

  ghost predicate TypedCell(S: Schema, f: HField, c: Cell, strict: bool)
    decreases c, 0
  {
    if f.at.Static? then
      if !f.kind.Sub? then c.Flat?
      else if !f.repeated then c.Inline? && Typed(S, f.kind.id, c.s, strict)
      else
        && c.InlineArray? && |c.items| == f.arraySize
        && c.count <= PB_SIZE_MAX && (strict ==> c.count <= f.arraySize)
        && forall i :: 0 <= i < |c.items| ==> Typed(S, f.kind.id, c.items[i], strict && i < c.count)
    else if !f.repeated then
      && c.Ref?
      && (c.p.To? ==> if f.kind.Sub? then c.p.content.Body? && Typed(S, f.kind.id, c.p.content.s, strict)
                      else c.p.content.Items?)
    else
      && c.RefArray? && c.count <= PB_SIZE_MAX
      && (c.p.Null? ==> c.count == 0)
      && (c.p.To? ==>
            match f.kind
            case Data(_, _) => c.p.content.Items? && c.count <= c.p.content.capacity
            case Text(_) =>
              && c.p.content.Texts? && |c.p.content.ptrs| == c.count
              && forall i :: 0 <= i < c.count ==> IsText(c.p.content.ptrs[i])
            case Sub(id) =>
              && c.p.content.Bodies? && |c.p.content.items| == c.count
              && forall i :: 0 <= i < c.count ==> Typed(S, id, c.p.content.items[i], strict))
  }

  predicate IsText(p: Ptr) {
    p.To? ==> p.content.Items?
  }

  /** A struct that names no block, not even in entries that are not counted. */
  ghost predicate Blank(s: Struct)
    decreases s, 1
  {
    forall k :: 0 <= k < |s.cells| ==> BlankCell(s.cells[k])
  }

  ghost predicate BlankCell(c: Cell)
    decreases c, 0
  {
    match c
    case Flat => true
    case Inline(s) => Blank(s)
    case InlineArray(_, items) => forall i :: 0 <= i < |items| ==> Blank(items[i])
    case Ref(p) => p.Null?
    case RefArray(_, p) => p.Null?
  }

  /** Entries of static arrays that are not counted name no block. */
  ghost predicate Clean(s: Struct)
    decreases s, 1
  {
    forall k :: 0 <= k < |s.cells| ==> CleanCell(s.cells[k])
  }

  ghost predicate CleanCell(c: Cell)
    decreases c, 0
  {
    match c
    case Flat => true
    case Inline(s) => Clean(s)
    case InlineArray(count, items) =>
      forall i :: 0 <= i < |items| ==> if i < count then Clean(items[i]) else Blank(items[i])
    case Ref(p) => p.To? && p.content.Body? ==> Clean(p.content.s)
    case RefArray(_, p) =>
      p.To? && p.content.Bodies? ==> forall i :: 0 <= i < |p.content.items| ==> Clean(p.content.items[i])
  }

  lemma NullOwnsNothing(p: Ptr)
    ensures OwnedPtr(p) == multiset{} <==> p.Null?
  {
    if p.To? { assert OwnedPtr(p)[p.block] > 0; }
  }

  lemma {:induction false} BlankOwnsNothing(s: Struct)
    requires Blank(s)
    ensures Owned(s) == multiset{} && Clean(s)
    decreases s, 1
  {
    forall k | 0 <= k < |s.cells| ensures OwnedCell(s.cells[k]) == multiset{} && CleanCell(s.cells[k]) {
      BlankCellOwnsNothing(s.cells[k]);
    }
    NothingOwned(s.cells);
  }

  lemma BlankCellOwnsNothing(c: Cell)
    requires BlankCell(c)
    ensures OwnedCell(c) == multiset{} && CleanCell(c)
    decreases c, 0
  {
    match c
    case Inline(s) => BlankOwnsNothing(s);
    case InlineArray(count, items) =>
      forall i | 0 <= i < |items| ensures Owned(items[i]) == multiset{} && Clean(items[i]) {
        BlankOwnsNothing(items[i]);
      }
      NothingOwnedBy(items, Visited(count, |items|));
    case _ =>
  }

  /** A message type without pointers has only structs that name no block. */
  lemma {:induction false} PointerlessIsBlank(S: Schema, id: nat, s: Struct)
    requires S.Ok() && Typed(S, id, s, false) && !S.HoldsPointers(id)
    ensures Blank(s)
    decreases s
  {
    forall k | 0 <= k < |s.cells| ensures BlankCell(s.cells[k]) {
      var f, c := S.tables[id][k], s.cells[k];
      assert TypedCell(S, f, c, false) && S.FieldOk(id, f) && !S.FieldHoldsPointers(id, f);
      if c.Inline? {
        PointerlessIsBlank(S, f.kind.id, c.s);
      } else if c.InlineArray? {
        forall i | 0 <= i < |c.items| ensures Blank(c.items[i]) { PointerlessIsBlank(S, f.kind.id, c.items[i]); }
      }
    }
  }

  lemma {:induction false} NothingOwned(cells: seq<Cell>)
    requires forall k :: 0 <= k < |cells| ==> OwnedCell(cells[k]) == multiset{}
    ensures OwnedCells(cells) == multiset{}
    decreases |cells|
  {
    if cells != [] { NothingOwned(cells[1..]); }
  }

  lemma {:induction false} NothingOwnedBy(items: seq<Struct>, n: nat)
    requires n <= |items| && forall i :: 0 <= i < n ==> Owned(items[i]) == multiset{}
    ensures OwnedStructs(items, n) == multiset{}
    decreases n
  {
    if n > 0 { NothingOwnedBy(items, n - 1); }
  }

  // ----- Initial values

  /** pb_message_set_to_defaults: pointers become null without being freed, counts zero; the
      entries of static arrays stay as they are. */
  function SetDefaults(s: Struct): Struct
    decreases s, 1
  {
    Struct(seq(|s.cells|, k requires 0 <= k < |s.cells| => DefaultCell(s.cells[k])))
  }

  function DefaultCell(c: Cell): Cell
    decreases c, 0
  {
    match c
    case Flat => Flat
    case Inline(s) => Inline(SetDefaults(s))
    case InlineArray(_, items) => InlineArray(0, items)
    case Ref(_) => Ref(Null)
    case RefArray(_, _) => RefArray(0, Null)
  }

  /** A struct after memset and defaults. */
  function Zero(S: Schema, id: nat): (s: Struct)
    requires S.Ok() && id < |S.tables|
    ensures |s.cells| == |S.tables[id]|
    decreases S.rank[id], 1
  {
    Struct(seq(|S.tables[id]|, k requires 0 <= k < |S.tables[id]| => ZeroCell(S, id, S.tables[id][k])))
  }

  function ZeroCell(S: Schema, id: nat, f: HField): Cell
    requires S.Ok() && id < |S.tables| && S.FieldOk(id, f)
    decreases S.rank[id], 0
  {
    if f.at.Static? then
      if !f.kind.Sub? then Flat
      else if !f.repeated then Inline(Zero(S, f.kind.id))
      else InlineArray(0, seq(f.arraySize, _ => Zero(S, f.kind.id)))
    else if !f.repeated then Ref(Null)
    else RefArray(0, Null)
  }

  lemma {:induction false} ZeroIsBlank(S: Schema, id: nat)
    requires S.Ok() && id < |S.tables|
    ensures Blank(Zero(S, id)) && Typed(S, id, Zero(S, id), true)
    decreases S.rank[id], 1
  {
    var s := Zero(S, id);
    forall k | 0 <= k < |s.cells|
      ensures BlankCell(s.cells[k]) && TypedCell(S, S.tables[id][k], s.cells[k], true)
    {
      ZeroCellIsBlank(S, id, S.tables[id][k]);
    }
  }

  lemma ZeroCellIsBlank(S: Schema, id: nat, f: HField)
    requires S.Ok() && id < |S.tables| && S.FieldOk(id, f)
    ensures BlankCell(ZeroCell(S, id, f)) && TypedCell(S, f, ZeroCell(S, id, f), true)
    decreases S.rank[id], 0
  {
    if f.at.Static? && f.kind.Sub? {
      ZeroIsBlank(S, f.kind.id);
      if f.repeated {
        assert ZeroCell(S, id, f).items == seq(f.arraySize, _ => Zero(S, f.kind.id));
        TypedEverywhere(S, f.kind.id, Zero(S, f.kind.id));
      }
    }
  }

  /** A struct typed strictly is typed. */
  lemma {:induction false} TypedEverywhere(S: Schema, id: nat, s: Struct)
    requires Typed(S, id, s, true)
    ensures Typed(S, id, s, false)
    decreases s, 1
  {
    forall k | 0 <= k < |s.cells| ensures TypedCell(S, S.tables[id][k], s.cells[k], false) {
      TypedCellEverywhere(S, S.tables[id][k], s.cells[k]);
    }
  }

  lemma {:induction false} TypedCellEverywhere(S: Schema, f: HField, c: Cell)
    requires TypedCell(S, f, c, true)
    ensures TypedCell(S, f, c, false)
    decreases c, 0
  {
    match c
    case Flat =>
    case Inline(s) => TypedEverywhere(S, f.kind.id, s);
    case InlineArray(count, items) =>
      forall i | 0 <= i < |items| ensures Typed(S, f.kind.id, items[i], false) {
        if i < count { TypedEverywhere(S, f.kind.id, items[i]); }
      }
    case Ref(p) => if p.To? && p.content.Body? { TypedEverywhere(S, f.kind.id, p.content.s); }
    case RefArray(_, p) =>
      if p.To? && p.content.Bodies? {
        forall i | 0 <= i < |p.content.items| ensures Typed(S, f.kind.id, p.content.items[i], false) {
          TypedEverywhere(S, f.kind.id, p.content.items[i]);
        }
      }
  }

  /** Setting a struct to its defaults resets every count, so even a struct a failed decode has
      left is then strictly typed. */
  lemma {:induction false} DefaultsAreTyped(S: Schema, id: nat, s: Struct)
    requires Typed(S, id, s, false)
    ensures Typed(S, id, SetDefaults(s), true)
    decreases s
  {
    forall k | 0 <= k < |s.cells| ensures TypedCell(S, S.tables[id][k], DefaultCell(s.cells[k]), true) {
      var c := s.cells[k];
      assert TypedCell(S, S.tables[id][k], c, false);
      if c.Inline? { DefaultsAreTyped(S, S.tables[id][k].kind.id, c.s); }
    }
  }

  /** After the defaults have been set pb_release has nothing to free, whatever was there before. */
  lemma {:induction false} DefaultsOwnNothing(s: Struct)
    ensures Owned(SetDefaults(s)) == multiset{}
    decreases s
  {
    forall k | 0 <= k < |s.cells| ensures OwnedCell(DefaultCell(s.cells[k])) == multiset{} {
      if s.cells[k].Inline? { DefaultsOwnNothing(s.cells[k].s); }
    }
    NothingOwned(SetDefaults(s).cells);
  }

  lemma {:induction false} DefaultsOfBlank(s: Struct)
    requires Blank(s)
    ensures Blank(SetDefaults(s)) && Clean(SetDefaults(s))
    decreases s
  {
    forall k | 0 <= k < |s.cells| ensures BlankCell(DefaultCell(s.cells[k])) {
      if s.cells[k].Inline? { DefaultsOfBlank(s.cells[k].s); }
    }
    BlankOwnsNothing(SetDefaults(s));
  }
}
