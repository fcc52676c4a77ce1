/** What a decode with pointers does to the form of a message: which pointers are set, how many entries arrays have,
    and so in all submessages.  Names and sizes of blocks are left out, so that the form is determined by the input
    (pb_decode.c:406-675, 925-1073, 1431-1525). */
module Forms {
  import opened Wrappers
  import opened Config
  import opened Heap
  import opened Slips
  import opened Streams
  import Varint
  import Wire

  // ----- Forms

  /** The struct with the names and capacities of its blocks left out. */
  function Erase(s: Struct): (r: Struct)
    ensures |r.cells| == |s.cells|
    decreases s, 1
  {
    Struct(seq(|s.cells|, k requires 0 <= k < |s.cells| => EraseCell(s.cells[k])))
  }

  function EraseCell(c: Cell): Cell
    decreases c, 0
  {
    match c
    case Flat => Flat
    case Inline(s) => Inline(Erase(s))
    case InlineArray(count, items) => InlineArray(count, EraseAll(items))
    case Ref(p) => Ref(ErasePtr(p))
    case RefArray(count, p) => RefArray(count, ErasePtr(p))
  }

  function EraseAll(items: seq<Struct>): (r: seq<Struct>)
    ensures |r| == |items| && forall i :: 0 <= i < |items| ==> r[i] == Erase(items[i])
    decreases items, 0
  {
    seq(|items|, i requires 0 <= i < |items| => Erase(items[i]))
  }

  function ErasePtr(p: Ptr): Ptr
    decreases p, 0
  {
    match p
    case Null => Null
    case To(_, content) => To(0, EraseContent(content))
  }

  function EraseContent(c: Content): Content
    decreases c, 0
  {
    match c
    case Items(_) => Items(0)
    case Body(s) => Body(Erase(s))
    case Texts(ptrs) => Texts(ErasePtrs(ptrs))
    case Bodies(items) => Bodies(EraseAll(items))
  }

  function ErasePtrs(ptrs: seq<Ptr>): (r: seq<Ptr>)
    ensures |r| == |ptrs| && forall i :: 0 <= i < |ptrs| ==> r[i] == ErasePtr(ptrs[i])
    decreases ptrs, 0
  {
    seq(|ptrs|, i requires 0 <= i < |ptrs| => ErasePtr(ptrs[i]))
  }

  lemma EraseUpdate(s: Struct, k: nat, c: Cell)
    requires k < |s.cells|
    ensures Erase(Struct(s.cells[k := c])) == Struct(Erase(s).cells[k := EraseCell(c)])
  {
    hide EraseCell;
  }

  lemma EraseEntry(items: seq<Struct>, i: nat, s: Struct)
    requires i < |items|
    ensures EraseAll(items[i := s]) == EraseAll(items)[i := Erase(s)]
  {
    hide Erase;
  }

  lemma {:induction false} EraseDefaults(s: Struct)
    ensures Erase(SetDefaults(s)) == SetDefaults(Erase(s))
    decreases s
  {
    forall k | 0 <= k < |s.cells| ensures EraseCell(DefaultCell(s.cells[k])) == DefaultCell(EraseCell(s.cells[k])) {
      if s.cells[k].Inline? { EraseDefaults(s.cells[k].s); }
    }
  }

  lemma EraseEqual(n: nat, s: Struct)
    requires Erase(s) == s
    ensures EraseAll(seq(n, _ => s)) == seq(n, _ => s)
  {
    hide Erase;
  }

  lemma {:induction false} EraseZero(S: Schema, id: nat)
    requires S.Ok() && id < |S.tables|
    ensures Erase(Zero(S, id)) == Zero(S, id)
    decreases S.rank[id]
  {
    var zero := Zero(S, id);
    forall k | 0 <= k < |zero.cells| ensures EraseCell(zero.cells[k]) == zero.cells[k] {
      var f := S.tables[id][k];
      assert S.FieldOk(id, f) && zero.cells[k] == ZeroCell(S, id, f);
      if f.at.Static? && f.kind.Sub? {
        EraseZero(S, f.kind.id);
        if f.repeated { EraseEqual(f.arraySize, Zero(S, f.kind.id)); }
      }
    }
  }

  // ----- What the input does to a form

  /** The size of a string or byte string leaves room for its terminator or count. */
  predicate TextFits(isString: bool, size: nat) {
    if isString then size + 1 < Varint.U32 else size <= PB_SIZE_MAX && size + BytesHeader() <= SIZE_T_MAX
  }

  predicate IsPacked(f: HField, wireType: nat) {
    f.repeated && wireType == Wire.WT_STRING && f.kind.Data? && f.kind.packable
  }

  /** Decoding `bytes` into a message, if nothing is refused. */
  function After(S: Schema, id: nat, s: Struct, bytes: Varint.Bytes): Option<Struct>
    requires S.Ok()
    decreases |bytes|, 2
  {
    if bytes == [] then Some(s)
    else
      match Wire.ReadKey(bytes)
      case BadKey => None
      case ZeroKey(_) => Some(s)
      case Key(tag, wireType, rest) =>
        if id >= |S.tables| then None
        else
          var k := FieldOf(S.tables[id], tag);
          if k.None? || k.value >= |s.cells| then
            var n :- Wire.Extent(UnknownShape(S.tables[id], tag, wireType), rest);
            After(S, id, s, rest[n..])
          else
            var (c, n) :- AfterField(S, id, S.tables[id][k.value], s.cells[k.value], wireType, rest);
            After(S, id, Struct(s.cells[k.value := c]), rest[n..])
  }

  /** In an empty table the terminator answers to tag 0. */
  function UnknownShape(table: HTable, tag: nat, wireType: nat): Wire.Shape {
    if table == [] && tag == 0 then Wire.VarintShape else Wire.WireShape(wireType)
  }

  /** The cell after a record, and the number of bytes behind its key. */
  function AfterField(S: Schema, i: nat, f: HField, c: Cell, wireType: nat, rest: Varint.Bytes)
    : (r: Option<(Cell, nat)>)
    requires S.Ok() && i < |S.tables| && S.FieldOk(i, f)
    ensures r.Some? ==> 0 < r.value.1 <= |rest|
    decreases |rest|, 2
  {
    if IsPacked(f, wireType) then AfterPacked(f, c, rest) else AfterSingle(S, i, f, c, rest)
  }

  /** A packed run adds as many items as it has. */
  function AfterPacked(f: HField, c: Cell, rest: Varint.Bytes): (r: Option<(Cell, nat)>)
    requires f.kind.Data?
    ensures r.Some? ==> 0 < r.value.1 <= |rest|
  {
    var (body, n) :- Announced(rest);
    var count :- Wire.CountItems(Wire.WireShape(f.kind.wireType), body);
    if f.at.Static? || count == 0 then Some((c, n))
    else if !c.RefArray? || c.count + count > PB_SIZE_MAX then None
    else Some((RefArray(c.count + count, To(0, Items(0))), n))
  }

  /** Any other record is one item. */
  function AfterSingle(S: Schema, i: nat, f: HField, c: Cell, rest: Varint.Bytes): (r: Option<(Cell, nat)>)
    requires S.Ok() && i < |S.tables| && S.FieldOk(i, f)
    ensures r.Some? ==> 0 < r.value.1 <= |rest|
    decreases |rest|, 1
  {
    match f.kind
    case Sub(_) =>
      var (body, n) :- Announced(rest);
      var d :- AfterSub(S, f, c, body);
      Some((d, n))
    case Text(isString) =>
      var (body, n) :- Announced(rest);
      if f.at.Static? then Some((c, n))
      else if !TextFits(isString, |body|) then None
      else
        var d :- AfterItem(f, c);
        Some((d, n))
    case Data(wireType, _) =>
      var n :- Wire.Extent(Wire.WireShape(wireType), rest);
      if f.at.Static? then Some((c, n))
      else
        var d :- AfterItem(f, c);
        Some((d, n))
  }

  /** One more item behind a pointer. */
  function AfterItem(f: HField, c: Cell): Option<Cell> {
    if !f.repeated then Some(Ref(To(0, Items(0))))
    else if !c.RefArray? || c.count == PB_SIZE_MAX then None
    else if f.kind.Text? then Some(RefArray(c.count + 1, To(0, Texts(TextsOf(c.p) + [To(0, Items(0))]))))
    else Some(RefArray(c.count + 1, To(0, Items(0))))
  }

  function TextsOf(p: Ptr): seq<Ptr> {
    if p.To? && p.content.Texts? then p.content.ptrs else []
  }

  function BodiesOf(p: Ptr): seq<Struct> {
    if p.To? && p.content.Bodies? then p.content.items else []
  }

  /** One more submessage. */
  function AfterSub(S: Schema, f: HField, c: Cell, body: Varint.Bytes): Option<Cell>
    requires S.Ok() && f.kind.Sub? && f.kind.id < |S.tables|
    decreases |body|, 3
  {
    var start :- SubStart(S, f, c);
    var s :- After(S, f.kind.id, start, body);
    Some(SubStored(f, c, s))
  }

  /** What the body is decoded into: a static submessage is added to, an entry of a static array starts from its
      defaults, and one behind a pointer from zero, whatever was there. */
  function SubStart(S: Schema, f: HField, c: Cell): (s: Option<Struct>)
    requires S.Ok() && f.kind.Sub? && f.kind.id < |S.tables|
  {
    if f.at.Static? then
      if !f.repeated then if c.Inline? then Some(c.s) else None
      else if c.InlineArray? && c.count < f.arraySize && c.count < |c.items| then Some(SetDefaults(c.items[c.count]))
      else None
    else if !f.repeated then Some(Zero(S, f.kind.id))
    else if c.RefArray? && c.count < PB_SIZE_MAX then Some(SetDefaults(Zero(S, f.kind.id)))
    else None
  }

  function SubStored(f: HField, c: Cell, s: Struct): Cell {
    if f.at.Static? then
      if !f.repeated then Inline(s)
      else if c.InlineArray? && c.count < |c.items| then InlineArray(c.count + 1, c.items[c.count := s])
      else c
    else if !f.repeated then Ref(To(0, Body(s)))
    else if c.RefArray? then RefArray(c.count + 1, To(0, Bodies(BodiesOf(c.p) + [s])))
    else c
  }

  /** The message after the record behind a key, and the bytes behind it. */
  function AfterKey(S: Schema, id: nat, s: Struct, tag: nat, wireType: nat, rest: Varint.Bytes)
    : (r: Option<(Struct, Varint.Bytes)>)
    requires S.Ok() && id < |S.tables| && |s.cells| == |S.tables[id]|
  {
    var k := FieldOf(S.tables[id], tag);
    if k.None? then
      var n :- Wire.Extent(UnknownShape(S.tables[id], tag, wireType), rest);
      Some((s, rest[n..]))
    else
      var (c, n) :- AfterField(S, id, S.tables[id][k.value], s.cells[k.value], wireType, rest);
      Some((Struct(s.cells[k.value := c]), rest[n..]))
  }

  /** The record in front decides the first step. */
  lemma AfterRecord(S: Schema, id: nat, s: Struct, bytes: Varint.Bytes)
    requires S.Ok() && id < |S.tables| && |s.cells| == |S.tables[id]|
    ensures bytes == [] ==> After(S, id, s, bytes) == Some(s)
    ensures bytes != [] && Wire.ReadKey(bytes).BadKey? ==> After(S, id, s, bytes).None?
    ensures bytes != [] && Wire.ReadKey(bytes).ZeroKey? ==> After(S, id, s, bytes) == Some(s)
    ensures bytes != [] && Wire.ReadKey(bytes).Key? ==>
              var key := Wire.ReadKey(bytes);
              var x := AfterKey(S, id, s, key.tag, key.wt, key.rest);
              After(S, id, s, bytes) == if x.None? then None else After(S, id, x.value.0, x.value.1)
  {
    hide AfterField, UnknownShape, Wire.Extent;
  }

  /** A record of a submessage. */
  lemma SubField(S: Schema, i: nat, f: HField, d: Cell, rest: Varint.Bytes)
    requires S.Ok() && i < |S.tables| && S.FieldOk(i, f) && f.kind.Sub?
    ensures var a, start, x := Announced(rest), SubStart(S, f, d), AfterSingle(S, i, f, d, rest);
            if a.None? || start.None? then x.None?
            else
              var s := After(S, f.kind.id, start.value, a.value.0);
              x == if s.None? then None else Some((SubStored(f, d, s.value), a.value.1))
  {
    hide After, Announced, SubStart, SubStored;
  }

  /** The outcome of a record for a cell: the cell is what the form says and the record has been read to its end; or
      there was nothing right to do; or something has been refused. */
  ghost predicate FieldAs(x: Option<(Cell, nat)>, ok: bool, r: Cell, before: Varint.Bytes, after: Varint.Bytes,
                          refused: bool)
  {
    if ok then x.Some? && EraseCell(r) == x.value.0 && x.value.1 <= |before| && after == before[x.value.1..]
    else x.Some? ==> refused
  }

  /** The same for a submessage. */
  ghost predicate StructAs(x: Option<Struct>, ok: bool, r: Struct, refused: bool) {
    if ok then x == Some(Erase(r)) else x.Some? ==> refused
  }

  /** A submessage that has come out as its form says makes the cell it is stored in do so. */
  lemma SubFormed(S: Schema, i: nat, f: HField, c: Cell, start: Struct, s: Struct, r: Cell, ok: bool,
                  before: Varint.Bytes, after: Varint.Bytes, refused: bool)
    requires S.Ok() && i < |S.tables| && S.FieldOk(i, f) && f.kind.Sub? && SubStart(S, f, c) == Some(start)
    requires var a := Announced(before);
             && (a.None? ==> !ok)
             && (a.Some? ==> StructAs(After(S, f.kind.id, start, a.value.0), ok, s, refused))
             && (ok ==> after == before[a.value.1..] && EraseCell(r) == SubStored(f, c, Erase(s)))
    ensures FieldAs(AfterSingle(S, i, f, c, before), ok, r, before, after, refused)
  {
    hide After, Announced, SubStart, SubStored, AfterSingle, EraseCell, Erase;
    SubField(S, i, f, c, before);
  }

  lemma EntryForm(S: Schema, f: HField, c: Cell, s: Struct)
    requires S.Ok() && f.kind.Sub? && f.kind.id < |S.tables| && f.at.Static? && f.repeated
    requires c.InlineArray? && c.count < f.arraySize == |c.items| <= PB_SIZE_MAX
    ensures SubStart(S, f, EraseCell(c)) == Some(SetDefaults(Erase(c.items[c.count])))
    ensures EraseCell(InlineArray(CountUp(c.count), c.items[c.count := s])) == SubStored(f, EraseCell(c), Erase(s))
  {
    hide Erase, SetDefaults;
    CountsOn(c.count);
    EraseEntry(c.items, c.count, s);
  }

  lemma InlineForm(S: Schema, f: HField, c: Cell, s: Struct)
    requires S.Ok() && f.kind.Sub? && f.kind.id < |S.tables| && f.at.Static? && !f.repeated && c.Inline?
    ensures SubStart(S, f, EraseCell(c)) == Some(Erase(c.s))
    ensures EraseCell(Inline(s)) == SubStored(f, EraseCell(c), Erase(s))
  {
    hide Erase;
  }

  lemma RefForm(S: Schema, f: HField, c: Cell, block: nat, s: Struct)
    requires S.Ok() && f.kind.Sub? && f.kind.id < |S.tables| && f.at.Pointer? && !f.repeated
    ensures SubStart(S, f, c) == Some(Erase(Zero(S, f.kind.id)))
    ensures EraseCell(Ref(To(block, Body(s)))) == SubStored(f, c, Erase(s))
  {
    hide Erase;
    EraseZero(S, f.kind.id);
    assert EraseContent(Body(s)) == Body(Erase(s));
    assert ErasePtr(To(block, Body(s))) == To(0, Body(Erase(s)));
  }

  lemma ArrayForm(S: Schema, f: HField, c: Cell, block: nat, s: Struct)
    requires S.Ok() && f.kind.Sub? && f.kind.id < |S.tables| && f.at.Pointer? && f.repeated
    requires c.RefArray? && c.count < PB_SIZE_MAX
    ensures SubStart(S, f, EraseCell(c)) == Some(SetDefaults(Erase(Zero(S, f.kind.id))))
    ensures EraseCell(RefArray(c.count + 1, To(block, Bodies(BodiesOf(c.p) + [s]))))
         == SubStored(f, EraseCell(c), Erase(s))
  {
    hide Erase, SetDefaults;
    EraseZero(S, f.kind.id);
    var items := BodiesOf(c.p);
    EraseMore(items, s);
    BodiesErased(c.p);
    assert EraseContent(Bodies(items + [s])) == Bodies(EraseAll(items + [s]));
    assert ErasePtr(To(block, Bodies(items + [s]))) == To(0, Bodies(EraseAll(items) + [Erase(s)]));
  }

  /** Static data stays in place and is read over. */
  lemma StaticForm(S: Schema, i: nat, f: HField, c: Cell, wireType: nat, rest: Varint.Bytes)
    requires S.Ok() && i < |S.tables| && S.FieldOk(i, f) && f.at.Static? && !f.kind.Sub?
    ensures var x, a := AfterField(S, i, f, c, wireType, rest), Announced(rest);
            if IsPacked(f, wireType) then
              var count := if a.None? then None else Wire.CountItems(Wire.WireShape(f.kind.wireType), a.value.0);
              x == if count.None? then None else Some((c, a.value.1))
            else
              var n := Wire.Extent(Wire.WireShape(if f.kind.Text? then Wire.WT_STRING else f.kind.wireType), rest);
              x == if n.None? then None else Some((c, n.value))
  {
    hide Announced, Wire.CountItems, Wire.Extent;
    AnnouncedIsExtent(rest);
  }

  /** Data behind a pointer. */
  lemma DataForm(S: Schema, i: nat, f: HField, c: Cell, rest: Varint.Bytes)
    requires S.Ok() && i < |S.tables| && S.FieldOk(i, f) && f.at.Pointer? && f.kind.Data?
    ensures var x, n := AfterSingle(S, i, f, EraseCell(c), rest), Wire.Extent(Wire.WireShape(f.kind.wireType), rest);
            if n.None? || AfterItem(f, EraseCell(c)).None? then x.None?
            else x == Some((AfterItem(f, EraseCell(c)).value, n.value))
  {
    hide EraseCell, Wire.Extent, AfterItem;
  }

  /** A string or byte string behind a pointer. */
  lemma TextForm(S: Schema, i: nat, f: HField, c: Cell, rest: Varint.Bytes)
    requires S.Ok() && i < |S.tables| && S.FieldOk(i, f) && f.at.Pointer? && f.kind.Text?
    ensures var x, a := AfterSingle(S, i, f, EraseCell(c), rest), Announced(rest);
            if a.None? || !TextFits(f.kind.isString, |a.value.0|) || AfterItem(f, EraseCell(c)).None? then x.None?
            else x == Some((AfterItem(f, EraseCell(c)).value, a.value.1))
  {
    hide EraseCell, Announced, TextFits, AfterItem;
  }

  lemma ItemForm(f: HField, c: Cell, block: nat, capacity: nat)
    requires f.kind.Data? || (f.kind.Text? && !f.repeated)
    ensures !f.repeated ==> AfterItem(f, EraseCell(c)) == Some(EraseCell(Ref(To(block, Items(capacity)))))
    ensures f.repeated && c.RefArray? && c.count < PB_SIZE_MAX ==>
              AfterItem(f, EraseCell(c)) == Some(EraseCell(RefArray(c.count + 1, To(block, Items(capacity)))))
  {
    assert EraseContent(Items(capacity)) == Items(0);
    assert ErasePtr(To(block, Items(capacity))) == To(0, Items(0));
  }

  lemma TextsForm(f: HField, c: Cell, block: nat, q: Ptr)
    requires f.kind.Text? && f.repeated && c.RefArray? && c.count < PB_SIZE_MAX && q.To? && IsText(q)
    ensures AfterItem(f, EraseCell(c))
         == Some(EraseCell(RefArray(c.count + 1, To(block, Texts(TextsOf(c.p) + [q])))))
  {
    var ptrs := TextsOf(c.p);
    BodiesErased(c.p);
    EraseMorePtrs(ptrs, q);
    assert EraseContent(q.content) == Items(0) && ErasePtr(q) == To(0, Items(0));
    assert EraseContent(Texts(ptrs + [q])) == Texts(ErasePtrs(ptrs + [q]));
    assert ErasePtr(To(block, Texts(ptrs + [q]))) == To(0, Texts(ErasePtrs(ptrs) + [To(0, Items(0))]));
  }

  /** An array behind a pointer that can count no more. */
  lemma FullForm(S: Schema, i: nat, f: HField, c: Cell, rest: Varint.Bytes)
    requires S.Ok() && i < |S.tables| && S.FieldOk(i, f) && f.at.Pointer? && f.repeated
    requires c.RefArray? && c.count == PB_SIZE_MAX
    ensures AfterSingle(S, i, f, EraseCell(c), rest).None?
  {
    hide After, Announced, Wire.Extent, TextFits;
    match f.kind
    case Sub(_) => SubField(S, i, f, EraseCell(c), rest);
    case _ =>
  }

  /** A record for which there is no place. */
  lemma NoPlace(S: Schema, i: nat, f: HField, c: Cell, r: Cell, before: Varint.Bytes, after: Varint.Bytes,
                refused: bool)
    requires S.Ok() && i < |S.tables| && S.FieldOk(i, f) && f.kind.Sub? && SubStart(S, f, EraseCell(c)).None?
    ensures FieldAs(AfterSingle(S, i, f, EraseCell(c), before), false, r, before, after, refused)
  {
    hide After, Announced, SubStart, AfterSingle, EraseCell;
    SubField(S, i, f, EraseCell(c), before);
  }

  lemma BodiesErased(p: Ptr)
    ensures BodiesOf(ErasePtr(p)) == EraseAll(BodiesOf(p))
    ensures TextsOf(ErasePtr(p)) == ErasePtrs(TextsOf(p))
  {
    hide Erase;
    if p.To? {
      assert ErasePtr(p) == To(0, EraseContent(p.content));
      match p.content
      case Texts(ptrs) => assert EraseContent(p.content) == Texts(ErasePtrs(ptrs));
      case Bodies(items) => assert EraseContent(p.content) == Bodies(EraseAll(items));
      case _ =>
    }
  }

  lemma EraseMore(items: seq<Struct>, s: Struct)
    ensures EraseAll(items + [s]) == EraseAll(items) + [Erase(s)]
  {
    hide Erase;
  }

  lemma EraseMorePtrs(ptrs: seq<Ptr>, p: Ptr)
    ensures ErasePtrs(ptrs + [p]) == ErasePtrs(ptrs) + [ErasePtr(p)]
  {
    hide ErasePtr;
  }

  // ----- The same over the records of the input

  /** How far a record reaches. */
  function RecordShape(table: HTable, tag: nat, wireType: nat): Wire.Shape {
    var k := FieldOf(table, tag);
    if k.None? then UnknownShape(table, tag, wireType)
    else
      var f := table[k.value];
      if f.kind.Data? && !IsPacked(f, wireType) then Wire.WireShape(f.kind.wireType) else Wire.Delimited
  }

  /** The records in front of the first that is cut short, or of a zero key. */
  function Records(table: HTable, bytes: Varint.Bytes): seq<Wire.Rec>
    decreases |bytes|
  {
    if bytes == [] then []
    else
      match Wire.ReadKey(bytes)
      case Key(tag, wireType, rest) =>
        var n := Wire.Extent(RecordShape(table, tag, wireType), rest);
        if n.None? then []
        else [Wire.Rec(tag, wireType, rest[..n.value])] + Records(table, rest[n.value..])
      case _ => []
  }

  /** How many items a record of field `f` brings. */
  function ItemsIn(f: HField, r: Wire.Rec): nat {
    if !IsPacked(f, r.wt) then 1
    else
      var body := Wire.Body(r.payload);
      if body.None? then 0 else Wire.CountItems(Wire.WireShape(f.kind.wireType), body.value).GetOr(0)
  }

  /** All items for field `f`. */
  function ItemsOf(f: HField, recs: seq<Wire.Rec>): nat {
    if recs == [] then 0
    else (if recs[0].tag == f.tag then ItemsIn(f, recs[0]) else 0) + ItemsOf(f, recs[1..])
  }

  predicate HasRecord(f: HField, recs: seq<Wire.Rec>) {
    exists i :: 0 <= i < |recs| && recs[i].tag == f.tag
  }

  /** What the records have made of a cell: without one it is as it was; with one a pointer that is not repeated is set;
      arrays behind pointers, and static ones of submessages, count all items on the wire. */
  predicate ArrivedCell(f: HField, c: Cell, d: Cell, recs: seq<Wire.Rec>) {
    && (!HasRecord(f, recs) ==> EraseCell(d) == EraseCell(c))
    && (f.at.Pointer? && !f.repeated && HasRecord(f, recs) ==> d.Ref? && d.p.To?)
    && (f.at.Pointer? && f.repeated && c.RefArray? ==> d.RefArray? && d.count == c.count + ItemsOf(f, recs))
    && (f.at.Static? && f.repeated && f.kind.Sub? && c.InlineArray? ==>
          d.InlineArray? && d.count == c.count + ItemsOf(f, recs))
  }

  predicate Arrived(S: Schema, id: nat, s: Struct, r: Struct, recs: seq<Wire.Rec>) {
    && id < |S.tables| && |s.cells| == |r.cells| == |S.tables[id]|
    && forall k :: 0 <= k < |s.cells| ==> ArrivedCell(S.tables[id][k], s.cells[k], r.cells[k], recs)
  }

  /** One record. */
  lemma FieldArrives(S: Schema, i: nat, k: nat, c: Cell, wireType: nat, rest: Varint.Bytes)
    requires S.Ok() && S.Distinct() && i < |S.tables| && k < |S.tables[i]|
    requires AfterField(S, i, S.tables[i][k], c, wireType, rest).Some?
    ensures var f := S.tables[i][k];
            var x := AfterField(S, i, f, c, wireType, rest).value;
            && Wire.Extent(RecordShape(S.tables[i], f.tag, wireType), rest) == Some(x.1)
            && ArrivedCell(f, c, x.0, [Wire.Rec(f.tag, wireType, rest[..x.1])])
  {
    hide After, Wire.CountItems, Announced, EraseCell, Wire.Body;
    var f := S.tables[i][k];
    var (d, n) := AfterField(S, i, f, c, wireType, rest).value;
    OnlyField(S, i, k);
    AnnouncedIsExtent(rest);
    var r := Wire.Rec(f.tag, wireType, rest[..n]);
    OneRecord(f, r);
    if f.kind.Sub? {
      assert Some(d) == AfterSub(S, f, c, Announced(rest).value.0) && ItemsIn(f, r) == 1;
    } else if IsPacked(f, wireType) {
      var body := Announced(rest).value.0;
      assert Wire.Body(r.payload) == Some(body);
      assert Wire.CountItems(Wire.WireShape(f.kind.wireType), body) == Some(ItemsIn(f, r));
    } else {
      assert ItemsIn(f, r) == 1;
    }
    assert ArrivedCell(f, c, d, [r]);
  }

  lemma OneRecord(f: HField, r: Wire.Rec)
    requires r.tag == f.tag
    ensures HasRecord(f, [r]) && ItemsOf(f, [r]) == ItemsIn(f, r)
  {
    hide ItemsIn;
    assert [r][0].tag == f.tag;
    assert ItemsOf(f, [r][1..]) == 0;
  }

  /** Fields without a record in front of the others. */
  lemma OtherArrives(f: HField, c: Cell, r: Wire.Rec)
    requires r.tag != f.tag
    ensures ArrivedCell(f, c, c, [r])
  {
    assert ItemsOf(f, [r][1..]) == 0;
  }

  lemma ArrivedThen(f: HField, c: Cell, d: Cell, e: Cell, r: Wire.Rec, recs: seq<Wire.Rec>)
    requires ArrivedCell(f, c, d, [r]) && ArrivedCell(f, d, e, recs)
    ensures ArrivedCell(f, c, e, [r] + recs)
  {
    hide EraseCell, ItemsOf, HasRecord;
    if EraseCell(e) == EraseCell(d) { SameForm(d, e); }
    RecordsSplit(f, r, recs);
  }

  lemma SameForm(c: Cell, d: Cell)
    requires EraseCell(c) == EraseCell(d)
    ensures c.Ref? == d.Ref? && c.RefArray? == d.RefArray? && c.InlineArray? == d.InlineArray?
    ensures c.Ref? ==> c.p.To? == d.p.To?
    ensures c.RefArray? || c.InlineArray? ==> c.count == d.count
  {
    hide Erase, EraseAll, EraseContent;
    if c.Ref? && d.Ref? { assert ErasePtr(c.p).To? == c.p.To? && ErasePtr(d.p).To? == d.p.To?; }
  }

  lemma RecordsSplit(f: HField, r: Wire.Rec, recs: seq<Wire.Rec>)
    ensures HasRecord(f, [r] + recs) <==> HasRecord(f, [r]) || HasRecord(f, recs)
    ensures ItemsOf(f, [r] + recs) == ItemsOf(f, [r]) + ItemsOf(f, recs)
  {
    hide ItemsIn;
    var all := [r] + recs;
    assert all[1..] == recs && [r][1..] == [] && all[0] == r == [r][0];
    assert ItemsOf(f, []) == 0;
    if HasRecord(f, recs) {
      var i :| 0 <= i < |recs| && recs[i].tag == f.tag;
      assert all[i + 1].tag == f.tag;
    }
    if HasRecord(f, all) {
      var i :| 0 <= i < |all| && all[i].tag == f.tag;
      if i > 0 { assert recs[i - 1].tag == f.tag; }
    }
  }

  lemma ArrivedNothing(S: Schema, id: nat, s: Struct)
    requires id < |S.tables| && |s.cells| == |S.tables[id]|
    ensures Arrived(S, id, s, s, [])
  {
    hide EraseCell;
  }

  /** After a decode every cell is what the records in the input make of it. */
  lemma {:induction false} AfterArrives(S: Schema, id: nat, s: Struct, bytes: Varint.Bytes)
    requires S.Ok() && S.Distinct() && id < |S.tables| && |s.cells| == |S.tables[id]|
    requires After(S, id, s, bytes).Some?
    ensures Arrived(S, id, s, After(S, id, s, bytes).value, Records(S.tables[id], bytes))
    decreases |bytes|
  {
    hide After, AfterField, ArrivedCell, Wire.Extent, RecordShape, Schema.Distinct;
    AfterRecord(S, id, s, bytes);
    ArrivedNothing(S, id, s);
    if bytes != [] {
      match Wire.ReadKey(bytes)
      case Key(tag, wireType, rest) =>
        var table, k, r := S.tables[id], FieldOf(S.tables[id], tag), After(S, id, s, bytes).value;
        if k.None? {
          UnknownRecord(table, tag, wireType);
          var n := Wire.Extent(RecordShape(table, tag, wireType), rest).value;
          var rec := Wire.Rec(tag, wireType, rest[..n]);
          AfterArrives(S, id, s, rest[n..]);
          forall j | 0 <= j < |s.cells|
            ensures ArrivedCell(table[j], s.cells[j], r.cells[j], [rec] + Records(table, rest[n..]))
          {
            OtherArrives(table[j], s.cells[j], rec);
            ArrivedThen(table[j], s.cells[j], s.cells[j], r.cells[j], rec, Records(table, rest[n..]));
          }
        } else {
          FieldArrives(S, id, k.value, s.cells[k.value], wireType, rest);
          var (d, n) := AfterField(S, id, table[k.value], s.cells[k.value], wireType, rest).value;
          var rec := Wire.Rec(tag, wireType, rest[..n]);
          var next := Struct(s.cells[k.value := d]);
          AfterArrives(S, id, next, rest[n..]);
          forall j | 0 <= j < |s.cells|
            ensures ArrivedCell(table[j], s.cells[j], r.cells[j], [rec] + Records(table, rest[n..]))
          {
            if j != k.value {
              TagsDiffer(S, id, j, k.value);
              OtherArrives(table[j], s.cells[j], rec);
            }
            ArrivedThen(table[j], s.cells[j], next.cells[j], r.cells[j], rec, Records(table, rest[n..]));
          }
        }
      case _ =>
    }
  }

  lemma UnknownRecord(table: HTable, tag: nat, wireType: nat)
    requires FieldOf(table, tag).None?
    ensures RecordShape(table, tag, wireType) == UnknownShape(table, tag, wireType)
  {}

  lemma TagsDiffer(S: Schema, id: nat, j: nat, k: nat)
    requires S.Distinct() && id < |S.tables| && j < |S.tables[id]| && k < |S.tables[id]| && j != k
    ensures S.tables[id][j].tag != S.tables[id][k].tag
  {}

  // ----- From forms to structs

  lemma {:induction false} EraseTwice(s: Struct)
    ensures Erase(Erase(s)) == Erase(s)
    decreases s, 1
  {
    forall k | 0 <= k < |s.cells| ensures EraseCell(EraseCell(s.cells[k])) == EraseCell(s.cells[k]) {
      EraseCellTwice(s.cells[k]);
    }
  }

  lemma EraseCellTwice(c: Cell)
    ensures EraseCell(EraseCell(c)) == EraseCell(c)
    decreases c, 0
  {
    match c
    case Inline(s) => EraseTwice(s);
    case InlineArray(_, items) => EraseAllTwice(items);
    case Ref(p) => ErasePtrTwice(p);
    case RefArray(_, p) => ErasePtrTwice(p);
    case Flat =>
  }

  lemma EraseAllTwice(items: seq<Struct>)
    ensures EraseAll(EraseAll(items)) == EraseAll(items)
    decreases items, 0
  {
    forall i | 0 <= i < |items| ensures Erase(Erase(items[i])) == Erase(items[i]) { EraseTwice(items[i]); }
  }

  lemma {:induction false} ErasePtrTwice(p: Ptr)
    ensures ErasePtr(ErasePtr(p)) == ErasePtr(p)
    decreases p, 0
  {
    if p.To? {
      match p.content
      case Items(_) =>
      case Body(s) => EraseTwice(s);
      case Texts(ptrs) =>
        forall i | 0 <= i < |ptrs| ensures ErasePtr(ErasePtr(ptrs[i])) == ErasePtr(ptrs[i]) { ErasePtrTwice(ptrs[i]); }
        assert ErasePtrs(ErasePtrs(ptrs)) == ErasePtrs(ptrs);
      case Bodies(items) => EraseAllTwice(items);
    }
  }

  /** The same cell, seen through forms. */
  lemma ArrivedForm(f: HField, c: Cell, d: Cell, recs: seq<Wire.Rec>)
    requires ArrivedCell(f, EraseCell(c), EraseCell(d), recs)
    ensures ArrivedCell(f, c, d, recs)
  {
    hide EraseCell, HasRecord, ItemsOf;
    EraseCellTwice(c);
    EraseCellTwice(d);
    SameForm(c, EraseCell(c));
    SameForm(d, EraseCell(d));
  }

  /** When a decode has gone as its form says, the records in the input have made of every cell what they should. */
  lemma FormArrived(S: Schema, id: nat, s: Struct, r: Struct, bytes: Varint.Bytes)
    requires S.Ok() && S.Distinct() && id < |S.tables| && |s.cells| == |S.tables[id]|
    requires After(S, id, Erase(s), bytes) == Some(Erase(r))
    ensures Arrived(S, id, s, r, Records(S.tables[id], bytes))
  {
    hide EraseCell, After, ArrivedCell, Records;
    AfterArrives(S, id, Erase(s), bytes);
    forall k | 0 <= k < |s.cells|
      ensures ArrivedCell(S.tables[id][k], s.cells[k], r.cells[k], Records(S.tables[id], bytes))
    {
      ArrivedForm(S.tables[id][k], s.cells[k], r.cells[k], Records(S.tables[id], bytes));
    }
  }

  /** A message decoded from its defaults: a pointer that is not repeated is set exactly when there is a record for it,
      and the arrays behind pointers, like the static ones of submessages, count exactly the items on the wire. */
  predicate AllArrived(S: Schema, id: nat, r: Struct, recs: seq<Wire.Rec>) {
    && id < |S.tables| && |r.cells| == |S.tables[id]|
    && forall k :: 0 <= k < |r.cells| ==> CellComplete(S.tables[id][k], r.cells[k], recs)
  }

  predicate CellComplete(f: HField, d: Cell, recs: seq<Wire.Rec>) {
    && (f.at.Pointer? && !f.repeated ==> d.Ref? && (d.p.To? <==> HasRecord(f, recs)))
    && (f.at.Pointer? && f.repeated ==> d.RefArray? && d.count == ItemsOf(f, recs))
    && (f.at.Static? && f.repeated && f.kind.Sub? ==> d.InlineArray? && d.count == ItemsOf(f, recs))
  }

  lemma ArrivedFromDefaults(S: Schema, id: nat, s: Struct, r: Struct, recs: seq<Wire.Rec>)
    requires S.Ok() && Typed(S, id, s, false) && Arrived(S, id, SetDefaults(s), r, recs)
    ensures AllArrived(S, id, r, recs)
  {
    hide EraseCell, HasRecord, ItemsOf, Typed;
    TypedLoosely(S, id, s);
    forall k | 0 <= k < |r.cells| ensures CellComplete(S.tables[id][k], r.cells[k], recs) {
      CellArrived(S, S.tables[id][k], s.cells[k], r.cells[k], recs);
    }
  }

  lemma TypedLoosely(S: Schema, id: nat, s: Struct)
    requires S.Ok() && Typed(S, id, s, false)
    ensures id < |S.tables| && |s.cells| == |S.tables[id]|
    ensures forall k :: 0 <= k < |s.cells| ==> TypedCell(S, S.tables[id][k], s.cells[k], false)
  {
    hide TypedCell;
  }

  lemma CellArrived(S: Schema, f: HField, c: Cell, d: Cell, recs: seq<Wire.Rec>)
    requires TypedCell(S, f, c, false) && ArrivedCell(f, DefaultCell(c), d, recs)
    ensures CellComplete(f, d, recs)
  {
    hide EraseCell, HasRecord, ItemsOf, Typed;
    if EraseCell(d) == EraseCell(DefaultCell(c)) { SameForm(d, DefaultCell(c)); }
  }

  // ----- Inside submessages

  lemma {:induction false} DefaultsOfZero(S: Schema, id: nat)
    requires S.Ok() && id < |S.tables|
    ensures SetDefaults(Zero(S, id)) == Zero(S, id)
    decreases S.rank[id]
  {
    var zero := Zero(S, id);
    forall k | 0 <= k < |zero.cells| ensures DefaultCell(zero.cells[k]) == zero.cells[k] {
      var f := S.tables[id][k];
      assert S.FieldOk(id, f) && zero.cells[k] == ZeroCell(S, id, f);
      if f.at.Static? && f.kind.Sub? && !f.repeated { DefaultsOfZero(S, f.kind.id); }
    }
  }

  /** A body decoded from the defaults of a struct is received in full. */
  lemma BodyArrives(S: Schema, id: nat, s: Struct, body: Varint.Bytes)
    requires S.Ok() && S.Distinct() && Typed(S, id, s, false) && After(S, id, SetDefaults(s), body).Some?
    ensures id < |S.tables| && AllArrived(S, id, After(S, id, SetDefaults(s), body).value, Records(S.tables[id], body))
  {
    hide After, Records, AllArrived, Arrived, Typed;
    TypedLoosely(S, id, s);
    AfterArrives(S, id, SetDefaults(s), body);
    ArrivedFromDefaults(S, id, s, After(S, id, SetDefaults(s), body).value, Records(S.tables[id], body));
  }

  lemma ZeroIsTyped(S: Schema, id: nat)
    requires S.Ok() && id < |S.tables|
    ensures Typed(S, id, Zero(S, id), false)
  {
    ZeroIsBlank(S, id);
    TypedEverywhere(S, id, Zero(S, id));
  }

  /** What a record brings is received inside the submessage too: the one behind a pointer, the last entry of an array
      behind a pointer, and the new entry of a static array have all that is in the body and nothing else; a static
      submessage has it added. */
  lemma Inside(S: Schema, i: nat, f: HField, c: Cell, rest: Varint.Bytes)
    requires S.Ok() && S.Distinct() && i < |S.tables| && S.FieldOk(i, f) && f.kind.Sub?
    requires AfterSingle(S, i, f, c, rest).Some? && Announced(rest).Some?
    ensures var id, d := f.kind.id, AfterSingle(S, i, f, c, rest).value.0;
            var recs := Records(S.tables[id], Announced(rest).value.0);
            if f.at.Pointer? && !f.repeated then
              d.Ref? && d.p.To? && d.p.content.Body? && AllArrived(S, id, d.p.content.s, recs)
            else if f.at.Pointer? then
              && d.RefArray? && d.p.To? && d.p.content.Bodies? && d.p.content.items != []
              && AllArrived(S, id, d.p.content.items[|d.p.content.items| - 1], recs)
            else if f.repeated then
              && c.InlineArray? && c.count < |c.items| && d.InlineArray? && |d.items| == |c.items|
              && (Typed(S, id, c.items[c.count], false) ==> AllArrived(S, id, d.items[c.count], recs))
            else
              c.Inline? && d.Inline? && (|c.s.cells| == |S.tables[id]| ==> Arrived(S, id, c.s, d.s, recs))
  {
    hide After, AfterSingle, Announced, Records, AllArrived, Arrived, Typed, SetDefaults;
    var id, body := f.kind.id, Announced(rest).value.0;
    SubField(S, i, f, c, rest);
    ZeroIsTyped(S, id);
    DefaultsOfZero(S, id);
    if f.at.Pointer? {
      BodyArrives(S, id, Zero(S, id), body);
    } else if f.repeated {
      if Typed(S, id, c.items[c.count], false) { BodyArrives(S, id, c.items[c.count], body); }
    } else if |c.s.cells| == |S.tables[id]| {
      AfterArrives(S, id, c.s, body);
    }
  }
}
