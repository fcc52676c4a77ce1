/** Schema evolution: what a receiver with another version of the table makes of a message. */
module Evolution {
  import opened Wrappers
  import opened Config
  import opened Message
  import opened Wire
  import opened Decode
  import opened Encode
  import opened WellFormed
  import opened DecodeLaws
  import opened Chunks
  import opened RoundTrip

  // ----- Two versions of a table

  /** `g` is the receiver's version of field `f`: it may lie elsewhere in the struct, have another default, and
      the submessage it holds may have other fields. */
  ghost predicate SameField(f: Field, g: Field)
    decreases f
  {
    && g.tag == f.tag && g.ht == f.ht && g.at == f.at && g.arraySize == f.arraySize
    && (f.sizeOffset == 0 <==> g.sizeOffset == 0)
    && if f.lt.LSubmessage? then g.lt.LSubmessage? && Compatible(f.lt.fields, g.lt.fields)
       else g.lt == f.lt && g.dataSize == f.dataSize
  }

  /** Fields with the same tag are versions of one field, and those that are in one union of the receiver are in
      one union of the sender.  Either side may have fields that the other lacks. */
  ghost predicate Compatible(t: Table, u: Table)
    decreases t
  {
    && (forall k :: 0 <= k < |t| && Find(u, t[k].tag).Some? ==> SameField(t[k], u[Find(u, t[k].tag).value]))
    && (forall j, k :: 0 <= j < k < |t| && ShareCell(u, t[j].tag, t[k].tag) ==> Home(t, j) == Home(t, k))
  }

  /** The fields with these tags lie in one cell. */
  predicate ShareCell(u: Table, a: nat, b: nat) {
    Find(u, a).Some? && Find(u, b).Some? && Home(u, Find(u, a).value) == Home(u, Find(u, b).value)
  }

  // ----- What the receiver sees

  /** The sender writes field `k`, and the receiver keeps it in its cell `h`. */
  predicate Fills(t: Table, cells: seq<Cell>, u: Table, h: nat, k: nat)
    requires |cells| == |t| && k < |t|
  {
    var i := Find(u, t[k].tag);
    i.Some? && Home(u, i.value) == h && FieldRecs(t[k], cells[Home(t, k)]) != []
  }

  /** The first field from `k` on that fills cell `h`. */
  function Source(t: Table, cells: seq<Cell>, u: Table, h: nat, k: nat): (s: Option<nat>)
    requires |cells| == |t| && k <= |t|
    ensures s.Some? ==> k <= s.value < |t| && Fills(t, cells, u, h, s.value)
    ensures s.None? ==> forall j :: k <= j < |t| ==> !Fills(t, cells, u, h, j)
    decreases |t| - k
  {
    if k == |t| then None
    else if Fills(t, cells, u, h, k) then Some(k)
    else Source(t, cells, u, h, k + 1)
  }

  /** The message as the receiver sees it: the fields it knows and the sender has written, the others at the
      receiver's defaults. */
  function View(t: Table, cells: seq<Cell>, u: Table): (r: seq<Cell>)
    requires |cells| == |t|
    ensures |r| == |u|
    decreases t, 2
  {
    seq(|u|, h requires 0 <= h < |u| => ViewCell(t, cells, u, h, |t|))
  }

  /** Cell `h` after the fields before `k` have been received. */
  function ViewCell(t: Table, cells: seq<Cell>, u: Table, h: nat, k: nat): Cell
    requires |cells| == |t| && h < |u| && k <= |t|
    decreases t, 1
  {
    var s := Source(t, cells, u, h, 0);
    if s.Some? && s.value < k then
      Filled(t[s.value], u[Find(u, t[s.value].tag).value], cells[Home(t, s.value)])
    else DefaultCell(u[h], Home(u, h) == h)
  }

  function Filled(f: Field, g: Field, c: Cell): Cell
    decreases f, 2
  {
    match c
    case Plain(v) => Plain(ViewValue(f, g, v))
    case Has(_, v) => Has(true, ViewValue(f, g, v))
    case Counted(items) => Counted(ViewItems(f, g, items))
    case Array(items) => Array(ViewItems(f, g, items))
    case Union(_, v) => Union(g.tag, ViewValue(f, g, v))
    case _ => c
  }

  function ViewItems(f: Field, g: Field, items: seq<Value>): (vs: seq<Value>)
    ensures |vs| == |items|
    decreases f, 1
  {
    seq(|items|, i requires 0 <= i < |items| => ViewValue(f, g, items[i]))
  }

  function ViewValue(f: Field, g: Field, v: Value): Value
    decreases f, 0
  {
    if f.lt.LSubmessage? && g.lt.LSubmessage? && v.VMsg? && |v.cells| == |f.lt.fields|
      then VMsg(View(f.lt.fields, v.cells, g.lt.fields))
    else v
  }

  // ----- What the receiver accepts

  predicate Tracked(u: Table, i: nat)
    requires i < |u|
  {
    u[i].ht.Required? && RequiredBefore(u, i) < PB_MAX_REQUIRED_FIELDS
  }

  /** The sender knows every required field that the receiver insists on, and so in all submessages it has written
      that the receiver knows. */
  ghost predicate Accepts(t: Table, cells: seq<Cell>, u: Table)
    requires |cells| == |t|
    decreases t
  {
    Suffices(t, u) && forall k :: 0 <= k < |t| ==> FieldAccepted(t[k], cells[Home(t, k)], u)
  }

  ghost predicate Suffices(t: Table, u: Table) {
    forall i :: 0 <= i < |u| && Tracked(u, i) ==> Find(t, u[i].tag).Some?
  }

  ghost predicate FieldAccepted(f: Field, c: Cell, u: Table)
    decreases f, 2
  {
    var i := Find(u, f.tag);
    i.Some? && FieldRecs(f, c) != [] ==>
      if c.Counted? || c.Array? then ItemsAccepted(f, u[i.value], c.items)
      else c.Plain? || c.Has? || c.Union? ==> ValueAccepted(f, u[i.value], c.v)
  }

  ghost predicate ItemsAccepted(f: Field, g: Field, items: seq<Value>)
    decreases f, 1
  {
    forall i :: 0 <= i < |items| ==> ValueAccepted(f, g, items[i])
  }

  ghost predicate ValueAccepted(f: Field, g: Field, v: Value)
    decreases f, 0
  {
    f.lt.LSubmessage? && g.lt.LSubmessage? && v.VMsg? && |v.cells| == |f.lt.fields| ==>
      Accepts(f.lt.fields, v.cells, g.lt.fields)
  }

  // ----- Both versions of a field write alike

  lemma SameItem(f: Field, g: Field, v: Value)
    requires SameField(f, g) && !f.lt.LSubmessage?
    ensures ItemEmit(f, v) == ItemEmit(g, v)
    ensures ValueOk(f, v) ==> ValueOk(g, v)
  {}

  lemma {:induction false} SameItems(f: Field, g: Field, items: seq<Value>)
    requires SameField(f, g) && !f.lt.LSubmessage?
    ensures ItemsEmit(f, [], items) == ItemsEmit(g, [], items)
    ensures (forall i :: 0 <= i < |items| ==> ValueOk(f, items[i])) ==>
              forall i :: 0 <= i < |items| ==> ValueOk(g, items[i])
    decreases |items|
  {
    hide ItemEmit, ValueOk;
    if items != [] {
      SameItem(f, g, items[0]);
      SameItems(f, g, items[1..]);
      if forall i :: 0 <= i < |items| ==> ValueOk(f, items[i]) {
        forall i | 0 <= i < |items| ensures ValueOk(g, items[i]) { SameItem(f, g, items[i]); }
      }
    }
  }

  lemma TagIsPositive(f: Field)
    requires FieldOk(f)
    ensures f.tag > 0 && !f.lt.LExtension?
  {}

  // ----- The records, seen by the receiver

  /** The shape that the wire type of a record tells is the one its field is read with. */
  ghost predicate ShapedByWireType(f: Field, r: Rec) {
    r.tag == f.tag && WireShape(r.wt) == if ReadPacked(f, r.wt) then Delimited else ItemShape(f.lt)
  }

  lemma RecsOfField(t: Table, cells: seq<Cell>, k: nat)
    requires TableOk(t) && MessageOk(t, cells) && k < |t|
    ensures forall r :: r in FieldRecs(t[k], cells[Home(t, k)]) ==> ShapedByWireType(t[k], r)
  {
    hide ItemEmit, ItemsEmit, ValueOk, ItemsOk;
    var f, c := t[k], cells[Home(t, k)];
    FindByTag(t, k);
    TagIsPositive(f);
    HomeOfMember(t, k);
    assert CellOk(t, Home(t, k), c);
    if c.Counted? || c.Array? { RecsOfItems(f, c.items); }
  }

  lemma {:induction false} RecsOfItems(f: Field, items: seq<Value>)
    requires f.ht.Repeated? && !f.lt.LExtension?
    ensures forall r :: r in ItemRecs(f, items) ==> ShapedByWireType(f, r)
    decreases |items|
  {
    hide ItemEmit;
    if items != [] { RecsOfItems(f, items[1..]); }
  }

  // ----- The sender's records, seen by the receiver

  /** Behind every key it writes the encoder puts a payload that pb_skip_field skips exactly. */
  lemma {:induction false} PayloadsAreSkipped(t: Table, cells: seq<Cell>, k: nat)
    requires TableOk(t) && MessageOk(t, cells) && k <= |t|
    ensures forall r :: r in MessageRecs(t, cells, k) ==>
              0 < r.tag && Extent(WireShape(r.wt), r.payload) == Some(|r.payload|)
    decreases |t| - k
  {
    hide FieldRecs, Extent, WireShape;
    if k < |t| {
      PayloadsAreSkipped(t, cells, k + 1);
      FieldRoundTrip(t, cells, k);
      RecsOfField(t, cells, k);
      FindByTag(t, k);
      TagIsPositive(t[k]);
    }
  }

  /** The receiver frames the records as the sender has written them. */
  lemma {:induction false} FramedByReceiver(t: Table, cells: seq<Cell>, u: Table, k: nat)
    requires TableOk(t) && MessageOk(t, cells) && Compatible(t, u) && k <= |t|
    ensures AllFramed(u, MessageRecs(t, cells, k))
    decreases |t| - k
  {
    hide FieldRecs, Extent, WireShape;
    if k < |t| {
      FramedByReceiver(t, cells, u, k + 1);
      FieldRoundTrip(t, cells, k);
      RecsOfField(t, cells, k);
      FindByTag(t, k);
      TagIsPositive(t[k]);
      forall r | r in FieldRecs(t[k], cells[Home(t, k)]) ensures WellFramed(u, r) {
        assert WellFramed(t, r) && ShapedByWireType(t[k], r);
        SameShape(t, u, k, r);
      }
    }
  }

  lemma SameShape(t: Table, u: Table, k: nat, r: Rec)
    requires Compatible(t, u) && k < |t| && Find(t, r.tag) == Some(k) && r.tag > 0 && ShapedByWireType(t[k], r)
    ensures ShapeOf(u, r.tag, r.wt) == ShapeOf(t, r.tag, r.wt)
  {
    if Find(u, r.tag).Some? { assert SameField(t[k], u[Find(u, r.tag).value]); }
  }

  /** Records the receiver does not know leave its state as it is. */
  lemma {:induction false} UnknownRecordsDoNothing(u: Table, st: State, recs: seq<Rec>)
    requires |st.cells| == |u| && forall r :: r in recs ==> r.tag > 0 && Find(u, r.tag).None?
    ensures Fold(u, st, recs) == Some(st)
    decreases |recs|
  {
    if recs != [] {
      assert recs[0] in recs;
      UnknownRecordsDoNothing(u, st, recs[1..]);
    }
  }

  // ----- The receiver's state

  /** The state of the receiver after the fields before `k`. */
  function Got(t: Table, cells: seq<Cell>, u: Table, k: nat): (st: State)
    requires |cells| == |t| && k <= |t|
    ensures |st.cells| == |u|
  {
    State(seq(|u|, h requires 0 <= h < |u| => ViewCell(t, cells, u, h, k)),
          LastRun(t, u, k), if LastRun(t, u, k).Some? then u[LastRun(t, u, k).value].arraySize else 0,
          set i | 0 <= i < |u| && SeenBefore(t, u, i, k))
  }

  predicate SeenBefore(t: Table, u: Table, i: nat, k: nat)
    requires i < |u|
  {
    u[i].ht.Required? && Find(t, u[i].tag).Some? && Find(t, u[i].tag).value < k
  }

  /** The last fixed-count array before field `k` that the receiver knows. */
  function LastRun(t: Table, u: Table, k: nat): (i: Option<nat>)
    requires k <= |t|
    ensures i.Some? ==> i.value < |u| && u[i.value].FixedCount()
    ensures i.Some? ==> exists j :: 0 <= j < k && Find(u, t[j].tag) == i
  {
    if k == 0 then None
    else
      var i := Find(u, t[k - 1].tag);
      if i.Some? && u[i.value].FixedCount() then i else LastRun(t, u, k - 1)
  }

  lemma GotStart(t: Table, cells: seq<Cell>, u: Table)
    requires |cells| == |t|
    ensures Got(t, cells, u, 0) == Fresh(Defaults(u))
  {
    assert Got(t, cells, u, 0).cells == Defaults(u);
  }

  lemma GotEnd(t: Table, cells: seq<Cell>, u: Table)
    requires |cells| == |t|
    ensures Got(t, cells, u, |t|).cells == View(t, cells, u)
    ensures Finished(u, Got(t, cells, u, |t|)) <==> Suffices(t, u)
  {
    var st := Got(t, cells, u, |t|);
    if Suffices(t, u) {
      forall i | 0 <= i < |u| && Tracked(u, i) ensures i in st.seen { assert SeenBefore(t, u, i, |t|); }
    }
    if Finished(u, st) {
      forall i | 0 <= i < |u| && Tracked(u, i) ensures Find(t, u[i].tag).Some? { assert i in st.seen; }
    }
  }

  /** A cell of the receiver is filled by one field of the sender at most. */
  lemma OneSource(t: Table, cells: seq<Cell>, u: Table, h: nat, j: nat, k: nat)
    requires TableOk(t) && MessageOk(t, cells) && Compatible(t, u) && j < |t| && k < |t| && j != k
    requires Fills(t, cells, u, h, j)
    ensures !Fills(t, cells, u, h, k)
  {
    hide FieldRecs;
    assert t[j].tag != t[k].tag;
    if ShareCell(u, t[j].tag, t[k].tag) {
      var x, y := Find(u, t[j].tag).value, Find(u, t[k].tag).value;
      if x < y { SharedHome(u, x, y); } else { SharedHome(u, y, x); }
      assert SameField(t[j], u[x]) && Home(t, j) == Home(t, k);
      OneMember(t, cells, j, k);
    }
  }

  /** Of two members of a union at most one is written. */
  lemma OneMember(t: Table, cells: seq<Cell>, j: nat, k: nat)
    requires TableOk(t) && MessageOk(t, cells) && j < |t| && k < |t| && t[j].tag != t[k].tag
    requires t[j].ht.Oneof? && Home(t, j) == Home(t, k)
    ensures FieldRecs(t[j], cells[Home(t, j)]) == [] || FieldRecs(t[k], cells[Home(t, k)]) == []
  {
    hide ItemRec, ArrayRecs, ValueOk, ItemsOk, IsZero;
    HomeOfMember(t, j);
    assert CellOk(t, Home(t, j), cells[Home(t, j)]);
  }

  /** Required fields and fixed-count arrays are always written. */
  lemma AlwaysWritten(t: Table, cells: seq<Cell>, k: nat)
    requires TableOk(t) && MessageOk(t, cells) && k < |t| && FieldRecs(t[k], cells[Home(t, k)]) == []
    ensures !t[k].ht.Required? && !t[k].FixedCount()
  {
    hide ItemRec, ValueOk, ItemsOk, IsZero;
    FindByTag(t, k);
    HomeOfMember(t, k);
    assert CellOk(t, Home(t, k), cells[Home(t, k)]);
  }

  lemma Version(t: Table, u: Table, k: nat)
    requires Compatible(t, u) && k < |t| && Find(u, t[k].tag).Some?
    ensures var g := u[Find(u, t[k].tag).value];
            SameField(t[k], g) && g.tag == t[k].tag && g.ht == t[k].ht && g.FixedCount() == t[k].FixedCount()
  {}

  /** A field the receiver does not know, or that is not written, leaves the receiver where it was. */
  lemma GotSame(t: Table, cells: seq<Cell>, u: Table, k: nat)
    requires TableOk(t) && MessageOk(t, cells) && TableOk(u) && Compatible(t, u) && k < |t|
    requires Find(u, t[k].tag).None? || FieldRecs(t[k], cells[Home(t, k)]) == []
    ensures Got(t, cells, u, k + 1) == Got(t, cells, u, k)
  {
    hide FieldRecs, Filled, DefaultCell, TableOk, CellOk, Compatible, SameField, Home, Find;
    var st, st' := Got(t, cells, u, k), Got(t, cells, u, k + 1);
    if Find(u, t[k].tag).Some? {
      Version(t, u, k);
      AlwaysWritten(t, cells, k);
    }
    forall h | 0 <= h < |u| ensures st'.cells[h] == st.cells[h] { assert !Fills(t, cells, u, h, k); }
    forall i | 0 <= i < |u| ensures SeenBefore(t, u, i, k + 1) == SeenBefore(t, u, i, k) { FindByTag(u, i); }
    assert st'.seen == st.seen;
    assert st'.cells == st.cells;
  }

  /** A field that is received changes one cell, which was at its default. */
  lemma GotCell(t: Table, cells: seq<Cell>, u: Table, k: nat, i: nat)
    requires TableOk(t) && MessageOk(t, cells) && TableOk(u) && Compatible(t, u) && k < |t|
    requires Find(u, t[k].tag) == Some(i) && FieldRecs(t[k], cells[Home(t, k)]) != []
    ensures var st, h := Got(t, cells, u, k), Home(u, i);
            && st.cells[h] == DefaultCell(u[h], true)
            && Got(t, cells, u, k + 1).cells == st.cells[h := Filled(t[k], u[i], cells[Home(t, k)])]
  {
    hide Filled, FieldRecs, DefaultCell, TableOk, CellOk, Compatible;
    var st, st', h := Got(t, cells, u, k), Got(t, cells, u, k + 1), Home(u, i);
    HomeOfMember(u, i);
    assert Fills(t, cells, u, h, k);
    var s := Source(t, cells, u, h, 0).value;
    if s != k { OneSource(t, cells, u, h, k, s); }
    forall x | 0 <= x < |u| && x != h ensures st'.cells[x] == st.cells[x] { assert !Fills(t, cells, u, x, k); }
    assert st'.cells == st.cells[h := Filled(t[k], u[i], cells[Home(t, k)])];
  }

  lemma GotSeen(t: Table, cells: seq<Cell>, u: Table, k: nat, i: nat)
    requires TableOk(t) && |cells| == |t| && TableOk(u) && k < |t| && Find(u, t[k].tag) == Some(i)
    ensures Got(t, cells, u, k + 1).seen == SeenAfter(u[i], i, Got(t, cells, u, k))
    ensures Got(t, cells, u, k).fixedField != Some(i)
  {
    hide ViewCell, FieldOk;
    FindByTag(t, k);
    forall x | 0 <= x < |u| ensures SeenBefore(t, u, x, k + 1) == (x in SeenAfter(u[i], i, Got(t, cells, u, k))) {
      FindByTag(u, x);
    }
    forall j | 0 <= j < k ensures Find(u, t[j].tag) != Some(i) { assert t[j].tag != t[k].tag; }
  }

  // ----- One field

  /** The receiver makes of an item what it makes of the message in it. */
  ghost predicate ItemReceived(f: Field, g: Field, v: Value) {
    Item(g, DefaultItem(g), ItemEmit(f, v).bytes) == if ValueAccepted(f, g, v) then Some(ViewValue(f, g, v)) else None
  }


  /** The run of the last fixed-count array is complete, and the next one, if field `k` is one, is its own. */
  lemma GotRun(t: Table, cells: seq<Cell>, u: Table, k: nat, i: nat)
    requires |cells| == |t| && Compatible(t, u) && k < |t| && Find(u, t[k].tag) == Some(i)
    ensures var st, st' := Got(t, cells, u, k), Got(t, cells, u, k + 1);
            && RunComplete(u, st) && st'.fixedField == FieldAfter(u[i], Some(i), st)
            && st'.fixedCount == if u[i].FixedCount() then u[i].arraySize else st.fixedCount
  {}

  /** A single record of field `k`. */
  lemma SingleReceived(t: Table, cells: seq<Cell>, u: Table, k: nat, i: nat, v: Value)
    requires TableOk(t) && MessageOk(t, cells) && TableOk(u) && Compatible(t, u) && k < |t| && !t[k].ht.Repeated?
    requires Find(u, t[k].tag) == Some(i) && FieldRecs(t[k], cells[Home(t, k)]) == [ItemRec(t[k], v)]
    requires var c := cells[Home(t, k)]; (c.Plain? || c.Has? || c.Union?) && c.v == v
    requires ItemReceived(t[k], u[i], v)
    ensures Fold(u, Got(t, cells, u, k), FieldRecs(t[k], cells[Home(t, k)]))
            == if FieldAccepted(t[k], cells[Home(t, k)], u) then Some(Got(t, cells, u, k + 1)) else None
  {
    hide Got, CellAfter, TableOk, CellOk, Compatible, SameField, Filled, ValueAccepted;
    var f, g, h, st, c := t[k], u[i], Home(u, i), Got(t, cells, u, k), cells[Home(t, k)];
    Version(t, u, k);
    FindByTag(t, k);
    FindByTag(u, i);
    GotCell(t, cells, u, k, i);
    GotSeen(t, cells, u, k, i);
    GotRun(t, cells, u, k, i);
    FoldOfOne(u, st, ItemRec(f, v));
    SingleCell(t, cells, u, k, i, v, CountBefore(g, Some(i), st));
  }

  lemma SingleCell(t: Table, cells: seq<Cell>, u: Table, k: nat, i: nat, v: Value, count: nat)
    requires TableOk(t) && MessageOk(t, cells) && TableOk(u) && k < |t| && !t[k].ht.Repeated? && i < |u|
    requires SameField(t[k], u[i])
    requires var c := cells[Home(t, k)]; (c.Plain? || c.Has? || c.Union?) && c.v == v
    requires FieldRecs(t[k], cells[Home(t, k)]) == [ItemRec(t[k], v)] && ItemReceived(t[k], u[i], v)
    ensures var x := CellAfter(u[i], DefaultCell(u[Home(u, i)], true), count, ItemRec(t[k], v));
            x == if ValueAccepted(t[k], u[i], v) then Some(Stored(Filled(t[k], u[i], cells[Home(t, k)]), count))
                 else None
  {
    hide Item, ItemEmit, ValueAccepted, ValueOk, ItemsOk, ViewValue, IsZero;
    var g := u[i];
    FindByTag(u, i);
    FindByTag(t, k);
    HomeOfMember(u, i);
    HomeOfMember(t, k);
    if Home(u, i) != i { HomeIsShared(u, i); }
    assert CellOk(t, Home(t, k), cells[Home(t, k)]);
    PriorIsDefault(g, DefaultValue(g), ItemEmit(t[k], v).bytes);
  }

  // ----- Arrays

  /** Items that each have a record of their own are received up to the first that is rejected. */
  lemma {:induction false} ReceiveEach(f: Field, u: Table, i: nat, st: State, done: seq<Value>, items: seq<Value>)
    requires i < |u| && IsRepeated(u, i) && SameField(f, u[i]) && |st.cells| == |u|
    requires |done| + |items| <= u[i].arraySize
    requires forall j :: 0 <= j < |items| ==> ItemReceived(f, u[i], items[j])
    ensures Fold(u, Receiving(u, i, st, done), ItemRecs(f, items))
            == if ItemsAccepted(f, u[i], items) then Some(Receiving(u, i, st, done + ViewItems(f, u[i], items)))
               else None
    decreases |items|
  {
    hide Step, Receiving, ValueAccepted, ViewValue, ItemReceived, IsRepeated;
    var g := u[i];
    if items == [] {
      assert done + ViewItems(f, g, items) == done;
    } else {
      var v, recs := ViewValue(f, g, items[0]), ItemRecs(f, items);
      ReceiveOne(f, u, i, st, done, items[0]);
      FoldFirst(u, Receiving(u, i, st, done), recs);
      assert recs[1..] == ItemRecs(f, items[1..]);
      assert ItemsAccepted(f, g, items) <==> ValueAccepted(f, g, items[0]) && ItemsAccepted(f, g, items[1..]) by {
        assert items == [items[0]] + items[1..];
      }
      ReceiveEach(f, u, i, st, done + [v], items[1..]);
      assert done + [v] + ViewItems(f, g, items[1..]) == done + ViewItems(f, g, items);
    }
  }

  lemma ReceiveOne(f: Field, u: Table, i: nat, st: State, done: seq<Value>, v: Value)
    requires IsRepeated(u, i) && SameField(f, u[i]) && |st.cells| == |u| && |done| < u[i].arraySize
    requires ItemReceived(f, u[i], v)
    ensures Step(u, Receiving(u, i, st, done), ItemRec(f, v)) ==
            if ValueAccepted(f, u[i], v) then Some(Receiving(u, i, st, done + [ViewValue(f, u[i], v)])) else None
  {
    hide Step, Receiving, Item, ItemEmit, ValueAccepted, ViewValue, Compatible;
    ReceiveRecord(u, i, st, done, ItemRec(f, v));
  }

  /** The records of an array. */
  lemma ItemsReceived(f: Field, u: Table, i: nat, st: State, items: seq<Value>)
    requires IsRepeated(u, i) && SameField(f, u[i]) && FieldOk(f) && ItemsOk(f, items) && |st.cells| == |u|
    requires items != [] && forall j :: 0 <= j < |items| ==> ItemReceived(f, u[i], items[j])
    ensures Fold(u, Receiving(u, i, st, []), ArrayRecs(f, items))
            == if ItemsAccepted(f, u[i], items) then Some(Receiving(u, i, st, ViewItems(f, u[i], items))) else None
  {
    hide Receiving, Fold, ValueOk, ItemsEmit, ItemReceived, ItemsAccepted, Compatible, TableOk, FieldOk;
    if WritesPacked(f) {
      RunReceived(f, u, i, st, items);
    } else {
      ReceiveEach(f, u, i, st, [], items);
      assert [] + ViewItems(f, u[i], items) == ViewItems(f, u[i], items);
    }
  }

  /** They bring the receiver one field further. */
  lemma ArrayReceived(t: Table, cells: seq<Cell>, u: Table, k: nat, i: nat)
    requires TableOk(t) && MessageOk(t, cells) && TableOk(u) && Compatible(t, u) && k < |t| && t[k].ht.Repeated?
    requires Find(u, t[k].tag) == Some(i) && (cells[k].Counted? || cells[k].Array?) && Home(t, k) == k
    requires FieldRecs(t[k], cells[k]) != [] && cells[k].items != [] && ItemsOk(t[k], cells[k].items)
    requires forall j :: 0 <= j < |cells[k].items| ==> ItemReceived(t[k], u[i], cells[k].items[j])
    ensures Fold(u, Got(t, cells, u, k), FieldRecs(t[k], cells[k]))
            == if ItemsAccepted(t[k], u[i], cells[k].items) then Some(Got(t, cells, u, k + 1)) else None
  {
    hide Got, Step, Fold, Receiving, TableOk, CellOk, Compatible, ValueOk, ItemReceived, ItemsAccepted, ArrayRecs;
    var st, recs := Got(t, cells, u, k), FieldRecs(t[k], cells[k]);
    Version(t, u, k);
    FindByTag(t, k);
    FindByTag(u, i);
    assert recs == ArrayRecs(t[k], cells[k].items);
    RecsOfField(t, cells, k);
    assert recs[0] in recs;
    ItemsReceived(t[k], u, i, st, cells[k].items);
    RunOpens(t, cells, u, k, i, recs[0]);
    FoldFirst(u, st, recs);
    FoldFirst(u, Receiving(u, i, st, []), recs);
    RunCloses(t, cells, u, k, i);
  }

  lemma RunReceived(f: Field, u: Table, i: nat, st: State, items: seq<Value>)
    requires IsRepeated(u, i) && SameField(f, u[i]) && FieldOk(f) && ItemsOk(f, items) && WritesPacked(f)
    requires |st.cells| == |u| && items != []
    ensures Fold(u, Receiving(u, i, st, []), ArrayRecs(f, items))
            == Some(Receiving(u, i, st, ViewItems(f, u[i], items)))
    ensures ItemsAccepted(f, u[i], items)
  {
    hide Receiving, Fold;
    var g := u[i];
    SameItems(f, g, items);
    assert ChunkOk(g, Run(items));
    assert ViewItems(f, g, items) == items;
    assert Flatten([Run(items)]) == items by { assert Flatten([Run(items)][1..]) == []; }
    ReceiveChunks(u, i, st, [], [Run(items)]);
    assert ArrayRecs(f, items) == ChunkRecs(g, [Run(items)]);
    assert [] + items == items;
  }

  /** The first record of an array opens its run. */
  lemma RunOpens(t: Table, cells: seq<Cell>, u: Table, k: nat, i: nat, r: Rec)
    requires TableOk(t) && MessageOk(t, cells) && TableOk(u) && Compatible(t, u) && k < |t| && t[k].ht.Repeated?
    requires Find(u, t[k].tag) == Some(i) && FieldRecs(t[k], cells[Home(t, k)]) != [] && r.tag == t[k].tag
    ensures Step(u, Got(t, cells, u, k), r) == Step(u, Receiving(u, i, Got(t, cells, u, k), []), r)
  {
    hide Got, TableOk, Compatible, SameField, CellAfter, FieldRecs;
    var st, g := Got(t, cells, u, k), u[i];
    Version(t, u, k);
    FindByTag(u, i);
    GotCell(t, cells, u, k, i);
    GotSeen(t, cells, u, k, i);
    GotRun(t, cells, u, k, i);
    NotShared(u, i);
    if g.FixedCount() { assert [] + Unsets(g.arraySize) == seq(g.arraySize, _ => Unset); }
    assert st.cells[i] == ReceivingCell(g, []);
    assert st.cells[i := ReceivingCell(g, [])] == st.cells;
  }

  lemma NotShared(u: Table, i: nat)
    requires i < |u| && !u[i].ht.Oneof?
    ensures Home(u, i) == i
  {}

  /** When all items have been received the receiver is one field further. */
  lemma RunCloses(t: Table, cells: seq<Cell>, u: Table, k: nat, i: nat)
    requires TableOk(t) && MessageOk(t, cells) && TableOk(u) && Compatible(t, u) && k < |t| && t[k].ht.Repeated?
    requires Find(u, t[k].tag) == Some(i) && (cells[k].Counted? || cells[k].Array?) && Home(t, k) == k
    requires FieldRecs(t[k], cells[k]) != [] && |cells[k].items| <= u[i].arraySize
    ensures Receiving(u, i, Got(t, cells, u, k), ViewItems(t[k], u[i], cells[k].items)) == Got(t, cells, u, k + 1)
  {
    hide Got, TableOk, Compatible, SameField, FieldRecs, ViewItems, ItemsOk;
    var st, g, vs := Got(t, cells, u, k), u[i], ViewItems(t[k], u[i], cells[k].items);
    Version(t, u, k);
    FindByTag(t, k);
    FindByTag(u, i);
    assert CellOk(t, k, cells[k]);
    GotCell(t, cells, u, k, i);
    GotSeen(t, cells, u, k, i);
    GotRun(t, cells, u, k, i);
    NotShared(u, i);
    assert vs + Unsets(0) == vs;
  }

  // ----- The theorem

  /** The records of field `k` bring the receiver one field further, unless it rejects them. */
  lemma {:induction false} FieldReceived(t: Table, cells: seq<Cell>, u: Table, k: nat)
    requires TableOk(t) && MessageOk(t, cells) && TableOk(u) && Compatible(t, u) && k < |t|
    ensures Fold(u, Got(t, cells, u, k), FieldRecs(t[k], cells[Home(t, k)]))
            == if FieldAccepted(t[k], cells[Home(t, k)], u) then Some(Got(t, cells, u, k + 1)) else None
    decreases t, 0
  {
    hide Got, TableOk, Compatible, SameField, ItemReceived, ItemsAccepted, ValueAccepted;
    var f, c, i := t[k], cells[Home(t, k)], Find(u, t[k].tag);
    var recs := FieldRecs(f, c);
    FindByTag(t, k);
    HomeOfMember(t, k);
    assert CellOk(t, Home(t, k), c);
    if i.None? || recs == [] {
      GotSame(t, cells, u, k);
      RecsOfField(t, cells, k);
      TagIsPositive(f);
      UnknownRecordsDoNothing(u, Got(t, cells, u, k), recs);
    } else if f.ht.Repeated? {
      NotShared(t, k);
      assert ItemsOk(f, c.items);
      forall j | 0 <= j < |c.items| ensures ItemReceived(f, u[i.value], c.items[j]) {
        Version(t, u, k);
        ItemIsReceived(f, u[i.value], c.items[j], u, i.value);
      }
      ArrayReceived(t, cells, u, k, i.value);
    } else {
      Version(t, u, k);
      ItemIsReceived(f, u[i.value], c.v, u, i.value);
      SingleReceived(t, cells, u, k, i.value, c.v);
    }
  }

  lemma {:induction false} ItemIsReceived(f: Field, g: Field, v: Value, u: Table, i: nat)
    requires FieldOk(f) && SameField(f, g) && ValueOk(f, v) && TableOk(u) && i < |u| && u[i] == g
    ensures ItemReceived(f, g, v)
    decreases f, 3
  {
    FindByTag(u, i);
    if f.lt.LSubmessage? {
      var body := Encoding(f.lt.fields, v.cells).bytes;
      AnyReceiver(f.lt.fields, v.cells, g.lt.fields);
      DecodeLaws.SubmessageItem(g, Defaults(g.lt.fields), body);
    } else {
      SameItem(f, g, v);
      ScalarRoundTrip(g, v, DefaultItem(g));
    }
  }

  /** From field `k` on. */
  lemma {:induction false} FieldsReceived(t: Table, cells: seq<Cell>, u: Table, k: nat)
    requires TableOk(t) && MessageOk(t, cells) && TableOk(u) && Compatible(t, u) && k <= |t|
    ensures Fold(u, Got(t, cells, u, k), MessageRecs(t, cells, k))
            == if AcceptedFrom(t, cells, u, k) then Some(Got(t, cells, u, |t|)) else None
    decreases t, 1, |t| - k
  {
    hide Got, TableOk, CellOk, Compatible, FieldAccepted, FieldRecs, Fold, AcceptedFrom;
    AcceptedStep(t, cells, u, k);
    if k == |t| {
      FoldNothing(u, Got(t, cells, u, k));
    } else {
      FieldReceived(t, cells, u, k);
      FieldsReceived(t, cells, u, k + 1);
      FoldConcat(u, Got(t, cells, u, k), FieldRecs(t[k], cells[Home(t, k)]), MessageRecs(t, cells, k + 1));
    }
  }

  ghost predicate AcceptedFrom(t: Table, cells: seq<Cell>, u: Table, k: nat)
    requires |cells| == |t|
  {
    forall j :: k <= j < |t| ==> FieldAccepted(t[j], cells[Home(t, j)], u)
  }

  lemma AcceptedStep(t: Table, cells: seq<Cell>, u: Table, k: nat)
    requires |cells| == |t| && k <= |t|
    ensures AcceptedFrom(t, cells, u, k)
        <==> k == |t| || (FieldAccepted(t[k], cells[Home(t, k)], u) && AcceptedFrom(t, cells, u, k + 1))
  {
    hide FieldAccepted, Home;
  }

  lemma FoldNothing(u: Table, st: State)
    requires |st.cells| == |u|
    ensures Fold(u, st, []) == Some(st)
  {}

  /** A receiver with any version of the table decodes what the sender has encoded to its view of the message, and
      leaves nothing unread; it fails if and only if it lacks, here or in a submessage that it knows, a required field
      that it tracks. */
  lemma {:induction false} AnyReceiver(t: Table, cells: seq<Cell>, u: Table)
    requires TableOk(t) && MessageOk(t, cells) && TableOk(u) && Compatible(t, u)
    ensures Encoding(t, cells).ok
    ensures DecodeMessage(u, Encoding(t, cells).bytes)
            == if Accepts(t, cells, u) then Some(Decoded(View(t, cells, u), [])) else None
    decreases t, 2
  {
    hide Got, TableOk, CellOk, Compatible, View, Suffices, FieldAccepted, Finished, Fold, FieldRecs;
    var recs := MessageRecs(t, cells, 0);
    FieldsRoundTrip(t, cells, 0);
    FramedByReceiver(t, cells, u, 0);
    SplitInvertsRecsBytes(u, recs);
    GotStart(t, cells, u);
    FieldsReceived(t, cells, u, 0);
    GotEnd(t, cells, u);
  }

  /** What the receiver sees, cell by cell: a field that is written and known is there with its value, and where there
      is none the receiver has its own default. */
  lemma ViewHolds(t: Table, cells: seq<Cell>, u: Table, h: nat)
    requires TableOk(t) && MessageOk(t, cells) && Compatible(t, u) && h < |u|
    ensures forall k :: 0 <= k < |t| && Fills(t, cells, u, h, k) ==>
              View(t, cells, u)[h] == Filled(t[k], u[Find(u, t[k].tag).value], cells[Home(t, k)])
    ensures (forall k :: 0 <= k < |t| ==> !Fills(t, cells, u, h, k)) ==>
              View(t, cells, u)[h] == DefaultCell(u[h], Home(u, h) == h)
  {
    hide Filled, TableOk, CellOk, Compatible, DefaultCell, FieldRecs;
    forall k | 0 <= k < |t| && Fills(t, cells, u, h, k)
      ensures View(t, cells, u)[h] == Filled(t[k], u[Find(u, t[k].tag).value], cells[Home(t, k)])
    {
      var s := Source(t, cells, u, h, 0).value;
      if s != k { OneSource(t, cells, u, h, k, s); }
    }
  }

  // ----- Receivers that accept everything

  /** The receiver tracks no required field that the sender lacks, here or in a submessage both know. */
  ghost predicate Undemanding(t: Table, u: Table)
    decreases t
  {
    Suffices(t, u) && forall k :: 0 <= k < |t| ==> UndemandingInside(t[k], u)
  }

  ghost predicate UndemandingInside(f: Field, u: Table)
    decreases f
  {
    var i := Find(u, f.tag);
    i.Some? && f.lt.LSubmessage? && u[i.value].lt.LSubmessage? ==> Undemanding(f.lt.fields, u[i.value].lt.fields)
  }

  lemma {:induction false} UndemandingAccepts(t: Table, cells: seq<Cell>, u: Table)
    requires |cells| == |t| && Undemanding(t, u)
    ensures Accepts(t, cells, u)
    decreases t
  {
    forall k | 0 <= k < |t| ensures FieldAccepted(t[k], cells[Home(t, k)], u) {
      UndemandingInsideAccepts(t[k], cells[Home(t, k)], u);
    }
  }

  lemma UndemandingInsideAccepts(f: Field, c: Cell, u: Table)
    requires UndemandingInside(f, u)
    ensures FieldAccepted(f, c, u)
    decreases f
  {
    var i := Find(u, f.tag);
    if i.Some? && f.lt.LSubmessage? && u[i.value].lt.LSubmessage? {
      forall v: Value | v.VMsg? && |v.cells| == |f.lt.fields| ensures ValueAccepted(f, u[i.value], v) {
        UndemandingAccepts(f.lt.fields, v.cells, u[i.value].lt.fields);
      }
    }
  }

  /** All fields of the receiver, and those of its submessages, are the sender's. */
  ghost predicate Covers(t: Table, u: Table)
    decreases u
  {
    forall i :: 0 <= i < |u| ==> Find(t, u[i].tag).Some? && CoversInside(t[Find(t, u[i].tag).value], u[i])
  }

  ghost predicate CoversInside(f: Field, g: Field)
    decreases g
  {
    f.lt.LSubmessage? && g.lt.LSubmessage? ==> Covers(f.lt.fields, g.lt.fields)
  }

  lemma {:induction false} CoveredIsUndemanding(t: Table, u: Table)
    requires TableOk(t) && Covers(t, u)
    ensures Undemanding(t, u)
    decreases t
  {
    forall k | 0 <= k < |t| ensures UndemandingInside(t[k], u) {
      FindByTag(t, k);
      if Find(u, t[k].tag).Some? { CoveredInside(t[k], u); }
    }
  }

  lemma CoveredInside(f: Field, u: Table)
    requires FieldOk(f) && Find(u, f.tag).Some? && CoversInside(f, u[Find(u, f.tag).value])
    ensures UndemandingInside(f, u)
    decreases f
  {
    var g := u[Find(u, f.tag).value];
    if f.lt.LSubmessage? && g.lt.LSubmessage? { CoveredIsUndemanding(f.lt.fields, g.lt.fields); }
  }

  /** A receiver that only lacks fields accepts every message. */
  lemma OlderReceiver(t: Table, cells: seq<Cell>, u: Table)
    requires TableOk(t) && MessageOk(t, cells) && TableOk(u) && Compatible(t, u) && Covers(t, u)
    ensures DecodeMessage(u, Encoding(t, cells).bytes) == Some(Decoded(View(t, cells, u), []))
  {
    CoveredIsUndemanding(t, u);
    UndemandingAccepts(t, cells, u);
    AnyReceiver(t, cells, u);
  }

  /** The other direction of change: the receiver has more fields, none of which it insists on. */
  lemma NewerReceiver(t: Table, cells: seq<Cell>, u: Table)
    requires TableOk(t) && MessageOk(t, cells) && TableOk(u) && Compatible(t, u) && Undemanding(t, u)
    requires forall k :: 0 <= k < |t| ==> Find(u, t[k].tag).Some?
    ensures DecodeMessage(u, Encoding(t, cells).bytes) == Some(Decoded(View(t, cells, u), []))
    ensures forall k :: 0 <= k < |t| && FieldRecs(t[k], cells[Home(t, k)]) != [] ==>
              var i := Find(u, t[k].tag).value;
              View(t, cells, u)[Home(u, i)] == Filled(t[k], u[i], cells[Home(t, k)])
  {
    hide Filled, View, Compatible, TableOk, CellOk, FieldRecs, Undemanding;
    UndemandingAccepts(t, cells, u);
    AnyReceiver(t, cells, u);
    forall k | 0 <= k < |t| && FieldRecs(t[k], cells[Home(t, k)]) != []
      ensures var i := Find(u, t[k].tag).value;
              View(t, cells, u)[Home(u, i)] == Filled(t[k], u[i], cells[Home(t, k)])
    {
      ViewHolds(t, cells, u, Home(u, Find(u, t[k].tag).value));
      assert Fills(t, cells, u, Home(u, Find(u, t[k].tag).value), k);
    }
  }

  // ----- The same version

  lemma {:induction false} CompatibleWithItself(t: Table)
    requires TableOk(t)
    ensures Compatible(t, t)
    decreases t
  {
    forall k | 0 <= k < |t| ensures Find(t, t[k].tag) == Some(k) && SameField(t[k], t[k]) {
      FindByTag(t, k);
      SameAsItself(t[k]);
    }
  }

  lemma SameAsItself(f: Field)
    requires FieldOk(f)
    ensures SameField(f, f)
    decreases f
  {
    if f.lt.LSubmessage? { CompatibleWithItself(f.lt.fields); }
  }

  /** A receiver with the sender's own table sees the message itself. */
  lemma SameReceiver(t: Table, cells: seq<Cell>)
    requires TableOk(t) && MessageOk(t, cells)
    ensures Accepts(t, cells, t) && View(t, cells, t) == Canon(t, cells)
    ensures SameMessage(t, cells, View(t, cells, t))
  {
    CompatibleWithItself(t);
    AnyReceiver(t, cells, t);
    MessageRoundTrip(t, cells);
    CanonIsSame(t, cells);
  }
}
