/** Decoding inverts encoding on every well-formed message of every well-formed static table. */
module RoundTrip {
  import opened Wrappers
  import opened Message
  import opened Wire
  import opened Decode
  import opened Encode
  import opened WellFormed
  import opened DecodeLaws
  import opened Chunks

  // ----- The records of a message

  function ItemRec(f: Field, v: Value): Rec {
    Rec(f.tag, WireType(f.lt), ItemEmit(f, v).bytes)
  }

  function ItemRecs(f: Field, items: seq<Value>): (recs: seq<Rec>) {
    if items == [] then [] else [ItemRec(f, items[0])] + ItemRecs(f, items[1..])
  }

  function ArrayRecs(f: Field, items: seq<Value>): seq<Rec> {
    if items == [] then []
    else if WritesPacked(f) then [ChunkRec(f, Run(items))]
    else ItemRecs(f, items)
  }

  /** The records a field contributes. */
  function FieldRecs(f: Field, c: Cell): seq<Rec> {
    match c
    case Plain(v) => if f.ht.Optional? && IsZero(f, c) then [] else [ItemRec(f, v)]
    case Has(has, v) => if has then [ItemRec(f, v)] else []
    case Counted(items) => ArrayRecs(f, items)
    case Array(items) => ArrayRecs(f, items)
    case Union(which, v) => if which == f.tag then [ItemRec(f, v)] else []
    case _ => []
  }

  function MessageRecs(t: Table, cells: seq<Cell>, k: nat): seq<Rec>
    requires |cells| == |t| && k <= |t|
    decreases |t| - k
  {
    if k == |t| then [] else FieldRecs(t[k], cells[Home(t, k)]) + MessageRecs(t, cells, k + 1)
  }

  lemma {:induction false} RecsBytesConcat(a: seq<Rec>, b: seq<Rec>)
    ensures RecsBytes(a + b) == RecsBytes(a) + RecsBytes(b)
  {
    if a == [] {
      assert a + b == b;
    } else {
      assert (a + b)[1..] == a[1..] + b;
      RecsBytesConcat(a[1..], b);
    }
  }

  lemma RecsBytesOne(r: Rec)
    ensures RecsBytes([r]) == RecBytes(r)
  {
    assert RecsBytes([r][1..]) == [];
  }

  // ----- What the decoder has rebuilt when the fields before `k` have been read

  function Progress(t: Table, cells: seq<Cell>, k: nat): (st: State)
    requires |cells| == |t| && k <= |t|
    ensures |st.cells| == |t|
  {
    State(seq(|t|, j requires 0 <= j < |t| => ProgressCell(t, j, cells[j], k)),
          LastFixed(t, k), if LastFixed(t, k).Some? then t[LastFixed(t, k).value].arraySize else 0,
          set j | 0 <= j < k && t[j].ht.Required?)
  }

  function ProgressCell(t: Table, j: nat, c: Cell, k: nat): Cell
    requires j < |t|
  {
    if Reached(t, j, c, k) then CanonCell(t, j, c) else DefaultCell(t[j], Home(t, j) == j)
  }

  /** Whether the field whose record fills cell `j` comes before field `k`. */
  predicate Reached(t: Table, j: nat, c: Cell, k: nat)
    requires j < |t|
  {
    if !t[j].ht.Oneof? then j < k
    else c.Union? && c.which != 0 && HasMember(t, j, c.which) && Find(t, c.which).value < k
  }

  function LastFixed(t: Table, k: nat): (j: Option<nat>)
    requires k <= |t|
    ensures j.Some? ==> j.value < k
  {
    if k == 0 then None else if t[k - 1].FixedCount() then Some(k - 1) else LastFixed(t, k - 1)
  }

  lemma ProgressStart(t: Table, cells: seq<Cell>)
    requires |cells| == |t|
    ensures Progress(t, cells, 0) == Fresh(Defaults(t))
  {
    assert Progress(t, cells, 0).cells == Defaults(t);
  }

  lemma ProgressEnd(t: Table, cells: seq<Cell>)
    requires TableOk(t) && MessageOk(t, cells)
    ensures Progress(t, cells, |t|).cells == Canon(t, cells)
    ensures Finished(t, Progress(t, cells, |t|))
  {
    forall j | 0 <= j < |t| ensures ProgressCell(t, j, cells[j], |t|) == CanonCell(t, j, cells[j]) {
      assert CellOk(t, j, cells[j]);
    }
  }

  /** Only the cell of field `k` depends on whether field `k` has been read. */
  lemma OtherCellsKeep(t: Table, cells: seq<Cell>, k: nat)
    requires TableOk(t) && MessageOk(t, cells) && k < |t|
    ensures forall j :: 0 <= j < |t| && j != Home(t, k) ==>
              Progress(t, cells, k).cells[j] == Progress(t, cells, k + 1).cells[j]
  {
    FindByTag(t, k);
    if Home(t, k) != k { HomeIsShared(t, k); }
  }

  lemma HomeIsShared(t: Table, k: nat)
    requires k < |t| && Home(t, k) != k
    ensures t[k].ht.Oneof?
  {}

  // ----- One field

  /** A record that sets the cell of field `k` to its final contents takes the decoder one
      field further. */
  lemma SingleStep(t: Table, cells: seq<Cell>, k: nat, v: Value)
    requires TableOk(t) && MessageOk(t, cells) && k < |t| && !t[k].ht.Repeated?
    requires var c := cells[Home(t, k)];
             FieldRecs(t[k], c) == [ItemRec(t[k], v)] && (c.Plain? || c.Has? || c.Union?) && c.v == v
    requires Item(t[k], DefaultItem(t[k]), ItemEmit(t[k], v).bytes) == Some(CanonValue(t[k], v))
    ensures Fold(t, Progress(t, cells, k), FieldRecs(t[k], cells[Home(t, k)])) == Some(Progress(t, cells, k + 1))
  {
    hide Item, ItemEmit, ValueOk, ItemsOk, CanonValue, FieldOk;
    var f, h, st, r := t[k], Home(t, k), Progress(t, cells, k), ItemRec(t[k], v);
    FindByTag(t, k);
    HomeOfMember(t, k);
    assert CellOk(t, h, cells[h]);
    FoldOfOne(t, st, r);
    OtherCellsKeep(t, cells, k);
    PriorIsDefault(f, DefaultValue(f), r.payload);
    assert CellAfter(f, st.cells[h], CountBefore(f, Some(k), st), r)
        == Some(Stored(Progress(t, cells, k + 1).cells[h], st.fixedCount));
    assert st.cells[h := Progress(t, cells, k + 1).cells[h]] == Progress(t, cells, k + 1).cells;
    assert SeenAfter(f, k, st) == Progress(t, cells, k + 1).seen;
  }

  lemma PriorIsDefault(f: Field, prior: Value, p: Bytes)
    requires prior == DefaultValue(f)
    ensures Item(f, prior, p) == Item(f, DefaultItem(f), p)
  {}

  /** A field that is absent leaves the decoder where it was. */
  lemma AbsentField(t: Table, cells: seq<Cell>, k: nat)
    requires TableOk(t) && MessageOk(t, cells) && k < |t|
    requires !t[k].FixedCount() && FieldRecs(t[k], cells[Home(t, k)]) == []
    ensures FieldEmit(t[k], cells[Home(t, k)]) == Nothing
    ensures Progress(t, cells, k + 1) == Progress(t, cells, k)
  {
    hide ItemEmit, ValueOk, FieldOk, ItemsOk, CanonItems;
    var h := Home(t, k);
    FindByTag(t, k);
    HomeOfMember(t, k);
    assert CellOk(t, h, cells[h]);
    OtherCellsKeep(t, cells, k);
    assert Progress(t, cells, k + 1).cells[h] == Progress(t, cells, k).cells[h];
    assert Progress(t, cells, k + 1).cells == Progress(t, cells, k).cells;
    assert Progress(t, cells, k + 1).seen == Progress(t, cells, k).seen;
  }

  // ----- Arrays

  /** The first record of a fixed-count array opens its run. */
  lemma OpenRun(t: Table, cells: seq<Cell>, k: nat, r: Rec)
    requires TableOk(t) && MessageOk(t, cells) && k < |t| && t[k].ht.Repeated? && r.tag == t[k].tag
    ensures Step(t, Progress(t, cells, k), r) == Step(t, Receiving(t, k, Progress(t, cells, k), []), r)
  {
    var st, f := Progress(t, cells, k), t[k];
    FindByTag(t, k);
    assert Home(t, k) == k;
    assert st.cells[k] == DefaultCell(f, true);
    if f.FixedCount() {
      assert [] + Unsets(f.arraySize) == seq(f.arraySize, _ => Unset);
    }
    assert st.cells[k] == ReceivingCell(f, []);
    assert st.cells[k := ReceivingCell(f, [])] == st.cells;
  }

  /** When all items have been received the decoder is one field further. */
  lemma CloseRun(t: Table, cells: seq<Cell>, k: nat)
    requires TableOk(t) && MessageOk(t, cells) && k < |t| && t[k].ht.Repeated?
    requires cells[k].Counted? || cells[k].Array?
    requires |cells[k].items| <= t[k].arraySize
    ensures Receiving(t, k, Progress(t, cells, k), CanonItems(t[k], cells[k].items)) == Progress(t, cells, k + 1)
  {
    var st, f := Progress(t, cells, k), t[k];
    FindByTag(t, k);
    assert CellOk(t, k, cells[k]);
    assert Home(t, k) == k;
    OtherCellsKeep(t, cells, k);
    var vs := CanonItems(f, cells[k].items);
    assert vs + Unsets(0) == vs;
    assert st.cells[k := ReceivingCell(f, vs)] == Progress(t, cells, k + 1).cells;
    assert st.seen == Progress(t, cells, k + 1).seen;
  }

  ghost predicate ItemsRoundTrip(f: Field, items: seq<Value>) {
    forall i :: 0 <= i < |items| ==> ItemRoundTrips(f, items[i])
  }

  /** Encoding succeeds, the payload is framed, and decoding it gives the item back. */
  ghost predicate ItemRoundTrips(f: Field, v: Value) {
    var e := ItemEmit(f, v);
    && e.ok
    && Extent(ItemShape(f.lt), e.bytes) == Some(|e.bytes|)
    && Item(f, DefaultItem(f), e.bytes) == Some(CanonValue(f, v))
  }

  lemma ItemRecIsFramed(t: Table, k: nat, v: Value)
    requires TableOk(t) && k < |t| && ItemRoundTrips(t[k], v)
    ensures WellFramed(t, ItemRec(t[k], v))
  {
    FindByTag(t, k);
  }

  /** Items that each have a record of their own. */
  lemma {:induction false} ReceiveItems(t: Table, k: nat, st: State, done: seq<Value>, items: seq<Value>)
    requires k < |t| && IsRepeated(t, k) && |st.cells| == |t| && ItemsRoundTrip(t[k], items)
    requires |done| + |items| <= t[k].arraySize
    ensures Fold(t, Receiving(t, k, st, done), ItemRecs(t[k], items))
            == Some(Receiving(t, k, st, done + CanonItems(t[k], items)))
    decreases |items|
  {
    hide Step, Receiving, ItemRoundTrips, CanonValue, IsRepeated;
    var f := t[k];
    if items == [] {
      assert done + CanonItems(f, items) == done;
    } else {
      var v := CanonValue(f, items[0]);
      ReceiveItem(t, k, st, done, items[0]);
      ReceiveItems(t, k, st, done + [v], items[1..]);
      assert done + [v] + CanonItems(f, items[1..]) == done + CanonItems(f, items);
      FoldFirst(t, Receiving(t, k, st, done), ItemRecs(f, items));
      assert ItemRecs(f, items)[1..] == ItemRecs(f, items[1..]);
    }
  }

  lemma ReceiveItem(t: Table, k: nat, st: State, done: seq<Value>, v: Value)
    requires IsRepeated(t, k) && |st.cells| == |t| && ItemRoundTrips(t[k], v)
    requires |done| < t[k].arraySize
    ensures Step(t, Receiving(t, k, st, done), ItemRec(t[k], v))
            == Some(Receiving(t, k, st, done + [CanonValue(t[k], v)]))
  {
    var f := t[k];
    assert NewItems(f, f.arraySize - |done|, ItemRec(f, v)) == Some([CanonValue(f, v)]);
    ReceiveRecord(t, k, st, done, ItemRec(f, v));
  }

  /** The records of an array, packed or not, take the decoder one field further. */
  lemma ArrayStep(t: Table, cells: seq<Cell>, k: nat)
    requires TableOk(t) && MessageOk(t, cells) && k < |t| && t[k].ht.Repeated?
    requires cells[k].Counted? || cells[k].Array?
    requires ItemsOk(t[k], cells[k].items) && ItemsRoundTrip(t[k], cells[k].items)
    requires ArrayRecs(t[k], cells[k].items) != []
    ensures Fold(t, Progress(t, cells, k), ArrayRecs(t[k], cells[k].items)) == Some(Progress(t, cells, k + 1))
  {
    var f, items, st := t[k], cells[k].items, Progress(t, cells, k);
    var recs := ArrayRecs(f, items);
    FindByTag(t, k);
    if WritesPacked(f) {
      assert items == CanonItems(f, items);
      assert Flatten([Run(items)]) == items by { assert Flatten([Run(items)][1..]) == []; }
      ReceiveChunks(t, k, st, [], [Run(items)]);
      assert recs == ChunkRecs(f, [Run(items)]);
      assert [] + items == items;
    } else {
      ReceiveItems(t, k, st, [], items);
      assert [] + CanonItems(f, items) == CanonItems(f, items);
    }
    OpenRun(t, cells, k, recs[0]);
    FoldFirst(t, st, recs);
    FoldFirst(t, Receiving(t, k, st, []), recs);
    CloseRun(t, cells, k);
  }

  // ----- The bytes are the records

  ghost predicate AllFramed(t: Table, recs: seq<Rec>) {
    forall r :: r in recs ==> WellFramed(t, r)
  }

  lemma {:induction false} ItemRecsAreWritten(t: Table, k: nat, items: seq<Value>)
    requires TableOk(t) && k < |t| && ItemsRoundTrip(t[k], items)
    ensures ItemsEmit(t[k], FieldKey(t[k]), items) == Written(RecsBytes(ItemRecs(t[k], items)))
    ensures AllFramed(t, ItemRecs(t[k], items))
    decreases |items|
  {
    if items != [] {
      ItemRecIsFramed(t, k, items[0]);
      ItemRecsAreWritten(t, k, items[1..]);
      ItemsEmitStep(t[k], FieldKey(t[k]), items);
    }
  }

  lemma ArrayIsWritten(t: Table, k: nat, items: seq<Value>)
    requires IsRepeated(t, k) && ItemsOk(t[k], items) && ItemsRoundTrip(t[k], items)
    ensures ArrayEmit(t[k], items) == Written(RecsBytes(ArrayRecs(t[k], items)))
    ensures AllFramed(t, ArrayRecs(t[k], items))
  {
    var f := t[k];
    if items != [] && WritesPacked(f) {
      assert ChunkOk(f, Run(items));
      ChunkIsRecord(t, k, Run(items), f.arraySize);
      PackedRunRoundTrip(f, f.arraySize, items);
      RecsBytesOne(ChunkRec(f, Run(items)));
    } else if items != [] {
      ItemRecsAreWritten(t, k, items);
    }
  }

  lemma SingleIsWritten(t: Table, k: nat, v: Value)
    requires TableOk(t) && k < |t| && ItemRoundTrips(t[k], v)
    ensures SingleEmit(t[k], v) == Written(RecsBytes([ItemRec(t[k], v)]))
    ensures AllFramed(t, [ItemRec(t[k], v)])
  {
    ItemRecIsFramed(t, k, v);
    RecsBytesOne(ItemRec(t[k], v));
  }

  // ----- The round trip

  /** One field: it is written as its records, which take the decoder one field further. */
  lemma {:induction false} FieldRoundTrip(t: Table, cells: seq<Cell>, k: nat)
    requires TableOk(t) && MessageOk(t, cells) && k < |t|
    ensures var c := cells[Home(t, k)];
            && FieldEmit(t[k], c) == Written(RecsBytes(FieldRecs(t[k], c)))
            && AllFramed(t, FieldRecs(t[k], c))
            && Fold(t, Progress(t, cells, k), FieldRecs(t[k], c)) == Some(Progress(t, cells, k + 1))
    decreases t, 0
  {
    var f, h := t[k], Home(t, k);
    var c := cells[h];
    FindByTag(t, k);
    HomeOfMember(t, k);
    assert CellOk(t, h, c);
    if f.ht.Repeated? {
      AllItemsRoundTrip(f, c.items);
      ArrayIsWritten(t, k, c.items);
      if c.items == [] { AbsentField(t, cells, k); } else { ArrayStep(t, cells, k); }
    } else if FieldRecs(f, c) == [] {
      AbsentField(t, cells, k);
    } else {
      ItemRoundTrip(f, c.v);
      SingleIsWritten(t, k, c.v);
      SingleStep(t, cells, k, c.v);
    }
  }

  lemma AllItemsRoundTrip(f: Field, items: seq<Value>)
    requires FieldOk(f) && ItemsOk(f, items)
    ensures ItemsRoundTrip(f, items)
    decreases f, 3
  {
    forall i | 0 <= i < |items| ensures ItemRoundTrips(f, items[i]) { ItemRoundTrip(f, items[i]); }
  }

  /** One item. */
  lemma {:induction false} ItemRoundTrip(f: Field, v: Value)
    requires FieldOk(f) && ValueOk(f, v)
    ensures ItemRoundTrips(f, v)
    decreases f, 2
  {
    if f.lt.LSubmessage? {
      MessageRoundTrip(f.lt.fields, v.cells);
      BodyOfDelimit(Encoding(f.lt.fields, v.cells).bytes);
    } else {
      ScalarRoundTrip(f, v, DefaultItem(f));
    }
  }

  lemma {:induction false} FieldsRoundTrip(t: Table, cells: seq<Cell>, k: nat)
    requires TableOk(t) && MessageOk(t, cells) && k <= |t|
    ensures MessageEmit(t, cells, k) == Written(RecsBytes(MessageRecs(t, cells, k)))
    ensures AllFramed(t, MessageRecs(t, cells, k))
    ensures Fold(t, Progress(t, cells, k), MessageRecs(t, cells, k)) == Some(Progress(t, cells, |t|))
    decreases t, 1, |t| - k
  {
    if k < |t| {
      var recs, more := FieldRecs(t[k], cells[Home(t, k)]), MessageRecs(t, cells, k + 1);
      FieldRoundTrip(t, cells, k);
      FieldsRoundTrip(t, cells, k + 1);
      RecsBytesConcat(recs, more);
      FoldConcat(t, Progress(t, cells, k), recs, more);
    }
  }

  /** Encoding a well-formed message succeeds, and decoding the bytes succeeds, reads all of
      them, and rebuilds the message with its absent fields at their defaults. */
  lemma {:induction false} MessageRoundTrip(t: Table, cells: seq<Cell>)
    requires TableOk(t) && MessageOk(t, cells)
    ensures Encoding(t, cells).ok
    ensures DecodeMessage(t, Encoding(t, cells).bytes) == Some(Decoded(Canon(t, cells), []))
    decreases t, 2
  {
    FieldsRoundTrip(t, cells, 0);
    SplitInvertsRecsBytes(t, MessageRecs(t, cells, 0));
    ProgressStart(t, cells);
    ProgressEnd(t, cells);
  }

  /** The round trip, up to the contents of absent fields. */
  lemma RoundTripIsSame(t: Table, cells: seq<Cell>)
    requires TableOk(t) && MessageOk(t, cells)
    ensures var e := Encoding(t, cells);
            e.ok && DecodeMessage(t, e.bytes).Some? &&
            DecodeMessage(t, e.bytes).value.left == [] &&
            SameMessage(t, cells, DecodeMessage(t, e.bytes).value.cells)
  {
    MessageRoundTrip(t, cells);
    CanonIsSame(t, cells);
  }
}
