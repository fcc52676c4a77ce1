/** Laws of decoding that follow from its being a fold over records. */
module DecodeLaws {
  import opened Wrappers
  import opened Config
  import opened Message
  import opened Wire
  import opened Decode

  /** `s` splits to its end into exactly `recs`, without a zero key. */
  predicate SplitsInto(t: Table, s: Bytes, recs: seq<Rec>) {
    Split(t, s) == Some(Framed(recs, false, []))
  }

  lemma {:induction false} FoldConcat(t: Table, st: State, a: seq<Rec>, b: seq<Rec>)
    requires |st.cells| == |t|
    ensures Fold(t, st, a + b) == if Fold(t, st, a).None? then None else Fold(t, Fold(t, st, a).value, b)
    decreases |a|
  {
    if a == [] {
      assert a + b == b;
    } else {
      assert (a + b)[1..] == a[1..] + b;
      var st1 := Step(t, st, a[0]);
      if st1.Some? { FoldConcat(t, st1.value, a[1..], b); }
    }
  }

  /** Decoding reads a prefix that ends at a record boundary as that prefix's own fold. */
  lemma NoInitAfterPrefix(t: Table, cells: seq<Cell>, a: Bytes, ra: seq<Rec>, b: Bytes)
    requires |cells| == |t| && SplitsInto(t, a, ra)
    ensures Split(t, a + b) == Precede(ra, Split(t, b))
    ensures Split(t, b).Some? ==>
              Fold(t, Fresh(cells), ra + Split(t, b).value.recs) ==
              if Fold(t, Fresh(cells), ra).None? then None
              else Fold(t, Fold(t, Fresh(cells), ra).value, Split(t, b).value.recs)
  {
    SplitConcat(t, a, b);
    if Split(t, b).Some? { FoldConcat(t, Fresh(cells), ra, Split(t, b).value.recs); }
  }

  lemma SplitsConcat(t: Table, a: Bytes, ra: seq<Rec>, b: Bytes, rb: seq<Rec>)
    requires SplitsInto(t, a, ra) && SplitsInto(t, b, rb)
    ensures SplitsInto(t, a + b, ra + rb)
  {
    SplitConcat(t, a, b);
  }

  /** Whole records can be exchanged for others that do the same to the state reached before
      them, with any bytes before (up to a record boundary) and after. */
  lemma ReplaceRecords(
    t: Table, cells: seq<Cell>, a: Bytes, ra: seq<Rec>, x: Bytes, rx: seq<Rec>, y: Bytes, ry: seq<Rec>, b: Bytes)
    requires |cells| == |t|
    requires SplitsInto(t, a, ra) && SplitsInto(t, x, rx) && SplitsInto(t, y, ry)
    requires Fold(t, Fresh(cells), ra).Some? ==>
               Fold(t, Fold(t, Fresh(cells), ra).value, rx) == Fold(t, Fold(t, Fresh(cells), ra).value, ry)
    ensures NoInit(t, cells, a + x + b) == NoInit(t, cells, a + y + b)
  {
    SplitsConcat(t, a, ra, x, rx);
    SplitsConcat(t, a, ra, y, ry);
    FoldConcat(t, Fresh(cells), ra, rx);
    FoldConcat(t, Fresh(cells), ra, ry);
    NoInitAfterPrefix(t, cells, a + x, ra + rx, b);
    NoInitAfterPrefix(t, cells, a + y, ra + ry, b);
  }

  // ----- Merging

  predicate NoFixedCount(t: Table) {
    forall k :: 0 <= k < |t| ==> !t[k].FixedCount()
  }

  /** Which required fields were seen earlier does not change what a record does. */
  lemma {:induction false} FoldKeepsSeen(t: Table, st: State, extra: set<nat>, recs: seq<Rec>)
    requires |st.cells| == |t| && NoFixedCount(t)
    ensures var r := Fold(t, st, recs);
            Fold(t, st.(seen := st.seen + extra), recs)
            == if r.None? then None else Some(r.value.(seen := r.value.seen + extra))
    ensures Fold(t, st, recs).Some? ==> Fold(t, st, recs).value.fixedField == st.fixedField
    ensures Fold(t, st, recs).Some? ==> Fold(t, st, recs).value.fixedCount == st.fixedCount
    decreases |recs|
  {
    if recs != [] {
      var k := Find(t, recs[0].tag);
      if k.Some? && t[k.value].ht.Required? {
        assert (st.seen + extra) + {k.value} == (st.seen + {k.value}) + extra;
      }
      var st1 := Step(t, st, recs[0]);
      if st1.Some? { FoldKeepsSeen(t, st1.value, extra, recs[1..]); }
    }
  }

  /** Merging: decoding `a` and then `b` into the same struct is decoding their concatenation. */
  lemma Merge(t: Table, cells: seq<Cell>, a: Bytes, ra: seq<Rec>, b: Bytes)
    requires |cells| == |t| && NoFixedCount(t) && SplitsInto(t, a, ra)
    requires NoInit(t, cells, a).Some?
    requires NoInit(t, NoInit(t, cells, a).value.cells, b).Some?
    ensures NoInit(t, cells, a + b) == NoInit(t, NoInit(t, cells, a).value.cells, b)
  {
    var st := Fold(t, Fresh(cells), ra).value;
    var rb := Split(t, b).value.recs;
    NoInitAfterPrefix(t, cells, a, ra, b);
    FoldKeepsSeen(t, Fresh(cells), {}, ra);
    FoldKeepsSeen(t, Fresh(st.cells), st.seen, rb);
    assert {} + st.seen == st.seen;
    assert Fresh(st.cells).(seen := st.seen) == st;
  }

  /** Splitting the body of a singular submessage over two records changes nothing. */
  lemma SubmessageMerge(f: Field, cells: seq<Cell>, x: Bytes, rx: seq<Rec>, y: Bytes)
    requires f.lt.LSubmessage? && |cells| == |f.lt.fields|
    requires |x| + |y| < Varint.U32
    requires NoFixedCount(f.lt.fields) && SplitsInto(f.lt.fields, x, rx)
    requires Item(f, VMsg(cells), Delimit(x)).Some?
    requires Item(f, Item(f, VMsg(cells), Delimit(x)).value, Delimit(y)).Some?
    ensures Item(f, VMsg(cells), Delimit(x + y)) ==
            Item(f, Item(f, VMsg(cells), Delimit(x)).value, Delimit(y))
  {
    SubmessageItem(f, cells, x);
    SubmessageItem(f, NoInit(f.lt.fields, cells, x).value.cells, y);
    SubmessageItem(f, cells, x + y);
    Merge(f.lt.fields, cells, x, rx, y);
  }

  lemma SubmessageItem(f: Field, cells: seq<Cell>, x: Bytes)
    requires f.lt.LSubmessage? && |cells| == |f.lt.fields| && |x| < Varint.U32
    ensures var r := NoInit(f.lt.fields, cells, x);
            Item(f, VMsg(cells), Delimit(x)) == if r.None? then None else Some(VMsg(r.value.cells))
  {
    hide NoInit, Body, Extent, Delimit;
    BodyOfDelimit(x);
  }

  /** Of a message: two records of one singular submessage do what one record with both bodies does, whatever the
      submessage held. */
  lemma {:induction false} RecordsMerge(t: Table, st: State, k: nat, wt: nat, x: Bytes, rx: seq<Rec>, y: Bytes)
    requires |st.cells| == |t| && k < |t| && Find(t, t[k].tag) == Some(k) && t[k].at.Static? && t[k].lt.LSubmessage?
    requires (t[k].ht.Required? || t[k].ht.Optional?) && |x| + |y| < Varint.U32
    requires NoFixedCount(t[k].lt.fields) && SplitsInto(t[k].lt.fields, x, rx)
    requires Fold(t, st, [Rec(t[k].tag, wt, Delimit(x)), Rec(t[k].tag, wt, Delimit(y))]).Some?
    ensures Fold(t, st, [Rec(t[k].tag, wt, Delimit(x)), Rec(t[k].tag, wt, Delimit(y))])
            == Step(t, st, Rec(t[k].tag, wt, Delimit(x + y)))
  {
    var f, h := t[k], Home(t, k);
    var r1, r2 := Rec(f.tag, wt, Delimit(x)), Rec(f.tag, wt, Delimit(y));
    FoldOfTwo(t, st, r1, r2);
    var c := st.cells[h];
    CellsMerge(f, c, st.fixedCount, wt, x, rx, y);
    var a := Step(t, st, r1).value;
    assert a.cells[h] == CellAfter(f, c, st.fixedCount, r1).value.cell;
    var d := CellAfter(f, a.cells[h], st.fixedCount, r2).value.cell;
    assert st.cells[h := a.cells[h]][h := d] == st.cells[h := d];
    assert st.seen + {k} + {k} == st.seen + {k};
  }

  lemma CellsMerge(f: Field, c: Cell, count: nat, wt: nat, x: Bytes, rx: seq<Rec>, y: Bytes)
    requires f.at.Static? && f.lt.LSubmessage? && (f.ht.Required? || f.ht.Optional?) && |x| + |y| < Varint.U32
    requires NoFixedCount(f.lt.fields) && SplitsInto(f.lt.fields, x, rx)
    ensures var a := CellAfter(f, c, count, Rec(f.tag, wt, Delimit(x)));
            var b := if a.None? then None else CellAfter(f, a.value.cell, count, Rec(f.tag, wt, Delimit(y)));
            b.Some? ==> CellAfter(f, c, count, Rec(f.tag, wt, Delimit(x + y))) == b
  {
    hide NoFixedCount, SplitsInto, Delimit, Item;
    if (c.Plain? || c.Has?) && c.v.VMsg? && |c.v.cells| == |f.lt.fields| {
      var a := Item(f, c.v, Delimit(x));
      if a.Some? && Item(f, a.value, Delimit(y)).Some? { SubmessageMerge(f, c.v.cells, x, rx, y); }
    } else if c.Plain? || c.Has? {
      NoSubmessage(f, c.v, Delimit(x));
    }
  }

  lemma NoSubmessage(f: Field, prior: Value, p: Bytes)
    requires f.lt.LSubmessage? && !(prior.VMsg? && |prior.cells| == |f.lt.fields|)
    ensures Item(f, prior, p).None?
  {}

  // ----- Unknown fields

  /** A record whose tag is not in the table can be inserted at any record boundary. */
  lemma UnknownFieldIsTransparent(t: Table, cells: seq<Cell>, a: Bytes, ra: seq<Rec>, x: Bytes, r: Rec, b: Bytes)
    requires |cells| == |t| > 0
    requires SplitsInto(t, a, ra) && SplitsInto(t, x, [r]) && Find(t, r.tag).None?
    ensures NoInit(t, cells, a + x + b) == NoInit(t, cells, a + b)
  {
    if Fold(t, Fresh(cells), ra).Some? { FoldOfOne(t, Fold(t, Fresh(cells), ra).value, r); }
    ReplaceRecords(t, cells, a, ra, x, [r], [], [], b);
    assert a + [] == a;
  }

  /** Every record that is well formed on the wire is skipped as exactly one record when its
      tag is not in the table, whatever payload it carries. */
  lemma UnknownRecordIsFramed(t: Table, r: Rec)
    requires t != [] && Find(t, r.tag).None?
    requires 0 < 8 * r.tag + r.wt < Varint.U32 && r.wt < 8
    requires Extent(WireShape(r.wt), r.payload) == Some(|r.payload|)
    ensures SplitsInto(t, RecBytes(r), [r])
  {
    SplitInvertsRecsBytes(t, [r]);
    assert RecsBytes([r]) == RecBytes(r) + [] == RecBytes(r);
  }

  // ----- Order of records

  /** Fields that share a cell are members of one union. */
  lemma {:induction false} SharedHome(t: Table, j: nat, k: nat)
    requires j < k < |t| && Home(t, j) == Home(t, k)
    ensures t[j].ht.Oneof? && t[k].ht.Oneof?
  {
    if Home(t, k) != k && j < k - 1 { SharedHome(t, j, k - 1); }
  }

  /** The records of different fields that do not share a union, at most one of them a
      fixed-count array. */
  predicate Independent(t: Table, r1: Rec, r2: Rec) {
    var k1, k2 := Find(t, r1.tag), Find(t, r2.tag);
    k1.Some? && k2.Some? ==>
      && r1.tag != r2.tag
      && (t[k1.value].ht.Oneof? && t[k2.value].ht.Oneof? ==> Home(t, k1.value) != Home(t, k2.value))
      && !(t[k1.value].FixedCount() && t[k2.value].FixedCount())
  }

  lemma StepsCommute(t: Table, st: State, r1: Rec, r2: Rec)
    requires |st.cells| == |t| && Independent(t, r1, r2)
    ensures Fold(t, st, [r1, r2]) == Fold(t, st, [r2, r1])
  {
    hide CellAfter, Home, Find, Fold;
    var k1, k2 := Find(t, r1.tag), Find(t, r2.tag);
    FoldOfTwo(t, st, r1, r2);
    FoldOfTwo(t, st, r2, r1);
    if k1.Some? && k2.Some? {
      var f1, f2, h1, h2 := t[k1.value], t[k2.value], Home(t, k1.value), Home(t, k2.value);
      if k1.value < k2.value && h1 == h2 { SharedHome(t, k1.value, k2.value); }
      if k2.value < k1.value && h1 == h2 { SharedHome(t, k2.value, k1.value); }
      var n := st.fixedCount;
      if !f1.FixedCount() {
        CountIsPassedOn(f1, st.cells[h1], r1);
      }
      if !f2.FixedCount() {
        CountIsPassedOn(f2, st.cells[h2], r2);
      }
      var a, b := Step(t, st, r1), Step(t, st, r2);
      if a.Some? && b.Some? {
        assert st.seen + {k1.value} + {k2.value} == st.seen + {k2.value} + {k1.value};
        var x1 := CellAfter(f1, st.cells[h1], CountBefore(f1, k1, st), r1).value.cell;
        var x2 := CellAfter(f2, st.cells[h2], CountBefore(f2, k2, st), r2).value.cell;
        assert st.cells[h1 := x1][h2 := x2] == st.cells[h2 := x2][h1 := x1];
      }
    }
  }

  /** A field that is not a fixed-count array ignores the fixed-count counter. */
  lemma CountIsPassedOn(f: Field, c: Cell, r: Rec)
    requires !f.FixedCount()
    ensures forall m: nat, n: nat :: CellAfter(f, c, m, r).Some? <==> CellAfter(f, c, n, r).Some?
    ensures forall m: nat, n: nat :: CellAfter(f, c, m, r).Some? ==>
              CellAfter(f, c, m, r).value.cell == CellAfter(f, c, n, r).value.cell
  {}

  lemma FoldOfTwo(t: Table, st: State, r1: Rec, r2: Rec)
    requires |st.cells| == |t|
    ensures Fold(t, st, [r1, r2]) == if Step(t, st, r1).None? then None else Step(t, Step(t, st, r1).value, r2)
  {
    assert [r1, r2][1..] == [r2];
    var a := Step(t, st, r1);
    if a.Some? { FoldOfOne(t, a.value, r2); }
  }

  lemma FoldOfOne(t: Table, st: State, r: Rec)
    requires |st.cells| == |t|
    ensures Fold(t, st, [r]) == Step(t, st, r)
  {
    assert [r][1..] == [];
    var a := Step(t, st, r);
    if a.Some? { assert Fold(t, a.value, []) == a; }
  }

  /** Swapping two adjacent independent records changes neither success nor the message. */
  lemma SwapRecords(t: Table, cells: seq<Cell>, a: Bytes, ra: seq<Rec>, x1: Bytes, r1: Rec, x2: Bytes, r2: Rec,
                    b: Bytes)
    requires |cells| == |t| && Independent(t, r1, r2)
    requires SplitsInto(t, a, ra) && SplitsInto(t, x1, [r1]) && SplitsInto(t, x2, [r2])
    ensures NoInit(t, cells, a + (x1 + x2) + b) == NoInit(t, cells, a + (x2 + x1) + b)
  {
    SplitsPair(t, x1, r1, x2, r2);
    SplitsPair(t, x2, r2, x1, r1);
    if Fold(t, Fresh(cells), ra).Some? { StepsCommute(t, Fold(t, Fresh(cells), ra).value, r1, r2); }
    ReplaceRecords(t, cells, a, ra, x1 + x2, [r1, r2], x2 + x1, [r2, r1], b);
  }

  lemma SplitsPair(t: Table, x1: Bytes, r1: Rec, x2: Bytes, r2: Rec)
    requires SplitsInto(t, x1, [r1]) && SplitsInto(t, x2, [r2])
    ensures SplitsInto(t, x1 + x2, [r1, r2])
  {
    SplitsConcat(t, x1, [r1], x2, [r2]);
    assert [r1] + [r2] == [r1, r2];
  }

  // ----- Last one wins

  /** For a scalar field, or for the members of one union, the last record alone decides. */
  lemma LastOneWins(t: Table, st: State, r1: Rec, r2: Rec)
    requires |st.cells| == |t|
    requires Find(t, r1.tag).Some? && Find(t, r2.tag).Some?
    requires Home(t, Find(t, r1.tag).value) == Home(t, Find(t, r2.tag).value)
    requires var f := t[Find(t, r2.tag).value];
             !f.ht.Repeated? && (f.lt.LSubmessage? ==> f.ht.Oneof?)
    requires Step(t, st, r1).Some?
    ensures var both, last := Fold(t, st, [r1, r2]), Step(t, st, r2);
            both.Some? <==> last.Some?
    ensures var both, last := Fold(t, st, [r1, r2]), Step(t, st, r2);
            both.Some? ==> both.value.cells == last.value.cells
  {
    FoldOfTwo(t, st, r1, r2);
    var k1, k2 := Find(t, r1.tag).value, Find(t, r2.tag).value;
    if k1 < k2 { SharedHome(t, k1, k2); }
    if k2 < k1 { SharedHome(t, k2, k1); }
    var f1, f2, h := t[k1], t[k2], Home(t, k1);
    var st1 := Step(t, st, r1).value;
    CellIsOverwritten(f2, st.cells[h], st.fixedCount, st1.cells[h], st1.fixedCount, r2);
  }

  lemma CellIsOverwritten(f: Field, c1: Cell, n1: nat, c2: Cell, n2: nat, r: Rec)
    requires !f.ht.Repeated? && (f.lt.LSubmessage? ==> f.ht.Oneof?)
    requires c1.Plain? == c2.Plain? && c1.Has? == c2.Has? && c1.Union? == c2.Union?
    ensures CellAfter(f, c1, n1, r).Some? <==> CellAfter(f, c2, n2, r).Some?
    ensures CellAfter(f, c1, n1, r).Some? ==> CellAfter(f, c1, n1, r).value.cell == CellAfter(f, c2, n2, r).value.cell
  {
    ScalarIgnoresPrior(f, r.payload);
  }

  /** Only a submessage looks at what the destination holds. */
  lemma ScalarIgnoresPrior(f: Field, p: Bytes)
    ensures !f.lt.LSubmessage? ==> forall v, w :: Item(f, v, p) == Item(f, w, p)
  {}

  // ----- Fixed-count arrays

  /** The number of items one record carries, read off its bytes alone. */
  function ItemsIn(f: Field, r: Rec): Option<nat> {
    if ReadPacked(f, r.wt) then
      var body :- Body(r.payload);
      CountItems(ItemShape(f.lt), body)
    else Some(1)
  }

  /** The runs of fixed-count items in a list of records: a run ends where another
      fixed-count field appears or the records end; other records do not matter. */
  function Runs(t: Table, current: Option<nat>, n: nat, recs: seq<Rec>): (runs: seq<(nat, nat)>)
    requires current.Some? ==> current.value < |t|
    ensures forall run :: run in runs ==> run.0 < |t|
    decreases |recs|
  {
    var ended := if current.None? then [] else [(current.value, n)];
    if recs == [] then ended
    else
      var k := Find(t, recs[0].tag);
      if k.None? || !t[k.value].FixedCount() then Runs(t, current, n, recs[1..])
      else
        var m := ItemsIn(t[k.value], recs[0]).GetOr(0);
        if current == k then Runs(t, current, n + m, recs[1..])
        else ended + Runs(t, k, m, recs[1..])
  }

  /** Decoding succeeds only if every run of a fixed-count field has exactly `array_size` items. */
  lemma FixedCountRuns(t: Table, cells: seq<Cell>, s: Bytes)
    requires |cells| == |t| && NoInit(t, cells, s).Some?
    ensures forall run :: run in Runs(t, None, 0, Split(t, s).value.recs) ==> run.1 == t[run.0].arraySize
  {
    RunsOfFold(t, Fresh(cells), Split(t, s).value.recs);
  }

  lemma {:induction false} RunsOfFold(t: Table, st: State, recs: seq<Rec>)
    requires |st.cells| == |t|
    requires st.fixedField.Some? ==> st.fixedField.value < |t|
    requires Fold(t, st, recs).Some? && RunComplete(t, Fold(t, st, recs).value)
    ensures forall run :: run in Runs(t, st.fixedField, st.fixedCount, recs) ==> run.1 == t[run.0].arraySize
    decreases |recs|
  {
    if recs != [] {
      var st1 := Step(t, st, recs[0]).value;
      RunsOfFold(t, st1, recs[1..]);
      var k := Find(t, recs[0].tag);
      if k.Some? && t[k.value].FixedCount() {
        StepCountsItems(t, st, recs[0]);
      }
    }
  }

  lemma StepCountsItems(t: Table, st: State, r: Rec)
    requires |st.cells| == |t| && Step(t, st, r).Some?
    requires Find(t, r.tag).Some? && t[Find(t, r.tag).value].FixedCount()
    ensures var k, st1 := Find(t, r.tag).value, Step(t, st, r).value;
            && st1.fixedField == Some(k)
            && ItemsIn(t[k], r).Some?
            && st1.fixedCount == (if st.fixedField == Some(k) then st.fixedCount else 0) + ItemsIn(t[k], r).value
  {
    var k := Find(t, r.tag).value;
    CellCountsItems(t[k], st.cells[Home(t, k)], CountBefore(t[k], Some(k), st), r);
  }

  lemma CellCountsItems(f: Field, c: Cell, n: nat, r: Rec)
    requires f.FixedCount() && CellAfter(f, c, n, r).Some?
    ensures ItemsIn(f, r).Some? && CellAfter(f, c, n, r).value.count == n + ItemsIn(f, r).value
  {
    if ReadPacked(f, r.wt) {
      RunCounts(f, f.arraySize - n, Body(r.payload).value);
    }
  }

  lemma {:induction false} RunCounts(f: Field, room: nat, s: Bytes)
    requires PackedRun(f, room, s).Some?
    ensures CountItems(ItemShape(f.lt), s) == Some(|PackedRun(f, room, s).value|)
    decreases |s|
  {
    if s != [] { RunCounts(f, room - 1, s[Extent(ItemShape(f.lt), s).value..]); }
  }

  // ----- Required fields

  /** Some record is one of field `k`. */
  predicate Appears(t: Table, recs: seq<Rec>, k: nat) {
    exists i :: 0 <= i < |recs| && Find(t, recs[i].tag) == Some(k)
  }

  /** The decoder has seen the required fields that have appeared, and no others. */
  lemma {:induction false} SeenAreThoseThatAppear(t: Table, st: State, recs: seq<Rec>)
    requires |st.cells| == |t| && Fold(t, st, recs).Some?
    ensures forall k: nat :: k in Fold(t, st, recs).value.seen <==>
              k in st.seen || (k < |t| && t[k].ht.Required? && Appears(t, recs, k))
    decreases |recs|
  {
    if recs != [] {
      var st1 := Step(t, st, recs[0]).value;
      SeenAreThoseThatAppear(t, st1, recs[1..]);
      forall k: nat ensures Appears(t, recs, k) <==> Find(t, recs[0].tag) == Some(k) || Appears(t, recs[1..], k) {
        if Appears(t, recs, k) {
          var i :| 0 <= i < |recs| && Find(t, recs[i].tag) == Some(k);
          if i > 0 { assert recs[1..][i - 1] == recs[i]; }
        }
        if Appears(t, recs[1..], k) {
          var i :| 0 <= i < |recs[1..]| && Find(t, recs[1..][i].tag) == Some(k);
          assert recs[i + 1] == recs[1..][i];
        }
      }
    }
  }

  /** When the records themselves decode without error and no fixed-count array is left incomplete,
      decoding succeeds exactly when each required field that is tracked has appeared. */
  lemma RequiredFieldsDecide(t: Table, cells: seq<Cell>, s: Bytes)
    requires |cells| == |t| && Split(t, s).Some?
    requires Fold(t, Fresh(cells), Split(t, s).value.recs).Some?
    requires RunComplete(t, Fold(t, Fresh(cells), Split(t, s).value.recs).value)
    ensures NoInit(t, cells, s).Some? <==>
            forall k :: 0 <= k < |t| && t[k].ht.Required? && RequiredBefore(t, k) < PB_MAX_REQUIRED_FIELDS ==>
              Appears(t, Split(t, s).value.recs, k)
  {
    hide Appears, Split, Step;
    SeenAreThoseThatAppear(t, Fresh(cells), Split(t, s).value.recs);
  }

  // ----- Counts

  /** No array counts more items than it has, here or in any submessage. */
  ghost predicate Within(t: Table, cells: seq<Cell>)
    decreases t, 1
  {
    |cells| == |t| && forall k :: 0 <= k < |t| ==> WithinCell(t, k, cells[k])
  }

  ghost predicate WithinCell(t: Table, k: nat, c: Cell)
    requires k < |t|
    decreases t, 0
  {
    match c
    case Counted(items) => |items| <= t[k].arraySize && WithinItems(t[k], items)
    case Array(items) => WithinItems(t[k], items)
    case Plain(v) => WithinValue(t[k], v)
    case Has(_, v) => WithinValue(t[k], v)
    case Union(which, v) => Find(t, which).Some? ==> WithinValue(t[Find(t, which).value], v)
    case _ => true
  }

  ghost predicate WithinItems(f: Field, items: seq<Value>)
    decreases f, 1
  {
    forall i :: 0 <= i < |items| ==> WithinValue(f, items[i])
  }

  ghost predicate WithinValue(f: Field, v: Value)
    decreases f, 0
  {
    f.lt.LSubmessage? && v.VMsg? && |v.cells| == |f.lt.fields| ==> Within(f.lt.fields, v.cells)
  }

  lemma {:induction false} DefaultsAreWithin(t: Table)
    ensures Within(t, Defaults(t))
    decreases t, 0
  {
    forall k | 0 <= k < |t| ensures WithinCell(t, k, DefaultCell(t[k], Home(t, k) == k)) {
      DefaultIsWithin(t[k]);
    }
  }

  lemma DefaultIsWithin(f: Field)
    ensures f.lt.LSubmessage? ==> WithinValue(f, DefaultValue(f))
    ensures WithinValue(f, DefaultItem(f))
    decreases f, 0
  {
    if f.lt.LSubmessage? { DefaultsAreWithin(f.lt.fields); }
  }

  lemma {:induction false} ItemKeepsWithin(f: Field, prior: Value, p: Bytes)
    requires WithinValue(f, prior) && Item(f, prior, p).Some?
    ensures WithinValue(f, Item(f, prior, p).value)
    decreases f, 0
  {
    if f.lt.LSubmessage? { NoInitKeepsWithin(f.lt.fields, prior.cells, Body(p).value); }
  }

  lemma NewItemsAreWithin(f: Field, room: nat, r: Rec)
    requires NewItems(f, room, r).Some?
    ensures WithinItems(f, NewItems(f, room, r).value)
    decreases f, 1
  {
    if !ReadPacked(f, r.wt) {
      DefaultIsWithin(f);
      ItemKeepsWithin(f, DefaultItem(f), r.payload);
    }
  }

  lemma AppendIsWithin(f: Field, c: Cell, count: nat, vs: seq<Value>)
    requires c.Counted? || (c.Array? && count + |vs| <= |c.items|)
    requires WithinItems(f, c.items) && WithinItems(f, vs)
    ensures WithinItems(f, Append(c, count, vs).items)
  {
    hide WithinValue;
  }

  lemma StepKeepsWithin(t: Table, st: State, r: Rec)
    requires Within(t, st.cells) && Step(t, st, r).Some?
    ensures Within(t, Step(t, st, r).value.cells)
    decreases t, 1
  {
    hide Item, NewItems, WithinValue, DefaultItem;
    if Find(t, r.tag).Some? {
      var k := Find(t, r.tag).value;
      var f, h := t[k], Home(t, k);
      var c, count := st.cells[h], CountBefore(f, Some(k), st);
      HomeOfMember(t, k);
      assert WithinCell(t, h, c) && (!f.ht.Oneof? ==> h == k);
      if f.ht.Repeated? {
        var used := if f.sizeOffset == 0 then count else |c.items|;
        NewItemsAreWithin(f, RoomLeft(f, used), r);
        AppendIsWithin(f, c, used, NewItems(f, RoomLeft(f, used), r).value);
      } else if f.ht.Oneof? {
        DefaultIsWithin(f);
        ItemKeepsWithin(f, DefaultItem(f), r.payload);
      } else {
        ItemKeepsWithin(f, c.v, r.payload);
      }
      assert WithinCell(t, h, CellAfter(f, c, count, r).value.cell);
    }
  }

  lemma {:induction false} FoldKeepsWithin(t: Table, st: State, recs: seq<Rec>)
    requires Within(t, st.cells) && Fold(t, st, recs).Some?
    ensures Within(t, Fold(t, st, recs).value.cells)
    decreases t, 2, |recs|
  {
    hide Step, WithinCell;
    if recs != [] {
      StepKeepsWithin(t, st, recs[0]);
      FoldKeepsWithin(t, Step(t, st, recs[0]).value, recs[1..]);
    }
  }

  /** A decode that goes well leaves every count within its array, at any depth; so pb_decode does always. */
  lemma NoInitKeepsWithin(t: Table, cells: seq<Cell>, s: Bytes)
    requires Within(t, cells) && NoInit(t, cells, s).Some?
    ensures Within(t, NoInit(t, cells, s).value.cells)
    decreases t, 3
  {
    FoldKeepsWithin(t, Fresh(cells), Split(t, s).value.recs);
  }
}
