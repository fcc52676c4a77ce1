/** Fields that are absent: what the decoder leaves in their place, and when the encoder leaves them out
    (pb_decode.c:836-906, pb_encode.c:240-395). */
module Absence {
  import opened Wrappers
  import opened Message
  import opened Wire
  import opened Decode
  import opened DecodeLaws
  import opened Encode
  import opened WellFormed
  import opened RoundTrip
  import Chunks

  // ----- What the decoder leaves

  /** The cell of a field that has not been received: its has-flag is false, its count or which-tag zero, its value the
      declared default or else zero; a submessage has all its fields in that state. */
  ghost predicate AtDefault(f: Field, first: bool, c: Cell)
    decreases f, 1
  {
    match f.ht
    case Required => c.Plain? && DefaultContents(f, c.v)
    case Optional =>
      if f.sizeOffset == 0 then c.Plain? && DefaultContents(f, c.v) else c.Has? && !c.has && DefaultContents(f, c.v)
    case Repeated => if f.sizeOffset == 0 then c.Array? && |c.items| == f.arraySize else c.Counted? && |c.items| == 0
    case Oneof => if first then c.Union? && c.which == 0 else c.Joined?
  }

  ghost predicate DefaultContents(f: Field, v: Value)
    decreases f, 0
  {
    match f.lt
    case LSubmessage(sub) =>
      && v.VMsg? && |v.cells| == |sub|
      && forall k :: 0 <= k < |sub| ==> AtDefault(sub[k], Home(sub, k) == k, v.cells[k])
    case LExtension => true
    case _ =>
      if f.dflt.Some? then v == f.dflt.value else IsZeroed(f, v)
  }

  /** Zero, false, empty, or as many zero bytes as the field has. */
  ghost predicate IsZeroed(f: Field, v: Value) {
    if f.lt.LBool? then v == VBool(false)
    else if f.lt.LBytes? then v == VBytes([])
    else if f.lt.LString? then v == VString([])
    else if f.lt.LFixedLengthBytes? then
      v.VBytes? && |v.bytes| == f.dataSize && forall i :: 0 <= i < |v.bytes| ==> v.bytes[i] == 0
    else v == VInt(0)
  }

  lemma {:induction false} DefaultsHold(t: Table)
    ensures forall k :: 0 <= k < |t| ==> AtDefault(t[k], Home(t, k) == k, Defaults(t)[k])
    decreases t
  {
    forall k | 0 <= k < |t| ensures AtDefault(t[k], Home(t, k) == k, Defaults(t)[k]) { DefaultHolds(t[k]); }
  }

  lemma DefaultHolds(f: Field)
    ensures DefaultContents(f, DefaultValue(f))
    decreases f
  {
    if f.lt.LSubmessage? { DefaultsHold(f.lt.fields); }
  }

  /** Some record is for a field that lies in cell `h`. */
  predicate Touched(t: Table, recs: seq<Rec>, h: nat) {
    exists i :: 0 <= i < |recs| && TouchedBy(t, recs[i], h)
  }

  predicate TouchedBy(t: Table, r: Rec, h: nat) {
    var k := Find(t, r.tag);
    k.Some? && Home(t, k.value) == h
  }

  /** Records change no cell but those of their fields. */
  lemma {:induction false} OthersUntouched(t: Table, st: State, recs: seq<Rec>, h: nat)
    requires |st.cells| == |t| && h < |t| && Fold(t, st, recs).Some? && !Touched(t, recs, h)
    ensures Fold(t, st, recs).value.cells[h] == st.cells[h]
    decreases |recs|
  {
    hide CellAfter, Home;
    if recs != [] {
      assert !TouchedBy(t, recs[0], h);
      forall i | 0 <= i < |recs[1..]| ensures !TouchedBy(t, recs[1..][i], h) { assert recs[1..][i] == recs[i + 1]; }
      OthersUntouched(t, Step(t, st, recs[0]).value, recs[1..], h);
    }
  }

  /** After a decode that goes well, whatever the input, every field for which there was no record is at its
      default; so are the fields of submessages for which there was none. */
  lemma AbsentFields(t: Table, s: Bytes, h: nat)
    requires h < |t| && DecodeMessage(t, s).Some? && !Touched(t, Split(t, s).value.recs, h)
    ensures AtDefault(t[h], Home(t, h) == h, DecodeMessage(t, s).value.cells[h])
  {
    hide AtDefault, Touched, Split, Home;
    DefaultsHold(t);
    OthersUntouched(t, Fresh(Defaults(t)), Split(t, s).value.recs, h);
  }

  /** The cell has room for an entry, or is at its default, or belongs to a union. */
  predicate ReadyFor(f: Field, c: Cell, count: nat)
    requires f.lt.LSubmessage?
  {
    match f.ht
    case Required => c == Plain(VMsg(Defaults(f.lt.fields)))
    case Optional =>
      if f.sizeOffset == 0 then c == Plain(VMsg(Defaults(f.lt.fields)))
      else c.Has? && c.v == VMsg(Defaults(f.lt.fields))
    case Oneof => c.Union?
    case Repeated =>
      if f.sizeOffset == 0 then c.Array? && |c.items| == f.arraySize && count < f.arraySize
      else c.Counted? && |c.items| < f.arraySize
  }

  function AfterArrival(f: Field, c: Cell, count: nat, v: Value): Cell
    requires f.lt.LSubmessage? && ReadyFor(f, c, count)
  {
    match f.ht
    case Required => Plain(v)
    case Optional => if f.sizeOffset == 0 then Plain(v) else Has(true, v)
    case Oneof => Union(f.tag, v)
    case Repeated => if f.sizeOffset == 0 then Array(c.items[count := v]) else Counted(c.items + [v])
  }

  /** A submessage that arrives as an entry of an array, in a union, or in a field that is still at its default, is
      decoded as a message of its own. */
  lemma Arrival(t: Table, st: State, k: nat, wt: nat, body: Bytes)
    requires |st.cells| == |t| && k < |t| && Find(t, t[k].tag) == Some(k) && t[k].at.Static? && t[k].lt.LSubmessage?
    requires |body| < 4294967296 && (t[k].FixedCount() ==> st.fixedField == Some(k))
    requires ReadyFor(t[k], st.cells[Home(t, k)], st.fixedCount)
    ensures var r := DecodeMessage(t[k].lt.fields, body);
            var st' := Step(t, st, Rec(t[k].tag, wt, Delimit(body)));
            if r.None? then st'.None?
            else
              st'.Some? && st'.value.cells[Home(t, k)]
                == AfterArrival(t[k], st.cells[Home(t, k)], st.fixedCount, VMsg(r.value.cells))
  {
    hide DecodeMessage, NoInit, Home, Find, CellAfter;
    ArrivalCell(t[k], st.cells[Home(t, k)], CountBefore(t[k], Some(k), st), wt, body);
  }

  lemma ArrivalCell(f: Field, c: Cell, count: nat, wt: nat, body: Bytes)
    requires f.at.Static? && f.lt.LSubmessage? && |body| < 4294967296
    requires ReadyFor(f, c, count)
    ensures var r := DecodeMessage(f.lt.fields, body);
            var x := CellAfter(f, c, count, Rec(f.tag, wt, Delimit(body)));
            if r.None? then x.None?
            else x.Some? && x.value.cell == AfterArrival(f, c, count, VMsg(r.value.cells))
  {
    hide DecodeMessage, NoInit, Item, Delimit;
    EntryItem(f, body);
    var r := Rec(f.tag, wt, Delimit(body));
    if f.ht.Repeated? && DecodeMessage(f.lt.fields, body).Some? {
      var v := VMsg(DecodeMessage(f.lt.fields, body).value.cells);
      var n := if c.Counted? then |c.items| else count;
      assert NewItems(f, RoomLeft(f, n), r) == Some([v]);
      if c.Array? { assert c.items[..n] + [v] + c.items[n + 1..] == c.items[n := v]; }
    }
  }

  lemma EntryItem(f: Field, body: Bytes)
    requires f.lt.LSubmessage? && |body| < 4294967296
    ensures var r := DecodeMessage(f.lt.fields, body);
            && DefaultItem(f) == VMsg(Defaults(f.lt.fields))
            && Item(f, DefaultItem(f), Delimit(body)) == if r.None? then None else Some(VMsg(r.value.cells))
  {
    DecodeLaws.SubmessageItem(f, Defaults(f.lt.fields), body);
  }

  // ----- What the encoder leaves out

  /** A value that a field of implicit presence does not write: zero, false, nothing, or a submessage without required
      fields, all of whose fields are absent. */
  ghost predicate Omitted(f: Field, v: Value)
    decreases f, 0
  {
    match f.lt
    case LBool => v == VBool(false)
    case LBytes => v == VBytes([])
    case LString => v.VString? && (|v.chars| == 0 || v.chars[0] == 0)
    case LFixedLengthBytes => f.dataSize == 0
    case LSubmessage(sub) =>
      v.VMsg? && |v.cells| == |sub| && forall k :: 0 <= k < |sub| ==> OmittedField(sub[k], v.cells[Home(sub, k)])
    case LExtension => true
    case _ => v == VInt(0)
  }

  ghost predicate OmittedField(f: Field, c: Cell)
    decreases f, 1
  {
    match f.ht
    case Required => false
    case Repeated => f.sizeOffset != 0 && c.Counted? && |c.items| == 0
    case Oneof => c.Union? && c.which == 0
    case Optional =>
      if f.sizeOffset != 0 then c.Has? && !c.has
      else if !f.at.Pointer? then c.Plain? && Omitted(f, c.v)
      else if !f.lt.Packable() then c.Link? && c.target.None?
      else c.Link? && forall i :: 0 <= i < f.dataSize && i < |c.memory| ==> c.memory[i] == 0
  }

  lemma {:induction false} OmittedIsZero(f: Field, v: Value)
    ensures Omitted(f, v) <==> IsZeroValue(f, v)
    decreases f, 0
  {
    if f.lt.LSubmessage? && v.VMsg? && |v.cells| == |f.lt.fields| {
      var sub := f.lt.fields;
      forall k | 0 <= k < |sub|
        ensures OmittedField(sub[k], v.cells[Home(sub, k)]) <==> IsZero(sub[k], v.cells[Home(sub, k)])
      {
        OmittedFieldIsZero(sub[k], v.cells[Home(sub, k)]);
      }
    }
  }

  lemma OmittedFieldIsZero(f: Field, c: Cell)
    ensures OmittedField(f, c) <==> IsZero(f, c)
    decreases f, 1
  {
    if c.Plain? { OmittedIsZero(f, c.v); }
  }

  /** A static field of implicit presence contributes no bytes exactly when its value is one of those. */
  lemma ImplicitPresence(f: Field, v: Value)
    requires f.at.Static? && f.ht.Optional? && f.sizeOffset == 0
    ensures FieldEmit(f, Plain(v)).bytes == [] <==> Omitted(f, v)
    ensures Omitted(f, v) ==> FieldEmit(f, Plain(v)).ok
    ensures !Omitted(f, v) ==> FieldKey(f) <= FieldEmit(f, Plain(v)).bytes
  {
    hide ItemEmit, Omitted, IsZeroValue;
    OmittedIsZero(f, v);
  }

  /** A submessage of implicit presence is left out exactly when its encoding is empty. */
  lemma EmptySubmessage(f: Field, v: Value)
    requires FieldOk(f) && ValueOk(f, v) && f.lt.LSubmessage? && f.ht.Optional? && f.sizeOffset == 0
    ensures FieldEmit(f, Plain(v)).bytes == [] <==> Encoding(f.lt.fields, v.cells).bytes == []
  {
    hide ItemEmit, TableOk, MessageOk, MessageEmit;
    var sub := f.lt.fields;
    if IsZeroValue(f, v) { NothingToWrite(sub, v.cells, 0); }
    if Encoding(sub, v.cells).bytes == [] { AllAbsent(sub, v.cells); }
  }

  lemma {:induction false} NothingToWrite(t: Table, cells: seq<Cell>, k: nat)
    requires TableOk(t) && MessageOk(t, cells) && k <= |t|
    requires forall j :: 0 <= j < |t| ==> IsZero(t[j], cells[Home(t, j)])
    ensures MessageEmit(t, cells, k).bytes == []
    decreases |t| - k
  {
    hide ItemEmit, IsZeroValue, FieldOk, CellOk, ValueOk;
    if k < |t| {
      NothingToWrite(t, cells, k + 1);
      ZeroWritesNothing(t, cells, k);
    }
  }

  lemma ZeroWritesNothing(t: Table, cells: seq<Cell>, k: nat)
    requires TableOk(t) && MessageOk(t, cells) && k < |t| && IsZero(t[k], cells[Home(t, k)])
    ensures FieldEmit(t[k], cells[Home(t, k)]) == Nothing
  {
    hide ItemEmit, IsZeroValue, ValueOk;
    Chunks.FindByTag(t, k);
    HomeOfMember(t, k);
    assert CellOk(t, Home(t, k), cells[Home(t, k)]);
  }

  lemma {:induction false} NothingOfField(t: Table, cells: seq<Cell>, k: nat, j: nat)
    requires |cells| == |t| && k <= j < |t| && MessageEmit(t, cells, k) == Nothing
    ensures FieldEmit(t[j], cells[Home(t, j)]) == Nothing
    decreases |t| - k
  {
    hide FieldEmit;
    if k < j { NothingOfField(t, cells, k + 1, j); }
  }

  lemma EmptyMeansZero(f: Field, c: Cell)
    requires f.at.Static? && FieldEmit(f, c) == Nothing && (f.FixedCount() ==> f.arraySize > 0)
    ensures IsZero(f, c) || (f.ht.Oneof? && c.which != f.tag)
  {
    hide ItemEmit, IsZeroValue;
    if f.ht.Repeated? && c.items != [] { SomethingWritten(f, c.items); }
  }

  lemma SomethingWritten(f: Field, items: seq<Value>)
    requires items != []
    ensures ArrayEmit(f, items) != Nothing
  {
    hide ItemEmit;
  }

  /** If nothing is written, every field counts as absent. */
  lemma AllAbsent(t: Table, cells: seq<Cell>)
    requires TableOk(t) && MessageOk(t, cells) && Encoding(t, cells).bytes == []
    ensures forall k :: 0 <= k < |t| ==> IsZero(t[k], cells[Home(t, k)])
  {
    hide FieldEmit, MessageEmit, ItemEmit, IsZeroValue, ValueOk, ItemsOk;
    FieldsRoundTrip(t, cells, 0);
    forall k | 0 <= k < |t| ensures IsZero(t[k], cells[Home(t, k)]) {
      var h := Home(t, k);
      HomeOfMember(t, k);
      assert CellOk(t, h, cells[h]) && FieldOk(t[k]);
      NothingOfField(t, cells, 0, k);
      EmptyMeansZero(t[k], cells[h]);
      if t[k].ht.Oneof? && HasMember(t, h, cells[h].which) {
        var w := Find(t, cells[h].which).value;
        assert FieldOk(t[w]);
        NothingOfField(t, cells, 0, w);
        EmptyMeansZero(t[w], cells[h]);
      }
    }
  }
}
