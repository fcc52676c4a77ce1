/** Messages with pointers, as the encoder writes them: like messages that hold the same values in place. */
module Pointers {
  import opened Wrappers
  import opened Config
  import opened Message
  import opened Decode
  import opened Encode
  import opened WellFormed
  import opened Chunks
  import opened Evolution
  import Varint

  // ----- Values in place of pointers

  /** The table in which every pointer field is a static one, with as much room as its sizes can tell. */
  function Inline(t: Table): (u: Table)
    ensures |u| == |t|
    decreases t
  {
    seq(|t|, k requires 0 <= k < |t| => InlineField(t[k]))
  }

  function InlineField(f: Field): Field
    decreases f
  {
    var g := if f.lt.LSubmessage? then f.(lt := LSubmessage(Inline(f.lt.fields))) else f;
    if !f.at.Pointer? then g
    else
      g.(at := Static,
         sizeOffset := if f.ht.Optional? then 1 else f.sizeOffset,
         dataSize := if f.lt.LBytes? || f.lt.LString? then PB_SIZE_MAX else f.dataSize,
         arraySize := if f.ht.Repeated? then PB_SIZE_MAX else f.arraySize)
  }

  function InlineCells(t: Table, cells: seq<Cell>): (r: seq<Cell>)
    requires |cells| == |t|
    ensures |r| == |t|
    decreases t, 1
  {
    seq(|t|, k requires 0 <= k < |t| => InlineCell(t, k, cells[k]))
  }

  function InlineCell(t: Table, k: nat, c: Cell): Cell
    requires k < |t|
    decreases t, 0
  {
    match c
    case Plain(v) => Plain(InlineValue(t[k], v))
    case Has(has, v) => Has(has, InlineValue(t[k], v))
    case Counted(items) => Counted(InlineItems(t[k], items))
    case Array(items) => Array(InlineItems(t[k], items))
    case Union(which, v) =>
      Union(which, if Find(t, which).Some? then InlineValue(t[Find(t, which).value], v) else v)
    case Link(_, target) =>
      var v := if target.Some? then InlineValue(t[k], target.value) else Unset;
      if t[k].ht.Required? then Plain(v) else Has(target.Some?, v)
    case Joined => Joined
  }

  function InlineItems(f: Field, items: seq<Value>): (vs: seq<Value>)
    ensures |vs| == |items|
    decreases f, 1
  {
    seq(|items|, i requires 0 <= i < |items| => InlineValue(f, items[i]))
  }

  function InlineValue(f: Field, v: Value): Value
    decreases f, 0
  {
    if f.lt.LSubmessage? && v.VMsg? && |v.cells| == |f.lt.fields| then VMsg(InlineCells(f.lt.fields, v.cells)) else v
  }

  // ----- When the two are the same message

  /** Singular pointers are where the table has them, required ones are not null, and the presence check answers what
      it is meant to; and so in all submessages. */
  ghost predicate Sound(t: Table, cells: seq<Cell>)
    decreases t
  {
    |cells| == |t| && forall k :: 0 <= k < |t| ==> SoundCell(t[k], cells[Home(t, k)])
  }

  ghost predicate SoundCell(f: Field, c: Cell)
    decreases f, 2
  {
    && !f.at.Callback?
    && (c.Link? <==> f.at.Pointer? && (f.ht.Required? || f.ht.Optional?))
    && (f.at.Pointer? && f.ht.Repeated? ==> c.Counted? && f.sizeOffset != 0)
    && match c
       case Link(_, target) =>
         && (f.ht.Required? ==> target.Some?)
         && (f.ht.Optional? ==> f.sizeOffset == 0 && (IsZero(f, c) <==> target.None?))
         && (target.Some? ==> SoundValue(f, target.value))
       case Counted(items) => SoundItems(f, items)
       case Array(items) => SoundItems(f, items)
       case Joined => true
       case Union(which, v) => which == f.tag ==> SoundValue(f, v)
       case _ => SoundValue(f, c.v)
  }

  ghost predicate SoundItems(f: Field, items: seq<Value>)
    decreases f, 1
  {
    forall i :: 0 <= i < |items| ==> SoundValue(f, items[i])
  }

  ghost predicate SoundValue(f: Field, v: Value)
    decreases f, 0
  {
    f.lt.LSubmessage? && v.VMsg? && |v.cells| == |f.lt.fields| ==> Sound(f.lt.fields, v.cells)
  }

  // ----- The same bytes

  lemma {:induction false} InlineHome(t: Table, k: nat)
    requires k < |t|
    ensures Home(Inline(t), k) == Home(t, k)
  {
    if k > 0 { InlineHome(t, k - 1); }
  }

  /** An item encodes as it would in place, if it fits there. */
  lemma {:induction false} InlineItemEmit(f: Field, v: Value)
    requires FieldOk(InlineField(f)) && ValueOk(InlineField(f), InlineValue(f, v))
    requires SoundValue(f, v) && !f.at.Callback?
    ensures ItemEmit(f, v) == ItemEmit(InlineField(f), InlineValue(f, v))
    decreases f, 2
  {
    if f.lt.LSubmessage? {
      if v.VMsg? && |v.cells| == |f.lt.fields| { SameBytes(f.lt.fields, v.cells, 0); }
    } else if f.lt.LString? {
      WholeString(v.chars, InlineField(f).dataSize);
      WholeString(v.chars, MaxLen(f));
    } else if f.lt.LBytes? {
      Fits(|v.bytes| + BytesHeader(), SIZE_T_MAX + 1);
    }
  }

  lemma {:induction false} InlineItemsEmit(f: Field, key: Bytes, items: seq<Value>)
    requires FieldOk(InlineField(f)) && !f.at.Callback? && SoundItems(f, items)
    requires forall i :: 0 <= i < |items| ==> ValueOk(InlineField(f), InlineItems(f, items)[i])
    ensures ItemsEmit(f, key, items) == ItemsEmit(InlineField(f), key, InlineItems(f, items))
    decreases f, 3, |items|
  {
    hide ItemEmit, ValueOk, FieldOk, SoundValue, InlineField;
    if items != [] {
      var vs := InlineItems(f, items);
      assert vs[0] == InlineValue(f, items[0]) && vs[1..] == InlineItems(f, items[1..]);
      InlineItemEmit(f, items[0]);
      InlineItemsEmit(f, key, items[1..]);
    }
  }

  /** A field counts as absent exactly when it would in place. */
  lemma {:induction false} InlineIsZero(t: Table, k: nat, c: Cell)
    requires k < |t| && SoundCell(t[k], c)
    ensures IsZero(t[k], c) <==> IsZero(Inline(t)[k], InlineCell(t, Home(t, k), c))
    decreases t
  {
    if k > 0 && Home(t, k) != k { HomeOfMember(t, k); }
    if c.Plain? && t[k].ht.Optional? { InlineIsZeroValue(t[k], c.v); }
  }

  lemma {:induction false} InlineIsZeroValue(f: Field, v: Value)
    requires f.at.Static? && SoundValue(f, v)
    ensures IsZeroValue(f, v) <==> IsZeroValue(InlineField(f), InlineValue(f, v))
    decreases f
  {
    if f.lt.LSubmessage? && v.VMsg? && |v.cells| == |f.lt.fields| {
      var sub := f.lt.fields;
      forall k | 0 <= k < |sub|
        ensures IsZero(sub[k], v.cells[Home(sub, k)])
           <==> IsZero(Inline(sub)[k], InlineCells(sub, v.cells)[Home(Inline(sub), k)])
      {
        InlineHome(sub, k);
        InlineIsZero(sub, k, v.cells[Home(sub, k)]);
      }
    }
  }

  lemma TagsTellApart(t: Table, k: nat)
    requires TableOk(Inline(t)) && k < |t|
    ensures Find(t, t[k].tag) == Some(k) && FieldOk(InlineField(t[k]))
  {
    FindByTag(Inline(t), k);
    assert Inline(t)[k].tag == t[k].tag;
    var j := Find(t, t[k].tag);
    if j.Some? { assert Inline(t)[j.value].tag == t[j.value].tag; }
  }

  lemma InlineFieldEmit(t: Table, cells: seq<Cell>, k: nat)
    requires TableOk(Inline(t)) && Sound(t, cells) && MessageOk(Inline(t), InlineCells(t, cells)) && k < |t|
    ensures FieldEmit(t[k], cells[Home(t, k)]) == FieldEmit(Inline(t)[k], InlineCells(t, cells)[Home(t, k)])
    decreases t, 1
  {
    hide ItemEmit, ItemsEmit, ValueOk, FieldOk, InlineValue, InlineItems, SoundValue, SoundItems, IsZero;
    var u, h := Inline(t), Home(t, k);
    var f, c, d := t[k], cells[h], InlineCells(t, cells)[h];
    TagsTellApart(t, k);
    InlineHome(t, k);
    HomeOfMember(u, k);
    assert SoundCell(f, c) && CellOk(u, h, d) && d == InlineCell(t, h, c);
    InlineIsZero(t, k, c);
    match c
    case Plain(v) => InlineItemEmit(f, v);
    case Has(has, v) => if has { InlineItemEmit(f, v); }
    case Union(which, v) => if which == f.tag { InlineItemEmit(f, v); }
    case Link(_, target) => if target.Some? { InlineItemEmit(f, target.value); }
    case Counted(items) => InlineArrayEmit(f, items);
    case Array(items) => InlineArrayEmit(f, items);
    case Joined =>
  }

  lemma InlineArrayEmit(f: Field, items: seq<Value>)
    requires FieldOk(InlineField(f)) && ItemsOk(InlineField(f), InlineItems(f, items)) && SoundItems(f, items)
    requires f.ht.Repeated? && !f.at.Callback?
    ensures ArrayEmit(f, items) == ArrayEmit(InlineField(f), InlineItems(f, items))
    decreases f, 4
  {
    hide ItemsEmit, ValueOk, FieldOk, SoundItems;
    InlineItemsEmit(f, [], items);
    InlineItemsEmit(f, FieldKey(f), items);
  }

  /** A message with pointers turns into the bytes of the message that holds the same values in place. */
  lemma {:induction false} SameBytes(t: Table, cells: seq<Cell>, k: nat)
    requires TableOk(Inline(t)) && Sound(t, cells) && MessageOk(Inline(t), InlineCells(t, cells)) && k <= |t|
    ensures MessageEmit(t, cells, k) == MessageEmit(Inline(t), InlineCells(t, cells), k)
    decreases t, 2, |t| - k
  {
    hide FieldEmit, TableOk, MessageOk, Sound, InlineCell, InlineField;
    if k < |t| {
      InlineFieldEmit(t, cells, k);
      InlineHome(t, k);
      SameBytes(t, cells, k + 1);
    }
  }

  /** What is behind the pointers of the sender arrives: at a receiver with static fields of any version of the table
      just as if it had been in place. */
  lemma PointersArrive(t: Table, cells: seq<Cell>, u: Table)
    requires TableOk(Inline(t)) && Sound(t, cells) && MessageOk(Inline(t), InlineCells(t, cells))
    requires TableOk(u) && Compatible(Inline(t), u)
    ensures Encoding(t, cells).ok
    ensures DecodeMessage(u, Encoding(t, cells).bytes)
            == if Accepts(Inline(t), InlineCells(t, cells), u)
               then Some(Decoded(View(Inline(t), InlineCells(t, cells), u), [])) else None
    ensures u == Inline(t) ==>
              DecodeMessage(u, Encoding(t, cells).bytes) == Some(Decoded(Canon(u, InlineCells(t, cells)), []))
  {
    hide TableOk, SoundCell, MessageOk, Accepts, View, Canon;
    SameBytes(t, cells, 0);
    AnyReceiver(Inline(t), InlineCells(t, cells), u);
    SameReceiver(Inline(t), InlineCells(t, cells));
  }

  // ----- The presence check on pointers

  /** Of a pointer to a number the presence check reads as many bytes as the number has.  It takes a pointer that is set
      for absent exactly when these are zero, which needs a number shorter than a pointer; a null pointer it
      takes for present only if the number is longer. */
  lemma CheckOfPointer(f: Field, c: Cell)
    requires f.ht.Optional? && f.at.Pointer? && f.sizeOffset == 0 && f.lt.Packable() && PointerOk(f, c)
    ensures c.target.Some? ==> (IsZero(f, c) <==> AllZero(c.memory, f.dataSize))
    ensures c.target.Some? && f.dataSize >= POINTER_SIZE ==> !IsZero(f, c)
    ensures c.target.None? && f.dataSize <= POINTER_SIZE ==> IsZero(f, c)
  {
    if c.target.Some? {
      var i :| 0 <= i < POINTER_SIZE && c.memory[i] != 0;
    }
  }

  const FLAG := Field(1, LBool, Optional, AType.Pointer, 0, 0, 1, 0, None)
  const FLAGS := Field(1, LSubmessage([FLAG]), Optional, Static, 0, 0, POINTER_SIZE, 0, None)

  /** A pointer to true, at an address whose first byte in memory is zero. */
  function FarFlag(): Cell {
    Link([0, 1] + Zeros(POINTER_SIZE - 2), Some(VBool(true)))
  }

  /** Such a pointer is written on its own and lost, together with the submessage, inside one whose presence is
      implicit. */
  lemma LostPointer()
    ensures PointerOk(FLAG, FarFlag()) && Encoding([FLAG], [FarFlag()]) == Written([8, 1])
    ensures Encoding([FLAGS], [Plain(VMsg([FarFlag()]))]) == Nothing
  {
    var c, outer := FarFlag(), Plain(VMsg([FarFlag()]));
    assert c.memory[1] != 0;
    assert Varint.Encode(8) == [8] && Varint.Encode(1) == [1];
    assert FieldEmit(FLAG, c) == SingleEmit(FLAG, VBool(true)) == Written([8, 1]);
    LastField(FLAG, c);
    assert IsZero(FLAG, c) && IsZeroValue(FLAGS, outer.v) && IsZero(FLAGS, outer);
    LastField(FLAGS, outer);
  }

  lemma LastField(f: Field, c: Cell)
    ensures Encoding([f], [c]) == FieldEmit(f, c)
  {
    assert MessageEmit([f], [c], 1) == Nothing;
    assert FieldEmit(f, c).bytes + [] == FieldEmit(f, c).bytes;
  }
}
