/** Well-formed tables and messages, and what it means for two messages to be the same. */
module WellFormed {
  import opened Config
  import opened Message
  import opened Decode
  import opened Encode
  import Varint

  // ----- Tables

  /** A table of static fields with unique tags. */
  ghost predicate TableOk(t: Table)
    decreases t
  {
    && (forall j, k :: 0 <= j < k < |t| ==> t[j].tag != t[k].tag)
    && (forall k :: 0 <= k < |t| ==> FieldOk(t[k]))
  }

  ghost predicate FieldOk(f: Field)
    decreases f
  {
    && 0 < f.tag < 0x2000_0000 && f.tag <= PB_SIZE_MAX
    && f.at.Static?
    && f.dataSize <= PB_SIZE_MAX && f.arraySize <= PB_SIZE_MAX
    && (f.lt.LVarint? || f.lt.LUvarint? || f.lt.LSvarint? ==> IntSize(f.dataSize))
    && !f.lt.LExtension?
    && (f.lt.LSubmessage? ==> TableOk(f.lt.fields))
    && (f.ht.Optional? && f.sizeOffset == 0 ==> f.dflt.None?)
    && (f.ht.Repeated? && f.sizeOffset == 0 ==> f.arraySize > 0)
    && (f.ht.Oneof? ==> f.sizeOffset != 0)
  }

  // ----- Messages

  /** `v` is a value the field can hold and the encoder can write. */
  ghost predicate ValueOk(f: Field, v: Value)
    decreases f, 0
  {
    match f.lt
    case LBool => v.VBool?
    case LVarint => v.VInt? && ToSigned(v.i, f.dataSize) == v.i
    case LUvarint => v.VInt? && 0 <= v.i < Modulus(f.dataSize)
    case LSvarint => v.VInt? && ToSigned(v.i, f.dataSize) == v.i
    case LFixed32 => v.VInt? && 0 <= v.i < Varint.U32
    case LFixed64 => v.VInt? && 0 <= v.i < Varint.U64
    case LBytes => v.VBytes? && |v.bytes| <= PB_SIZE_MAX && |v.bytes| + BytesHeader() <= f.dataSize
    case LString => v.VString? && |v.chars| < f.dataSize && forall i :: 0 <= i < |v.chars| ==> v.chars[i] != 0
    case LSubmessage(sub) =>
      && v.VMsg? && |v.cells| == |sub| && MessageOk(sub, v.cells)
      && |Encoding(sub, v.cells).bytes| < Varint.U32
    case LExtension => false
    case LFixedLengthBytes => v.VBytes? && |v.bytes| == f.dataSize
  }

  ghost predicate ItemsOk(f: Field, items: seq<Value>)
    decreases f, 1
  {
    && |items| <= f.arraySize
    && (forall i :: 0 <= i < |items| ==> ValueOk(f, items[i]))
    && (WritesPacked(f) ==> |ItemsEmit(f, [], items).bytes| < Varint.U32)
  }

  ghost predicate CellOk(t: Table, k: nat, c: Cell)
    requires k < |t|
    decreases t, 0
  {
    var f := t[k];
    match f.ht
    case Required => c.Plain? && ValueOk(f, c.v)
    case Optional =>
      if f.sizeOffset == 0 then c.Plain? && ValueOk(f, c.v)
      else c.Has? && (c.has ==> ValueOk(f, c.v))
    case Repeated =>
      if f.sizeOffset == 0 then c.Array? && |c.items| == f.arraySize && ItemsOk(f, c.items)
      else c.Counted? && ItemsOk(f, c.items)
    case Oneof =>
      if Home(t, k) != k then c.Joined?
      else c.Union? && (c.which != 0 ==> HasMember(t, k, c.which) && ValueOk(t[Find(t, c.which).value], c.v))
  }

  /** `which` is the tag of a member of the union held at `h`. */
  predicate HasMember(t: Table, h: nat, which: nat) {
    var w := Find(t, which);
    w.Some? && t[w.value].ht.Oneof? && Home(t, w.value) == h
  }

  ghost predicate MessageOk(t: Table, cells: seq<Cell>)
    decreases t, 1
  {
    |cells| == |t| && forall k :: 0 <= k < |t| ==> CellOk(t, k, cells[k])
  }

  // ----- Sameness

  /** Equality of messages, where absent fields are compared by presence only. */
  ghost predicate SameMessage(t: Table, a: seq<Cell>, b: seq<Cell>)
    decreases t, 1
  {
    |a| == |t| && |b| == |t| && forall k :: 0 <= k < |t| ==> SameCell(t, k, a[k], b[k])
  }

  ghost predicate SameCell(t: Table, k: nat, a: Cell, b: Cell)
    requires k < |t|
    decreases t, 0
  {
    match (a, b)
    case (Plain(v), Plain(w)) => SameValue(t[k], v, w)
    case (Has(x, v), Has(y, w)) => x == y && (x ==> SameValue(t[k], v, w))
    case (Counted(vs), Counted(ws)) => |vs| == |ws| && forall i :: 0 <= i < |vs| ==> SameValue(t[k], vs[i], ws[i])
    case (Array(vs), Array(ws)) => |vs| == |ws| && forall i :: 0 <= i < |vs| ==> SameValue(t[k], vs[i], ws[i])
    case (Union(x, v), Union(y, w)) =>
      x == y && (x != 0 ==> Find(t, x).Some? && SameValue(t[Find(t, x).value], v, w))
    case (Joined, Joined) => true
    case _ => false
  }

  ghost predicate SameValue(f: Field, a: Value, b: Value)
    decreases f
  {
    if f.lt.LSubmessage? then a.VMsg? && b.VMsg? && SameMessage(f.lt.fields, a.cells, b.cells)
    else a == b
  }

  // ----- The decoder's rendering of a message

  /** The message the decoder rebuilds: present values as they are, absent ones at their
      defaults. */
  function Canon(t: Table, cells: seq<Cell>): (r: seq<Cell>)
    requires |cells| == |t|
    ensures |r| == |t|
    decreases t, 1
  {
    seq(|t|, k requires 0 <= k < |t| => CanonCell(t, k, cells[k]))
  }

  function CanonCell(t: Table, k: nat, c: Cell): Cell
    requires k < |t|
    decreases t, 0
  {
    var f := t[k];
    match c
    case Plain(v) => if f.ht.Optional? && IsZero(f, c) then Plain(DefaultValue(f)) else Plain(CanonValue(f, v))
    case Has(has, v) => Has(has, if has then CanonValue(f, v) else DefaultValue(f))
    case Counted(items) => Counted(CanonItems(f, items))
    case Array(items) => Array(CanonItems(f, items))
    case Union(which, v) =>
      if which == 0 || Find(t, which).None? then Union(0, Unset)
      else Union(which, CanonValue(t[Find(t, which).value], v))
    case _ => c
  }

  function CanonItems(f: Field, items: seq<Value>): (vs: seq<Value>)
    ensures |vs| == |items|
    decreases f, 1
  {
    seq(|items|, i requires 0 <= i < |items| => CanonValue(f, items[i]))
  }

  function CanonValue(f: Field, v: Value): Value
    decreases f, 0
  {
    if f.lt.LSubmessage? && v.VMsg? && |v.cells| == |f.lt.fields| then VMsg(Canon(f.lt.fields, v.cells)) else v
  }

  /** The rendering is the same message. */
  lemma {:induction false} CanonIsSame(t: Table, cells: seq<Cell>)
    requires TableOk(t) && MessageOk(t, cells)
    ensures SameMessage(t, cells, Canon(t, cells))
    decreases t, 1
  {
    forall k | 0 <= k < |t| ensures SameCell(t, k, cells[k], CanonCell(t, k, cells[k])) {
      var f, c := t[k], cells[k];
      assert FieldOk(f) && CellOk(t, k, c);
      match c
      case Plain(v) =>
        if f.ht.Optional? && IsZero(f, c) { ZeroIsDefault(f, v); } else { CanonValueIsSame(f, v); }
      case Has(has, v) => if has { CanonValueIsSame(f, v); }
      case Counted(items) => CanonItemsAreSame(f, items);
      case Array(items) => CanonItemsAreSame(f, items);
      case Union(which, v) =>
        if which != 0 {
          assert FieldOk(t[Find(t, which).value]);
          CanonValueIsSame(t[Find(t, which).value], v);
        }
      case _ =>
    }
  }

  lemma CanonItemsAreSame(f: Field, items: seq<Value>)
    requires FieldOk(f) && ItemsOk(f, items)
    ensures forall i :: 0 <= i < |items| ==> SameValue(f, items[i], CanonItems(f, items)[i])
    decreases f, 1
  {
    forall i | 0 <= i < |items| ensures SameValue(f, items[i], CanonItems(f, items)[i]) {
      CanonValueIsSame(f, items[i]);
    }
  }

  lemma {:induction false} CanonValueIsSame(f: Field, v: Value)
    requires FieldOk(f) && ValueOk(f, v)
    ensures SameValue(f, v, CanonValue(f, v))
    decreases f, 0
  {
    if f.lt.LSubmessage? { CanonIsSame(f.lt.fields, v.cells); }
  }

  /** An implicit-presence value that counts as absent is the default value. */
  lemma {:induction false} ZeroIsDefault(f: Field, v: Value)
    requires FieldOk(f) && ValueOk(f, v) && f.dflt.None? && IsZeroValue(f, v)
    ensures SameValue(f, v, DefaultValue(f))
    decreases f, 0
  {
    match f.lt
    case LSubmessage(sub) =>
      forall k | 0 <= k < |sub| ensures SameCell(sub, k, v.cells[k], Defaults(sub)[k]) {
        assert FieldOk(sub[k]) && CellOk(sub, k, v.cells[k]);
        ZeroCellIsDefault(sub, k, v.cells[k], v.cells[Home(sub, k)]);
      }
    case _ =>
  }

  lemma ZeroCellIsDefault(t: Table, k: nat, c: Cell, home: Cell)
    requires k < |t| && FieldOk(t[k]) && CellOk(t, k, c)
    requires IsZero(t[k], home) && (Home(t, k) == k ==> home == c)
    ensures SameCell(t, k, c, DefaultCell(t[k], Home(t, k) == k))
    decreases t[k], 1
  {
    var f := t[k];
    if f.ht.Optional? && f.sizeOffset == 0 {
      ZeroIsDefault(f, c.v);
    }
  }
}
