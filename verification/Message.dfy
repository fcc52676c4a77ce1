/** Field descriptors (pb_field_s of pb.h) and the contents of the structs they describe. */
module Message {
  import opened Wrappers
  import opened Config
  import Varint

  type Byte = Varint.Byte
  type Bytes = Varint.Bytes

  /** The contents of one item.  `Unset` is memory nobody has initialised.  A string holds the
      characters before its terminator was appended; integers of every width are `VInt`. */
  datatype Value =
    | Unset
    | VBool(b: bool)
    | VInt(i: int)
    | VBytes(bytes: Bytes)
    | VString(chars: Bytes)
    | VMsg(cells: seq<Cell>)

  /** The memory of one field together with its has-flag, count or which-tag.
      The members of a union share one cell, held at the first member.  A pointer that is not
      repeated is the bytes of memory from it on, and what it points to unless it is null. */
  datatype Cell =
    | Plain(v: Value)
    | Link(memory: Bytes, target: Option<Value>)
    | Has(has: bool, v: Value)
    | Counted(items: seq<Value>)
    | Array(items: seq<Value>)
    | Union(which: nat, v: Value)
    | Joined

  datatype LType =
    | LBool | LVarint | LUvarint | LSvarint | LFixed32 | LFixed64
    | LBytes | LString | LSubmessage(fields: Table) | LExtension | LFixedLengthBytes
  {
    /** PB_LTYPE(x) <= PB_LTYPE_LAST_PACKABLE */
    predicate Packable() { LBool? || LVarint? || LUvarint? || LSvarint? || LFixed32? || LFixed64? }

    predicate IsVarint() { LBool? || LVarint? || LUvarint? || LSvarint? }
  }

  datatype HType = Required | Optional | Repeated | Oneof

  datatype AType = Static | Pointer | Callback

  datatype Field = Field(
    tag: nat, lt: LType, ht: HType, at: AType,
    dataOffset: nat, sizeOffset: int, dataSize: nat, arraySize: nat,
    dflt: Option<Value>)
  {
    /** A repeated field without a count in the struct. */
    predicate FixedCount() { ht.Repeated? && sizeOffset == 0 }
  }

  /** A descriptor array without its terminator. */
  type Table = seq<Field>

  /** Whether the iterator treats `f` as one more member of the union `prev` belongs to. */
  predicate SharesUnion(prev: Field, f: Field) {
    prev.ht.Oneof? && f.ht.Oneof? && f.dataOffset == PB_SIZE_MAX
  }

  /** The index of the cell that holds field `k`. */
  function Home(t: Table, k: nat): (h: nat)
    requires k < |t|
    ensures h <= k
  {
    if k > 0 && SharesUnion(t[k - 1], t[k]) then Home(t, k - 1) else k
  }

  /** The cell of a field that is a union member belongs to a union. */
  lemma {:induction false} HomeOfMember(t: Table, k: nat)
    requires k < |t|
    ensures t[k].ht.Oneof? <==> t[Home(t, k)].ht.Oneof?
    ensures Home(t, Home(t, k)) == Home(t, k)
  {
    if Home(t, k) != k { HomeOfMember(t, k - 1); }
  }

  /** The first field that carries `tag` and is not an extension placeholder. */
  function Find(t: Table, tag: nat): (k: Option<nat>)
    ensures k.Some? ==> k.value < |t| && t[k.value].tag == tag && !t[k.value].lt.LExtension?
    ensures k.None? ==> forall j :: 0 <= j < |t| ==> t[j].tag != tag || t[j].lt.LExtension?
  {
    FindFrom(t, tag, 0)
  }

  function FindFrom(t: Table, tag: nat, i: nat): (k: Option<nat>)
    requires i <= |t|
    ensures k.Some? ==> i <= k.value < |t| && t[k.value].tag == tag && !t[k.value].lt.LExtension?
    ensures k.None? ==> forall j :: i <= j < |t| ==> t[j].tag != tag || t[j].lt.LExtension?
    decreases |t| - i
  {
    if i == |t| then None
    else if t[i].tag == tag && !t[i].lt.LExtension? then Some(i)
    else FindFrom(t, tag, i + 1)
  }

  /** The number of required fields before field `k`. */
  function RequiredBefore(t: Table, k: nat): nat
    requires k <= |t|
  {
    if k == 0 then 0 else RequiredBefore(t, k - 1) + (if t[k - 1].ht.Required? then 1 else 0)
  }

  // ----- Default values

  function Zeros(n: nat): (z: Bytes)
    ensures |z| == n
  {
    seq(n, _ => 0)
  }

  function ZeroValue(f: Field): Value {
    match f.lt
    case LBool => VBool(false)
    case LBytes => VBytes([])
    case LString => VString([])
    case LFixedLengthBytes => VBytes(Zeros(f.dataSize))
    case LSubmessage(_) => Unset
    case LExtension => Unset
    case _ => VInt(0)
  }

  /** What pb_field_set_to_default leaves in the data of a singular static field. */
  function DefaultValue(f: Field): Value
    decreases f, 0
  {
    if f.lt.LSubmessage? then VMsg(Defaults(f.lt.fields))
    else if f.dflt.Some? then f.dflt.value
    else ZeroValue(f)
  }

  /** What pb_field_set_to_default leaves in a field; `first` tells whether the field has a
      cell of its own.  Nothing initialises the items of a fixed-count array: the zero that is
      meant for its count goes to the start of the first of them.  They are `Unset` here. */
  function DefaultCell(f: Field, first: bool): Cell
    decreases f, 1
  {
    match f.ht
    case Required => Plain(DefaultValue(f))
    case Optional => if f.sizeOffset == 0 then Plain(DefaultValue(f)) else Has(false, DefaultValue(f))
    case Repeated => if f.sizeOffset == 0 then Array(seq(f.arraySize, _ => Unset)) else Counted([])
    case Oneof => if first then Union(0, Unset) else Joined
  }

  /** pb_message_set_to_defaults */
  function Defaults(t: Table): (cells: seq<Cell>)
    ensures |cells| == |t|
    decreases t
  {
    seq(|t|, k requires 0 <= k < |t| => DefaultCell(t[k], Home(t, k) == k))
  }
}
