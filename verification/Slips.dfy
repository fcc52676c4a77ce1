/** Where the account of blocks can go wrong: an entry of a static array that is counted but not
    initialised, and a count that wraps (pb_decode.c:455-464, 1503-1520). */
module Slips {
  import opened Wrappers
  import opened Config
  import opened Heap
  import opened Streams
  import Varint
  import Wire

  /** An entry that has been counted as it was, or the entries of an array whose count has wrapped. */
  datatype Slip = NoSlip | Counted(entry: Struct) | Wrapped(entries: seq<Struct>)

  function Gain(x: Slip): multiset<nat> {
    if x.Counted? then Owned(x.entry) else multiset{}
  }

  function Loss(x: Slip): multiset<nat> {
    if x.Wrapped? then OwnedStructs(x.entries, |x.entries|) else multiset{}
  }

  twostate predicate Slipped(alloc: Allocator, x: Slip)
    reads alloc
  {
    alloc.gained == old(alloc.gained) + Gain(x) && alloc.lost == old(alloc.lost) + Loss(x)
  }

  /** The first field with the tag. */
  function FieldOf(table: HTable, tag: nat): (k: Option<nat>)
    ensures k.Some? ==> k.value < |table| && table[k.value].tag == tag
    ensures k.None? ==> forall j :: 0 <= j < |table| ==> table[j].tag != tag
  {
    if table == [] then None
    else if table[0].tag == tag then Some(0)
    else
      var k := FieldOf(table[1..], tag);
      if k.None? then None else Some(k.value + 1)
  }

  /** Without duplicate tags a field is the one that its tag finds. */
  lemma OnlyField(S: Schema, id: nat, k: nat)
    requires id < |S.tables| && k < |S.tables[id]|
    ensures S.Distinct() ==> FieldOf(S.tables[id], S.tables[id][k].tag) == Some(k)
  {}

  // ----- The slip that decoding certain bytes is bound to end in

  /** Decoding `bytes` into `s` is bound to end in this slip: after records that add empty entries to
      static arrays comes a record that slips, or that leads to one inside. */
  function Foreseen(S: Schema, id: nat, s: Struct, bytes: Varint.Bytes): Slip
    decreases |bytes|, 2
  {
    match Wire.ReadKey(bytes)
    case Key(tag, _, rest) =>
      if id >= |S.tables| then NoSlip
      else
        var k := FieldOf(S.tables[id], tag);
        if k.None? || k.value >= |s.cells| then NoSlip
        else
          var f, c := S.tables[id][k.value], s.cells[k.value];
          var x, next := ForeseenField(S, f, c, rest), AfterEmpty(S, f, c, rest);
          if !x.NoSlip? || next.None? then x
          else Foreseen(S, id, Struct(s.cells[k.value := next.value.0]), next.value.1)
    case _ => NoSlip
  }

  function ForeseenField(S: Schema, f: HField, c: Cell, rest: Varint.Bytes): Slip
    decreases |rest|, 1
  {
    if !f.at.Static? || !f.kind.Sub? then NoSlip
    else if f.repeated && c.InlineArray? then
      if c.count >= f.arraySize then
        if c.count == PB_SIZE_MAX then Wrapped(c.items) else NoSlip
      else if c.count < |c.items| then ForeseenSub(S, f.kind.id, c.items[c.count], true, rest)
      else NoSlip
    else if !f.repeated && c.Inline? then ForeseenSub(S, f.kind.id, c.s, false, rest)
    else NoSlip
  }

  /** `entry` tells whether `s` is a new entry of an array. */
  function ForeseenSub(S: Schema, id: nat, s: Struct, entry: bool, rest: Varint.Bytes): Slip
    decreases |rest|, 0
  {
    match Announced(rest)
    case None => if entry then Counted(s) else NoSlip
    case Some((body, _)) => Foreseen(S, id, if entry then SetDefaults(s) else s, body)
  }

  /** The array and the bytes after a record that adds an empty entry which cannot be incomplete. */
  function AfterEmpty(S: Schema, f: HField, c: Cell, rest: Varint.Bytes): (r: Option<(Cell, Varint.Bytes)>)
    ensures r.Some? ==> |r.value.1| < |rest|
  {
    if f.at.Static? && f.kind.Sub? && f.repeated && c.InlineArray? && c.count < f.arraySize && c.count < |c.items|
       && Announced(rest).Some? && Announced(rest).value.0 == [] && !S.Demands(f.kind.id) then
      var items := c.items[c.count := SetDefaults(c.items[c.count])];
      Some((InlineArray(CountUp(c.count), items), rest[Announced(rest).value.1..]))
    else None
  }
}
