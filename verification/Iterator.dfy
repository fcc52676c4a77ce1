/** The field iterator of pb_common.c, and the struct layout its offsets come from (pb.h). */
module Iterator {
  import opened Wrappers
  import opened Config
  import opened Message

  /** How much of the struct a field occupies, as the iterator computes it. */
  function SizeInStruct(f: Field): nat {
    if f.at.Static? && f.ht.Repeated? then f.dataSize * f.arraySize
    else if f.at.Pointer? then POINTER_SIZE
    else f.dataSize
  }

  /** The offset of the data of field `k`, summed up from the relative offsets before it. */
  function DataOffset(t: Table, k: nat): int
    requires k < |t|
  {
    if k == 0 then t[0].dataOffset
    else if SharesUnion(t[k - 1], t[k]) then DataOffset(t, k - 1)
    else DataOffset(t, k - 1) + SizeInStruct(t[k - 1]) + t[k].dataOffset
  }

  /** The offset of the has-flag, count or which-tag of field `k`. */
  function SizeOffset(t: Table, k: nat): int
    requires k < |t|
  {
    if k > 0 && SharesUnion(t[k - 1], t[k]) then SizeOffset(t, k - 1)
    else DataOffset(t, k) + t[k].sizeOffset
  }

  /** iter->pSize: it points into the struct, or at the decoder's counter for the fixed-count
      array being received. */
  datatype SizePointer = InStruct(address: int) | LocalCounter

  class FieldIter {
    const start: Table
    const destStruct: int
    var pos: nat
    var requiredFieldIndex: nat
    var pData: int
    var pSize: SizePointer

    ghost predicate Valid()
      reads this
    {
      if start == [] then pos == 0 && requiredFieldIndex == 0
      else
        && pos < |start|
        && requiredFieldIndex == RequiredBefore(start, pos)
        && pData == destStruct + DataOffset(start, pos)
        && (pSize == InStruct(destStruct + SizeOffset(start, pos)) ||
            (pSize == LocalCounter && start[pos].FixedCount()))
    }

    /** pb_field_iter_begin on a new iterator. */
    constructor (fields: Table, dest: int)
      ensures Valid() && start == fields && destStruct == dest && pos == 0
      ensures fields != [] ==> pSize == InStruct(dest + SizeOffset(fields, 0))
    {
      start, destStruct := fields, dest;
      pos, requiredFieldIndex := 0, 0;
      pData := dest + (if fields == [] then 0 else fields[0].dataOffset);
      pSize := InStruct(dest + (if fields == [] then 0 else fields[0].dataOffset + fields[0].sizeOffset));
    }

    /** pb_field_iter_begin on an iterator that wraps around. */
    method Begin() returns (nonEmpty: bool)
      modifies this
      ensures Valid() && pos == 0
      ensures nonEmpty <==> start != []
      ensures start != [] ==> pSize == InStruct(destStruct + SizeOffset(start, 0))
    {
      pos := 0;
      requiredFieldIndex := 0;
      pData := destStruct + (if start == [] then 0 else start[0].dataOffset);
      pSize := InStruct(pData + (if start == [] then 0 else start[0].sizeOffset));
      return start != [];
    }

    /** pb_field_iter_next: false when the iterator has wrapped back to the first field. */
    method Next() returns (more: bool)
      requires Valid()
      modifies this
      ensures Valid()
      ensures start == [] ==> !more && pos == 0
      ensures start != [] ==> (more <==> old(pos) + 1 < |start|)
      ensures start != [] ==> pos == if more then old(pos) + 1 else 0
      ensures start != [] ==> pSize == InStruct(destStruct + SizeOffset(start, pos))
    {
      if start == [] { return false; }
      var prev := start[pos];
      pos := pos + 1;
      if pos == |start| {
        var _ := Begin();
        return false;
      }
      var prevSize := prev.dataSize;
      if prev.ht.Oneof? && start[pos].ht.Oneof? && start[pos].dataOffset == PB_SIZE_MAX {
        return true;
      } else if prev.at.Static? && prev.ht.Repeated? {
        prevSize := prevSize * prev.arraySize;
      } else if prev.at.Pointer? {
        prevSize := POINTER_SIZE;
      }
      if prev.ht.Required? {
        requiredFieldIndex := requiredFieldIndex + 1;
      }
      pData := pData + prevSize + start[pos].dataOffset;
      pSize := InStruct(pData + start[pos].sizeOffset);
      return true;
    }

    /** pb_field_iter_find: stops at a non-extension field with the tag, or back where it
        was, after at most one round. */
    method FindTag(tag: nat) returns (found: bool, ghost steps: nat)
      requires Valid()
      modifies this
      ensures Valid()
      ensures start != [] && found ==> start[pos].tag == tag && !start[pos].lt.LExtension?
      ensures start != [] ==> (found <==> Find(start, tag).Some?)
      ensures start != [] && !found ==> pos == old(pos)
      ensures start == [] ==> (found <==> tag == 0)
      ensures steps <= |start| && (found && start != [] ==> pos == Around(|start|, old(pos), steps))
      ensures start != [] && steps > 0 ==> pSize == InStruct(destStruct + SizeOffset(start, pos))
      ensures steps == 0 ==> pSize == old(pSize)
    {
      steps := 0;
      if start == [] { return tag == 0, 0; }
      var first := pos;
      while true
        invariant Valid() && steps < |start| && pos == Around(|start|, first, steps)
        invariant forall i :: 0 <= i < steps ==>
                    var j := Around(|start|, first, i); start[j].tag != tag || start[j].lt.LExtension?
        invariant steps > 0 ==> pSize == InStruct(destStruct + SizeOffset(start, pos))
        invariant steps == 0 ==> pSize == old(pSize)
        decreases |start| - steps
      {
        if start[pos].tag == tag && !start[pos].lt.LExtension? {
          return true, steps;
        }
        var _ := Next();
        steps := steps + 1;
        if pos == first { break; }
      }
      forall j | 0 <= j < |start| ensures start[j].tag != tag || start[j].lt.LExtension? {
        var i := if j >= first then j - first else j + |start| - first;
        assert Around(|start|, first, i) == j;
      }
      return false, steps;
    }
  }

  /** The index `i` places after `first` in a cycle of `n`. */
  function Around(n: nat, first: nat, i: nat): (j: nat)
    requires first < n && i <= n
    ensures j < n
  {
    if first + i < n then first + i else first + i - n
  }

  // ----- The layout macros

  /** Where a field lies in its struct: its data, and its has-flag, count or which-tag if it
      has one. */
  datatype Place = Place(offset: nat, size: nat, aux: Option<nat>)

  /** What the macros put into the size fields of a descriptor: pb_membersize and pb_arraysize
      for the kind of field. */
  predicate SizesMatch(f: Field, p: Place) {
    if f.at.Static? && f.ht.Repeated? then f.dataSize * f.arraySize == p.size
    else if f.at.Pointer? then p.size == POINTER_SIZE
    else f.dataSize == p.size
  }

  /** The placement argument of PB_FIELD for a field that is not the first one. */
  datatype Placement = OtherPlacement | UnionPlacement

  /** `t` is what the macros build for a struct whose members lie at `places`: PB_DATAOFFSET_FIRST
      for the first field, PB_DATAOFFSET_UNION for a further member of a union, and
      PB_DATAOFFSET_OTHER for the rest; pb_delta for the has-flag, count or which-tag. */
  predicate BuiltByMacros(t: Table, places: seq<Place>, placed: seq<Placement>) {
    |places| == |t| == |placed| && forall k :: 0 <= k < |t| ==> FieldMacro(t, places, placed, k)
  }

  predicate FieldMacro(t: Table, places: seq<Place>, placed: seq<Placement>, k: nat)
    requires |places| == |t| == |placed| && k < |t|
  {
    var f, p := t[k], places[k];
    && SizesMatch(f, p)
    && f.sizeOffset == (if p.aux.Some? then p.aux.value - p.offset else 0)
    && if k == 0 then f.dataOffset == p.offset
       else if placed[k].UnionPlacement? then
         t[k - 1].ht.Oneof? && f.ht.Oneof? && f.dataOffset == PB_SIZE_MAX
         && p.offset == places[k - 1].offset && p.aux == places[k - 1].aux
       else f.dataOffset == p.offset - places[k - 1].offset - places[k - 1].size
  }

  /** Two unions exactly PB_SIZE_MAX bytes apart: the distance looks like the union marker. */
  predicate LooksLikeOneUnion(t: Table, placed: seq<Placement>, k: nat)
    requires k < |t| == |placed|
  {
    k > 0 && placed[k].OtherPlacement? && SharesUnion(t[k - 1], t[k])
  }

  /** Such a struct: the iterator takes the second union for another member of the first one. */
  lemma TwoUnionsTakenForOne()
    ensures var first := Field(1, LBool, Oneof, Static, 4, -4, 1, 0, None);
            var second := Field(2, LBool, Oneof, Static, PB_SIZE_MAX, -4, 1, 0, None);
            var places := [Place(4, 1, Some(0)), Place(PB_SIZE_MAX + 5, 1, Some(PB_SIZE_MAX + 1))];
            && BuiltByMacros([first, second], places, [OtherPlacement, OtherPlacement])
            && DataOffset([first, second], 1) == 4 < places[1].offset
  {}

  /** The iterator recovers every absolute position from the relative ones, exactly when no
      two neighbouring unions lie PB_SIZE_MAX bytes apart. */
  lemma IteratorRecoversPlaces(t: Table, places: seq<Place>, placed: seq<Placement>)
    requires BuiltByMacros(t, places, placed)
    ensures (forall k :: 0 <= k < |t| ==> DataOffset(t, k) == places[k].offset) <==>
            (forall k :: 0 <= k < |t| ==> !LooksLikeOneUnion(t, placed, k))
    ensures (forall k :: 0 <= k < |t| ==> !LooksLikeOneUnion(t, placed, k)) ==>
              forall k :: 0 <= k < |t| ==>
                SizeOffset(t, k) == if places[k].aux.Some? then places[k].aux.value else places[k].offset
  {
    if forall k :: 0 <= k < |t| ==> !LooksLikeOneUnion(t, placed, k) {
      forall k | 0 <= k < |t|
        ensures DataOffset(t, k) == places[k].offset
        ensures SizeOffset(t, k) == if places[k].aux.Some? then places[k].aux.value else places[k].offset
      {
        RecoversPlace(t, places, placed, k);
      }
    } else {
      var k :| 0 <= k < |t| && LooksLikeOneUnion(t, placed, k);
      assert DataOffset(t, k) == DataOffset(t, k - 1);
      assert FieldMacro(t, places, placed, k);
      assert places[k].offset > places[k - 1].offset;
    }
  }

  lemma {:induction false} RecoversPlace(t: Table, places: seq<Place>, placed: seq<Placement>, k: nat)
    requires BuiltByMacros(t, places, placed) && k < |t|
    requires forall k :: 0 <= k < |t| ==> !LooksLikeOneUnion(t, placed, k)
    ensures DataOffset(t, k) == places[k].offset
    ensures SizeOffset(t, k) == if places[k].aux.Some? then places[k].aux.value else places[k].offset
  {
    assert FieldMacro(t, places, placed, k);
    if k > 0 {
      RecoversPlace(t, places, placed, k - 1);
      assert FieldMacro(t, places, placed, k - 1) && !LooksLikeOneUnion(t, placed, k);
    }
  }

  /** The members of a struct do not overlap, except those of one union. */
  predicate StructLayout(t: Table, places: seq<Place>)
    requires |places| == |t|
  {
    forall j, k :: 0 <= j < k < |t| && Home(t, j) != Home(t, k) ==>
      places[j].offset + places[j].size <= places[k].offset
  }

  /** Two fields have the same data address exactly when they have the same home: a cell
      of the model is a piece of memory. */
  lemma CellsAreMemory(t: Table, places: seq<Place>, placed: seq<Placement>, j: nat, k: nat)
    requires BuiltByMacros(t, places, placed) && StructLayout(t, places) && j < k < |t|
    requires forall k :: 0 <= k < |t| ==> !LooksLikeOneUnion(t, placed, k)
    requires places[j].size > 0
    ensures DataOffset(t, j) == DataOffset(t, k) <==> Home(t, j) == Home(t, k)
  {
    RecoversPlace(t, places, placed, j);
    RecoversPlace(t, places, placed, k);
    if Home(t, j) == Home(t, k) { SameHomeSamePlace(t, j, k); }
  }

  lemma {:induction false} SameHomeSamePlace(t: Table, j: nat, k: nat)
    requires j <= k < |t| && Home(t, j) == Home(t, k)
    ensures DataOffset(t, j) == DataOffset(t, k) && SizeOffset(t, j) == SizeOffset(t, k)
  {
    if j < k { SameHomeSamePlace(t, j, k - 1); }
  }
}
