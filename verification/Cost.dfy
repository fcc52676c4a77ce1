/** How often pb_encode walks through each submessage.  Sizing a submessage before writing it
    would double the work at every level if the sizing pass did the same inside; it does not
    (pb_encode.c:717-765). */
module Cost {
  import opened Wrappers
  import opened Message
  import opened Encode

  // The depths of the submessages that are entered, once for each time.  `write` tells a pass
  // that writes from one that only counts; `depth` is that of the message at hand.

  function ItemVisits(f: Field, v: Value, write: bool, depth: nat): multiset<nat>
    decreases f, 0, 0
  {
    match f.lt
    case LSubmessage(sub) =>
      if !v.VMsg? || |v.cells| != |sub| then multiset{}
      else
        multiset{depth + 1} + MessageVisits(sub, v.cells, 0, false, depth + 1)
        + (if write then multiset{depth + 1} + MessageVisits(sub, v.cells, 0, true, depth + 1) else multiset{})
    case _ => multiset{}
  }

  function ItemsVisits(f: Field, items: seq<Value>, write: bool, depth: nat): multiset<nat>
    decreases f, 1, |items|
  {
    if items == [] then multiset{} else ItemVisits(f, items[0], write, depth) + ItemsVisits(f, items[1..], write, depth)
  }

  function LinkVisits(f: Field, c: Cell, write: bool, depth: nat): multiset<nat>
    decreases f, 1, 0
  {
    if c.Link? && c.target.Some? then ItemVisits(f, c.target.value, write, depth) else multiset{}
  }

  function FieldVisits(f: Field, c: Cell, write: bool, depth: nat): multiset<nat>
    decreases f, 2, 0
  {
    match f.ht
    case Required =>
      if f.at.Pointer? then LinkVisits(f, c, write, depth)
      else if c.Plain? then ItemVisits(f, c.v, write, depth) else multiset{}
    case Optional =>
      if f.at.Pointer? then LinkVisits(f, c, write, depth)
      else if f.sizeOffset == 0 then
        if c.Plain? && !IsZero(f, c) then ItemVisits(f, c.v, write, depth) else multiset{}
      else
        if c.Has? && c.has then ItemVisits(f, c.v, write, depth) else multiset{}
    case Repeated => if c.Counted? || c.Array? then ItemsVisits(f, c.items, write, depth) else multiset{}
    case Oneof => if c.Union? && c.which == f.tag then ItemVisits(f, c.v, write, depth) else multiset{}
  }

  function MessageVisits(t: Table, cells: seq<Cell>, k: nat, write: bool, depth: nat): multiset<nat>
    requires |cells| == |t| && k <= |t|
    decreases t, 3, |t| - k
  {
    if k == |t| then multiset{}
    else FieldVisits(t[k], cells[Home(t, k)], write, depth) + MessageVisits(t, cells, k + 1, write, depth)
  }

  /** A sizing pass enters every submessage that is encoded exactly once. */
  function Submessages(t: Table, cells: seq<Cell>): multiset<nat>
    requires |cells| == |t|
  {
    MessageVisits(t, cells, 0, false, 0)
  }

  // ----- Visits by depth

  /** `written` is `sized` with everything at depth `d` below `depth` counted once more than that
      distance. */
  ghost predicate ByDepth(written: multiset<nat>, sized: multiset<nat>, depth: nat) {
    forall d: nat :: written[d] == if d <= depth then 0 else (d - depth + 1) * sized[d]
  }

  lemma Distribute(n: int, x: int, y: int)
    ensures n * (x + y) == n * x + n * y
  {}

  lemma ByDepthAdd(r1: multiset<nat>, s1: multiset<nat>, r2: multiset<nat>, s2: multiset<nat>, depth: nat)
    requires ByDepth(r1, s1, depth) && ByDepth(r2, s2, depth)
    ensures ByDepth(r1 + r2, s1 + s2, depth)
  {
    forall d: nat ensures (r1 + r2)[d] == if d <= depth then 0 else (d - depth + 1) * (s1 + s2)[d] {
      if d > depth { Distribute(d - depth + 1, s1[d], s2[d]); }
    }
  }

  lemma {:induction false} ItemByDepth(f: Field, v: Value, depth: nat)
    ensures ByDepth(ItemVisits(f, v, true, depth), ItemVisits(f, v, false, depth), depth)
    decreases f, 0, 0
  {
    if f.lt.LSubmessage? && v.VMsg? && |v.cells| == |f.lt.fields| {
      var sub := f.lt.fields;
      MessageByDepth(sub, v.cells, 0, depth + 1);
      OneLevelDown(MessageVisits(sub, v.cells, 0, true, depth + 1), MessageVisits(sub, v.cells, 0, false, depth + 1),
          depth);
    }
  }

  lemma OneLevelDown(written: multiset<nat>, sized: multiset<nat>, depth: nat)
    requires ByDepth(written, sized, depth + 1) && forall d: nat :: d <= depth + 1 ==> sized[d] == 0
    ensures ByDepth(multiset{depth + 1} + sized + (multiset{depth + 1} + written), multiset{depth + 1} + sized, depth)
  {
    var all, once := multiset{depth + 1} + sized + (multiset{depth + 1} + written), multiset{depth + 1} + sized;
    forall d: nat ensures all[d] == if d <= depth then 0 else (d - depth + 1) * once[d] {
      if d > depth + 1 {
        var x := sized[d];
        assert written[d] == (d - (depth + 1) + 1) * x;
        assert x + (d - depth) * x == (d - depth + 1) * x;
      }
    }
  }

  lemma {:induction false} ItemsByDepth(f: Field, items: seq<Value>, depth: nat)
    ensures ByDepth(ItemsVisits(f, items, true, depth), ItemsVisits(f, items, false, depth), depth)
    decreases f, 1, |items|
  {
    hide ByDepth, ItemVisits;
    if items != [] {
      ItemByDepth(f, items[0], depth);
      ItemsByDepth(f, items[1..], depth);
      ByDepthAdd(ItemVisits(f, items[0], true, depth), ItemVisits(f, items[0], false, depth),
                 ItemsVisits(f, items[1..], true, depth), ItemsVisits(f, items[1..], false, depth), depth);
    } else {
      NoVisits(depth);
    }
  }

  lemma NoVisits(depth: nat)
    ensures ByDepth(multiset{}, multiset{}, depth)
  {}

  lemma FieldByDepth(f: Field, c: Cell, depth: nat)
    ensures ByDepth(FieldVisits(f, c, true, depth), FieldVisits(f, c, false, depth), depth)
    decreases f, 2, 0
  {
    hide ByDepth, ItemVisits, ItemsVisits;
    NoVisits(depth);
    if c.Counted? || c.Array? {
      ItemsByDepth(f, c.items, depth);
    } else if c.Link? {
      if c.target.Some? { ItemByDepth(f, c.target.value, depth); }
    } else if !c.Joined? {
      ItemByDepth(f, c.v, depth);
    }
  }

  lemma {:induction false} MessageByDepth(t: Table, cells: seq<Cell>, k: nat, depth: nat)
    requires |cells| == |t| && k <= |t|
    ensures ByDepth(MessageVisits(t, cells, k, true, depth), MessageVisits(t, cells, k, false, depth), depth)
    ensures forall d: nat :: d <= depth ==> MessageVisits(t, cells, k, false, depth)[d] == 0
    decreases t, 3, |t| - k
  {
    if k == |t| {
      NoVisits(depth);
    } else {
      var f, c := t[k], cells[Home(t, k)];
      FieldByDepth(f, c, depth);
      FieldBelow(f, c, depth);
      MessageByDepth(t, cells, k + 1, depth);
      ByDepthAdd(FieldVisits(f, c, true, depth), FieldVisits(f, c, false, depth),
                 MessageVisits(t, cells, k + 1, true, depth), MessageVisits(t, cells, k + 1, false, depth), depth);
    }
  }

  // Everything that is entered lies below.

  lemma {:induction false} ItemsBelow(f: Field, items: seq<Value>, depth: nat)
    ensures forall d: nat :: d <= depth ==> ItemsVisits(f, items, false, depth)[d] == 0
    decreases f, 1, |items|
  {
    if items != [] {
      ItemBelow(f, items[0], depth);
      ItemsBelow(f, items[1..], depth);
    }
  }

  lemma ItemBelow(f: Field, v: Value, depth: nat)
    ensures forall d: nat :: d <= depth ==> ItemVisits(f, v, false, depth)[d] == 0
    decreases f, 0, 0
  {
    if f.lt.LSubmessage? && v.VMsg? && |v.cells| == |f.lt.fields| {
      MessageByDepth(f.lt.fields, v.cells, 0, depth + 1);
    }
  }

  lemma FieldBelow(f: Field, c: Cell, depth: nat)
    ensures forall d: nat :: d <= depth ==> FieldVisits(f, c, false, depth)[d] == 0
    decreases f, 2, 0
  {
    if c.Counted? || c.Array? {
      ItemsBelow(f, c.items, depth);
    } else if c.Link? {
      var visits := FieldVisits(f, c, false, depth);
      assert visits == multiset{} || visits == LinkVisits(f, c, false, depth);
      if c.target.Some? { ItemBelow(f, c.target.value, depth); }
    } else if !c.Joined? {
      ItemBelow(f, c.v, depth);
    }
  }

  /** pb_encode to a buffer enters a submessage at depth d exactly d + 1 times: once to write it,
      and once for each sizing pass, its own and those of the messages around it. */
  lemma VisitsByDepth(t: Table, cells: seq<Cell>, d: nat)
    requires |cells| == |t| && d > 0
    ensures MessageVisits(t, cells, 0, true, 0)[d] == (d + 1) * Submessages(t, cells)[d]
  {
    MessageByDepth(t, cells, 0, 0);
  }

  /** Scalars enter nothing. */
  lemma {:induction false} PackableVisits(f: Field, items: seq<Value>, write: bool, depth: nat)
    requires f.lt.Packable()
    ensures ItemsVisits(f, items, write, depth) == multiset{}
    decreases |items|
  {
    if items != [] { PackableVisits(f, items[1..], write, depth); }
  }

  // ----- An example

  const LEAF := Field(1, LUvarint, Required, Static, 0, 0, 4, 0, None)
  const MIDDLE := Field(1, LSubmessage([LEAF]), Required, Static, 0, 0, 4, 0, None)
  const OUTER := Field(1, LSubmessage([MIDDLE]), Required, Static, 0, 0, 4, 0, None)

  /** A submessage in a submessage: sizing enters each once, writing the outer one twice and the inner one three
      times. */
  lemma NestedExample(v: Value)
    ensures var cells := [Plain(VMsg([Plain(VMsg([Plain(v)]))]))];
            && Submessages([OUTER], cells) == multiset{1, 2}
            && MessageVisits([OUTER], cells, 0, true, 0) == multiset{1, 1, 2, 2, 2}
  {
    hide MessageVisits, Submessages;
    var leaf, middle := [Plain(v)], [Plain(VMsg([Plain(v)]))];
    LeafVisits(v);
    OneLevel(MIDDLE, leaf, 1, multiset{}, multiset{});
    OneLevel(OUTER, middle, 0, multiset{2}, multiset{2, 2});
    SizingVisits([OUTER], [Plain(VMsg(middle))]);
  }

  lemma SizingVisits(t: Table, cells: seq<Cell>)
    requires |cells| == |t|
    ensures Submessages(t, cells) == MessageVisits(t, cells, 0, false, 0)
  {}

  lemma LeafVisits(v: Value)
    ensures forall write: bool :: MessageVisits([LEAF], [Plain(v)], 0, write, 2) == multiset{}
  {
    OneField(LEAF, Plain(v), 2);
  }

  /** A message with one submessage. */
  lemma OneLevel(f: Field, inner: seq<Cell>, depth: nat, sized: multiset<nat>, written: multiset<nat>)
    requires f.ht.Required? && f.at.Static? && f.lt.LSubmessage? && |inner| == |f.lt.fields|
    requires MessageVisits(f.lt.fields, inner, 0, false, depth + 1) == sized
    requires MessageVisits(f.lt.fields, inner, 0, true, depth + 1) == written
    ensures MessageVisits([f], [Plain(VMsg(inner))], 0, false, depth) == multiset{depth + 1} + sized
    ensures MessageVisits([f], [Plain(VMsg(inner))], 0, true, depth)
         == multiset{depth + 1} + sized + (multiset{depth + 1} + written)
  {
    hide MessageVisits;
    var v := VMsg(inner);
    OneField(f, Plain(v), depth);
    assert ItemVisits(f, v, false, depth) == multiset{depth + 1} + sized;
    assert ItemVisits(f, v, true, depth) == multiset{depth + 1} + sized + (multiset{depth + 1} + written);
    assert FieldVisits(f, Plain(v), false, depth) == ItemVisits(f, v, false, depth);
    assert FieldVisits(f, Plain(v), true, depth) == ItemVisits(f, v, true, depth);
  }

  lemma OneField(f: Field, c: Cell, depth: nat)
    ensures forall write: bool :: MessageVisits([f], [c], 0, write, depth) == FieldVisits(f, c, write, depth)
  {
    forall write: bool ensures MessageVisits([f], [c], 0, write, depth) == FieldVisits(f, c, write, depth) {
      assert MessageVisits([f], [c], 1, write, depth) == multiset{};
    }
  }
}
