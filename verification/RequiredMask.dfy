/** The bitmask of required fields in pb_decode_noinit: words of 32 bits, one bit a field. */
module RequiredMask {
  import opened Bits
  import opened Config
  import opened Message

  /** The mask holds exactly the indices in `seen`. */
  ghost predicate Holds(words: seq<nat>, seen: set<nat>) {
    forall j :: 0 <= j < |words| ==> WordHolds(words[j], j, seen)
  }

  ghost predicate WordHolds(word: nat, j: nat, seen: set<nat>) {
    word < Pow2(32) && forall b: nat :: b < 32 ==> (Bit(word, b) <==> 32 * j + b in seen)
  }

  /** A mask with nothing seen. */
  method NewMask() returns (words: array<nat>)
    ensures fresh(words) && words.Length == (PB_MAX_REQUIRED_FIELDS + 31) / 32
    ensures Holds(words[..], {})
  {
    words := new nat[(PB_MAX_REQUIRED_FIELDS + 31) / 32](_ => 0);
    assert Pow2(32) > 0 by { Pow2Increases(0, 32); }
    forall b: nat ensures !Bit(0, b) { ZeroHasNoBits(b); }
    forall j | 0 <= j < words.Length ensures WordHolds(words[..][j], j, {}) { assert words[j] == 0; }
  }

  /** fields_seen[index >> 5] |= 1 << (index & 31) */
  method Mark(words: array<nat>, index: nat, ghost seen: set<nat>)
    requires Holds(words[..], seen)
    requires index / 32 < words.Length
    modifies words
    ensures Holds(words[..], seen + {index})
  {
    var tmp := Pow2(index % 32);
    var w := words[index / 32];
    assert WordHolds(words[..][index / 32], index / 32, seen);
    OrStaysBelow(w, index % 32, 32);
    forall b: nat | b < 32 ensures Bit(BitOr(w, tmp), b) <==> 32 * (index / 32) + b in seen + {index} {
      OrSetsOneBit(w, index % 32, b);
    }
    words[index / 32] := BitOr(w, tmp);
    forall j | 0 <= j < words.Length ensures WordHolds(words[..][j], j, seen + {index}) {
      if j != index / 32 { assert old(WordHolds(words[..][j], j, seen)); }
    }
  }

  /** The final check: it passes exactly when the first `count` indices have all been seen. */
  method Check(words: array<nat>, count: nat, ghost seen: set<nat>) returns (ok: bool)
    requires Holds(words[..], seen) && count <= 32 * words.Length
    requires count > 0 ==> forall i :: i in seen ==> i < count
    ensures ok <==> forall i: nat :: i < count ==> i in seen
  {
    if count > 0 {
      var i := 0;
      while i < count / 32
        invariant i <= count / 32
        invariant forall n: nat :: n < 32 * i ==> n in seen
      {
        assert WordHolds(words[..][i], i, seen);
        FullWord(words[i], i, 32, seen);
        if words[i] != Pow2(32) - 1 { return false; }
        i := i + 1;
      }
      if count % 32 != 0 {
        assert WordHolds(words[..][count / 32], count / 32, seen);
        FullWord(words[count / 32], count / 32, count % 32, seen);
        if words[count / 32] != Pow2(count % 32) - 1 { return false; }
      }
    }
    return true;
  }

  /** A word equals the mask of its low `n` bits exactly when the `n` indices from 32 * j on
      have all been seen, provided none after them has. */
  lemma FullWord(word: nat, j: nat, n: nat, seen: set<nat>)
    requires WordHolds(word, j, seen) && n <= 32
    requires forall i :: 32 * j + n <= i < 32 * j + 32 ==> i !in seen
    ensures word == Pow2(n) - 1 <==> forall i: nat :: 32 * j <= i < 32 * j + n ==> i in seen
  {
    HighBitsClear(word, n, 32);
    MaskHasAllBits(word, n);
    if LowBitsSet(word, n) {
      forall i: nat | 32 * j <= i < 32 * j + n ensures i in seen { assert Bit(word, i - 32 * j); }
    }
    if forall i: nat :: 32 * j <= i < 32 * j + n ==> i in seen {
      forall b: nat | b < n ensures Bit(word, b) { assert 32 * j + b in seen; }
    }
  }

  // ----- From indices to fields

  /** The indices of the required fields in `fields`, as far as the mask tracks them. */
  ghost function Indices(t: Table, fields: set<nat>): (r: set<nat>)
    ensures forall i :: i in r <==> exists k :: k in fields && IsTracked(t, k) && RequiredBefore(t, k) == i
  {
    set k | k in fields && IsTracked(t, k) :: RequiredBefore(t, k)
  }

  predicate IsTracked(t: Table, k: nat) {
    k < |t| && t[k].ht.Required? && RequiredBefore(t, k) < PB_MAX_REQUIRED_FIELDS
  }

  /** Seeing one more required field adds its index, if the mask tracks it. */
  lemma IndicesOfOneMore(t: Table, fields: set<nat>, k: nat)
    requires k < |t| && t[k].ht.Required?
    ensures Indices(t, fields + {k}) ==
            if RequiredBefore(t, k) < PB_MAX_REQUIRED_FIELDS then Indices(t, fields) + {RequiredBefore(t, k)}
            else Indices(t, fields)
  {}

  lemma {:induction false} RequiredBeforeIncreases(t: Table, j: nat, k: nat)
    requires j <= k <= |t|
    ensures RequiredBefore(t, j) <= RequiredBefore(t, k)
    ensures j < k && t[j].ht.Required? ==> RequiredBefore(t, j) < RequiredBefore(t, k)
  {
    if j < k { RequiredBeforeIncreases(t, j, k - 1); }
  }

  /** Every index below the number of required fields belongs to one of them. */
  lemma {:induction false} FieldOfIndex(t: Table, n: nat, i: nat) returns (k: nat)
    requires n <= |t| && i < RequiredBefore(t, n)
    ensures k < n && t[k].ht.Required? && RequiredBefore(t, k) == i
  {
    if i < RequiredBefore(t, n - 1) { k := FieldOfIndex(t, n - 1, i); } else { k := n - 1; }
  }

  function Min(a: nat, b: nat): nat {
    if a < b then a else b
  }

  /** All tracked indices have been seen exactly when all tracked required fields have. */
  lemma IndicesCoverFields(t: Table, fields: set<nat>)
    ensures (forall i: nat :: i < Min(RequiredBefore(t, |t|), PB_MAX_REQUIRED_FIELDS) ==> i in Indices(t, fields)) <==>
            (forall k :: 0 <= k < |t| && t[k].ht.Required? && RequiredBefore(t, k) < PB_MAX_REQUIRED_FIELDS ==>
                k in fields)
    ensures forall i :: i in Indices(t, fields) ==> i < Min(RequiredBefore(t, |t|), PB_MAX_REQUIRED_FIELDS)
  {
    forall i | i in Indices(t, fields) ensures i < Min(RequiredBefore(t, |t|), PB_MAX_REQUIRED_FIELDS) {
      var k :| k in fields && IsTracked(t, k) && RequiredBefore(t, k) == i;
      RequiredBeforeIncreases(t, k, |t|);
    }
    if forall i: nat :: i < Min(RequiredBefore(t, |t|), PB_MAX_REQUIRED_FIELDS) ==> i in Indices(t, fields) {
      forall k | 0 <= k < |t| && t[k].ht.Required?
          && RequiredBefore(t, k) < PB_MAX_REQUIRED_FIELDS ensures k in fields {
        RequiredBeforeIncreases(t, k, |t|);
        assert RequiredBefore(t, k) in Indices(t, fields);
        var j :| j in fields && IsTracked(t, j) && RequiredBefore(t, j) == RequiredBefore(t, k);
        if j < k { RequiredBeforeIncreases(t, j, k); }
        if k < j { RequiredBeforeIncreases(t, k, j); }
      }
    }
    if forall k :: 0 <= k < |t| && t[k].ht.Required? && RequiredBefore(t, k) < PB_MAX_REQUIRED_FIELDS ==> k in fields {
      forall i: nat | i < Min(RequiredBefore(t, |t|), PB_MAX_REQUIRED_FIELDS) ensures i in Indices(t, fields) {
        var k := FieldOfIndex(t, |t|, i);
        assert k in fields && IsTracked(t, k);
      }
    }
  }

  /** The index of a required field is the number of required fields in front of it. */
  lemma {:induction false} IndexCounts(t: Table, k: nat)
    requires k <= |t|
    ensures RequiredBefore(t, k) == |set j | 0 <= j < k && t[j].ht.Required?|
  {
    var s := set j | 0 <= j < k && t[j].ht.Required?;
    if k == 0 {
      assert s == {};
    } else {
      var before := set j | 0 <= j < k - 1 && t[j].ht.Required?;
      IndexCounts(t, k - 1);
      assert s == before + if t[k - 1].ht.Required? then {k - 1} else {};
    }
  }
}
