/** Bit operations on unsigned machine words, written on naturals.
    A word of width `w` is a natural below Pow2(w).  `a & 0x7F` is `a % 128`, `a >> 7` is
    `a / 128`, and `| 0x80` on a 7-bit group is `+ 128`. */
module Bits {

  /** The left shift `x << k`, before any truncation to a word. */
  function Shl(x: nat, k: nat): nat {
    if k == 0 then x else 2 * Shl(x, k - 1)
  }

  function Pow2(k: nat): (p: nat) {
    Shl(1, k)
  }

  /** Bitwise or. */
  function BitOr(a: nat, b: nat): nat
    decreases a + b
  {
    if a == 0 then b
    else if b == 0 then a
    else 2 * BitOr(a / 2, b / 2) + (if a % 2 == 1 || b % 2 == 1 then 1 else 0)
  }

  /** Bitwise exclusive or. */
  function BitXor(a: nat, b: nat): nat
    decreases a + b
  {
    if a == 0 then b
    else if b == 0 then a
    else 2 * BitXor(a / 2, b / 2) + (if a % 2 != b % 2 then 1 else 0)
  }

  /** Bit `i` of the word `w`. */
  predicate Bit(w: nat, i: nat) {
    if i == 0 then w % 2 == 1 else Bit(w / 2, i - 1)
  }

  /** Bits that do not overlap are or-ed by adding. */
  lemma {:induction false} OrOfDisjoint(a: nat, c: nat, k: nat)
    requires a < Pow2(k)
    ensures BitOr(a, Shl(c, k)) == a + Shl(c, k)
  {
    if k > 0 && a > 0 {
      OrOfDisjoint(a / 2, c, k - 1);
    }
  }

  /** Bits that do not overlap are exclusive-or-ed by adding. */
  lemma {:induction false} XorOfDisjoint(a: nat, c: nat, k: nat)
    requires a < Pow2(k)
    ensures BitXor(a, Shl(c, k)) == a + Shl(c, k)
  {
    if k > 0 && a > 0 {
      XorOfDisjoint(a / 2, c, k - 1);
    }
  }

  /** Setting bit `i` sets that bit and no other. */
  lemma {:induction false} OrSetsOneBit(w: nat, i: nat, j: nat)
    ensures Bit(BitOr(w, Pow2(i)), j) <==> Bit(w, j) || i == j
  {
    if i == 0 {
      assert BitOr(w, 1) / 2 == w / 2 by { assert w > 0 ==> BitOr(w / 2, 0) == w / 2; }
      if j == 0 { assert BitOr(w, 1) % 2 == 1; }
    } else if w == 0 {
      if j > 0 { OrSetsOneBit(0, i - 1, j - 1); ZeroHasNoBits(j); }
    } else {
      assert BitOr(w, Pow2(i)) / 2 == BitOr(w / 2, Pow2(i - 1));
      if j > 0 { OrSetsOneBit(w / 2, i - 1, j - 1); }
    }
  }

  lemma {:induction false} ZeroHasNoBits(j: nat)
    ensures !Bit(0, j)
  {
    if j > 0 { ZeroHasNoBits(j - 1); }
  }

  /** Oring bit `i` into an `n`-bit word leaves an `n`-bit word. */
  lemma {:induction false} OrStaysBelow(w: nat, i: nat, n: nat)
    requires i < n && w < Pow2(n)
    ensures BitOr(w, Pow2(i)) < Pow2(n)
  {
    if w > 0 {
      if i > 0 { OrStaysBelow(w / 2, i - 1, n - 1); }
      else { assert BitOr(w / 2, 0) == w / 2; }
    } else {
      Pow2Increases(i, n);
    }
  }

  lemma {:induction false} Pow2Increases(i: nat, n: nat)
    requires i < n
    ensures 0 < Pow2(i) < Pow2(n)
  {
    if i > 0 { Pow2Increases(i - 1, n - 1); }
    else if n > 1 { Pow2Increases(0, n - 1); }
  }

  /** The low `n` bits of `w` are all set. */
  ghost predicate LowBitsSet(w: nat, n: nat) {
    forall i: nat :: i < n ==> Bit(w, i)
  }

  lemma LowBitsOfHalf(w: nat, n: nat)
    requires n > 0
    ensures LowBitsSet(w, n) <==> w % 2 == 1 && LowBitsSet(w / 2, n - 1)
  {
    var h := w / 2;
    if LowBitsSet(w, n) {
      assert Bit(w, 0);
      forall i: nat | i < n - 1 ensures Bit(h, i) { assert Bit(w, i + 1); }
    }
    if w % 2 == 1 && LowBitsSet(h, n - 1) {
      forall i: nat | i < n ensures Bit(w, i) {
        if i > 0 { var j: nat := i - 1; assert Bit(h, j); }
      }
    }
  }

  /** A word equals the mask of its low `n` bits exactly when those bits are all set and
      no other bit is. */
  lemma {:induction false} MaskHasAllBits(w: nat, n: nat)
    ensures w == Pow2(n) - 1 <==> w < Pow2(n) && LowBitsSet(w, n)
  {
    if n > 0 {
      MaskHasAllBits(w / 2, n - 1);
      LowBitsOfHalf(w, n);
    }
  }

  /** A word with no bit at or above `n` is below 2^n. */
  lemma {:induction false} HighBitsClear(w: nat, n: nat, width: nat)
    requires n <= width && w < Pow2(width)
    requires forall i: nat :: n <= i < width ==> !Bit(w, i)
    ensures w < Pow2(n)
  {
    var h := w / 2;
    if n > 0 {
      forall i: nat | n - 1 <= i < width - 1 ensures !Bit(h, i) { assert !Bit(w, i + 1); }
      HighBitsClear(h, n - 1, width - 1);
    } else if width > 0 {
      assert !Bit(w, 0);
      forall i: nat | 0 <= i < width - 1 ensures !Bit(h, i) { assert !Bit(w, i + 1); }
      HighBitsClear(h, 0, width - 1);
    }
  }
}
