/**
 Bits of 32-bit status words: the masks of CyU3PDmaBufMgrSetStatus (src/cyfx/cyfx_tx.c).
 A word is its unsigned value; the bitwise operators are defined digit by digit.
 */
module DmaBits {

  /** 1 << i */
  function Pow2(i: nat): (r: nat)
    ensures 0 < r
  {
    if i == 0 then 1 else 2 * Pow2(i - 1)
  }

  predicate Bit(w: nat, i: nat) {
    if i == 0 then w % 2 == 1 else Bit(w / 2, i - 1)
  }

  function And(a: nat, b: nat): nat {
    if a == 0 || b == 0 then 0 else 2 * And(a / 2, b / 2) + if a % 2 == 1 && b % 2 == 1 then 1 else 0
  }

  function Or(a: nat, b: nat): nat
    decreases a + b
  {
    if a == 0 || b == 0 then a + b else 2 * Or(a / 2, b / 2) + if a % 2 == 1 || b % 2 == 1 then 1 else 0
  }

  /** a & ~b */
  function AndNot(a: nat, b: nat): nat {
    if a == 0 || b == 0 then a else 2 * AndNot(a / 2, b / 2) + if a % 2 == 1 && b % 2 == 0 then 1 else 0
  }

  /** A word with ones at positions [s, e), computed as the source does. */
  function Mask(s: nat, e: nat): int
    requires s <= e <= 32
  {
    (if e == 32 then 0xFFFF_FFFF else Pow2(e) - 1) - (Pow2(s) - 1)
  }

  // ----- the operators bit by bit -----

  lemma {:induction false} ZeroBits(i: nat)
    ensures !Bit(0, i)
  {
    if 0 < i { ZeroBits(i - 1); }
  }

  lemma {:induction false} Digits(half: nat, d: nat)
    requires d < 2
    ensures (2 * half + d) / 2 == half && (2 * half + d) % 2 == d
  {
  }

  lemma {:induction false} OrBits(a: nat, b: nat, i: nat)
    ensures Bit(Or(a, b), i) <==> Bit(a, i) || Bit(b, i)
  {
    if a == 0 || b == 0 {
      ZeroBits(i);
    } else {
      var d := if a % 2 == 1 || b % 2 == 1 then 1 else 0;
      Digits(Or(a / 2, b / 2), d);
      assert Or(a, b) == 2 * Or(a / 2, b / 2) + d;
      if 0 < i { OrBits(a / 2, b / 2, i - 1); }
    }
  }

  lemma {:induction false} AndNotBits(a: nat, b: nat, i: nat)
    ensures Bit(AndNot(a, b), i) <==> Bit(a, i) && !Bit(b, i)
  {
    if a == 0 || b == 0 {
      ZeroBits(i);
    } else {
      var d := if a % 2 == 1 && b % 2 == 0 then 1 else 0;
      Digits(AndNot(a / 2, b / 2), d);
      assert AndNot(a, b) == 2 * AndNot(a / 2, b / 2) + d;
      if 0 < i { AndNotBits(a / 2, b / 2, i - 1); }
    }
  }

  /** The test `word & (1 << i)` reads bit i. */
  lemma {:induction false} AndOneBit(w: nat, i: nat)
    ensures And(w, Pow2(i)) != 0 <==> Bit(w, i)
  {
    if w == 0 {
      ZeroBits(i);
    } else if 0 < i {
      assert Pow2(i) / 2 == Pow2(i - 1) && Pow2(i) % 2 == 0;
      AndOneBit(w / 2, i - 1);
    } else {
      assert And(w / 2, 0) == 0;
      assert Pow2(0) / 2 == 0;
    }
  }

  /** The operators stay within the word size. */
  lemma {:induction false} WordSize(a: nat, b: nat, n: nat)
    requires a < Pow2(n) && b < Pow2(n)
    ensures Or(a, b) < Pow2(n) && AndNot(a, b) < Pow2(n)
  {
    if a != 0 && b != 0 {
      WordSize(a / 2, b / 2, n - 1);
    }
  }

  // ----- masks -----

  lemma {:induction false} DifferenceBits(s: nat, e: nat, i: nat)
    requires s <= e
    ensures Pow2(s) <= Pow2(e) && (Bit(Pow2(e) - Pow2(s), i) <==> s <= i < e)
  {
    if s == e {
      ZeroBits(i);
    } else if s == 0 {
      LowBits(e, i);
    } else {
      DifferenceBits(s - 1, e - 1, if 0 < i then i - 1 else 0);
      assert (Pow2(e) - Pow2(s)) / 2 == Pow2(e - 1) - Pow2(s - 1);
      assert (Pow2(e) - Pow2(s)) % 2 == 0;
    }
  }

  lemma {:induction false} LowBits(e: nat, i: nat)
    ensures Bit(Pow2(e) - 1, i) <==> i < e
  {
    if e == 0 {
      ZeroBits(i);
    } else {
      assert (Pow2(e) - 1) / 2 == Pow2(e - 1) - 1 && (Pow2(e) - 1) % 2 == 1;
      if 0 < i { LowBits(e - 1, i - 1); }
    }
  }

  lemma {:induction false} WordModulus()
    ensures Pow2(32) == 0x1_0000_0000
  {
    assert Pow2(8) == 0x100;
    assert Pow2(16) == 0x1_0000;
    assert Pow2(24) == 0x100_0000;
  }

  /** The mask is a 32-bit value with exactly the bits [s, e). */
  lemma {:induction false} MaskBits(s: nat, e: nat, i: nat)
    requires s <= e <= 32
    ensures 0 <= Mask(s, e) < Pow2(32)
    ensures Bit(Mask(s, e), i) <==> s <= i < e
  {
    WordModulus();
    DifferenceBits(s, e, i);
    DifferenceBits(e, 32, i);
    assert Mask(s, e) == Pow2(e) - Pow2(s);
  }
}
