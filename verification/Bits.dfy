/**
 Bytes, and bitwise operators on non-negative integers, as Go's `int` and JavaScript's `>>> 0`
 arithmetic use them, and the lemmas that turn masks and shifts into arithmetic.
 */
module Bits {

  type Byte = x: int | 0 <= x < 256
  type Bytes = seq<Byte>

  function Pow2(k: nat): (p: nat)
    ensures p > 0
  {
    if k == 0 then 1 else 2 * Pow2(k - 1)
  }

  function And(a: nat, b: nat): nat
    decreases a
  {
    if a == 0 || b == 0 then 0
    else 2 * And(a / 2, b / 2) + (if a % 2 == 1 && b % 2 == 1 then 1 else 0)
  }

  function Or(a: nat, b: nat): nat
    decreases a + b
  {
    if a == 0 then b
    else if b == 0 then a
    else 2 * Or(a / 2, b / 2) + (if a % 2 == 1 || b % 2 == 1 then 1 else 0)
  }

  function Shr(a: nat, k: nat): nat
  {
    if k == 0 then a else Shr(a / 2, k - 1)
  }

  function Shl(a: nat, k: nat): nat
  {
    if k == 0 then a else 2 * Shl(a, k - 1)
  }

  lemma ShlStep(a: nat, k: nat)
    requires k >= 4
    ensures Shl(a, k) == 16 * Shl(a, k - 4)
  {
    assert Shl(a, k) == 2 * Shl(a, k - 1) == 4 * Shl(a, k - 2) == 8 * Shl(a, k - 3);
  }

  lemma ShrStep(a: nat, k: nat)
    requires k >= 4
    ensures Shr(a, k) == Shr(a / 16, k - 4)
  {
    assert Shr(a, k) == Shr(a / 2, k - 1) == Shr(a / 4, k - 2) == Shr(a / 8, k - 3);
  }

  lemma ShlValues(a: nat)
    ensures Shl(a, 4) == 16 * a && Shl(a, 5) == 32 * a && Shl(a, 6) == 64 * a && Shl(a, 7) == 128 * a
    ensures Shl(a, 8) == 0x100 * a && Shl(a, 14) == 0x4000 * a && Shl(a, 16) == 0x1_0000 * a
    ensures Shl(a, 21) == 0x20_0000 * a && Shl(a, 24) == 0x100_0000 * a
  {
    ShlStep(a, 4); ShlStep(a, 5); ShlStep(a, 6); ShlStep(a, 7); ShlStep(a, 8);
    ShlStep(a, 9); ShlStep(a, 10); ShlStep(a, 12); ShlStep(a, 13); ShlStep(a, 14);
    ShlStep(a, 16); ShlStep(a, 17); ShlStep(a, 20); ShlStep(a, 21); ShlStep(a, 24);
  }

  lemma ShrValues(a: nat)
    ensures Shr(a, 4) == a / 16 && Shr(a, 5) == a / 32 && Shr(a, 6) == a / 64 && Shr(a, 7) == a / 128
    ensures Shr(a, 8) == a / 0x100
    ensures Shr(a, 16) == a / 0x100 / 0x100
    ensures Shr(a, 24) == a / 0x100 / 0x100 / 0x100
  {
    ShrStep(a, 4); ShrStep(a, 5); ShrStep(a, 6); ShrStep(a, 7);
    ShrByte(a, 8); ShrByte(a, 16); ShrByte(a / 0x100, 8);
    ShrByte(a, 24); ShrByte(a / 0x100, 16); ShrByte(a / 0x100 / 0x100, 8);
  }

  lemma ShrByte(a: nat, k: nat)
    requires k >= 8
    ensures Shr(a, k) == Shr(a / 0x100, k - 8)
  {
    ShrStep(a, k);
    ShrStep(a / 16, k - 4);
  }

  lemma Pow2Values()
    ensures Pow2(1) == 2 && Pow2(2) == 4 && Pow2(3) == 8 && Pow2(4) == 16 && Pow2(5) == 32
    ensures Pow2(6) == 64 && Pow2(7) == 128 && Pow2(8) == 0x100 && Pow2(14) == 0x4000
    ensures Pow2(16) == 0x1_0000 && Pow2(21) == 0x20_0000 && Pow2(24) == 0x100_0000
  {
  }

  /** Masking with 2^k - 1 keeps the low k bits: what the right shift drops. */
  lemma {:induction false} AndLow(a: nat, k: nat)
    ensures And(a, Pow2(k) - 1) < Pow2(k)
    ensures a == Shl(Shr(a, k), k) + And(a, Pow2(k) - 1)
  {
    if k == 0 {
    } else {
      AndLow(a / 2, k - 1);
    }
  }

  /** Masking with a mask whose low k bits are zero looks only at the bits above them. */
  lemma {:induction false} AndHigh(a: nat, m: nat, k: nat)
    ensures And(a, Shl(m, k)) == Shl(And(Shr(a, k), m), k)
  {
    if k == 0 {
    } else {
      AndHigh(a / 2, m, k - 1);
    }
  }

  /** `|` of fields that do not overlap is addition. */
  lemma {:induction false} OrFields(hi: nat, lo: nat, k: nat)
    requires lo < Pow2(k)
    ensures Or(Shl(hi, k), lo) == Or(lo, Shl(hi, k)) == Shl(hi, k) + lo
  {
    if k == 0 {
    } else {
      OrFields(hi, lo / 2, k - 1);
    }
  }
}
