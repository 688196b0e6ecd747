/**
 * Python's `|`, `&` and `<<` on non-negative integers, which the encoders of
 * the 8-register assembler use to pack register numbers and codes into bytes.
 * The lemmas say when those operators are plain arithmetic: an `|` of two
 * values whose bits do not meet is their sum, and an `&` with a run of low
 * one-bits is a remainder.
 */
module Bits {

  function Pow2(k: nat): (p: nat)
    ensures p >= 1
  {
    if k == 0 then 1 else 2 * Pow2(k - 1)
  }

  /** `x | y`, bit by bit from the lowest. */
  function Or(x: nat, y: nat): nat
    decreases x + y
  {
    if x == 0 then y
    else if y == 0 then x
    else 2 * Or(x / 2, y / 2) + (if x % 2 == 1 || y % 2 == 1 then 1 else 0)
  }

  /** `x & y`, bit by bit from the lowest. */
  function And(x: nat, y: nat): nat
    decreases x + y
  {
    if x == 0 || y == 0 then 0
    else 2 * And(x / 2, y / 2) + (if x % 2 == 1 && y % 2 == 1 then 1 else 0)
  }

  /** `x << k`: Python integers do not overflow. */
  function Shl(x: nat, k: nat): nat {
    x * Pow2(k)
  }

  /** Fields that occupy different bits are packed by `|` as by `+`. */
  lemma {:induction false} OrDisjoint(q: nat, y: nat, k: nat)
    requires y < Pow2(k)
    ensures Or(Shl(q, k), y) == Shl(q, k) + y
    decreases k
  {
    var x := Shl(q, k);
    if x != 0 && y != 0 {
      assert k >= 1;
      var p := Pow2(k - 1);
      assert x == 2 * (q * p);
      assert x / 2 == Shl(q, k - 1) && x % 2 == 0;
      assert y / 2 < p;
      OrDisjoint(q, y / 2, k - 1);
    }
  }

  /**
   * Masking with `2^k - 1` keeps the low `k` bits: what is left over is a
   * multiple of `2^k`.
   */
  lemma {:induction false} AndMask(x: nat, k: nat) returns (q: nat)
    ensures And(x, Pow2(k) - 1) < Pow2(k)
    ensures x == Shl(q, k) + And(x, Pow2(k) - 1)
    decreases k
  {
    if k == 0 {
      q := x;
    } else if x == 0 {
      q := 0;
    } else {
      var p := Pow2(k - 1);
      assert (Pow2(k) - 1) / 2 == p - 1 && (Pow2(k) - 1) % 2 == 1;
      var h := AndMask(x / 2, k - 1);
      q := h;
      assert x == 2 * (x / 2) + x % 2;
      assert Shl(q, k) == 2 * Shl(h, k - 1);
    }
  }

  /** `OrDisjoint` for a high part given already shifted. */
  lemma OrFields(hi: nat, lo: nat, k: nat)
    requires hi % Pow2(k) == 0 && lo < Pow2(k)
    ensures Or(hi, lo) == hi + lo
  {
    var q := hi / Pow2(k);
    assert hi == Shl(q, k);
    OrDisjoint(q, lo, k);
  }
}
