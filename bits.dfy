/**
 * Bitwise operations on natural numbers, written out bit by bit from the
 * least significant end, and the facts about masks that the broadcast
 * address rests on.
 */
module Bits {

  function Pow2(k: nat): (p: nat)
    ensures p >= 1
  {
    if k == 0 then 1 else 2 * Pow2(k - 1)
  }

  /** `x | y`. */
  function Or(x: nat, y: nat): nat
    decreases x + y
  {
    if x == 0 && y == 0 then 0
    else 2 * Or(x / 2, y / 2) + (if x % 2 == 1 || y % 2 == 1 then 1 else 0)
  }

  /** `x & y`. */
  function And(x: nat, y: nat): nat
    decreases x + y
  {
    if x == 0 || y == 0 then 0
    else 2 * And(x / 2, y / 2) + (if x % 2 == 1 && y % 2 == 1 then 1 else 0)
  }

  /** The all-ones value of width `k` less `m`: `~m` on `k` bits. */
  function Not(m: nat, k: nat): (c: nat)
    requires m < Pow2(k)
    ensures c < Pow2(k)
  {
    Pow2(k) - 1 - m
  }

  /** Every number splits into its lowest bit and the rest, under both operations. */
  lemma Step(x: nat, y: nat)
    ensures Or(x, y) == 2 * Or(x / 2, y / 2) + (if x % 2 == 1 || y % 2 == 1 then 1 else 0)
    ensures And(x, y) == 2 * And(x / 2, y / 2) + (if x % 2 == 1 && y % 2 == 1 then 1 else 0)
  {
    if x == 0 {
      assert And(x / 2, y / 2) == 0;
    }
    if y == 0 {
      assert And(x / 2, y / 2) == 0;
    }
  }

  /** `~m` on `k` bits, split the same way. */
  lemma NotStep(m: nat, k: nat)
    requires k > 0 && m < Pow2(k)
    ensures m / 2 < Pow2(k - 1)
    ensures Not(m, k) / 2 == Not(m / 2, k - 1)
    ensures Not(m, k) % 2 == 1 - m % 2
  {
  }

  /** Or of two `k`-bit values is a `k`-bit value. */
  lemma {:induction false} OrBound(x: nat, y: nat, k: nat)
    requires x < Pow2(k) && y < Pow2(k)
    ensures Or(x, y) < Pow2(k)
  {
    if k > 0 {
      Step(x, y);
      OrBound(x / 2, y / 2, k - 1);
    }
  }

  /**
   * Setting every bit outside the mask `m` in `a` (`a | ~m`) keeps the bits
   * inside the mask and leaves no bit outside it clear.
   */
  lemma {:induction false} SetOutsideMask(a: nat, m: nat, k: nat)
    requires a < Pow2(k) && m < Pow2(k)
    ensures Or(a, Not(m, k)) < Pow2(k)
    ensures And(Or(a, Not(m, k)), m) == And(a, m)
    ensures Or(Or(a, Not(m, k)), m) == Pow2(k) - 1
  {
    OrBound(a, Not(m, k), k);
    if k > 0 {
      var c := Not(m, k);
      var r := Or(a, c);
      NotStep(m, k);
      Step(a, c);
      SetOutsideMask(a / 2, m / 2, k - 1);
      assert r / 2 == Or(a / 2, c / 2) && r % 2 == (if a % 2 == 1 || c % 2 == 1 then 1 else 0);
      Step(r, m);
      Step(a, m);
    }
  }

  /** A value is fixed by the bits it has inside the mask once all bits outside are set. */
  lemma {:induction false} DeterminedByMask(x: nat, y: nat, m: nat, k: nat)
    requires x < Pow2(k) && y < Pow2(k) && m < Pow2(k)
    requires And(x, m) == And(y, m)
    requires Or(x, m) == Pow2(k) - 1 && Or(y, m) == Pow2(k) - 1
    ensures x == y
  {
    if k > 0 {
      Step(x, m);
      Step(y, m);
      DeterminedByMask(x / 2, y / 2, m / 2, k - 1);
    }
  }

  /** Against the all-ones mask of width `k`, Or gives all ones and And gives the value back. */
  lemma {:induction false} AllOnesMask(x: nat, k: nat)
    requires x < Pow2(k)
    ensures Or(x, Pow2(k) - 1) == Pow2(k) - 1
    ensures And(x, Pow2(k) - 1) == x
  {
    if k > 0 {
      Step(x, Pow2(k) - 1);
      AllOnesMask(x / 2, k - 1);
    }
  }

  /** Or with zero changes nothing. */
  lemma {:induction false} OrZero(x: nat)
    ensures Or(x, 0) == x
    decreases x
  {
    if x > 0 {
      OrZero(x / 2);
    }
  }
}
