/** Bitwise operators of unsigned words, as C++ has them, on natural numbers. */
module Bits {
  import opened Powers

  function Or(a: nat, b: nat): nat {
    if a == 0 && b == 0 then 0 else (if a % 2 == 1 || b % 2 == 1 then 1 else 0) + 2 * Or(a / 2, b / 2)
  }

  function And(a: nat, b: nat): nat {
    if a == 0 || b == 0 then 0 else (if a % 2 == 1 && b % 2 == 1 then 1 else 0) + 2 * And(a / 2, b / 2)
  }

  function ShiftLeft(a: nat, e: nat): nat {
    a * Pow2(e)
  }

  lemma ShiftLeftHalves(b: nat, e: nat)
    requires e > 0
    ensures ShiftLeft(b, e) % 2 == 0 && ShiftLeft(b, e) / 2 == ShiftLeft(b, e - 1)
  {
    assert ShiftLeft(b, e) == 2 * ShiftLeft(b, e - 1) by {
      MulAssociates(b, 2, Pow2(e - 1));
    }
  }

  /** Or with a word shifted clear of the other is the sum. */
  lemma {:induction false} OrClear(a: nat, b: nat, e: nat)
    requires a < Pow2(e)
    ensures Or(a, ShiftLeft(b, e)) == a + ShiftLeft(b, e)
    decreases e
  {
    if e == 0 {
      OrZero(b);
      assert ShiftLeft(b, 0) == b;
    } else {
      ShiftLeftHalves(b, e);
      OrClear(a / 2, b, e - 1);
    }
  }

  lemma {:induction false} OrZero(b: nat)
    ensures Or(0, b) == b
  {
    if b > 0 {
      OrZero(b / 2);
    }
  }

  lemma HalveFirst(a: nat, p: nat)
    requires p > 0
    ensures a / (2 * p) == a / 2 / p
  {
    var q, r := a / 2 / p, a / 2 % p;
    assert a / 2 == q * p + r;
    assert 2 * (q * p) == q * (2 * p);
    assert a == q * (2 * p) + (2 * r + a % 2);
    BlockPosition(q, 2 * p, 2 * r + a % 2);
  }

  /** And with a single bit keeps that bit. */
  lemma {:induction false} AndBit(a: nat, e: nat)
    ensures And(a, Pow2(e)) == if a / Pow2(e) % 2 == 1 then Pow2(e) else 0
    decreases e
  {
    if e == 0 {
      assert And(a / 2, 0) == 0;
    } else if a != 0 {
      AndBit(a / 2, e - 1);
      HalveFirst(a, Pow2(e - 1));
      assert And(a, Pow2(e)) == 2 * And(a / 2, Pow2(e - 1));
    }
  }
}
