/** Commutative rings given by their operations, and the few derived laws the transform needs. */
module Rings {

  /**
   * The operations of a ring. Every law is a predicate over the elements it speaks of, so a
   * proof instantiates exactly the laws it names.
   */
  datatype Ring<!T(!new)> = Ring(zero: T, one: T, add: (T, T) -> T, neg: T -> T, mul: (T, T) -> T) {

    ghost predicate AddCommutes(a: T, b: T) { add(a, b) == add(b, a) }
    ghost predicate AddAssociates(a: T, b: T, c: T) { add(add(a, b), c) == add(a, add(b, c)) }
    ghost predicate ZeroIsNeutral(a: T) { add(a, zero) == a }
    ghost predicate NegCancels(a: T) { add(a, neg(a)) == zero }
    ghost predicate MulCommutes(a: T, b: T) { mul(a, b) == mul(b, a) }
    ghost predicate MulAssociates(a: T, b: T, c: T) { mul(mul(a, b), c) == mul(a, mul(b, c)) }
    ghost predicate OneIsNeutral(a: T) { mul(one, a) == a }
    ghost predicate Distributes(a: T, b: T, c: T) { mul(a, add(b, c)) == add(mul(a, b), mul(a, c)) }

    ghost predicate Lawful() {
      && (forall a, b :: AddCommutes(a, b))
      && (forall a, b, c :: AddAssociates(a, b, c))
      && (forall a :: ZeroIsNeutral(a))
      && (forall a :: NegCancels(a))
      && (forall a, b :: MulCommutes(a, b))
      && (forall a, b, c :: MulAssociates(a, b, c))
      && (forall a :: OneIsNeutral(a))
      && (forall a, b, c :: Distributes(a, b, c))
    }

    function Sub(a: T, b: T): T { add(a, neg(b)) }

    function Pow(a: T, e: nat): T {
      if e == 0 then one else mul(a, Pow(a, e - 1))
    }

    lemma AddAssoc(a: T, b: T, c: T)
      requires Lawful()
      ensures add(add(a, b), c) == add(a, add(b, c))
    {
      assert AddAssociates(a, b, c);
    }

    lemma AddComm(a: T, b: T)
      requires Lawful()
      ensures add(a, b) == add(b, a)
    {
      assert AddCommutes(a, b);
    }

    lemma AddZero(a: T)
      requires Lawful()
      ensures add(a, zero) == a && add(zero, a) == a
    {
      assert ZeroIsNeutral(a);
      assert AddCommutes(a, zero);
    }

    lemma MulAssoc(a: T, b: T, c: T)
      requires Lawful()
      ensures mul(mul(a, b), c) == mul(a, mul(b, c))
    {
      assert MulAssociates(a, b, c);
    }

    lemma MulComm(a: T, b: T)
      requires Lawful()
      ensures mul(a, b) == mul(b, a)
    {
      assert MulCommutes(a, b);
    }

    lemma MulOne(a: T)
      requires Lawful()
      ensures mul(one, a) == a && mul(a, one) == a
    {
      assert OneIsNeutral(a);
      assert MulCommutes(a, one);
    }

    lemma Distrib(a: T, b: T, c: T)
      requires Lawful()
      ensures mul(a, add(b, c)) == add(mul(a, b), mul(a, c))
    {
      assert Distributes(a, b, c);
    }

    /** The negative of an element is the only one that cancels it. */
    lemma NegUnique(a: T, b: T)
      requires Lawful() && add(a, b) == zero
      ensures b == neg(a)
    {
      assert NegCancels(a);
      AddZero(b);
      AddAssoc(b, a, neg(a));
      AddComm(b, a);
      AddZero(neg(a));
    }

    lemma MulZero(a: T)
      requires Lawful()
      ensures mul(a, zero) == zero && mul(zero, a) == zero
    {
      var z := mul(a, zero);
      AddZero(zero);
      Distrib(a, zero, zero);
      assert NegCancels(z);
      AddAssoc(z, z, neg(z));
      AddZero(z);
      MulComm(a, zero);
    }

    lemma NegMul(a: T, b: T)
      requires Lawful()
      ensures mul(neg(a), b) == neg(mul(a, b))
    {
      assert NegCancels(a);
      MulComm(neg(a), b);
      MulComm(a, b);
      Distrib(b, a, neg(a));
      MulZero(b);
      NegUnique(mul(a, b), mul(neg(a), b));
    }

    lemma NegSquare(a: T)
      requires Lawful()
      ensures mul(neg(a), neg(a)) == mul(a, a)
    {
      NegMul(a, neg(a));
      MulComm(a, neg(a));
      NegMul(a, a);
      var s := mul(a, a);
      assert NegCancels(s);
      AddComm(s, neg(s));
      NegUnique(neg(s), s);
    }

    lemma {:induction false} PowAdd(a: T, d: nat, e: nat)
      requires Lawful()
      ensures Pow(a, d + e) == mul(Pow(a, d), Pow(a, e))
    {
      if d == 0 {
        MulOne(Pow(a, e));
      } else {
        PowAdd(a, d - 1, e);
        MulAssoc(a, Pow(a, d - 1), Pow(a, e));
      }
    }

    lemma {:induction false} PowOfSquare(a: T, e: nat)
      requires Lawful()
      ensures Pow(mul(a, a), e) == mul(Pow(a, e), Pow(a, e))
    {
      if e == 0 {
        MulOne(one);
      } else {
        PowOfSquare(a, e - 1);
        var p := Pow(a, e - 1);
        MulAssoc(mul(a, a), p, p);
        MulAssoc(a, a, p);
        MulComm(mul(a, p), p);
        MulAssoc(a, mul(a, p), p);
        MulAssoc(a, p, mul(a, p));
      }
    }

    lemma {:induction false} PowOfPow(a: T, k: nat, e: nat)
      requires Lawful()
      ensures Pow(Pow(a, k), e) == Pow(a, e * k)
    {
      if e > 0 {
        PowOfPow(a, k, e - 1);
        PowAdd(a, k, (e - 1) * k);
        assert k + (e - 1) * k == e * k;
      }
    }
  }
}
