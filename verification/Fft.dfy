/**
 * The in-place radix-2 transform: reordering by a reversed-carry counter, then butterflies
 * with a running twiddle, against the defining sum of the discrete Fourier transform.
 */
module Fft {
  import opened Powers
  import opened Rings

  // ---- Specification ----

  /** Sum over j from lo of x[j] * w^(j*k), added from the left. */
  function DftFrom<T(!new)>(r: Ring<T>, x: seq<T>, w: T, k: nat, lo: nat): T
    requires lo <= |x|
    decreases |x| - lo
  {
    if lo == |x| then r.zero
    else r.add(r.mul(x[lo], r.Pow(w, lo * k)), DftFrom(r, x, w, k, lo + 1))
  }

  /** The k-th output of the transform of x with root w. */
  function Dft<T(!new)>(r: Ring<T>, x: seq<T>, w: T, k: nat): T {
    DftFrom(r, x, w, k, 0)
  }

  /**
   * The roots the stages use: root(s) belongs to blocks of length 2^s. The root of length 2 is
   * minus one and every further root squares to the one before.
   */
  ghost predicate StageRoots<T(!new)>(r: Ring<T>, root: nat -> T, m: nat) {
    && (m >= 1 ==> root(1) == r.neg(r.one))
    && (forall s: nat | 1 <= s < m :: r.mul(root(s + 1), root(s + 1)) == root(s))
  }

  /** root(s)^(2^(s-1)) = -1: half a turn of every stage's root is minus one. */
  lemma {:induction false} HalfTurn<T(!new)>(r: Ring<T>, root: nat -> T, m: nat, s: nat)
    requires r.Lawful() && StageRoots(r, root, m) && 1 <= s <= m
    ensures r.Pow(root(s), Pow2(s - 1)) == r.neg(r.one)
  {
    if s == 1 {
      r.MulOne(root(1));
      assert r.Pow(root(1), 1) == r.mul(root(1), r.Pow(root(1), 0));
    } else {
      HalfTurn(r, root, m, s - 1);
      var h := Pow2(s - 2);
      r.PowOfSquare(root(s), h);
      r.PowAdd(root(s), h, h);
    }
  }

  // ---- Decimation in time ----

  function At<T(!new)>(r: Ring<T>, x: seq<T>, i: nat): T {
    if i < |x| then x[i] else r.zero
  }

  /** Value at z of the polynomial with coefficients x[off], x[off + stride], ... (len of them). */
  function Eval<T(!new)>(r: Ring<T>, x: seq<T>, off: nat, stride: nat, len: nat, z: T): T
    decreases len
  {
    if len == 0 then r.zero
    else r.add(At(r, x, off), r.mul(z, Eval(r, x, off + stride, stride, len - 1, z)))
  }

  /** f0 + z*(f1 + z*(a + z*b)) regrouped by even and odd powers. */
  lemma HornerPair<T(!new)>(r: Ring<T>, f0: T, f1: T, z: T, a: T, b: T)
    requires r.Lawful()
    ensures r.add(f0, r.mul(z, r.add(f1, r.mul(z, r.add(a, r.mul(z, b))))))
         == r.add(r.add(f0, r.mul(r.mul(z, z), a)), r.mul(z, r.add(f1, r.mul(r.mul(z, z), b))))
  {
    var zz := r.mul(z, z);
    var inner := r.add(a, r.mul(z, b));
    calc {
      r.mul(z, r.add(f1, r.mul(z, inner)));
      { r.Distrib(z, f1, r.mul(z, inner)); r.MulAssoc(z, z, inner); }
      r.add(r.mul(z, f1), r.mul(zz, inner));
      { r.Distrib(zz, a, r.mul(z, b)); }
      r.add(r.mul(z, f1), r.add(r.mul(zz, a), r.mul(zz, r.mul(z, b))));
      { r.MulComm(zz, r.mul(z, b)); r.MulAssoc(z, b, zz); r.MulComm(b, zz); }
      r.add(r.mul(z, f1), r.add(r.mul(zz, a), r.mul(z, r.mul(zz, b))));
      { r.AddAssoc(r.mul(z, f1), r.mul(zz, a), r.mul(z, r.mul(zz, b)));
        r.AddComm(r.mul(z, f1), r.mul(zz, a));
        r.AddAssoc(r.mul(zz, a), r.mul(z, f1), r.mul(z, r.mul(zz, b))); }
      r.add(r.mul(zz, a), r.add(r.mul(z, f1), r.mul(z, r.mul(zz, b))));
      { r.Distrib(z, f1, r.mul(zz, b)); }
      r.add(r.mul(zz, a), r.mul(z, r.add(f1, r.mul(zz, b))));
    }
    r.AddAssoc(f0, r.mul(zz, a), r.mul(z, r.add(f1, r.mul(zz, b))));
  }

  /** A polynomial at z is its even half at z*z plus z times its odd half at z*z. */
  lemma {:induction false} EvalSplit<T(!new)>(r: Ring<T>, x: seq<T>, off: nat, stride: nat, half: nat, z: T)
    requires r.Lawful()
    ensures Eval(r, x, off, stride, 2 * half, z)
         == r.add(Eval(r, x, off, 2 * stride, half, r.mul(z, z)),
                  r.mul(z, Eval(r, x, off + stride, 2 * stride, half, r.mul(z, z))))
    decreases half
  {
    if half == 0 {
      r.MulZero(z);
      r.AddZero(r.zero);
    } else {
      var zz := r.mul(z, z);
      var next := off + 2 * stride;
      EvalSplit(r, x, next, stride, half - 1, z);
      var a := Eval(r, x, next, 2 * stride, half - 1, zz);
      var b := Eval(r, x, next + stride, 2 * stride, half - 1, zz);
      assert Eval(r, x, off, stride, 2 * half, z)
          == r.add(At(r, x, off), r.mul(z, Eval(r, x, off + stride, stride, 2 * half - 1, z)));
      assert Eval(r, x, off + stride, stride, 2 * half - 1, z)
          == r.add(At(r, x, off + stride), r.mul(z, Eval(r, x, next, stride, 2 * (half - 1), z)));
      HornerPair(r, At(r, x, off), At(r, x, off + stride), z, a, b);
      assert off + stride + 2 * stride == next + stride;
    }
  }

  /** Horner's rule at w^k computes the defining sum. */
  lemma {:induction false} EvalIsDftFrom<T(!new)>(r: Ring<T>, x: seq<T>, w: T, k: nat, lo: nat)
    requires r.Lawful() && lo <= |x|
    ensures r.mul(r.Pow(w, lo * k), Eval(r, x, lo, 1, |x| - lo, r.Pow(w, k))) == DftFrom(r, x, w, k, lo)
    decreases |x| - lo
  {
    var z := r.Pow(w, k);
    var p := r.Pow(w, lo * k);
    if lo == |x| {
      r.MulZero(p);
    } else {
      EvalIsDftFrom(r, x, w, k, lo + 1);
      var rest := Eval(r, x, lo + 1, 1, |x| - lo - 1, z);
      r.Distrib(p, x[lo], r.mul(z, rest));
      r.MulComm(p, x[lo]);
      r.MulAssoc(p, z, rest);
      r.PowAdd(w, lo * k, k);
      assert (lo + 1) * k == lo * k + k;
    }
  }

  lemma EvalIsDft<T(!new)>(r: Ring<T>, x: seq<T>, w: T, k: nat)
    requires r.Lawful()
    ensures Eval(r, x, 0, 1, |x|, r.Pow(w, k)) == Dft(r, x, w, k)
  {
    EvalIsDftFrom(r, x, w, k, 0);
    assert 0 * k == 0;
    r.MulOne(Eval(r, x, 0, 1, |x|, r.Pow(w, k)));
  }

  // ---- What every slot holds after stage s ----

  /** The twiddle of output k in a block of length 2^s; the source has no root for length 1. */
  function Twiddle<T(!new)>(r: Ring<T>, root: nat -> T, s: nat, k: nat): T {
    if s == 0 then r.one else r.Pow(root(s), k)
  }

  /**
   * Output k of the transform of length 2^s that block b holds after stage s: its input is the
   * subsequence of stride 2^(m-s) whose offset is the reversed block number.
   */
  function BlockValue<T(!new)>(r: Ring<T>, root: nat -> T, x: seq<T>, m: nat, s: nat, b: nat, k: nat): T
    requires s <= m
  {
    Eval(r, x, Rev(m - s, b), Pow2(m - s), Pow2(s), Twiddle(r, root, s, k))
  }

  /** Slot p after stage s. */
  function StageValue<T(!new)>(r: Ring<T>, root: nat -> T, x: seq<T>, m: nat, s: nat, p: nat): T
    requires s <= m
  {
    BlockValue(r, root, x, m, s, BlockOf(p, Pow2(s)), PlaceOf(p, Pow2(s)))
  }

  ghost predicate AtStage<T(!new)>(r: Ring<T>, root: nat -> T, x: seq<T>, m: nat, s: nat, buf: seq<T>)
    requires s <= m
  {
    |buf| == Pow2(m) && forall p | 0 <= p < |buf| :: buf[p] == StageValue(r, root, x, m, s, p)
  }

  lemma StageZeroValue<T(!new)>(r: Ring<T>, root: nat -> T, x: seq<T>, m: nat, p: nat)
    requires r.Lawful() && |x| == Pow2(m) && p < |x|
    ensures StageValue(r, root, x, m, 0, p) == x[Rev(m, p)]
  {
    var j := Rev(m, p);
    assert Pow2(0) == 1 && p / 1 == p;
    assert Eval(r, x, j, Pow2(m), 1, r.one)
        == r.add(x[j], r.mul(r.one, Eval(r, x, j + Pow2(m), Pow2(m), 0, r.one)));
    r.MulZero(r.one);
    r.AddZero(x[j]);
  }

  /** Before the first stage the slots are the bit-reversed input. */
  lemma StageZero<T(!new)>(r: Ring<T>, root: nat -> T, x: seq<T>, m: nat, buf: seq<T>)
    requires r.Lawful() && |x| == |buf| == Pow2(m)
    requires forall p | 0 <= p < |buf| :: buf[p] == x[Rev(m, p)]
    ensures AtStage(r, root, x, m, 0, buf)
  {
    forall p: nat | p < |buf|
      ensures buf[p] == StageValue(r, root, x, m, 0, p)
    {
      StageZeroValue(r, root, x, m, p);
    }
  }

  /** After the last stage the slots are the transform. */
  lemma StageLast<T(!new)>(r: Ring<T>, root: nat -> T, x: seq<T>, m: nat, buf: seq<T>)
    requires r.Lawful() && m >= 1 && |x| == Pow2(m) && AtStage(r, root, x, m, m, buf)
    ensures forall p | 0 <= p < |buf| :: buf[p] == Dft(r, x, root(m), p)
  {
    forall p: nat | p < |buf|
      ensures buf[p] == Dft(r, x, root(m), p)
    {
      BlockPosition(0, Pow2(m), p);
      EvalIsDft(r, x, root(m), p);
    }
  }

  /** The two roots a butterfly needs: the square of the twiddle and its opposite. */
  lemma TwiddlePair<T(!new)>(r: Ring<T>, root: nat -> T, m: nat, s: nat, k: nat)
    requires r.Lawful() && StageRoots(r, root, m) && 1 <= s <= m && k < Pow2(s - 1)
    ensures var z := r.Pow(root(s), k);
            && r.Pow(root(s), k + Pow2(s - 1)) == r.neg(z)
            && r.mul(z, z) == Twiddle(r, root, s - 1, k)
  {
    var z := r.Pow(root(s), k);
    HalfTurn(r, root, m, s);
    r.PowAdd(root(s), k, Pow2(s - 1));
    r.MulComm(z, r.neg(r.one));
    r.NegMul(r.one, z);
    r.MulOne(z);
    if s > 1 {
      r.PowOfSquare(root(s), k);
    } else {
      r.MulOne(r.one);
    }
  }

  /** One butterfly takes one output of two neighbouring blocks to two outputs of their union. */
  lemma Butterfly<T(!new)>(r: Ring<T>, root: nat -> T, x: seq<T>, m: nat, s: nat, b: nat, k: nat)
    requires r.Lawful() && StageRoots(r, root, m) && 1 <= s <= m && k < Pow2(s - 1)
    ensures var u := BlockValue(r, root, x, m, s - 1, 2 * b, k);
            var v := r.mul(BlockValue(r, root, x, m, s - 1, 2 * b + 1, k), r.Pow(root(s), k));
            && BlockValue(r, root, x, m, s, b, k) == r.add(u, v)
            && BlockValue(r, root, x, m, s, b, k + Pow2(s - 1)) == r.Sub(u, v)
  {
    var h, t, z := Pow2(s - 1), m - s, r.Pow(root(s), k);
    TwiddlePair(r, root, m, s, k);
    assert Rev(t + 1, 2 * b) == Rev(t, b);
    assert Rev(t + 1, 2 * b + 1) == Rev(t, b) + Pow2(t);
    EvalSplit(r, x, Rev(t, b), Pow2(t), h, z);
    EvalSplit(r, x, Rev(t, b), Pow2(t), h, r.neg(z));
    var odd := Eval(r, x, Rev(t, b) + Pow2(t), 2 * Pow2(t), h, r.mul(z, z));
    r.NegSquare(z);
    r.NegMul(z, odd);
    r.MulComm(odd, z);
  }

  /** What one butterfly of the block starting at i leaves in its two slots. */
  ghost predicate ButterflyAt<T(!new)>(r: Ring<T>, before: seq<T>, after: seq<T>, half: nat, wlen: T, i: nat, k: nat)
    requires |before| == |after| && i + half + k < |before|
  {
    var u, v := before[i + k], r.mul(before[i + k + half], r.Pow(wlen, k));
    after[i + k] == r.add(u, v) && after[i + k + half] == r.Sub(u, v)
  }

  /** All butterflies of one pass over blocks of length 2*half. */
  ghost predicate PassDone<T(!new)>(r: Ring<T>, before: seq<T>, after: seq<T>, half: nat, wlen: T)
    requires half > 0
  {
    && |after| == |before|
    && forall i: nat, k: nat | i % (2 * half) == 0 && k < half && i + 2 * half <= |before| ::
         ButterflyAt(r, before, after, half, wlen, i, k)
  }

  /** The slots of a butterfly in blocks of length h: one in block 2b, one in block 2b + 1. */
  lemma HalfBlockSlots(b: nat, h: nat, k: nat)
    requires k < h
    ensures var p := b * (2 * h) + k;
            && BlockOf(p, h) == 2 * b && PlaceOf(p, h) == k
            && BlockOf(p + h, h) == 2 * b + 1 && PlaceOf(p + h, h) == k
  {
    var c := 2 * b;
    MulAssociates(b, 2, h);
    BlockPosition(c, h, k);
    BlockPosition(c + 1, h, k);
    assert (c + 1) * h == c * h + h;
  }

  /** The same slots seen from the block of length 2h that starts at i. */
  lemma BlockSlots(i: nat, h: nat, k: nat)
    requires k < h && i % (2 * h) == 0
    ensures var b := BlockOf(i, 2 * h);
            && BlockOf(i + k, 2 * h) == b && PlaceOf(i + k, 2 * h) == k
            && BlockOf(i + k + h, 2 * h) == b && PlaceOf(i + k + h, 2 * h) == k + h
            && BlockOf(i + k, h) == 2 * b && PlaceOf(i + k, h) == k
            && BlockOf(i + k + h, h) == 2 * b + 1 && PlaceOf(i + k + h, h) == k
  {
    var b := BlockOf(i, 2 * h);
    assert i == b * (2 * h);
    BlockPosition(b, 2 * h, k);
    BlockPosition(b, 2 * h, k + h);
    HalfBlockSlots(b, h, k);
  }

  /** A butterfly takes its two slots from stage s-1 to stage s. */
  lemma SlotsAdvance<T(!new)>(r: Ring<T>, root: nat -> T, x: seq<T>, m: nat, s: nat,
                              before: seq<T>, after: seq<T>, i: nat, k: nat)
    requires r.Lawful() && StageRoots(r, root, m) && 1 <= s <= m && k < Pow2(s - 1)
    requires AtStage(r, root, x, m, s - 1, before) && |after| == |before|
    requires i % Pow2(s) == 0 && i + Pow2(s) <= |before|
    requires ButterflyAt(r, before, after, Pow2(s - 1), root(s), i, k)
    ensures after[i + k] == StageValue(r, root, x, m, s, i + k)
    ensures after[i + k + Pow2(s - 1)] == StageValue(r, root, x, m, s, i + k + Pow2(s - 1))
  {
    hide BlockValue, StageRoots, BlockOf, PlaceOf;
    var b, h := BlockOf(i, Pow2(s)), Pow2(s - 1);
    BlockSlots(i, h, k);
    Butterfly(r, root, x, m, s, b, k);
    assert before[i + k] == BlockValue(r, root, x, m, s - 1, 2 * b, k);
    assert before[i + k + h] == BlockValue(r, root, x, m, s - 1, 2 * b + 1, k);
  }

  /** The block and the butterfly that own slot p. */
  lemma OwnerOf(n: nat, half: nat, p: nat) returns (i: nat, k: nat)
    requires half > 0 && n % (2 * half) == 0 && p < n
    ensures i % (2 * half) == 0 && i + 2 * half <= n && k < half
    ensures p == i + k || p == i + k + half
  {
    i := RoundDown(p, 2 * half);
    NextMultiple(n, 2 * half, i);
    k := if p < i + half then p - i else p - i - half;
  }

  lemma SlotAdvances<T(!new)>(r: Ring<T>, root: nat -> T, x: seq<T>, m: nat, s: nat,
                              before: seq<T>, after: seq<T>, p: nat)
    requires r.Lawful() && StageRoots(r, root, m) && 1 <= s <= m && p < |after|
    requires AtStage(r, root, x, m, s - 1, before)
    requires PassDone(r, before, after, Pow2(s - 1), root(s))
    ensures after[p] == StageValue(r, root, x, m, s, p)
  {
    hide StageValue, StageRoots, ButterflyAt;
    Pow2Divides(m, s);
    var i, k := OwnerOf(|after|, Pow2(s - 1), p);
    assert ButterflyAt(r, before, after, Pow2(s - 1), root(s), i, k);
    SlotsAdvance(r, root, x, m, s, before, after, i, k);
  }

  /** A whole pass takes the buffer from stage s-1 to stage s. */
  lemma PassAdvances<T(!new)>(r: Ring<T>, root: nat -> T, x: seq<T>, m: nat, s: nat, before: seq<T>, after: seq<T>)
    requires r.Lawful() && StageRoots(r, root, m) && 1 <= s <= m
    requires AtStage(r, root, x, m, s - 1, before)
    requires PassDone(r, before, after, Pow2(s - 1), root(s))
    ensures AtStage(r, root, x, m, s, after)
  {
    forall p: nat | p < |after|
      ensures after[p] == StageValue(r, root, x, m, s, p)
    {
      SlotAdvances(r, root, x, m, s, before, after, p);
    }
  }

  // ---- The reversed-carry counter ----

  /** j & bit, for a mask with one bit set. */
  predicate HasBit(j: nat, bit: nat)
    requires bit > 0
  {
    j / bit % 2 == 1
  }

  lemma BitNeedsSize(j: nat, bit: nat)
    requires bit > 0
    ensures j < bit ==> !HasBit(j, bit)
  {
  }

  /** j ^ bit, for a mask with one bit set. */
  function FlipBit(j: nat, bit: nat): (r: nat)
    requires bit > 0
    ensures r == if HasBit(j, bit) then j - bit else j + bit
  {
    if HasBit(j, bit) then
      BitNeedsSize(j, bit);
      j - bit
    else j + bit
  }

  /** The highest bit of the reversal of c says whether c is odd. */
  lemma RevTopBit(q: nat, c: nat)
    requires q >= 1
    ensures HasBit(Rev(q, c), Pow2(q - 1)) <==> c % 2 == 1
  {
    var b, rest := Pow2(q - 1), Rev(q - 1, c / 2);
    BlockPosition(0, b, rest);
    BlockPosition(1, b, rest);
  }

  /** Adds one to the reversed counter: carries run from the highest bit down. */
  method ReversedIncrement(j0: nat, n: nat, ghost m: nat, ghost c0: nat) returns (j: nat)
    requires n == Pow2(m) && c0 + 1 < n && j0 == Rev(m, c0)
    ensures j == Rev(m, c0 + 1)
  {
    j := j0;
    var bit := n / 2;
    ghost var q: nat, c: nat := m, c0;
    while HasBit(j, bit)
      invariant q >= 1 && bit == Pow2(q - 1)
      invariant c + 1 < Pow2(q) && j == Rev(q, c)
      invariant Rev(m, c0 + 1) == Rev(q, c + 1)
      decreases q
    {
      RevTopBit(q, c);
      assert (c + 1) / 2 == c / 2 + 1;
      j := FlipBit(j, bit);
      bit := bit / 2;
      q, c := q - 1, c / 2;
    }
    RevTopBit(q, c);
    assert (c + 1) / 2 == c / 2;
    j := FlipBit(j, bit);
  }

  /** Whether the swaps for counters up to i have moved slot k. */
  predicate Moved(m: nat, i: nat, k: nat) {
    k <= i || Rev(m, k) <= i
  }

  /** The lower index of each pair that the guard lets through, in ascending order. */
  ghost predicate SwappedOnce(swapped: seq<nat>, m: nat, n: nat) {
    && (forall k, l | 0 <= k < l < |swapped| :: swapped[k] < swapped[l])
    && (forall i | 0 <= i < n :: i in swapped <==> i < Rev(m, i))
    && (forall i | i in swapped :: i < n)
  }

  lemma SwapAdds(swapped: seq<nat>, m: nat, i: nat)
    requires SwappedOnce(swapped, m, i)
    ensures SwappedOnce(if i < Rev(m, i) then swapped + [i] else swapped, m, i + 1)
  {
    var swapped' := swapped + [i];
    assert forall k: nat :: k in swapped' <==> k in swapped || k == i;
    assert forall k | 0 <= k < |swapped| :: swapped[k] in swapped;
  }

  lemma NoSwapYet(m: nat)
    ensures SwappedOnce([], m, 1)
  {
    RevZero(m);
  }

  /** The slots after the swaps for counters up to i. */
  function Shuffled<T>(x: seq<T>, m: nat, i: nat): seq<T>
    requires |x| == Pow2(m)
  {
    seq(|x|, k requires 0 <= k < |x| => if Moved(m, i, k) then x[Rev(m, k)] else x[k])
  }

  /** The guarded swap for counter i. */
  lemma ShuffleStep<T>(x: seq<T>, m: nat, i: nat)
    requires |x| == Pow2(m) && 1 <= i < |x|
    ensures var before, j := Shuffled(x, m, i - 1), Rev(m, i);
            Shuffled(x, m, i) == if i < j then before[i := before[j]][j := before[i]] else before
  {
    var before, after, j := Shuffled(x, m, i - 1), Shuffled(x, m, i), Rev(m, i);
    var swapped := if i < j then before[i := before[j]][j := before[i]] else before;
    RevInvolution(m, i);
    forall k: nat | k < |x|
      ensures after[k] == swapped[k]
    {
      RevInvolution(m, k);
    }
  }

  lemma ShuffleEnds<T>(x: seq<T>, m: nat)
    requires |x| == Pow2(m)
    ensures Shuffled(x, m, 0) == x
    ensures forall k | 0 <= k < |x| :: Shuffled(x, m, |x| - 1)[k] == x[Rev(m, k)]
  {
    RevZero(m);
    forall k: nat | k < |x|
      ensures Shuffled(x, m, 0)[k] == x[k]
    {
      RevInvolution(m, k);
    }
  }

  /** Reverses the bits of the slot numbers; every pair of slots that differ is swapped exactly once. */
  method BitReverse<T>(a: array<T>, ghost m: nat) returns (ghost swapped: seq<nat>)
    requires m >= 1 && a.Length == Pow2(m)
    modifies a
    ensures forall k | 0 <= k < a.Length :: a[k] == old(a[Rev(m, k)])
    ensures SwappedOnce(swapped, m, a.Length)
  {
    hide SwappedOnce, Shuffled;
    var n := a.Length;
    ghost var x := a[..];
    var j := 0;
    swapped := [];
    RevZero(m);
    NoSwapYet(m);
    ShuffleEnds(x, m);
    for i := 1 to n
      invariant j == Rev(m, i - 1)
      invariant a[..] == Shuffled(x, m, i - 1)
      invariant SwappedOnce(swapped, m, i)
    {
      j := ReversedIncrement(j, n, m, i - 1);
      SwapAdds(swapped, m, i);
      ShuffleStep(x, m, i);
      if i < j {
        a[i], a[j] := a[j], a[i];
        swapped := swapped + [i];
      }
    }
    assert forall k | 0 <= k < n :: a[k] == a[..][k];
  }

  // ---- The butterflies ----

  /** One block: len/2 butterflies with the running twiddle w. */
  method ButterflyBlock<T(!new)>(r: Ring<T>, a: array<T>, i: nat, len: nat, wlen: T)
    requires r.Lawful() && len % 2 == 0 && i + len <= a.Length
    modifies a
    ensures forall k | 0 <= k < len / 2 :: ButterflyAt(r, old(a[..]), a[..], len / 2, wlen, i, k)
    ensures forall p | 0 <= p < a.Length && !(i <= p < i + len) :: a[p] == old(a[p])
  {
    var w := r.one;
    var half := len / 2;
    for k := 0 to half
      invariant w == r.Pow(wlen, k)
      invariant forall c | 0 <= c < k :: ButterflyAt(r, old(a[..]), a[..], half, wlen, i, c)
      invariant forall p | 0 <= p < a.Length && !(i <= p < i + k || i + half <= p < i + half + k) :: a[p] == old(a[p])
    {
      ghost var before := a[..];
      var u := a[i + k];
      var v := r.mul(a[i + k + half], w);
      a[i + k] := r.add(u, v);
      a[i + k + half] := r.Sub(u, v);
      r.MulComm(w, wlen);
      w := r.mul(w, wlen);
      forall c | 0 <= c <= k
        ensures ButterflyAt(r, old(a[..]), a[..], half, wlen, i, c)
      {
        if c < k {
          assert ButterflyAt(r, old(a[..]), before, half, wlen, i, c);
        }
      }
    }
  }

  /** One pass of the middle loop over all blocks of length len. */
  method ButterflyPass<T(!new)>(r: Ring<T>, a: array<T>, len: nat, wlen: T)
    requires r.Lawful() && len >= 2 && len % 2 == 0 && a.Length % len == 0
    modifies a
    ensures PassDone(r, old(a[..]), a[..], len / 2, wlen)
  {
    var i := 0;
    while i < a.Length
      invariant 0 <= i <= a.Length && i % len == 0
      invariant forall c: nat, k: nat | c % len == 0 && k < len / 2 && c + len <= i ::
                  ButterflyAt(r, old(a[..]), a[..], len / 2, wlen, c, k)
      invariant forall p | i <= p < a.Length :: a[p] == old(a[p])
    {
      ghost var before := a[..];
      NextMultiple(a.Length, len, i);
      ButterflyBlock(r, a, i, len, wlen);
      forall c: nat, k: nat | c % len == 0 && k < len / 2 && c + len <= i + len
        ensures ButterflyAt(r, old(a[..]), a[..], len / 2, wlen, c, k)
      {
        NextMultiple(i, len, c);
        if c < i {
          assert ButterflyAt(r, old(a[..]), before, len / 2, wlen, c, k);
        } else {
          assert ButterflyAt(r, before, a[..], len / 2, wlen, c, k);
        }
      }
      i := i + len;
    }
  }

  /** The outer loop: from the bit-reversed input to the transform. */
  method Butterflies<T(!new)>(r: Ring<T>, root: nat -> T, a: array<T>, ghost x: seq<T>, ghost m: nat)
    requires r.Lawful() && StageRoots(r, root, m) && m >= 1
    requires a.Length == |x| == Pow2(m)
    requires forall p | 0 <= p < a.Length :: a[p] == x[Rev(m, p)]
    modifies a
    ensures forall k | 0 <= k < a.Length :: a[k] == Dft(r, x, root(m), k)
  {
    StageZero(r, root, x, m, a[..]);
    var len, s := 2, 1;
    while len <= a.Length
      invariant 1 <= s <= m + 1 && len == Pow2(s)
      invariant AtStage(r, root, x, m, s - 1, a[..])
      decreases m + 1 - s
    {
      Pow2Order(s, m);
      Pow2Divides(m, s);
      ghost var before := a[..];
      assert len / 2 == Pow2(s - 1);
      ButterflyPass(r, a, len, root(s));
      assert PassDone(r, before, a[..], Pow2(s - 1), root(s));
      PassAdvances(r, root, x, m, s, before, a[..]);
      len, s := len * 2, s + 1;
    }
    Pow2Order(s, m);
    StageLast(r, root, x, m, a[..]);
  }
}
