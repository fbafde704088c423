/** Powers of two and bit reversal, the index arithmetic of the radix-2 transform. */
module Powers {

  function Pow2(e: nat): (p: nat)
    ensures p >= 1
  {
    if e == 0 then 1 else 2 * Pow2(e - 1)
  }

  lemma {:induction false} Pow2Strict(a: nat, b: nat)
    requires a < b
    ensures Pow2(a) < Pow2(b)
    decreases b
  {
    if a < b - 1 {
      Pow2Strict(a, b - 1);
    }
  }

  lemma Pow2Order(a: nat, b: nat)
    ensures a <= b <==> Pow2(a) <= Pow2(b)
  {
    if a < b {
      Pow2Strict(a, b);
    } else if b < a {
      Pow2Strict(b, a);
    }
  }

  lemma {:induction false} Pow2Exceeds(e: nat)
    ensures e < Pow2(e)
  {
    if e > 0 {
      Pow2Exceeds(e - 1);
    }
  }

  lemma Pow2Byte(e: nat)
    ensures Pow2(e + 8) == 0x100 * Pow2(e)
  {
    assert Pow2(e + 1) == 2 * Pow2(e) && Pow2(e + 2) == 2 * Pow2(e + 1);
    assert Pow2(e + 3) == 2 * Pow2(e + 2) && Pow2(e + 4) == 2 * Pow2(e + 3);
    assert Pow2(e + 5) == 2 * Pow2(e + 4) && Pow2(e + 6) == 2 * Pow2(e + 5);
    assert Pow2(e + 7) == 2 * Pow2(e + 6) && Pow2(e + 8) == 2 * Pow2(e + 7);
  }

  lemma MulAssociates(a: int, b: int, c: int)
    ensures (a * b) * c == a * (b * c)
  {
  }

  lemma {:induction false} Pow2Splits(m: nat, s: nat)
    requires s <= m
    ensures Pow2(m) == Pow2(m - s) * Pow2(s)
    decreases m
  {
    if s < m {
      Pow2Splits(m - 1, s);
      var half, len := Pow2(m - s - 1), Pow2(s);
      MulAssociates(2, half, len);
    }
  }

  lemma Pow2Divides(m: nat, s: nat)
    requires s <= m
    ensures Pow2(m) % Pow2(s) == 0
  {
    Pow2Splits(m, s);
    BlockPosition(Pow2(m - s), Pow2(s), 0);
  }

  lemma MulAtLeast(d: int, len: nat)
    ensures d >= 1 ==> d * len >= len
    ensures d <= -1 ==> d * len + len <= 0
  {
  }

  /** The block of length len that holds position p, and the place of p in it. */
  function BlockOf(p: nat, len: nat): nat
    requires len > 0
  {
    p / len
  }

  function PlaceOf(p: nat, len: nat): nat
    requires len > 0
  {
    p % len
  }

  /** Position k of block b in an array cut into blocks of length len. */
  lemma BlockPosition(b: nat, len: nat, k: nat)
    requires k < len
    ensures (b * len + k) / len == b && (b * len + k) % len == k
  {
    var p := b * len + k;
    var q, rest := p / len, p % len;
    assert (q - b) * len == k - rest;
    MulAtLeast(q - b, len);
  }

  /** The start of the block that holds p. */
  lemma RoundDown(p: nat, len: nat) returns (i: nat)
    requires len > 0
    ensures i % len == 0 && i <= p < i + len
  {
    i := BlockOf(p, len) * len;
    BlockPosition(BlockOf(p, len), len, 0);
  }

  /** A multiple of len below another one leaves room for a whole block. */
  lemma NextMultiple(n: nat, len: nat, i: nat)
    requires len > 0 && n % len == 0 && i % len == 0
    ensures (i + len) % len == 0
    ensures i < n ==> i + len <= n
  {
    BlockPosition(i / len + 1, len, 0);
    assert (i / len + 1) * len == i + len;
    assert (n / len - i / len) * len == n - i;
    MulAtLeast(n / len - i / len, len);
  }

  /** The m-bit reversal of i: bit t of i becomes bit m-1-t of the result. */
  function Rev(m: nat, i: nat): (r: nat)
    ensures r < Pow2(m)
  {
    if m == 0 then 0 else (if i % 2 == 1 then Pow2(m - 1) else 0) + Rev(m - 1, i / 2)
  }

  /** The highest bit of the argument becomes the lowest bit of the result. */
  lemma {:induction false} RevHighBit(m: nat, lo: nat)
    requires m >= 1 && lo < Pow2(m - 1)
    ensures Rev(m, lo) == 2 * Rev(m - 1, lo)
    ensures Rev(m, Pow2(m - 1) + lo) == 2 * Rev(m - 1, lo) + 1
  {
    if m >= 2 {
      RevHighBit(m - 1, lo / 2);
      var half := Pow2(m - 2);
      assert Pow2(m - 1) == 2 * half;
      assert (Pow2(m - 1) + lo) % 2 == lo % 2;
      assert (Pow2(m - 1) + lo) / 2 == half + lo / 2;
    } else {
      assert lo == 0;
      assert Rev(1, 1) == Pow2(0) + Rev(0, 0);
    }
  }

  /** Bit reversal undoes itself. */
  lemma {:induction false} RevInvolution(m: nat, i: nat)
    requires i < Pow2(m)
    ensures Rev(m, Rev(m, i)) == i
  {
    if m > 0 {
      RevInvolution(m - 1, i / 2);
      RevHighBit(m, Rev(m - 1, i / 2));
    }
  }

  lemma RevZero(m: nat)
    ensures Rev(m, 0) == 0
  {
  }
}
