/** Integers as bytes, lowest first, and two's complement. */
module LittleEndian {
  import opened Powers

  type byte = x: int | 0 <= x < 256

  function LeValue(b: seq<byte>): nat {
    if b == [] then 0 else b[0] + 0x100 * LeValue(b[1..])
  }

  function LeBytes(v: nat, width: nat): (b: seq<byte>)
    ensures |b| == width
  {
    if width == 0 then [] else [v % 0x100] + LeBytes(v / 0x100, width - 1)
  }

  predicate Fits(v: nat, width: nat) {
    v < Pow2(8 * width)
  }

  lemma {:induction false} LeBounds(b: seq<byte>)
    ensures Fits(LeValue(b), |b|)
  {
    if b != [] {
      LeBounds(b[1..]);
      Pow2Byte(8 * (|b| - 1));
    }
  }

  lemma {:induction false} LeRoundTrip(v: nat, width: nat)
    requires Fits(v, width)
    ensures LeValue(LeBytes(v, width)) == v
  {
    if width > 0 {
      Pow2Byte(8 * (width - 1));
      LeRoundTrip(v / 0x100, width - 1);
      assert LeBytes(v, width)[1..] == LeBytes(v / 0x100, width - 1);
    }
  }

  /** The number an unsigned word stands for in two's complement. */
  function Signed(u: nat, width: nat): int
    requires width > 0
  {
    if u < Pow2(8 * width - 1) then u else u - Pow2(8 * width)
  }

  predicate InRange(v: int, width: nat)
    requires width > 0
  {
    0 <= v + Pow2(8 * width - 1) && v < Pow2(8 * width - 1)
  }

  function Unsigned(v: int, width: nat): nat
    requires width > 0 && InRange(v, width)
  {
    assert Pow2(8 * width) == 2 * Pow2(8 * width - 1);
    if v < 0 then v + Pow2(8 * width) else v
  }

  lemma SignedRange(u: nat, width: nat)
    requires width > 0 && Fits(u, width)
    ensures InRange(Signed(u, width), width) && Unsigned(Signed(u, width), width) == u
  {
    assert Pow2(8 * width) == 2 * Pow2(8 * width - 1);
  }

  lemma SignedUndone(v: int, width: nat)
    requires width > 0 && InRange(v, width)
    ensures Fits(Unsigned(v, width), width) && Signed(Unsigned(v, width), width) == v
  {
    assert Pow2(8 * width) == 2 * Pow2(8 * width - 1);
  }

  // ---- Where each byte goes ----

  lemma DropByteFirst(a: nat, p: nat)
    requires p > 0
    ensures a / (0x100 * p) == a / 0x100 / p
  {
    var q, r := a / 0x100 / p, a / 0x100 % p;
    assert a / 0x100 == q * p + r;
    assert 0x100 * (q * p) == q * (0x100 * p);
    assert a == q * (0x100 * p) + (0x100 * r + a % 0x100);
    BlockPosition(q, 0x100 * p, 0x100 * r + a % 0x100);
  }

  /** Byte i is digit i of the value to the base 256. */
  lemma {:induction false} LeDigit(b: seq<byte>, i: nat)
    requires i < |b|
    ensures LeValue(b) / Pow2(8 * i) % 0x100 == b[i]
    decreases i
  {
    var rest := LeValue(b[1..]);
    assert LeValue(b) / 0x100 == rest && LeValue(b) % 0x100 == b[0];
    if i > 0 {
      LeDigit(b[1..], i - 1);
      Pow2Byte(8 * (i - 1));
      DropByteFirst(LeValue(b), Pow2(8 * (i - 1)));
    }
  }

  /** Two, three and four bytes in full. */
  lemma LeExplicit(b: seq<byte>)
    ensures |b| == 2 ==> LeValue(b) == b[0] as nat + 0x100 * b[1] as nat
    ensures |b| == 3 ==> LeValue(b) == b[0] as nat + 0x100 * b[1] as nat + 0x1_0000 * b[2] as nat
    ensures |b| == 4 ==>
              LeValue(b) == b[0] as nat + 0x100 * b[1] as nat + 0x1_0000 * b[2] as nat + 0x100_0000 * b[3] as nat
  {
    if |b| >= 2 {
      assert LeValue(b) == b[0] as nat + 0x100 * LeValue(b[1..]);
      assert LeValue(b[1..]) == b[1] as nat + 0x100 * LeValue(b[1..][1..]);
      assert b[1..][1..] == b[2..];
      if |b| >= 3 {
        assert LeValue(b[2..]) == b[2] as nat + 0x100 * LeValue(b[2..][1..]);
        assert b[2..][1..] == b[3..];
        if |b| == 4 {
          assert LeValue(b[3..]) == b[3] as nat + 0x100 * LeValue(b[3..][1..]);
          assert b[3..][1..] == [];
        }
      }
    }
  }

  /** Two's complement: the only number in range that differs from the word by a multiple of 2^(8 * width). */
  lemma SignedIsTwosComplement(u: nat, width: nat)
    requires width > 0 && Fits(u, width)
    ensures InRange(Signed(u, width), width)
    ensures Signed(u, width) == u || Signed(u, width) == u - Pow2(8 * width)
    ensures forall v: int | InRange(v, width) && (v == u || v == u - Pow2(8 * width)) :: v == Signed(u, width)
  {
    assert Pow2(8 * width) == 2 * Pow2(8 * width - 1);
  }

  lemma PowersOfBytes()
    ensures Pow2(8) == 0x100 && Pow2(16) == 0x1_0000 && Pow2(24) == 0x100_0000 && Pow2(23) == 0x80_0000
    ensures Pow2(15) == 0x8000 && Pow2(31) == 0x8000_0000
  {
    Pow2Byte(0);
    Pow2Byte(8);
    Pow2Byte(16);
    Pow2Byte(24);
    assert Pow2(24) == 2 * Pow2(23) && Pow2(16) == 2 * Pow2(15) && Pow2(32) == 2 * Pow2(31);
  }

  /** The limits of the three sample widths. */
  lemma RangesExplicit(v: int)
    ensures InRange(v, 2) <==> -0x8000 <= v < 0x8000
    ensures InRange(v, 3) <==> -0x80_0000 <= v < 0x80_0000
    ensures InRange(v, 4) <==> -0x8000_0000 <= v < 0x8000_0000
  {
    PowersOfBytes();
  }
}
