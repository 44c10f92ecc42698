/** Exclusive or of octets, as `memxor` computes it. */
module ExclusiveOr {
  import opened Bytes

  /** Exclusive or of the `n` low bits. */
  function XorBits(a: nat, b: nat, n: nat): (r: nat)
  {
    if n == 0 then 0 else (a % 2 + b % 2) % 2 + 2 * XorBits(a / 2, b / 2, n - 1)
  }

  function Pow2(n: nat): (p: nat)
    ensures p >= 1
  {
    if n == 0 then 1 else 2 * Pow2(n - 1)
  }

  lemma {:induction false} XorBounded(a: nat, b: nat, n: nat)
    ensures XorBits(a, b, n) < Pow2(n)
  {
    if n > 0 {
      XorBounded(a / 2, b / 2, n - 1);
    }
  }

  lemma LowBit(a: nat, b: nat, upper: nat)
    ensures var low := (a % 2 + b % 2) % 2;
            && (low + 2 * upper) / 2 == upper && (low + 2 * upper) % 2 == low
            && (low + b % 2) % 2 == a % 2
  {
  }

  lemma {:induction false} XorBitsCancel(a: nat, b: nat, n: nat)
    requires a < Pow2(n)
    ensures XorBits(XorBits(a, b, n), b, n) == a
  {
    if n > 0 {
      var upper := XorBits(a / 2, b / 2, n - 1);
      XorBitsCancel(a / 2, b / 2, n - 1);
      LowBit(a, b, upper);
    }
  }

  function XorByte(a: byte, b: byte): byte {
    XorBounded(a, b, 8);
    assert Pow2(8) == 2 * Pow2(7) == 4 * Pow2(6) == 8 * Pow2(5) == 16 * Pow2(4) == 32 * Pow2(3) == 256;
    XorBits(a, b, 8)
  }

  lemma XorByteCancel(a: byte, b: byte)
    ensures XorByte(XorByte(a, b), b) == a
  {
    assert Pow2(8) == 2 * Pow2(7) == 4 * Pow2(6) == 8 * Pow2(5) == 16 * Pow2(4) == 32 * Pow2(3) == 256;
    XorBitsCancel(a, b, 8);
  }

  /** The values of the eight bits of an octet. */
  predicate BitValue(d: nat) {
    d in {1, 2, 4, 8, 16, 32, 64, 128}
  }

  /** Dividing in two steps. */
  lemma DivideTwice(x: nat, d: nat)
    requires d > 0
    ensures x / (2 * d) == x / 2 / d
  {
    var q, r := x / 2 / d, x / 2 % d;
    assert x / 2 == q * d + r;
    assert x == q * (2 * d) + (2 * r + x % 2);
    RemainderUnique(x, q, 2 * r + x % 2, 2 * d);
  }

  /** A bit of the result is set exactly when the bits of the operands differ. */
  lemma {:induction false} XorBitsAt(a: nat, b: nat, n: nat, k: nat)
    requires k < n
    ensures XorBits(a, b, n) / Pow2(k) % 2 == (a / Pow2(k) % 2 + b / Pow2(k) % 2) % 2
  {
    LowBit(a, b, XorBits(a / 2, b / 2, n - 1));
    if k > 0 {
      XorBitsAt(a / 2, b / 2, n - 1, k - 1);
      DivideTwice(XorBits(a, b, n), Pow2(k - 1));
      DivideTwice(a, Pow2(k - 1));
      DivideTwice(b, Pow2(k - 1));
    }
  }

  /** The position of a bit. */
  function Place(d: nat): nat
    requires BitValue(d)
  {
    if d == 1 then 0 else if d == 2 then 1 else if d == 4 then 2 else if d == 8 then 3
    else if d == 16 then 4 else if d == 32 then 5 else if d == 64 then 6 else 7
  }

  lemma PlaceValue(d: nat)
    requires BitValue(d)
    ensures Place(d) < 8 && Pow2(Place(d)) == d
  {
    assert Pow2(7) == 2 * Pow2(6) == 4 * Pow2(5) == 8 * Pow2(4) == 16 * Pow2(3) == 32 * Pow2(2) == 128;
  }

  lemma XorByteBits(a: byte, b: byte, d: nat)
    requires BitValue(d)
    ensures XorByte(a, b) / d % 2 == 1 <==> a / d % 2 != b / d % 2
  {
    PlaceValue(d);
    XorBitsAt(a, b, 8, Place(d));
  }

  lemma {:induction false} XorBitsFixed(a: nat, b: nat, n: nat)
    requires a < Pow2(n) && b < Pow2(n)
    ensures XorBits(a, b, n) == a <==> b == 0
  {
    if n > 0 {
      LowBit(a, b, XorBits(a / 2, b / 2, n - 1));
      XorBitsFixed(a / 2, b / 2, n - 1);
    }
  }

  /** Only zero masks nothing. */
  lemma XorByteFixed(a: byte, b: byte)
    ensures XorByte(a, b) == a <==> b == 0
  {
    assert Pow2(8) == 2 * Pow2(7) == 4 * Pow2(6) == 8 * Pow2(5) == 16 * Pow2(4) == 32 * Pow2(3) == 256;
    XorBitsFixed(a, b, 8);
  }

  function Xor(a: bytes, b: bytes): (r: bytes)
    requires |a| == |b|
    ensures |r| == |a|
  {
    seq(|a|, i requires 0 <= i < |a| => XorByte(a[i], b[i]))
  }

  lemma XorCancel(a: bytes, b: bytes)
    requires |a| == |b|
    ensures Xor(Xor(a, b), b) == a
  {
    forall i | 0 <= i < |a| ensures Xor(Xor(a, b), b)[i] == a[i] {
      XorByteCancel(a[i], b[i]);
    }
  }

  lemma XorBitByBit(a: bytes, b: bytes)
    requires |a| == |b|
    ensures forall j, d | 0 <= j < |a| && BitValue(d) :: Xor(a, b)[j] / d % 2 == 1 <==> a[j] / d % 2 != b[j] / d % 2
  {
    hide XorByte;
    forall j, d | 0 <= j < |a| && BitValue(d)
      ensures Xor(a, b)[j] / d % 2 == 1 <==> a[j] / d % 2 != b[j] / d % 2
    {
      XorByteBits(a[j], b[j], d);
    }
  }

  lemma XorFixed(a: bytes, b: bytes)
    requires |a| == |b|
    ensures Xor(a, b) == a <==> b == Zeros(|b|)
  {
    hide XorByte;
    forall i | 0 <= i < |a|
      ensures Xor(a, b)[i] == a[i] <==> b[i] == 0
    {
      XorByteFixed(a[i], b[i]);
    }
    assert Xor(a, b) == a <==> forall i :: 0 <= i < |a| ==> Xor(a, b)[i] == a[i];
    assert b == Zeros(|b|) <==> forall i :: 0 <= i < |a| ==> b[i] == 0;
  }
}
