/** Octets, chunks and the few library helpers the modelled files share. */
module Bytes {

  type byte = b: int | 0 <= b < 256

  type bytes = seq<byte>

  datatype Option<+T> = None | Some(value: T)

  /** Network order encodings. */
  function U16(n: nat): (r: bytes)
    ensures |r| == 2
  {
    [n / 256 % 256, n % 256]
  }

  function U32(n: nat): (r: bytes)
    ensures |r| == 4
  {
    U16(n / 0x1_0000) + U16(n % 0x1_0000)
  }

  function ReadU16(b: bytes): (n: nat)
    requires |b| >= 2
    ensures n < 0x1_0000
  {
    b[0] as int * 256 + b[1]
  }

  function ReadU32(b: bytes): (n: nat)
    requires |b| >= 4
    ensures n < 0x1_0000_0000
  {
    ReadU16(b) * 0x1_0000 + ReadU16(b[2..])
  }

  lemma Digits(n: nat)
    requires n < 0x1_0000
    ensures U16(n)[0] as int * 0x100 + U16(n)[1] == n
  {
  }

  /** The most significant octet comes first. */
  lemma NetworkOrder(n: nat)
    requires n < 0x1_0000_0000
    ensures n < 0x1_0000 ==> U16(n)[0] as int * 0x100 + U16(n)[1] == n
    ensures var r := U32(n);
            r[0] as int * 0x100_0000 + r[1] as int * 0x1_0000 + r[2] as int * 0x100 + r[3] == n
  {
    var hi, lo := n / 0x1_0000, n % 0x1_0000;
    Digits(n % 0x1_0000);
    Digits(hi);
    assert U32(n) == U16(hi) + U16(lo);
    hide U16;
  }

  lemma ReadU16OfU16(n: nat, rest: bytes)
    requires n < 0x1_0000
    ensures ReadU16(U16(n) + rest) == n
  {
  }

  lemma ReadU32OfU32(n: nat, rest: bytes)
    requires n < 0x1_0000_0000
    ensures ReadU32(U32(n) + rest) == n
  {
    var hi, lo := n / 0x1_0000, n % 0x1_0000;
    assert U32(n) + rest == U16(hi) + (U16(lo) + rest);
    assert (U32(n) + rest)[2..] == U16(lo) + rest;
    ReadU16OfU16(hi, U16(lo) + rest);
    ReadU16OfU16(lo, rest);
  }

  lemma U16OfReadU16(b: bytes)
    requires |b| >= 2
    ensures U16(ReadU16(b)) == b[..2]
  {
  }

  /** Quotient and remainder are unique. */
  lemma RemainderUnique(x: int, q: int, r: int, d: int)
    requires d > 0 && 0 <= r < d && x == q * d + r
    ensures x % d == r && x / d == q
  {
    var e := x / d - q;
    assert e * d == r - x % d;
    assert e >= 1 ==> e * d >= d;
    assert e <= -1 ==> e * d <= -d;
  }

  lemma U32OfReadU32(b: bytes)
    requires |b| >= 4
    ensures U32(ReadU32(b)) == b[..4]
  {
    U16OfReadU16(b);
    U16OfReadU16(b[2..]);
    RemainderUnique(ReadU32(b), ReadU16(b), ReadU16(b[2..]), 0x1_0000);
    hide ReadU16;
    assert b[..4] == b[..2] + b[2..][..2];
  }

  lemma NextMultiple(size: nat, alignment: nat)
    requires alignment > 0
    ensures (size - size % alignment + alignment) % alignment == 0
  {
    RemainderUnique(size - size % alignment + alignment, size / alignment + 1, 0, alignment);
  }

  /** Distance from `size` to the next multiple of `alignment`. */
  function PadLen(size: nat, alignment: nat): (n: nat)
    requires alignment > 0
    ensures n < alignment
    ensures (size + n) % alignment == 0
  {
    var remainder := size % alignment;
    if remainder != 0 then
      assert (size + (alignment - remainder)) % alignment == 0 by { NextMultiple(size, alignment); }
      alignment - remainder
    else 0
  }

  lemma MultipleMod(q: int, d: int)
    requires d > 0
    ensures (q * d) % d == 0
  {
    RemainderUnique(q * d, q, 0, d);
  }

  lemma AddMultipleMod(x: int, q: int, d: int)
    requires d > 0
    ensures (x + q * d) % d == x % d
  {
    RemainderUnique(x + q * d, x / d + q, x % d, d);
  }

  lemma MulAssoc(a: int, b: int, c: int)
    ensures a * (b * c) == a * b * c
  {
  }

  lemma MulMinus(a: int, b: int, c: int)
    ensures (a - b) * c == a * c - b * c
  {
  }

  lemma ExactQuotient(x: nat, d: nat)
    requires d > 0 && x % d == 0
    ensures x / d * d == x
  {
  }

  /** A factor common to a number and a divisor is a factor of the remainder. */
  lemma RemainderFactor(x: nat, d: nat, f: nat)
    requires d > 0 && f > 0 && d % f == 0 && x % f == 0
    ensures x % d % f == 0
  {
    var q, w, u := x / d, d / f, x / f;
    ExactQuotient(d, f);
    ExactQuotient(x, f);
    MulAssoc(q, w, f);
    MulMinus(u, q * w, f);
    RemainderUnique(x % d, u - q * w, 0, f);
  }

  lemma NestedMultiple(q: int, w: int, f: int)
    requires f > 0
    ensures (q * (w * f)) % f == 0
  {
    MulAssoc(q, w, f);
    MultipleMod(q * w, f);
  }

  /** A factor of a divisor is a factor of its multiples. */
  lemma MultipleFactor(x: nat, d: nat, f: nat)
    requires d > 0 && f > 0 && d % f == 0 && x % d == 0
    ensures x % f == 0
  {
    ExactQuotient(x, d);
    ExactQuotient(d, f);
    NestedMultiple(x / d, d / f, f);
  }

  /** `chunk_skip`: saturates to the empty chunk. */
  function Skip(b: bytes, n: nat): bytes {
    if |b| > n then b[n..] else []
  }

  function Zeros(n: nat): (z: bytes)
    ensures |z| == n && forall i :: 0 <= i < n ==> z[i] == 0
  {
    seq(n, _ => 0)
  }

  function Min(a: nat, b: nat): nat {
    if a < b then a else b
  }

  function Max(a: nat, b: nat): nat {
    if a > b then a else b
  }

  lemma SumAligned(a: nat, b: nat)
    requires a % 4 == 0 && b % 4 == 0
    ensures (a + b) % 4 == 0
  {
  }

  lemma Assoc(a: bytes, b: bytes, c: bytes)
    ensures a + b + c == a + (b + c)
  {
  }

  lemma Rejoin(s: bytes, k: nat)
    requires k <= |s|
    ensures s[..k] + s[k..] == s
  {
  }

  function Flatten<T>(parts: seq<seq<T>>): seq<T> {
    if parts == [] then [] else Flatten(parts[..|parts| - 1]) + parts[|parts| - 1]
  }

  lemma FlattenSnoc<T>(parts: seq<seq<T>>, last: seq<T>)
    ensures Flatten(parts + [last]) == Flatten(parts) + last
  {
    assert (parts + [last])[..|parts|] == parts;
  }

  /** The encodings of the elements, one after the other. */
  function ConcatMap<T>(f: T -> bytes, xs: seq<T>): bytes {
    if xs == [] then [] else ConcatMap(f, xs[..|xs| - 1]) + f(xs[|xs| - 1])
  }

  lemma {:induction false} ConcatMapConcat<T>(f: T -> bytes, a: seq<T>, b: seq<T>)
    ensures ConcatMap(f, a + b) == ConcatMap(f, a) + ConcatMap(f, b)
  {
    if b == [] {
      assert a + b == a;
    } else {
      assert (a + b)[..|a + b| - 1] == a + b[..|b| - 1];
      ConcatMapConcat(f, a, b[..|b| - 1]);
    }
  }

  lemma ConcatMapCons<T>(f: T -> bytes, xs: seq<T>, tail: bytes)
    requires xs != []
    ensures ConcatMap(f, xs) + tail == f(xs[0]) + (ConcatMap(f, xs[1..]) + tail)
    ensures |ConcatMap(f, xs)| == |f(xs[0])| + |ConcatMap(f, xs[1..])|
  {
    ConcatMapConcat(f, [xs[0]], xs[1..]);
    assert [xs[0]] + xs[1..] == xs;
    assert ConcatMap(f, [xs[0]]) == ConcatMap(f, []) + f(xs[0]);
  }
}
