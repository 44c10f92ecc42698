/** The ESP context of libipsec: outbound numbering and the inbound anti-replay window.

    The window is a 128-bit ring stored in bytes.  `EspContext` is the object the C code updates in
    place; `Ring` is its value, `Verify`/`Mark` are the two operations on that value, and
    `WindowRefinesSet` ties any run of them to the set of authenticated sequence numbers. */
module EspContexts {

  const WINDOW_SIZE: nat := 128
  const CHAR_BIT: nat := 8
  const UINT32_MAX: int := 0xffff_ffff

  type uint32 = x: int | 0 <= x <= UINT32_MAX

  /** Unsigned 32-bit subtraction, wrapping around. */
  function Sub32(a: uint32, b: uint32): uint32 {
    (a - b) % (UINT32_MAX + 1)
  }

  // ---------------------------------------------------------------- the ring as a value

  /** Highest authenticated number, the ring position of its bit, and the bits. */
  datatype Ring = Ring(last: uint32, index: nat, bits: seq<bool>) {
    ghost predicate Valid() {
      |bits| == WINDOW_SIZE && index < WINDOW_SIZE
    }
  }

  function EmptyRing(): Ring {
    Ring(0, 0, seq(WINDOW_SIZE, _ => false))
  }

  /** The ring position of a number at or below `r.last`, in the C code's `u_int` arithmetic. */
  function Slot(r: Ring, s: uint32): nat
    requires r.Valid()
  {
    Sub32(r.index, Sub32(r.last, s)) % WINDOW_SIZE
  }

  predicate Verify(r: Ring, s: uint32)
    requires r.Valid()
  {
    if s > r.last then true
    else if s > 0 && WINDOW_SIZE > Sub32(r.last, s) then !r.bits[Slot(r, s)]
    else false
  }

  /** `n` turns of the shift loop: move the index on and clear the bit it lands on. */
  function Advance(r: Ring, n: nat): (a: Ring)
    requires r.Valid()
    ensures a.Valid() && a.last == r.last
  {
    if n == 0 then r
    else
      var p := Advance(r, n - 1);
      var i := (p.index + 1) % WINDOW_SIZE;
      p.(index := i, bits := p.bits[i := false])
  }

  function Shift(r: Ring, s: uint32): nat
    requires s > r.last
  {
    var d := Sub32(s, r.last);
    if d < WINDOW_SIZE then d else WINDOW_SIZE
  }

  function Mark(r: Ring, s: uint32): (m: Ring)
    requires r.Valid()
    ensures m.Valid()
  {
    if s > r.last then
      var a := Advance(r, Shift(r, s));
      a.(last := s, bits := a.bits[a.index := true])
    else
      r.(bits := r.bits[Slot(r, s) := true])
  }

  // ---------------------------------------------------------------- the ring against the set

  /** The bit `k` places behind the index. */
  function Back(r: Ring, k: nat): bool
    requires r.Valid() && k < WINDOW_SIZE
  {
    r.bits[(r.index - k) % WINDOW_SIZE]
  }

  /** The window remembers exactly the last 128 numbers of `seen`. */
  ghost predicate Represents(r: Ring, seen: set<int>) {
    && r.Valid()
    && (forall s :: s in seen ==> 0 < s <= r.last)
    && (r.last > 0 ==> r.last in seen)
    && (forall k :: 0 <= k < WINDOW_SIZE && k < r.last ==> (Back(r, k) <==> r.last - k in seen))
  }

  /** What the receiver should accept, said without a ring. */
  ghost predicate Fresh(last: int, seen: set<int>, s: int) {
    s > last || (s > 0 && last - s < 128 && s !in seen)
  }

  lemma {:induction false} ModShift(d: int, q: nat)
    ensures (d + q * WINDOW_SIZE) % WINDOW_SIZE == d % WINDOW_SIZE
  {
    assert d == d / WINDOW_SIZE * WINDOW_SIZE + d % WINDOW_SIZE;
    var e := d + q * WINDOW_SIZE;
    assert e == (d / WINDOW_SIZE + q) * WINDOW_SIZE + d % WINDOW_SIZE;
  }

  /** The wrapping index arithmetic is right because 128 divides 2^32. */
  lemma SlotIsBack(r: Ring, s: uint32)
    requires r.Valid() && s <= r.last
    ensures Slot(r, s) == (r.index - (r.last - s)) % WINDOW_SIZE
  {
    assert Sub32(r.last, s) == r.last - s;
    var d := r.index - (r.last - s);
    assert Sub32(r.index, Sub32(r.last, s)) == (if d >= 0 then d else d + 0x1_0000_0000);
    assert 0x1_0000_0000 == 0x200_0000 * WINDOW_SIZE;
    if d < 0 {
      ModShift(d, 0x200_0000);
    }
  }

  /** `Verify` answers `Fresh`. */
  lemma VerifyIsFresh(r: Ring, seen: set<int>, s: uint32)
    requires Represents(r, seen)
    ensures Verify(r, s) <==> Fresh(r.last, seen, s)
  {
    if 0 < s <= r.last && r.last - s < WINDOW_SIZE {
      SlotIsBack(r, s);
      assert Back(r, r.last - s) <==> s in seen;
    }
  }

  lemma BackPosition(i: int, k: int)
    requires 0 <= i < WINDOW_SIZE && 0 <= k < WINDOW_SIZE
    ensures (i - k) % WINDOW_SIZE == if k <= i then i - k else i - k + WINDOW_SIZE
  {
  }

  lemma NextPosition(i: int)
    requires 0 <= i < WINDOW_SIZE
    ensures (i + 1) % WINDOW_SIZE == if i + 1 < WINDOW_SIZE then i + 1 else 0
  {
  }

  /** One turn of the loop clears the newest place and moves the others back by one. */
  lemma StepShifts(r: Ring, n: nat, k: nat)
    requires r.Valid() && n > 0 && k < WINDOW_SIZE
    ensures Back(Advance(r, n), k) == if k == 0 then false else Back(Advance(r, n - 1), k - 1)
  {
    var p, a := Advance(r, n - 1), Advance(r, n);
    NextPosition(p.index);
    BackPosition(a.index, k);
    if k > 0 {
      BackPosition(p.index, k - 1);
    }
  }

  /** Shifting by n clears the n newest places and moves the others back by n. */
  lemma {:induction false} AdvanceShifts(r: Ring, n: nat, k: nat)
    requires r.Valid() && n <= WINDOW_SIZE && k < WINDOW_SIZE
    ensures Back(Advance(r, n), k) == if k < n then false else Back(r, k - n)
  {
    if n > 0 {
      StepShifts(r, n, k);
      if k > 0 {
        AdvanceShifts(r, n - 1, k - 1);
      }
    }
  }

  lemma MarkInside(r: Ring, seen: set<int>, s: uint32, k: nat)
    requires Represents(r, seen) && 0 < s <= r.last && r.last - s < WINDOW_SIZE
    requires k < WINDOW_SIZE && k < r.last
    ensures Back(Mark(r, s), k) <==> r.last - k in seen + {s as int}
  {
    SlotIsBack(r, s);
    BackPosition(r.index, k);
    BackPosition(r.index, r.last - s);
    assert Back(r, k) <==> r.last - k in seen;
  }

  lemma NewestBit(a: Ring, s: uint32, k: nat)
    requires a.Valid() && k < WINDOW_SIZE
    ensures Back(Ring(s, a.index, a.bits[a.index := true]), k) == (k == 0 || Back(a, k))
  {
    BackPosition(a.index, k);
  }

  lemma MarkAbove(r: Ring, seen: set<int>, s: uint32, k: nat)
    requires Represents(r, seen) && s > r.last && k < WINDOW_SIZE && k < s
    ensures Back(Mark(r, s), k) <==> s - k in seen + {s as int}
  {
    assert Sub32(s, r.last) == s - r.last;
    var n := Shift(r, s);
    NewestBit(Advance(r, n), s, k);
    AdvanceShifts(r, n, k);
    hide Advance;
    hide Back;
    hide Sub32;
    if k >= n {
      assert Back(r, k - n) <==> r.last - (k - n) in seen;
    }
  }

  /** Marking an accepted number adds exactly that number to the represented set. */
  lemma MarkAdds(r: Ring, seen: set<int>, s: uint32)
    requires Represents(r, seen) && Verify(r, s)
    ensures Represents(Mark(r, s), seen + {s as int})
    ensures s !in seen && s > 0
  {
    VerifyIsFresh(r, seen, s);
    var m := Mark(r, s);
    var seen' := seen + {s as int};
    forall k | 0 <= k < WINDOW_SIZE && k < m.last
      ensures Back(m, k) <==> m.last - k in seen'
    {
      if s > r.last {
        MarkAbove(r, seen, s, k);
      } else {
        MarkInside(r, seen, s, k);
      }
    }
  }

  // ---------------------------------------------------------------- runs

  /** One arriving number: verified, and marked when it is accepted. */
  function Arrive(r: Ring, s: uint32): (m: Ring)
    requires r.Valid()
    ensures m.Valid()
  {
    if Verify(r, s) then Mark(r, s) else r
  }

  function RunRing(arrivals: seq<uint32>): (r: Ring)
    ensures r.Valid()
  {
    if arrivals == [] then EmptyRing()
    else Arrive(RunRing(arrivals[..|arrivals| - 1]), arrivals[|arrivals| - 1])
  }

  /** The reference receiver keeps every number it accepted, and the highest of them. */
  datatype Receiver = Receiver(high: int, seen: set<int>)

  ghost function Receive(v: Receiver, s: int): Receiver {
    if Fresh(v.high, v.seen, s) then Receiver(if s > v.high then s else v.high, v.seen + {s}) else v
  }

  ghost function RunReceiver(arrivals: seq<uint32>): Receiver {
    if arrivals == [] then Receiver(0, {})
    else Receive(RunReceiver(arrivals[..|arrivals| - 1]), arrivals[|arrivals| - 1])
  }

  lemma {:induction false} RunRepresents(arrivals: seq<uint32>)
    ensures Represents(RunRing(arrivals), RunReceiver(arrivals).seen)
    ensures RunRing(arrivals).last == RunReceiver(arrivals).high
  {
    if arrivals != [] {
      var before := arrivals[..|arrivals| - 1];
      var s := arrivals[|arrivals| - 1];
      var seen := RunReceiver(before).seen;
      RunRepresents(before);
      VerifyIsFresh(RunRing(before), seen, s);
      if Verify(RunRing(before), s) {
        MarkAdds(RunRing(before), seen, s);
      }
    }
  }

  /** After any run of arrivals the ring accepts a number exactly when it is above the highest one
      accepted so far, or lies among the last 128 numbers and was never accepted; and the highest
      is indeed the maximum of the accepted numbers. */
  lemma WindowRefinesSet(arrivals: seq<uint32>, s: uint32)
    ensures var v := RunReceiver(arrivals);
            && (forall a :: a in v.seen ==> 0 < a <= v.high)
            && (v.high == 0 || v.high in v.seen)
            && (Verify(RunRing(arrivals), s) <==>
                  s > v.high || (s > 0 && v.high - s < WINDOW_SIZE && s !in v.seen))
  {
    RunRepresents(arrivals);
    VerifyIsFresh(RunRing(arrivals), RunReceiver(arrivals).seen, s);
  }

  // ---------------------------------------------------------------- bits in bytes

  function BitMask(k: nat): bv8
    requires k < CHAR_BIT
  {
    1 << k
  }

  predicate TestBit(b: bv8, k: nat)
    requires k < CHAR_BIT
  {
    b & BitMask(k) != 0
  }

  function WithBit(b: bv8, k: nat, on: bool): bv8
    requires k < CHAR_BIT
  {
    if on then b | BitMask(k) else b & !BitMask(k)
  }

  lemma MaskCases(k: nat)
    requires k < CHAR_BIT
    ensures BitMask(k) == [1, 2, 4, 8, 16, 32, 64, 128][k]
  {
    if k == 0 {} else if k == 1 {} else if k == 2 {} else if k == 3 {}
    else if k == 4 {} else if k == 5 {} else if k == 6 {} else {}
  }

  lemma TestWithBit(b: bv8, k: nat, on: bool, j: nat)
    requires k < CHAR_BIT && j < CHAR_BIT
    ensures TestBit(WithBit(b, k, on), j) == if j == k then on else TestBit(b, j)
  {
    MaskCases(k);
    MaskCases(j);
    if j != k {
      assert BitMask(k) & BitMask(j) == 0;
    }
  }

  /** The ring bits held by a window buffer. */
  function BitsOf(bytes: seq<bv8>): (bits: seq<bool>)
    requires |bytes| * CHAR_BIT >= WINDOW_SIZE
    ensures |bits| == WINDOW_SIZE
  {
    seq(WINDOW_SIZE, i requires 0 <= i < WINDOW_SIZE => TestBit(bytes[i / CHAR_BIT], i % CHAR_BIT))
  }

  lemma BitsOfUpdate(bytes: seq<bv8>, index: nat, on: bool)
    requires |bytes| * CHAR_BIT >= WINDOW_SIZE && index < WINDOW_SIZE
    ensures var i := index / CHAR_BIT;
            BitsOf(bytes[i := WithBit(bytes[i], index % CHAR_BIT, on)]) == BitsOf(bytes)[index := on]
  {
    var i := index / CHAR_BIT;
    var bytes' := bytes[i := WithBit(bytes[i], index % CHAR_BIT, on)];
    forall j | 0 <= j < WINDOW_SIZE
      ensures BitsOf(bytes')[j] == BitsOf(bytes)[index := on][j]
    {
      if j / CHAR_BIT == i {
        TestWithBit(bytes[i], index % CHAR_BIT, on, j % CHAR_BIT);
      }
    }
  }

  // ---------------------------------------------------------------- the object

  class EspContext {
    const inbound: bool
    var lastSeqno: uint32
    var seqnoIndex: uint32
    const window: array<bv8>

    ghost predicate Valid()
      reads this
    {
      inbound ==> window.Length == WINDOW_SIZE / CHAR_BIT + 1 && seqnoIndex < WINDOW_SIZE
    }

    /** The value of an inbound context. */
    ghost function Value(): (r: Ring)
      requires Valid() && inbound
      reads this, window
      ensures r.Valid()
    {
      Ring(lastSeqno, seqnoIndex, BitsOf(window[..]))
    }

    constructor (inbound: bool)
      ensures Valid() && this.inbound == inbound && lastSeqno == 0 && fresh(window)
      ensures inbound ==> Value() == EmptyRing()
    {
      this.inbound := inbound;
      lastSeqno, seqnoIndex := 0, 0;
      var size := if inbound then WINDOW_SIZE / CHAR_BIT + 1 else 0;
      window := new bv8[size](_ => 0);
      new;
      if inbound {
        assert BitsOf(window[..]) == EmptyRing().bits;
      }
    }

    method SetWindowBit(index: uint32, on: bool)
      requires Valid() && inbound && index < WINDOW_SIZE
      modifies window
      ensures BitsOf(window[..]) == BitsOf(old(window[..]))[index := on]
    {
      var i := index / CHAR_BIT;
      BitsOfUpdate(window[..], index, on);
      ghost var before := window[..];
      window[i] := WithBit(window[i], index % CHAR_BIT, on);
      assert window[..] == before[i := window[i]];
    }

    method GetWindowBit(index: uint32) returns (on: bool)
      requires Valid() && inbound && index < WINDOW_SIZE
      ensures on == BitsOf(window[..])[index]
    {
      on := window[index / CHAR_BIT] & BitMask(index % CHAR_BIT) != 0;
    }

    method CheckWindow(seqno: uint32) returns (unmarked: bool)
      requires Valid() && inbound && seqno <= lastSeqno
      ensures unmarked == !Value().bits[Slot(Value(), seqno)]
    {
      var offset: uint32 := Sub32(lastSeqno, seqno);
      offset := Sub32(seqnoIndex, offset) % WINDOW_SIZE;
      var bit := GetWindowBit(offset);
      unmarked := !bit;
    }

    method VerifySeqno(seqno: uint32) returns (ok: bool)
      requires Valid()
      ensures ok == (inbound && Verify(Value(), seqno))
    {
      if !inbound {
        return false;
      }
      if seqno > lastSeqno {
        return true;
      } else if seqno > 0 && WINDOW_SIZE > Sub32(lastSeqno, seqno) {
        ok := CheckWindow(seqno);
      } else {
        return false;
      }
    }

    /** Callers verify the number immediately before. */
    method SetAuthenticatedSeqno(seqno: uint32)
      requires Valid()
      modifies this, window
      ensures Valid()
      ensures inbound ==> Value() == Mark(old(Value()), seqno)
      ensures !inbound ==> lastSeqno == old(lastSeqno) && seqnoIndex == old(seqnoIndex)
      ensures !inbound ==> window[..] == old(window[..])
    {
      if !inbound {
        return;
      }
      ghost var r := Value();
      if seqno > lastSeqno {
        var shift: uint32 := Sub32(seqno, lastSeqno);
        shift := if shift < WINDOW_SIZE then shift else WINDOW_SIZE;
        var i: uint32 := 0;
        while i < shift
          invariant i <= shift && shift == Shift(r, seqno)
          invariant Valid() && lastSeqno == r.last
          invariant Value() == Advance(r, i)
        {
          seqnoIndex := (seqnoIndex + 1) % WINDOW_SIZE;
          SetWindowBit(seqnoIndex, false);
          i := i + 1;
        }
        SetWindowBit(seqnoIndex, true);
        lastSeqno := seqno;
      } else {
        var i := Sub32(lastSeqno, seqno);
        SetWindowBit(Sub32(seqnoIndex, i) % WINDOW_SIZE, true);
      }
    }

    /** Outbound numbers count up from 1 and never cycle. */
    method NextSeqno() returns (ok: bool, seqno: uint32)
      requires Valid()
      modifies this`lastSeqno
      ensures Valid()
      ensures ok == (!inbound && old(lastSeqno) < UINT32_MAX)
      ensures ok ==> seqno == old(lastSeqno) + 1 && lastSeqno == seqno
      ensures !ok ==> lastSeqno == old(lastSeqno)
    {
      if inbound || lastSeqno == UINT32_MAX {
        return false, 0;
      }
      lastSeqno := lastSeqno + 1;
      return true, lastSeqno;
    }
  }
}
