/** SPI allocation and the installation of SAs, under the manager's mutex. */
module SpiPool {
  import opened Bytes
  import opened EspContexts

  /** The part of an SA that lookups use. */
  datatype Sa = Sa(spi: uint32, src: nat, dst: nat, inbound: bool)

  /** `allocated_spis` and the installed SAs. */
  datatype Table = Table(pending: set<uint32>, sas: seq<Sa>)

  ghost predicate Installed(t: Table, spi: uint32) {
    exists i :: 0 <= i < |t.sas| && t.sas[i].spi == spi && t.sas[i].inbound
  }

  /** Promised to a caller of `get_spi`, or in use by an inbound SA. */
  ghost predicate Reserved(t: Table, spi: uint32) {
    spi in t.pending || Installed(t, spi)
  }

  // ---------------------------------------------------------------- range arithmetic

  const SPI_FLOOR: uint32 := 0x100

  function Lo(min: uint32, max: uint32): uint32 {
    Max(if min > max then max else min, SPI_FLOOR)
  }

  function Hi(min: uint32, max: uint32): uint32 {
    Max(if min > max then min else max, SPI_FLOOR)
  }

  /** The `uint32_t` expression spi_max - spi_min + 1. */
  function Span(min: uint32, max: uint32): uint32 {
    (Sub32(Hi(min, max), Lo(min, max)) + 1) % (UINT32_MAX + 1)
  }

  /** For every configured range the divisor is positive and neither operation wraps. */
  lemma SpanIsExact(min: uint32, max: uint32)
    ensures Span(min, max) == Hi(min, max) - Lo(min, max) + 1 > 0
    ensures Lo(min, max) >= 0x100
  {
  }

  function Candidate(min: uint32, max: uint32, draw: uint32): (spi: uint32)
    ensures 0x100 <= spi && Lo(min, max) <= spi <= Hi(min, max)
  {
    SpanIsExact(min, max);
    assert draw % Span(min, max) < Span(min, max);
    Lo(min, max) + draw % Span(min, max)
  }

  /** Every SPI of the range can be drawn. */
  lemma EverySpiCanBeDrawn(min: uint32, max: uint32, spi: uint32)
    requires Lo(min, max) <= spi <= Hi(min, max)
    ensures Candidate(min, max, spi - Lo(min, max)) == spi
  {
    SpanIsExact(min, max);
    RemainderUnique(spi - Lo(min, max), 0, spi - Lo(min, max), Span(min, max));
  }

  /** The SPIs that can be drawn are those of the configured range from 256 on, whichever bound comes first;
      256 alone if there is none. */
  lemma DrawableExactly(min: uint32, max: uint32, spi: uint32)
    ensures (exists draw :: Candidate(min, max, draw) == spi) <==>
            if min < 256 && max < 256 then spi == 256
            else spi >= 256 && ((min <= spi && spi <= max) || (max <= spi && spi <= min))
  {
    if Lo(min, max) <= spi <= Hi(min, max) {
      EverySpiCanBeDrawn(min, max, spi);
    } else {
      assert forall draw :: Candidate(min, max, draw) != spi;
    }
  }

  // ---------------------------------------------------------------- the operations on values

  predicate Matches(sa: Sa, spi: uint32, src: nat, dst: nat) {
    sa.spi == spi && sa.src == src && sa.dst == dst
  }

  predicate Matched(sas: seq<Sa>, spi: uint32, src: nat, dst: nat) {
    exists i :: 0 <= i < |sas| && Matches(sas[i], spi, src, dst)
  }

  /** The first drawn SPI that is not reserved. */
  ghost function Drawn(t: Table, min: uint32, max: uint32, draws: seq<uint32>): Option<uint32> {
    if draws == [] then None
    else if !Reserved(t, Candidate(min, max, draws[0])) then Some(Candidate(min, max, draws[0]))
    else Drawn(t, min, max, draws[1..])
  }

  function Add(t: Table, sa: Sa, created: bool, update: bool): Table {
    if !created then t
    else
      var pending := if update then t.pending - {sa.spi} else t.pending;
      Table(pending, if Matched(t.sas, sa.spi, sa.src, sa.dst) then t.sas else [sa] + t.sas)
  }

  /** What callers and timers do.  An SA is removed by deletion or by its hard expiry; a flush
      removes one SA after the other; an update gives the SA at a position new addresses. */
  datatype Op =
    | Get(min: uint32, max: uint32, draws: seq<uint32>)
    | Install(sa: Sa, created: bool, update: bool)
    | Uninstall(at: nat)
    | Readdress(at: nat, src: nat, dst: nat)

  ghost function Apply(t: Table, op: Op): Table {
    match op
    case Get(min, max, draws) =>
      (match Drawn(t, min, max, draws)
       case None => t
       case Some(spi) => t.(pending := t.pending + {spi}))
    case Install(sa, created, update) => Add(t, sa, created, update)
    case Uninstall(at) => if at < |t.sas| then t.(sas := t.sas[..at] + t.sas[at + 1..]) else t
    case Readdress(at, src, dst) =>
      if at < |t.sas| then t.(sas := t.sas[at := t.sas[at].(src := src, dst := dst)]) else t
  }

  /** When an operation gives up a reservation: installing under that SPI with `update` takes it
      out of the pending set, which loses it unless an inbound SA now carries it; and the last
      inbound SA that carries it may go away. */
  ghost predicate Releases(t: Table, op: Op, spi: uint32) {
    match op
    case Get(_, _, _) => false
    case Install(sa, created, update) =>
      && created && update && sa.spi == spi && !Installed(t, spi)
      && (!sa.inbound || Matched(t.sas, sa.spi, sa.src, sa.dst))
    case Uninstall(at) =>
      && at < |t.sas| && spi !in t.pending && t.sas[at].spi == spi && t.sas[at].inbound
      && (forall i :: 0 <= i < |t.sas| && i != at ==> !(t.sas[i].spi == spi && t.sas[i].inbound))
    case Readdress(_, _, _) => false
  }

  /** No two SAs agree in SPI and addresses. */
  ghost predicate NoTwins(sas: seq<Sa>) {
    forall i, j :: 0 <= i < j < |sas| ==>
      sas[i].spi != sas[j].spi || sas[i].src != sas[j].src || sas[i].dst != sas[j].dst
  }

  /** An SA is installed exactly when it could be created and no other one has its SPI and addresses; with
      `update` its SPI is no longer pending either way. */
  lemma InstallExactly(t: Table, sa: Sa, created: bool, update: bool)
    ensures var after := Add(t, sa, created, update);
            var twin := exists i :: 0 <= i < |t.sas| &&
                          t.sas[i].spi == sa.spi && t.sas[i].src == sa.src && t.sas[i].dst == sa.dst;
            && after.sas == (if created && !twin then [sa] + t.sas else t.sas)
            && (forall spi :: spi in after.pending <==> spi in t.pending && !(created && update && spi == sa.spi))
            && (NoTwins(t.sas) ==> NoTwins(after.sas))
  {
    var after := Add(t, sa, created, update);
    if after.sas == [sa] + t.sas {
      assert forall i :: 0 < i < |after.sas| ==> after.sas[i] == t.sas[i - 1];
    }
  }

  lemma UninstallKeeps(t: Table, at: nat, spi: uint32)
    requires at < |t.sas|
    ensures Installed(Apply(t, Uninstall(at)), spi) <==>
              exists i :: 0 <= i < |t.sas| && i != at && t.sas[i].spi == spi && t.sas[i].inbound
  {
    var sas := t.sas[..at] + t.sas[at + 1..];
    if i :| 0 <= i < |t.sas| && i != at && t.sas[i].spi == spi && t.sas[i].inbound {
      assert sas[if i < at then i else i - 1] == t.sas[i];
    }
    if j :| 0 <= j < |sas| && sas[j].spi == spi && sas[j].inbound {
      assert sas[j] == t.sas[if j < at then j else j + 1];
    }
  }

  lemma InstallKeeps(t: Table, sa: Sa, created: bool, update: bool, spi: uint32)
    ensures Installed(Add(t, sa, created, update), spi) <==>
              Installed(t, spi) ||
              (created && sa.spi == spi && sa.inbound && !Matched(t.sas, sa.spi, sa.src, sa.dst))
  {
    var t' := Add(t, sa, created, update);
    if t'.sas == [sa] + t.sas {
      assert t'.sas[0] == sa;
      assert forall i :: 0 <= i < |t.sas| ==> t'.sas[i + 1] == t.sas[i];
    }
  }

  lemma ReaddressKeeps(t: Table, at: nat, src: nat, dst: nat, spi: uint32)
    ensures Installed(Apply(t, Readdress(at, src, dst)), spi) <==> Installed(t, spi)
  {
    var t' := Apply(t, Readdress(at, src, dst));
    assert forall i :: 0 <= i < |t.sas| ==> t'.sas[i].spi == t.sas[i].spi && t'.sas[i].inbound == t.sas[i].inbound;
  }

  /** A reservation ends exactly with an operation that releases it. */
  lemma ReservationEndsExactly(t: Table, op: Op, spi: uint32)
    requires Reserved(t, spi)
    ensures Reserved(Apply(t, op), spi) <==> !Releases(t, op, spi)
  {
    match op
    case Get(_, _, _) =>
      assert Apply(t, op).sas == t.sas;
    case Install(sa, created, update) => InstallKeeps(t, sa, created, update, spi);
    case Uninstall(at) =>
      if at < |t.sas| {
        UninstallKeeps(t, at, spi);
      }
    case Readdress(at, src, dst) => ReaddressKeeps(t, at, src, dst, spi);
  }

  /** The SPI is that of the first draw that is free; there is none exactly when every draw is taken. */
  lemma {:induction false} DrawnIsFree(t: Table, min: uint32, max: uint32, draws: seq<uint32>)
    ensures match Drawn(t, min, max, draws)
            case Some(spi) =>
              && !Reserved(t, spi) && spi >= 0x100 && Lo(min, max) <= spi <= Hi(min, max)
              && exists i :: 0 <= i < |draws| && Candidate(min, max, draws[i]) == spi &&
                   forall k :: 0 <= k < i ==> Reserved(t, Candidate(min, max, draws[k]))
            case None => forall i :: 0 <= i < |draws| ==> Reserved(t, Candidate(min, max, draws[i]))
  {
    hide Reserved;
    hide Candidate;
    if draws != [] && Reserved(t, Candidate(min, max, draws[0])) {
      DrawnIsFree(t, min, max, draws[1..]);
      assert forall i :: 0 < i < |draws| ==> draws[i] == draws[1..][i - 1];
      if Drawn(t, min, max, draws).Some? {
        var spi, rest := Drawn(t, min, max, draws).value, draws[1..];
        var i :| 0 <= i < |rest| && Candidate(min, max, rest[i]) == spi &&
                 forall k :: 0 <= k < i ==> Reserved(t, Candidate(min, max, rest[k]));
        assert Candidate(min, max, draws[i + 1]) == spi;
      }
    }
  }

  ghost predicate IsRun(states: seq<Table>, ops: seq<Op>) {
    && |states| == |ops| + 1
    && forall i :: 0 <= i < |ops| ==> states[i + 1] == Apply(states[i], ops[i])
  }

  ghost predicate Returns(t: Table, op: Op, spi: uint32) {
    op.Get? && Drawn(t, op.min, op.max, op.draws) == Some(spi)
  }

  /** An SPI handed out stays reserved as long as no operation releases it. */
  lemma {:induction false} StaysReserved(states: seq<Table>, ops: seq<Op>, i: nat, j: nat, spi: uint32)
    requires IsRun(states, ops) && i < j <= |ops| && Returns(states[i], ops[i], spi)
    requires forall k :: i < k < j ==> !Releases(states[k], ops[k], spi)
    ensures Reserved(states[j], spi)
  {
    if j == i + 1 {
      assert states[j] == Apply(states[i], ops[i]);
    } else {
      StaysReserved(states, ops, i, j - 1, spi);
      ReservationEndsExactly(states[j - 1], ops[j - 1], spi);
      assert states[j] == Apply(states[j - 1], ops[j - 1]);
    }
  }

  /** No SPI is returned twice without having been released in between. */
  lemma SpiIsExclusive(states: seq<Table>, ops: seq<Op>, i: nat, j: nat, spi: uint32)
    requires IsRun(states, ops) && i < j < |ops|
    requires Returns(states[i], ops[i], spi) && Returns(states[j], ops[j], spi)
    ensures exists k :: i < k < j && Releases(states[k], ops[k], spi)
  {
    DrawnIsFree(states[j], ops[j].min, ops[j].max, ops[j].draws);
    if forall k :: i < k < j ==> !Releases(states[k], ops[k], spi) {
      StaysReserved(states, ops, i, j, spi);
    }
  }

  /** The release callers must avoid: an outbound SA installed with `update` under the peer's SPI
      frees an equal SPI that is still pending here, and the next request may get it again. */
  lemma OutboundUpdateFrees(spi: uint32, src: nat, dst: nat, draw: uint32)
    requires spi >= 0x100
    ensures var promised := Table({spi}, []);
            var after := Apply(promised, Install(Sa(spi, src, dst, false), true, true));
            && Reserved(promised, spi) && !Reserved(after, spi)
            && Returns(after, Get(spi, spi, [draw]), spi)
  {
    var after := Apply(Table({spi}, []), Install(Sa(spi, src, dst, false), true, true));
    assert !Matched([], spi, src, dst);
    assert after == Table({}, [Sa(spi, src, dst, false)]);
    assert Candidate(spi, spi, draw) == spi;
    assert [draw][0] == draw;
  }

  // ---------------------------------------------------------------- the object

  class SaTable {
    var pending: set<uint32>
    var sas: seq<Sa>

    ghost function Value(): Table
      reads this
    {
      Table(pending, sas)
    }

    constructor ()
      ensures Value() == Table({}, [])
    {
      pending, sas := {}, [];
    }

    method FindInbound(spi: uint32) returns (found: bool)
      ensures found <==> Installed(Value(), spi)
    {
      var i := 0;
      while i < |sas|
        invariant 0 <= i <= |sas|
        invariant forall k :: 0 <= k < i ==> !(sas[k].spi == spi && sas[k].inbound)
      {
        if sas[i].spi == spi && sas[i].inbound {
          return true;
        }
        i := i + 1;
      }
      return false;
    }

    method AllocateSpi(spi: uint32) returns (ok: bool)
      modifies this`pending
      ensures ok <==> !Reserved(old(Value()), spi)
      ensures pending == if ok then old(pending) + {spi} else old(pending)
    {
      if spi in pending {
        return false;
      }
      var found := FindInbound(spi);
      if found {
        return false;
      }
      pending := pending + {spi};
      return true;
    }

    /** `draws` is what the RNG yields until it fails. */
    method GetSpi(min: uint32, max: uint32, draws: seq<uint32>) returns (spi: Option<uint32>)
      modifies this`pending
      ensures spi == Drawn(old(Value()), min, max, draws)
      ensures pending == if spi.Some? then old(pending) + {spi.value} else old(pending)
    {
      var spiMin, spiMax := min, max;
      if spiMin > spiMax {
        spiMin, spiMax := spiMax, spiMin;
      }
      spiMin, spiMax := Max(spiMin, SPI_FLOOR), Max(spiMax, SPI_FLOOR);
      var i := 0;
      while i < |draws|
        invariant 0 <= i <= |draws| && pending == old(pending)
        invariant Drawn(Value(), min, max, draws) == Drawn(Value(), min, max, draws[i..])
      {
        SpanIsExact(min, max);
        var candidate := spiMin + draws[i] % (spiMax - spiMin + 1);
        assert candidate == Candidate(min, max, draws[i]);
        var ok := AllocateSpi(candidate);
        if ok {
          return Some(candidate);
        }
        i := i + 1;
      }
      return None;
    }

    method AddSa(sa: Sa, created: bool, update: bool) returns (ok: bool)
      modifies this
      ensures Value() == Add(old(Value()), sa, created, update)
      ensures ok == (created && !Matched(old(sas), sa.spi, sa.src, sa.dst))
    {
      if !created {
        return false;
      }
      if update {
        pending := pending - {sa.spi};
      }
      var i := 0;
      while i < |sas|
        invariant 0 <= i <= |sas|
        invariant forall k :: 0 <= k < i ==> !Matches(sas[k], sa.spi, sa.src, sa.dst)
      {
        if Matches(sas[i], sa.spi, sa.src, sa.dst) {
          return false;
        }
        i := i + 1;
      }
      sas := [sa] + sas;
      return true;
    }
  }
}
