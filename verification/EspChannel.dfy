/** Counting by number: entries that answer distinct numbers are a sub-multiset of all entries. */
module Numbered {
  import opened Bytes

  /** The items filed under the numbers 1..n, with repetitions. */
  ghost function Filed<T>(sent: map<int, Option<T>>, n: nat): multiset<T> {
    if n == 0 then multiset{}
    else if n in sent && sent[n].Some? then Filed(sent, n - 1) + multiset{sent[n].value}
    else Filed(sent, n - 1)
  }

  ghost function Items<T>(d: seq<(int, T)>): multiset<T> {
    if d == [] then multiset{} else Items(d[..|d| - 1]) + multiset{d[|d| - 1].1}
  }

  /** Every entry answers the item filed under its own number, at most n. */
  ghost predicate Answers<T>(d: seq<(int, T)>, sent: map<int, Option<T>>, n: nat) {
    forall i :: 0 <= i < |d| ==> 0 < d[i].0 <= n && d[i].0 in sent && sent[d[i].0] == Some(d[i].1)
  }

  ghost predicate Distinct<T>(d: seq<(int, T)>) {
    forall i, j :: 0 <= i < j < |d| ==> d[i].0 != d[j].0
  }

  ghost function Without<T>(d: seq<T>, i: nat): seq<T>
    requires i < |d|
  {
    d[..i] + d[i + 1..]
  }

  lemma WithoutInit<T>(d: seq<T>, i: nat)
    requires i < |d| - 1
    ensures var e := Without(d, i);
            |e| == |d| - 1 && e[..|e| - 1] == Without(d[..|d| - 1], i) && e[|e| - 1] == d[|d| - 1]
  {
  }

  lemma {:induction false} ItemsWithout<T>(d: seq<(int, T)>, i: nat)
    requires i < |d|
    ensures Items(d) == Items(Without(d, i)) + multiset{d[i].1}
  {
    if i == |d| - 1 {
      assert Without(d, i) == d[..|d| - 1];
    } else {
      var init := d[..|d| - 1];
      ItemsWithout(init, i);
      WithoutInit(d, i);
      hide Without;
    }
  }

  lemma WithoutHighest<T>(d: seq<(int, T)>, sent: map<int, Option<T>>, n: nat, i: nat)
    requires Answers(d, sent, n) && Distinct(d) && i < |d| && d[i].0 == n
    ensures n > 0 && n in sent && sent[n] == Some(d[i].1)
    ensures Answers(Without(d, i), sent, n - 1) && Distinct(Without(d, i))
  {
    var e := Without(d, i);
    forall k | 0 <= k < |e|
      ensures 0 < e[k].0 <= n - 1 && e[k].0 in sent && sent[e[k].0] == Some(e[k].1)
    {
      var j := if k < i then k else k + 1;
      assert e[k] == d[j] && d[j].0 != d[i].0;
    }
  }

  lemma AnswersBelow<T>(d: seq<(int, T)>, sent: map<int, Option<T>>, n: nat)
    requires Answers(d, sent, n) && d != [] && forall i :: 0 <= i < |d| ==> d[i].0 != n
    ensures n > 0 && Answers(d, sent, n - 1)
  {
    assert 0 < d[0].0 <= n;
  }

  lemma FiledGrows<T>(bag: multiset<T>, sent: map<int, Option<T>>, n: nat)
    requires n > 0 && bag <= Filed(sent, n - 1)
    ensures bag <= Filed(sent, n)
    ensures n in sent && sent[n].Some? ==> bag + multiset{sent[n].value} <= Filed(sent, n)
  {
  }

  lemma NothingFits<T>(sent: map<int, Option<T>>, n: nat)
    ensures Items<T>([]) <= Filed(sent, n)
  {
  }

  lemma HighestFits<T>(d: seq<(int, T)>, sent: map<int, Option<T>>, n: nat, i: nat)
    requires n > 0 && i < |d| && n in sent && sent[n] == Some(d[i].1)
    requires Items(Without(d, i)) <= Filed(sent, n - 1)
    ensures Items(d) <= Filed(sent, n)
  {
    hide Items;
    hide Filed;
    hide Without;
    ItemsWithout(d, i);
    FiledGrows(Items(Without(d, i)), sent, n);
  }

  lemma {:induction false} DistinctAnswersBag<T>(d: seq<(int, T)>, sent: map<int, Option<T>>, n: nat)
    requires Answers(d, sent, n) && Distinct(d)
    ensures Items(d) <= Filed(sent, n)
    decreases n
  {
    hide Items;
    hide Filed;
    hide Distinct;
    hide Answers;
    hide Without;
    if d == [] {
      NothingFits(sent, n);
    } else if i :| 0 <= i < |d| && d[i].0 == n {
      WithoutHighest(d, sent, n, i);
      DistinctAnswersBag(Without(d, i), sent, n - 1);
      HighestFits(d, sent, n, i);
    } else {
      AnswersBelow(d, sent, n);
      DistinctAnswersBag(d, sent, n - 1);
      FiledGrows(Items(d), sent, n);
    }
  }
}

/** Two gateways with one SA between them, over a network that may drop, duplicate, reorder and
    make up packets.  The cipher is ideal: the receiver can open only what the sender sealed, so
    the model keeps a log of sealed texts and opens by looking them up. */
module EspChannel {
  import opened Bytes
  import opened EspContexts
  import opened IpPackets
  import opened EspPackets
  import opened Numbered

  datatype Config = Config(spi: uint32, ivSize: nat, icvSize: nat, blockSize: nat) {
    /** Sizes for which the pad length always fits its byte. */
    predicate Valid() {
      0 < blockSize <= 253 || (blockSize == 256 && ivSize % 4 == 0)
    }
  }

  type SealedText = (bytes, bytes, bytes)

  /** What was handed to the network, and what it was made of. */
  datatype Output = Output(iv: bytes, sealed: bytes, packet: bytes)

  /** `lastOut` and `ring` are the two ESP contexts.  The rest is history: the cipher's log, what
      was sent under each number and as which bytes, the numbers authenticated, and what was
      delivered. */
  datatype State = State(lastOut: uint32, ring: Ring,
                         log: map<SealedText, bytes>, sent: map<int, Option<IpPacket>>, out: map<int, Output>,
                         seen: set<int>, delivered: seq<(int, IpPacket)>)

  datatype Step =
    | Send(raw: bytes, iv: bytes, sealed: bytes)
    | SendDummy(iv: bytes, sealed: bytes)
    | SendFails
    | Arrive(data: bytes, allowed: bool)

  function Init(): State {
    State(0, EmptyRing(), map[], map[], map[], {}, [])
  }

  /** The receiver's transform. */
  function Opener(cfg: Config, log: map<SealedText, bytes>): Aead {
    Aead(cfg.ivSize, cfg.icvSize, cfg.blockSize, None, (a, iv, p) => None,
         (a, iv, c) => if (a, iv, c) in log then Some(log[(a, iv, c)]) else None)
  }

  /** The text that is sealed for a payload. */
  function Text(cfg: Config, payload: Option<IpPacket>): bytes
    requires cfg.Valid()
  {
    Plaintext(cfg.ivSize, cfg.blockSize, Encoding(payload), NextHeader(payload))
  }

  function Aad(cfg: Config, seqno: uint32): bytes {
    U32(cfg.spi) + U32(seqno)
  }

  predicate CanSeal(cfg: Config, s: State, payload: Option<IpPacket>, iv: bytes, sealed: bytes)
    requires cfg.Valid()
  {
    s.lastOut < UINT32_MAX && |iv| == cfg.ivSize && |sealed| == |Text(cfg, payload)| + cfg.icvSize
  }

  /** `process_outbound` from `encrypt` on: take a number, seal, hand the packet to the network. */
  function Sealed(cfg: Config, s: State, payload: Option<IpPacket>, iv: bytes, sealed: bytes): State
    requires cfg.Valid() && s.lastOut < UINT32_MAX
  {
    var n := s.lastOut + 1;
    s.(lastOut := n, log := s.log[(Aad(cfg, n), iv, sealed) := Text(cfg, payload)], sent := s.sent[n := payload],
       out := s.out[n := Output(iv, sealed, Aad(cfg, n) + iv + sealed)])
  }

  /** The packet passes the length, replay and integrity checks, so its number should be used up. */
  predicate Authentic(aead: Aead, ring: Ring, data: bytes)
    requires aead.blockSize > 0 && ring.Valid()
  {
    && Split(aead, data).Some?
    && var f := Split(aead, data).value;
       Verify(ring, f.seqno) && aead.open(f.aad, f.iv, f.sealed).Some?
  }

  predicate Deliverable(r: Inbound, allowed: bool) {
    r.status == SUCCESS && r.content.Some? && r.content.value.1 in {IPPROTO_IPIP, IPPROTO_IPV6} && allowed
  }

  /** `process_inbound` on arbitrary bytes; `allowed` is the policy lookup's answer. */
  function Received(cfg: Config, s: State, data: bytes, allowed: bool): State
    requires cfg.Valid() && s.ring.Valid()
  {
    if |data| < 8 || ReadU32(data) != cfg.spi then s
    else
      var aead, seqno := Opener(cfg, s.log), ReadU32(data[4..]);
      var r := Decapsulate(aead, s.ring, data);
      s.(ring := r.ring, seen := s.seen + if Authentic(aead, s.ring, data) then {seqno} else {},
         delivered := s.delivered + if Deliverable(r, allowed) then [(seqno, r.content.value.0)] else [])
  }

  function Apply(cfg: Config, s: State, step: Step): (t: State)
    requires cfg.Valid() && s.ring.Valid()
    ensures t.ring.Valid()
  {
    match step
    case Send(raw, iv, sealed) =>
      if Create(raw).Some? && CanSeal(cfg, s, Create(raw), iv, sealed) then
        Sealed(cfg, s, Create(raw), iv, sealed)
      else s
    case SendDummy(iv, sealed) =>
      if CanSeal(cfg, s, None, iv, sealed) then Sealed(cfg, s, None, iv, sealed) else s
    case SendFails => if s.lastOut == UINT32_MAX then s else s.(lastOut := s.lastOut + 1)
    case Arrive(data, allowed) => Received(cfg, s, data, allowed)
  }

  function Run(cfg: Config, steps: seq<Step>): (s: State)
    requires cfg.Valid()
    ensures s.ring.Valid()
  {
    if steps == [] then Init()
    else Apply(cfg, Run(cfg, steps[..|steps| - 1]), steps[|steps| - 1])
  }

  // ---------------------------------------------------------------- invariant

  ghost predicate WellMade(payload: Option<IpPacket>) {
    payload.Some? ==> exists raw :: Create(raw) == payload
  }

  ghost function NumberOf(k: SealedText): int {
    if |k.0| == 8 then ReadU32(k.0[4..]) else 0
  }

  ghost predicate LogEntry(cfg: Config, s: State, k: SealedText)
    requires cfg.Valid() && k in s.log
  {
    NumberOf(k) in s.sent && s.log[k] == Text(cfg, s.sent[NumberOf(k)])
  }

  /** The log holds exactly texts sent, each under its own number. */
  ghost predicate LogInv(cfg: Config, s: State)
    requires cfg.Valid()
  {
    && (forall n :: n in s.sent ==> 0 < n <= s.lastOut && WellMade(s.sent[n]))
    && (forall k :: k in s.log ==> LogEntry(cfg, s, k))
  }

  ghost predicate SealedAs(cfg: Config, s: State, n: uint32, payload: Option<IpPacket>, iv: bytes, sealed: bytes)
    requires cfg.Valid()
  {
    && |iv| == cfg.ivSize && |sealed| == |Text(cfg, payload)| + cfg.icvSize
    && (Aad(cfg, n), iv, sealed) in s.log && s.log[(Aad(cfg, n), iv, sealed)] == Text(cfg, payload)
  }

  ghost predicate OutEntry(cfg: Config, s: State, n: int)
    requires cfg.Valid() && n in s.out && n in s.sent
  {
    && 0 < n <= UINT32_MAX && s.out[n].packet == Aad(cfg, n) + s.out[n].iv + s.out[n].sealed
    && SealedAs(cfg, s, n, s.sent[n], s.out[n].iv, s.out[n].sealed)
  }

  /** The sealed text went out in the packet of its number. */
  ghost predicate KeyEntry(s: State, k: SealedText) {
    NumberOf(k) in s.out && s.out[NumberOf(k)].packet == k.0 + k.1 + k.2
  }

  /** Every number sent went out as header, IV and the sealed text of its payload. */
  ghost predicate OutInv(cfg: Config, s: State)
    requires cfg.Valid()
  {
    && (forall n :: n in s.sent <==> n in s.out)
    && (forall n :: n in s.out ==> OutEntry(cfg, s, n))
    && (forall k :: k in s.log ==> KeyEntry(s, k))
  }

  ghost predicate DeliveryInv(s: State) {
    && (forall n :: n in s.seen ==> n in s.sent)
    && (forall i :: 0 <= i < |s.delivered| ==> s.delivered[i].0 in s.seen)
    && Answers(s.delivered, s.sent, s.lastOut)
    && Distinct(s.delivered)
  }

  ghost predicate Inv(cfg: Config, s: State)
    requires cfg.Valid()
  {
    LogInv(cfg, s) && OutInv(cfg, s) && DeliveryInv(s) && Represents(s.ring, s.seen)
  }

  lemma AadFields(cfg: Config, n: uint32)
    ensures ReadU32(Aad(cfg, n)) == cfg.spi && ReadU32(Aad(cfg, n)[4..]) == n
  {
    ReadU32OfU32(cfg.spi, U32(n));
    ReadU32OfU32(n, []);
    assert Aad(cfg, n)[4..] == U32(n) + [];
  }

  lemma NewNumber(cfg: Config, s: State, k: SealedText)
    requires cfg.Valid() && LogInv(cfg, s) && k in s.log && s.lastOut < UINT32_MAX
    ensures k.0 != Aad(cfg, s.lastOut + 1)
  {
    AadFields(cfg, s.lastOut + 1);
    assert LogEntry(cfg, s, k);
    assert NumberOf(k) <= s.lastOut;
  }

  lemma SealedKeepsLog(cfg: Config, s: State, payload: Option<IpPacket>, iv: bytes, sealed: bytes)
    requires cfg.Valid() && LogInv(cfg, s) && WellMade(payload) && s.lastOut < UINT32_MAX
    ensures LogInv(cfg, Sealed(cfg, s, payload, iv, sealed))
    ensures forall k :: k in s.log ==> k != (Aad(cfg, s.lastOut + 1), iv, sealed)
  {
    hide Text;
    hide WellMade;
    var t := Sealed(cfg, s, payload, iv, sealed);
    var key := (Aad(cfg, s.lastOut + 1), iv, sealed);
    AadFields(cfg, s.lastOut + 1);
    forall k | k in s.log
      ensures k != key && LogEntry(cfg, t, k)
    {
      NewNumber(cfg, s, k);
      assert LogEntry(cfg, s, k);
    }
  }

  lemma OutEntryStays(cfg: Config, s: State, payload: Option<IpPacket>, iv: bytes, sealed: bytes, n: int)
    requires cfg.Valid() && LogInv(cfg, s) && OutInv(cfg, s) && CanSeal(cfg, s, payload, iv, sealed) && n in s.out
    requires s.lastOut + 1 !in s.sent && s.lastOut + 1 !in s.out
    ensures OutEntry(cfg, Sealed(cfg, s, payload, iv, sealed), n)
  {
    hide Text;
    hide Aad;
    hide LogInv;
    hide KeyEntry;
    assert OutEntry(cfg, s, n);
    NewNumber(cfg, s, (Aad(cfg, n), s.out[n].iv, s.out[n].sealed));
  }

  lemma NewEntries(cfg: Config, s: State)
    requires cfg.Valid() && LogInv(cfg, s) && OutInv(cfg, s)
    ensures s.lastOut + 1 !in s.sent && s.lastOut + 1 !in s.out
  {
    hide Text;
    hide WellMade;
  }

  lemma OldKey(cfg: Config, s: State, k: SealedText)
    requires cfg.Valid() && LogInv(cfg, s) && OutInv(cfg, s) && k in s.log
    ensures KeyEntry(s, k) && NumberOf(k) <= s.lastOut
  {
    hide Text;
    hide OutEntry;
    hide NumberOf;
    hide WellMade;
    assert LogEntry(cfg, s, k);
  }

  lemma NewKey(cfg: Config, n: uint32, iv: bytes, sealed: bytes)
    ensures NumberOf((Aad(cfg, n), iv, sealed)) == n
  {
    AadFields(cfg, n);
  }

  lemma KeyEntryStays(cfg: Config, s: State, payload: Option<IpPacket>, iv: bytes, sealed: bytes, k: SealedText)
    requires cfg.Valid() && LogInv(cfg, s) && OutInv(cfg, s) && s.lastOut < UINT32_MAX
    requires k in Sealed(cfg, s, payload, iv, sealed).log
    ensures KeyEntry(Sealed(cfg, s, payload, iv, sealed), k)
  {
    hide Text;
    hide LogInv;
    hide OutInv;
    hide NumberOf;
    hide Aad;
    NewKey(cfg, s.lastOut + 1, iv, sealed);
    if k in s.log {
      OldKey(cfg, s, k);
    }
  }

  lemma SealedKeepsOut(cfg: Config, s: State, payload: Option<IpPacket>, iv: bytes, sealed: bytes)
    requires cfg.Valid() && LogInv(cfg, s) && OutInv(cfg, s) && CanSeal(cfg, s, payload, iv, sealed)
    ensures OutInv(cfg, Sealed(cfg, s, payload, iv, sealed))
  {
    hide Text;
    hide Aad;
    hide LogInv;
    NewEntries(cfg, s);
    var t := Sealed(cfg, s, payload, iv, sealed);
    assert OutEntry(cfg, t, s.lastOut + 1);
    forall k | k in t.log
      ensures KeyEntry(t, k)
    {
      KeyEntryStays(cfg, s, payload, iv, sealed, k);
    }
    hide KeyEntry;
    hide OutEntry;
    forall n | n in s.out
      ensures OutEntry(cfg, t, n)
    {
      OutEntryStays(cfg, s, payload, iv, sealed, n);
    }
  }

  lemma SameDelivery(s: State, t: State)
    requires DeliveryInv(s) && t.seen == s.seen && t.delivered == s.delivered && t.lastOut >= s.lastOut
    requires forall n :: n in s.sent ==> n in t.sent && t.sent[n] == s.sent[n]
    ensures DeliveryInv(t)
  {
    var d := s.delivered;
    assert forall i :: 0 <= i < |d| ==> d[i].0 in s.sent && s.sent[d[i].0] == Some(d[i].1);
  }

  lemma Room(cfg: Config, s: State, payload: Option<IpPacket>, iv: bytes, sealed: bytes)
    requires cfg.Valid() && CanSeal(cfg, s, payload, iv, sealed)
    ensures s.lastOut < UINT32_MAX
  {
  }

  /** Nothing sealed or sent is forgotten or overwritten. */
  ghost predicate Extends(a: State, b: State) {
    && (forall k :: k in a.log ==> k in b.log && b.log[k] == a.log[k])
    && (forall n :: n in a.sent ==> n in b.sent && b.sent[n] == a.sent[n])
    && (forall n :: n in a.out ==> n in b.out && b.out[n] == a.out[n])
  }

  lemma ExtendsTransitive(a: State, b: State, c: State)
    requires Extends(a, b) && Extends(b, c)
    ensures Extends(a, c)
  {
  }

  /** A payload sent keeps the invariant and overwrites nothing. */
  lemma SealedKeepsInv(cfg: Config, s: State, payload: Option<IpPacket>, iv: bytes, sealed: bytes)
    requires cfg.Valid() && Inv(cfg, s) && WellMade(payload) && CanSeal(cfg, s, payload, iv, sealed)
    ensures Inv(cfg, Sealed(cfg, s, payload, iv, sealed))
    ensures Extends(s, Sealed(cfg, s, payload, iv, sealed))
  {
    hide LogInv;
    hide OutInv;
    hide DeliveryInv;
    hide WellMade;
    hide Represents;
    hide CanSeal;
    hide Text;
    hide Aad;
    assert s.lastOut < UINT32_MAX by { Room(cfg, s, payload, iv, sealed); }
    SealedKeepsLog(cfg, s, payload, iv, sealed);
    SealedKeepsOut(cfg, s, payload, iv, sealed);
    NewEntries(cfg, s);
    SameDelivery(s, Sealed(cfg, s, payload, iv, sealed));
  }

  lemma SameOut(cfg: Config, s: State, t: State)
    requires cfg.Valid() && OutInv(cfg, s) && t.log == s.log && t.sent == s.sent && t.out == s.out
    ensures OutInv(cfg, t)
  {
    hide Text;
    hide Aad;
    hide NumberOf;
    forall k | k in t.log
      ensures KeyEntry(t, k)
    {
      assert KeyEntry(s, k);
    }
    hide KeyEntry;
    forall n | n in t.out
      ensures OutEntry(cfg, t, n)
    {
      assert OutEntry(cfg, s, n);
    }
  }

  lemma DecapsulateAuthentic(aead: Aead, ring: Ring, data: bytes)
    requires aead.blockSize > 0 && ring.Valid() && |data| >= 8 && Authentic(aead, ring, data)
    ensures var f := Split(aead, data).value;
            var content := Unpad(aead.open(f.aad, f.iv, f.sealed).value);
            && Decapsulate(aead, ring, data) ==
               Inbound(if content.Some? then SUCCESS else PARSE_ERROR, Mark(ring, f.seqno), content)
            && f.seqno == ReadU32(data[4..]) && Verify(ring, f.seqno)
            && NumberOf((f.aad, f.iv, f.sealed)) == f.seqno
  {
    assert data[..8][4..] == data[4..][..4];
  }

  /** Every other packet leaves the window alone and is not delivered. */
  lemma DecapsulateRefused(aead: Aead, ring: Ring, data: bytes)
    requires aead.blockSize > 0 && ring.Valid() && !Authentic(aead, ring, data)
    ensures Decapsulate(aead, ring, data).ring == ring && Decapsulate(aead, ring, data).status != SUCCESS
  {
  }

  lemma SmallPad(cfg: Config, n: nat)
    requires cfg.Valid()
    ensures PadTotal(n, cfg.ivSize, cfg.blockSize) < 256
  {
    if cfg.blockSize == 256 {
      var pad := PadLen(n + 2, 256);
      assert PadLen(cfg.ivSize + n + 2 + pad, 4) == 0;
    }
  }

  /** The trailer of a sealed text comes off again, and only a whole IP packet is left. */
  lemma TextUnpads(cfg: Config, payload: Option<IpPacket>)
    requires cfg.Valid() && WellMade(payload)
    ensures Unpad(Text(cfg, payload)).Some? <==> payload.Some? && Reparses(payload.value)
    ensures Unpad(Text(cfg, payload)).Some? ==>
              Unpad(Text(cfg, payload)) == Some((payload.value, NextHeader(payload)))
  {
    SmallPad(cfg, |Encoding(payload)|);
    UnpadPlaintext(cfg.ivSize, cfg.blockSize, Encoding(payload), NextHeader(payload));
    if payload.Some? {
      var raw :| Create(raw) == payload;
      CreateIsIdempotent(raw);
    }
  }

  /** Opening succeeds only on a text sealed under the number in the packet's header, and then
      yields what was sent under that number. */
  lemma OpenedWasSent(cfg: Config, s: State, data: bytes)
    requires cfg.Valid() && LogInv(cfg, s) && s.ring.Valid() && |data| >= 8
    requires Authentic(Opener(cfg, s.log), s.ring, data)
    ensures var n := ReadU32(data[4..]);
            var r := Decapsulate(Opener(cfg, s.log), s.ring, data);
            && n in s.sent && Verify(s.ring, n) && r.ring == Mark(s.ring, n)
            && (r.status == SUCCESS ==>
                  s.sent[n].Some? && r.content == Some((s.sent[n].value, NextHeader(s.sent[n]))))
  {
    DecapsulateAuthentic(Opener(cfg, s.log), s.ring, data);
    var f := Split(Opener(cfg, s.log), data).value;
    assert LogEntry(cfg, s, (f.aad, f.iv, f.sealed));
    TextUnpads(cfg, s.sent[f.seqno]);
  }

  /** A received packet changes nothing, or uses up a number that was sent and not seen yet; then it
      delivers nothing, or what was sent under that number. */
  lemma ReceivedIs(cfg: Config, s: State, data: bytes, allowed: bool)
    requires cfg.Valid() && LogInv(cfg, s) && s.ring.Valid()
    ensures var t := Received(cfg, s, data, allowed);
            t == s ||
            (|data| >= 8 &&
             var n := ReadU32(data[4..]);
             && n in s.sent && Verify(s.ring, n)
             && (t == s.(ring := Mark(s.ring, n), seen := s.seen + {n}) ||
                 (s.sent[n].Some? &&
                  t == s.(ring := Mark(s.ring, n), seen := s.seen + {n},
                          delivered := s.delivered + [(n as int, s.sent[n].value)]))))
  {
    hide LogInv;
    hide Decapsulate;
    hide NextHeader;
    hide Mark;
    hide Verify;
    hide ReadU32;
    assert s.delivered + [] == s.delivered && s.seen + {} == s.seen;
    if |data| >= 8 && ReadU32(data) == cfg.spi {
      if Authentic(Opener(cfg, s.log), s.ring, data) {
        OpenedWasSent(cfg, s, data);
      } else {
        DecapsulateRefused(Opener(cfg, s.log), s.ring, data);
      }
    }
    hide Authentic;
  }

  lemma SentIsLow(cfg: Config, s: State, n: int)
    requires cfg.Valid() && LogInv(cfg, s) && n in s.sent
    ensures 0 < n <= s.lastOut
  {
  }

  lemma DeliveryGrows(s: State, n: int, t: State)
    requires DeliveryInv(s) && n in s.sent && n !in s.seen && 0 < n <= s.lastOut
    requires t.sent == s.sent && t.lastOut == s.lastOut && t.seen == s.seen + {n}
    requires t.delivered == s.delivered || (s.sent[n].Some? && t.delivered == s.delivered + [(n, s.sent[n].value)])
    ensures DeliveryInv(t)
  {
  }

  lemma SameLog(cfg: Config, s: State, t: State)
    requires cfg.Valid() && LogInv(cfg, s) && t.log == s.log && t.sent == s.sent && t.lastOut >= s.lastOut
    ensures LogInv(cfg, t)
  {
    forall k | k in t.log
      ensures LogEntry(cfg, t, k)
    {
      assert LogEntry(cfg, s, k);
    }
  }

  lemma ReceiptKeepsInv(cfg: Config, s: State, n: uint32, ring: Ring, seen: set<int>, delivered: seq<(int, IpPacket)>)
    requires cfg.Valid() && Inv(cfg, s) && n in s.sent && s.ring.Valid() && Verify(s.ring, n)
    requires ring == Mark(s.ring, n) && seen == s.seen + {n as int}
    requires delivered == s.delivered || (s.sent[n].Some? && delivered == s.delivered + [(n as int, s.sent[n].value)])
    ensures Inv(cfg, s.(ring := ring, seen := seen, delivered := delivered))
  {
    hide LogInv;
    hide OutInv;
    hide DeliveryInv;
    hide Represents;
    hide Mark;
    hide Verify;
    var t := s.(ring := ring, seen := seen, delivered := delivered);
    MarkAdds(s.ring, s.seen, n);
    SentIsLow(cfg, s, n);
    DeliveryGrows(s, n, t);
    SameLog(cfg, s, t);
    SameOut(cfg, s, t);
  }

  lemma InvHas(cfg: Config, s: State)
    requires cfg.Valid() && Inv(cfg, s)
    ensures LogInv(cfg, s) && s.ring.Valid()
  {
  }

  lemma ReceivedKeepsInv(cfg: Config, s: State, data: bytes, allowed: bool)
    requires cfg.Valid() && Inv(cfg, s)
    ensures Inv(cfg, Received(cfg, s, data, allowed))
    ensures Extends(s, Received(cfg, s, data, allowed))
  {
    hide Inv;
    hide LogInv;
    hide Received;
    hide ReadU32;
    hide Mark;
    hide Verify;
    InvHas(cfg, s);
    var t := Received(cfg, s, data, allowed);
    ReceivedIs(cfg, s, data, allowed);
    if t != s {
      ReceiptKeepsInv(cfg, s, ReadU32(data[4..]), t.ring, t.seen, t.delivered);
    }
  }

  lemma SkippedKeepsInv(cfg: Config, s: State)
    requires cfg.Valid() && Inv(cfg, s) && s.ring.Valid()
    ensures Inv(cfg, Apply(cfg, s, SendFails)) && Extends(s, Apply(cfg, s, SendFails))
  {
    hide LogInv;
    hide OutInv;
    hide DeliveryInv;
    hide Represents;
    var t := Apply(cfg, s, SendFails);
    SameLog(cfg, s, t);
    SameOut(cfg, s, t);
    SameDelivery(s, t);
  }

  lemma CreatedIsWellMade(raw: bytes)
    ensures WellMade(Create(raw)) && WellMade(None)
  {
  }

  lemma ApplyKeepsInv(cfg: Config, s: State, step: Step)
    requires cfg.Valid() && Inv(cfg, s)
    ensures Inv(cfg, Apply(cfg, s, step))
    ensures Extends(s, Apply(cfg, s, step))
  {
    assert s.ring.Valid();
    hide LogInv;
    hide OutInv;
    hide DeliveryInv;
    hide Represents;
    hide Create;
    hide CanSeal;
    hide Received;
    hide Sealed;
    hide WellMade;
    match step
    case Send(raw, iv, sealed) =>
      if Create(raw).Some? && CanSeal(cfg, s, Create(raw), iv, sealed) {
        CreatedIsWellMade(raw);
        Room(cfg, s, Create(raw), iv, sealed);
        SealedKeepsInv(cfg, s, Create(raw), iv, sealed);
      }
    case SendDummy(iv, sealed) =>
      if CanSeal(cfg, s, None, iv, sealed) {
        CreatedIsWellMade([]);
        Room(cfg, s, None, iv, sealed);
        SealedKeepsInv(cfg, s, None, iv, sealed);
      }
    case SendFails => SkippedKeepsInv(cfg, s);
    case Arrive(data, allowed) => ReceivedKeepsInv(cfg, s, data, allowed);
  }

  lemma {:induction false} RunKeepsInv(cfg: Config, steps: seq<Step>)
    requires cfg.Valid()
    ensures Inv(cfg, Run(cfg, steps))
  {
    if steps != [] {
      RunKeepsInv(cfg, steps[..|steps| - 1]);
      ApplyKeepsInv(cfg, Run(cfg, steps[..|steps| - 1]), steps[|steps| - 1]);
    }
  }

  lemma RunSnoc(cfg: Config, steps: seq<Step>, step: Step)
    requires cfg.Valid()
    ensures Run(cfg, steps + [step]) == Apply(cfg, Run(cfg, steps), step)
  {
    assert (steps + [step])[..|steps + [step]| - 1] == steps;
  }

  lemma {:induction false} RunExtends(cfg: Config, steps: seq<Step>, more: seq<Step>)
    requires cfg.Valid()
    ensures Extends(Run(cfg, steps), Run(cfg, steps + more))
  {
    if more == [] {
      assert steps + more == steps;
    } else {
      var init, step := steps + more[..|more| - 1], more[|more| - 1];
      assert steps + more == init + [step];
      RunExtends(cfg, steps, more[..|more| - 1]);
      RunKeepsInv(cfg, init);
      RunSnoc(cfg, init, step);
      ApplyKeepsInv(cfg, Run(cfg, init), step);
      ExtendsTransitive(Run(cfg, steps), Run(cfg, init), Run(cfg, init + [step]));
    }
  }

  // ---------------------------------------------------------------- what every run guarantees

  /** In every run every delivered packet was sent on this SA, and none is delivered more often
      than it was sent: the delivered packets are a sub-multiset of the sent ones. */
  lemma DeliveredWasSentOnce(cfg: Config, steps: seq<Step>)
    requires cfg.Valid()
    ensures var s := Run(cfg, steps);
            && Items(s.delivered) <= Filed(s.sent, s.lastOut)
            && (forall i :: 0 <= i < |s.delivered| ==>
                  s.delivered[i].0 in s.sent && s.sent[s.delivered[i].0] == Some(s.delivered[i].1))
            && (forall i, j :: 0 <= i < j < |s.delivered| ==> s.delivered[i].0 != s.delivered[j].0)
  {
    var s := Run(cfg, steps);
    RunKeepsInv(cfg, steps);
    DistinctAnswersBag(s.delivered, s.sent, s.lastOut);
  }

  /** The cipher the sender uses, as far as it was used. */
  ghost predicate Seals(cfg: Config, aead: Aead, log: map<SealedText, bytes>) {
    && aead.ivSize == cfg.ivSize && aead.blockSize == cfg.blockSize
    && forall k :: k in log ==> aead.seal(k.0, k.1, log[k]) == Some(k.2)
  }

  /** In every run what goes out under a number is the wire format of what was sent under it. */
  lemma OutputIsWire(cfg: Config, aead: Aead, steps: seq<Step>, n: uint32)
    requires cfg.Valid() && Seals(cfg, aead, Run(cfg, steps).log) && n in Run(cfg, steps).sent
    ensures var s := Run(cfg, steps);
            && n in s.out
            && Wire(aead, cfg.spi, n, s.out[n].iv, Encoding(s.sent[n]), NextHeader(s.sent[n])) == Some(s.out[n].packet)
  {
    var s := Run(cfg, steps);
    RunKeepsInv(cfg, steps);
    hide Run;
    assert OutEntry(cfg, s, n);
    assert s.log[(Aad(cfg, n), s.out[n].iv, s.out[n].sealed)] == Text(cfg, s.sent[n]);
    hide LogInv;
    hide DeliveryInv;
    hide Represents;
    hide Plaintext;
  }

  lemma SplitJoins(aead: Aead, data: bytes)
    requires aead.blockSize > 0 && Split(aead, data).Some?
    ensures var f := Split(aead, data).value;
            && |data| >= 8 && f.aad + f.iv + f.sealed == data && f.seqno == ReadU32(data[4..])
            && NumberOf((f.aad, f.iv, f.sealed)) == f.seqno
  {
    assert data[..8][4..][..4] == data[4..][..4];
  }

  /** A text the receiver can open came in a packet that was handed to the network. */
  lemma AuthenticWentOut(cfg: Config, s: State, data: bytes)
    requires cfg.Valid() && OutInv(cfg, s) && s.ring.Valid() && Authentic(Opener(cfg, s.log), s.ring, data)
    ensures |data| >= 8 && ReadU32(data[4..]) in s.out && s.out[ReadU32(data[4..])].packet == data
  {
    hide OutEntry;
    hide Decapsulate;
    hide Verify;
    var aead := Opener(cfg, s.log);
    SplitJoins(aead, data);
    var f := Split(aead, data).value;
    hide Split;
    assert KeyEntry(s, (f.aad, f.iv, f.sealed));
  }

  /** In every run, bytes that are not a packet that was sent change nothing when they arrive: no
      number is used up and nothing is delivered. */
  lemma ForgedChangesNothing(cfg: Config, steps: seq<Step>, data: bytes, allowed: bool)
    requires cfg.Valid()
    requires forall n :: n in Run(cfg, steps).out ==> Run(cfg, steps).out[n].packet != data
    ensures Received(cfg, Run(cfg, steps), data, allowed) == Run(cfg, steps)
  {
    var s := Run(cfg, steps);
    RunKeepsInv(cfg, steps);
    InvHas(cfg, s);
    hide Run;
    hide LogInv;
    hide DeliveryInv;
    hide Represents;
    if |data| >= 8 && ReadU32(data) == cfg.spi {
      if Authentic(Opener(cfg, s.log), s.ring, data) {
        AuthenticWentOut(cfg, s, data);
        assert false;
      }
      DecapsulateRefused(Opener(cfg, s.log), s.ring, data);
    }
    hide OutInv;
    assert s.delivered + [] == s.delivered && s.seen + {} == s.seen;
  }

  /** What the receiver reads in a genuine packet. */
  lemma GenuineSplits(cfg: Config, s: State, n: uint32, payload: Option<IpPacket>, iv: bytes, sealed: bytes)
    requires cfg.Valid() && SealedAs(cfg, s, n, payload, iv, sealed)
    ensures var aead := Opener(cfg, s.log);
            var data := Aad(cfg, n) + iv + sealed;
            && ReadU32(data) == cfg.spi && ReadU32(data[4..]) == n
            && (Split(aead, data).Some? <==> |Text(cfg, payload)| % cfg.blockSize == 0)
            && (Split(aead, data).Some? ==>
                  var f := Split(aead, data).value;
                  f.seqno == n && aead.open(f.aad, f.iv, f.sealed) == Some(Text(cfg, payload)))
  {
    var data := Aad(cfg, n) + iv + sealed;
    assert data[..8] == Aad(cfg, n) && data[8..8 + cfg.ivSize] == iv && data[8 + cfg.ivSize..] == sealed;
    AadFields(cfg, n);
    assert data[4..][..4] == Aad(cfg, n)[4..][..4];
  }

  /** A genuine packet is admitted: above the window or inside it and unused, in whole blocks,
      parseable again, and allowed by a policy. */
  ghost predicate Admitted(cfg: Config, s: State, n: int, ip: IpPacket, allowed: bool)
    requires cfg.Valid()
  {
    && (n > s.ring.last || (s.ring.last - n < WINDOW_SIZE && n !in s.seen))
    && Aligned(|ip.encoding|, cfg.ivSize, cfg.blockSize) && Reparses(ip) && allowed
  }

  lemma TextLength(cfg: Config, ip: IpPacket)
    requires cfg.Valid()
    ensures |Text(cfg, Some(ip))| % cfg.blockSize == 0 <==> Aligned(|ip.encoding|, cfg.ivSize, cfg.blockSize)
  {
    assert |Text(cfg, Some(ip))| == |ip.encoding| + 2 + PadTotal(|ip.encoding|, cfg.ivSize, cfg.blockSize);
  }

  lemma GenuineArrives(cfg: Config, s: State, n: uint32, ip: IpPacket, iv: bytes, sealed: bytes, allowed: bool)
    requires cfg.Valid() && Represents(s.ring, s.seen) && WellMade(Some(ip)) && n > 0
    requires SealedAs(cfg, s, n, Some(ip), iv, sealed)
    ensures Received(cfg, s, Aad(cfg, n) + iv + sealed, allowed).delivered ==
              if Admitted(cfg, s, n, ip, allowed) then s.delivered + [(n as int, ip)] else s.delivered
  {
    GenuineSplits(cfg, s, n, Some(ip), iv, sealed);
    TextUnpads(cfg, Some(ip));
    VerifyIsFresh(s.ring, s.seen, n);
    TextLength(cfg, ip);
  }

  lemma TextSize(cfg: Config, payload: Option<IpPacket>)
    requires cfg.Valid()
    ensures |Text(cfg, payload)| % cfg.blockSize == 0 <==> Aligned(|Encoding(payload)|, cfg.ivSize, cfg.blockSize)
  {
    assert |Text(cfg, payload)| == |Encoding(payload)| + 2 + PadTotal(|Encoding(payload)|, cfg.ivSize, cfg.blockSize);
    hide PadTotal;
  }

  lemma ArrivalAt(cfg: Config, s: State, n: uint32, payload: Option<IpPacket>, iv: bytes, sealed: bytes, allowed: bool)
    requires cfg.Valid() && Represents(s.ring, s.seen) && SealedAs(cfg, s, n, payload, iv, sealed)
    ensures var t := Received(cfg, s, Aad(cfg, n) + iv + sealed, allowed);
            if Fresh(s.ring.last, s.seen, n) && Aligned(|Encoding(payload)|, cfg.ivSize, cfg.blockSize)
            then t.seen == s.seen + {n as int} && Represents(t.ring, t.seen)
            else t == s
  {
    assert s.ring.Valid();
    hide Represents;
    hide Mark;
    hide Verify;
    hide Decapsulate;
    hide SealedAs;
    hide ReadU32;
    var data, aead := Aad(cfg, n) + iv + sealed, Opener(cfg, s.log);
    GenuineSplits(cfg, s, n, payload, iv, sealed);
    VerifyIsFresh(s.ring, s.seen, n);
    TextSize(cfg, payload);
    hide Text;
    hide Aligned;
    hide Split;
    hide Aad;
    assert s.delivered + [] == s.delivered && s.seen + {} == s.seen;
    if Authentic(aead, s.ring, data) {
      DecapsulateAuthentic(aead, s.ring, data);
      MarkAdds(s.ring, s.seen, n);
    } else {
      DecapsulateRefused(aead, s.ring, data);
    }
  }

  lemma LastIsLow(cfg: Config, s: State)
    requires cfg.Valid() && Inv(cfg, s)
    ensures s.ring.last <= s.lastOut
  {
  }

  /** The other half: whatever the network did so far, a packet that was sent and arrives now is
      delivered exactly when it is admitted. */
  lemma GenuineIsDelivered(cfg: Config, steps: seq<Step>, n: uint32, allowed: bool)
    requires cfg.Valid() && n in Run(cfg, steps).sent && Run(cfg, steps).sent[n].Some?
    ensures var s := Run(cfg, steps);
            && n in s.out
            && Received(cfg, s, s.out[n].packet, allowed).delivered ==
               if Admitted(cfg, s, n, s.sent[n].value, allowed) then s.delivered + [(n as int, s.sent[n].value)]
               else s.delivered
  {
    var s := Run(cfg, steps);
    RunKeepsInv(cfg, steps);
    hide Run;
    hide Received;
    hide Text;
    hide DeliveryInv;
    hide Admitted;
    hide Represents;
    assert OutEntry(cfg, s, n);
    GenuineArrives(cfg, s, n, s.sent[n].value, s.out[n].iv, s.out[n].sealed, allowed);
  }

  /** A packet that was sent uses up its number exactly when that is fresh and the padded text fills whole
      blocks; otherwise it changes nothing. */
  lemma ArrivalExactly(cfg: Config, steps: seq<Step>, n: uint32, allowed: bool)
    requires cfg.Valid() && n in Run(cfg, steps).sent
    ensures var s := Run(cfg, steps);
            && n in s.out
            && var t := Received(cfg, s, s.out[n].packet, allowed);
               if Fresh(s.ring.last, s.seen, n) && Aligned(|Encoding(s.sent[n])|, cfg.ivSize, cfg.blockSize)
               then t.seen == s.seen + {n as int} && Represents(t.ring, t.seen)
               else t == s
  {
    var s := Run(cfg, steps);
    RunKeepsInv(cfg, steps);
    hide Run;
    assert OutEntry(cfg, s, n);
    ArrivalAt(cfg, s, n, s.sent[n], s.out[n].iv, s.out[n].sealed, allowed);
  }

  lemma SendIs(cfg: Config, s: State, raw: bytes, iv: bytes, sealed: bytes)
    requires cfg.Valid() && s.ring.Valid() && s.lastOut < UINT32_MAX && Create(raw).Some?
    requires |iv| == cfg.ivSize && |sealed| == |Text(cfg, Create(raw))| + cfg.icvSize
    ensures var t := Apply(cfg, s, Send(raw, iv, sealed));
            && t.lastOut == s.lastOut + 1 && t.sent == s.sent[t.lastOut := Create(raw)] && t.lastOut in t.out
            && t.ring == s.ring && t.delivered == s.delivered
  {
    hide Create;
    hide Text;
  }

  lemma ArriveIs(cfg: Config, s: State, data: bytes, allowed: bool)
    requires cfg.Valid() && s.ring.Valid()
    ensures Apply(cfg, s, Arrive(data, allowed)) == Received(cfg, s, data, allowed)
  {
    hide Received;
  }

  /** From end to end: after any run, a packet that is sent and arrives next is delivered exactly when its
      padded text fills whole blocks, it can be read again, and a policy allows it. */
  lemma SentThenDelivered(cfg: Config, steps: seq<Step>, raw: bytes, iv: bytes, sealed: bytes, allowed: bool)
    requires cfg.Valid() && Run(cfg, steps).lastOut < 0xffff_ffff && Create(raw).Some?
    requires |iv| == cfg.ivSize && |sealed| == |Text(cfg, Create(raw))| + cfg.icvSize
    ensures var s, ip := Run(cfg, steps), Create(raw).value;
            var n: uint32 := s.lastOut + 1;
            var t := Run(cfg, steps + [Send(raw, iv, sealed)]);
            && t.lastOut == n && n in t.sent && t.sent[n] == Some(ip) && n in t.out
            && Run(cfg, steps + [Send(raw, iv, sealed)] + [Arrive(t.out[n].packet, allowed)]).delivered ==
               if Aligned(|ip.encoding|, cfg.ivSize, cfg.blockSize) && Reparses(ip) && allowed
               then s.delivered + [(n as int, ip)] else s.delivered
  {
    hide Run;
    hide Received;
    hide Inv;
    hide Create;
    hide Text;
    hide Aligned;
    hide Reparses;
    var s, ip, first := Run(cfg, steps), Create(raw).value, steps + [Send(raw, iv, sealed)];
    var n: uint32 := s.lastOut + 1;
    RunKeepsInv(cfg, steps);
    RunSnoc(cfg, steps, Send(raw, iv, sealed));
    var t := Run(cfg, first);
    SendIs(cfg, s, raw, iv, sealed);
    LastIsLow(cfg, s);
    hide Apply;
    GenuineIsDelivered(cfg, first, n, allowed);
    RunSnoc(cfg, first, Arrive(t.out[n].packet, allowed));
    ArriveIs(cfg, t, t.out[n].packet, allowed);
  }
}
