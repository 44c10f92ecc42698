/** IP packets as libipsec reads them. */
module IpPackets {
  import opened Bytes

  const PROTO_TCP: byte := 6
  const PROTO_UDP: byte := 17

  datatype IpPacket = IpPacket(version: byte, encoding: bytes, payload: bytes, proto: byte,
                               src: bytes, dst: bytes, sport: nat, dport: nat)

  /** The ports of a transport header, 0 for other protocols; None when the header is cut short. */
  function TransportPorts(packet: bytes, proto: byte): Option<(nat, nat)> {
    if proto == PROTO_UDP then
      if |packet| < 8 then None else Some((ReadU16(packet), ReadU16(packet[2..])))
    else if proto == PROTO_TCP then
      if |packet| < 20 then None else Some((ReadU16(packet), ReadU16(packet[2..])))
    else Some((0, 0))
  }

  /** Skips IPv6 extension headers: the upper-layer protocol, its payload and its ports. */
  function Upper(payload: bytes, proto: byte, fragment: bool): Option<(byte, bytes, nat, nat)>
    decreases |payload|
  {
    if |payload| < 2 then Some((proto, payload, 0, 0))
    else if proto in {44, 0, 43, 60, 135, 139, 140} then
      Upper(Skip(payload, 8 * (payload[1] as int + 1)), payload[0], fragment || proto == 44)
    else if fragment then Some((proto, payload, 0, 0))
    else
      match TransportPorts(payload, proto)
      case None => None
      case Some(ports) => Some((proto, payload, ports.0, ports.1))
  }

  function CreateV4(raw: bytes): Option<IpPacket>
    requires |raw| >= 20
  {
    // the length field removes any extra padding
    var packet := raw[..Min(|raw|, ReadU16(raw[2..]))];
    var payload := Skip(packet, raw[0] as int % 16 * 4);
    var proto := raw[9];
    var first := (raw[6] as int % 32) * 256 + raw[7] == 0;
    var ports := if first then TransportPorts(payload, proto) else Some((0, 0));
    match ports
    case None => None
    case Some(p) => Some(IpPacket(4, packet, payload, proto, raw[12..16], raw[16..20], p.0, p.1))
  }

  function CreateV6(raw: bytes): Option<IpPacket>
    requires |raw| >= 40
  {
    var packet := raw[..Min(|raw|, 40 + ReadU16(raw[4..]))];
    match Upper(Skip(packet, 40), raw[6], false)
    case None => None
    case Some(u) => Some(IpPacket(6, packet, u.1, u.0, raw[8..24], raw[24..40], u.2, u.3))
  }

  /** `ip_packet_create`. */
  function Create(raw: bytes): Option<IpPacket> {
    if |raw| < 1 then None
    else if raw[0] / 16 == 4 then if |raw| < 20 then None else CreateV4(raw)
    else if raw[0] / 16 == 6 then if |raw| < 40 then None else CreateV6(raw)
    else None
  }

  /** An IPv4 length field below the header size leaves an encoding that no longer parses. */
  predicate Reparses(ip: IpPacket) {
    ip.version == 6 || |ip.encoding| >= 20
  }

  /** Reading back the encoding of a packet gives the same packet, exactly when its encoding still
      holds a whole header. */
  lemma CreateIsIdempotent(raw: bytes)
    requires Create(raw).Some?
    ensures var ip := Create(raw).value;
            if Reparses(ip) then Create(ip.encoding) == Some(ip) else Create(ip.encoding) == None
  {
    var ip := Create(raw).value;
    if Reparses(ip) {
      var enc := ip.encoding;
      if ip.version == 4 {
        assert enc[2..][..2] == raw[2..][..2] && enc[12..16] == raw[12..16] && enc[16..20] == raw[16..20];
        assert enc[..Min(|enc|, ReadU16(enc[2..]))] == enc;
      } else {
        assert enc[4..][..2] == raw[4..][..2] && enc[8..24] == raw[8..24] && enc[24..40] == raw[24..40];
        assert enc[..Min(|enc|, 40 + ReadU16(enc[4..]))] == enc;
      }
    }
  }

  /** An IPv4 header for protocol 1 with a length field of 0. */
  function NoLength(): bytes {
    [0x45, 0, 0, 0, 0, 0, 0, 0, 64, 1, 0, 0, 10, 0, 0, 1, 10, 0, 0, 2]
  }

  /** Such a packet is taken from the network with an empty encoding, which no longer parses. */
  lemma NoLengthIsLost()
    ensures Create(NoLength()).Some? && !Reparses(Create(NoLength()).value)
    ensures Create(Create(NoLength()).value.encoding) == None
  {
    assert ReadU16(NoLength()[2..]) == 0;
    CreateIsIdempotent(NoLength());
  }

  /** An IPv4 packet by the offsets of RFC 791: it is read exactly when the header is there and, unless it is a
      later fragment, the transport header too; options are skipped and bytes past the length field cut off. */
  lemma ReadV4(raw: bytes)
    requires raw != [] && raw[0] / 16 == 4
    ensures var r := Create(raw);
            if |raw| < 20 then r == None
            else
              var total := raw[2] as int * 256 + raw[3];
              var packet := if total < |raw| then raw[..total] else raw;
              var header := raw[0] as int % 16 * 4;
              var payload := if |packet| > header then packet[header..] else [];
              var later := raw[7] != 0 || raw[6] % 32 != 0;
              && (r == None <==> !later && ((raw[9] == 17 && |payload| < 8) || (raw[9] == 6 && |payload| < 20)))
              && (r.Some? ==>
                    && r.value.version == 4 && r.value.encoding == packet && r.value.payload == payload
                    && r.value.proto == raw[9] && r.value.src == raw[12..16] && r.value.dst == raw[16..20]
                    && (later || raw[9] !in {6, 17} ==> r.value.sport == r.value.dport == 0)
                    && (!later && raw[9] in {6, 17} ==>
                          && r.value.sport == payload[0] as int * 256 + payload[1]
                          && r.value.dport == payload[2] as int * 256 + payload[3]))
  {
    if |raw| >= 20 {
      var total := raw[2] as int * 256 + raw[3];
      assert ReadU16(raw[2..]) == total;
      assert total >= |raw| ==> raw[..|raw|] == raw;
    }
  }

  /** An IPv6 extension header of 8 * (n + 1) bytes is skipped: what follows is read as the header after it,
      and behind a fragment header without ports. */
  lemma ExtensionIsSkipped(payload: bytes, proto: byte, fragment: bool)
    requires |payload| >= 2 && proto in {0, 43, 44, 60, 135, 139, 140}
    ensures var size := 8 * (payload[1] as int + 1);
            Upper(payload, proto, fragment) ==
            Upper(if |payload| > size then payload[size..] else [], payload[0], fragment || proto == 44)
  {
  }

  /** Behind the extension headers there are ports in whole TCP and UDP headers, unless it is a fragment. */
  lemma UpperLayerIsRead(payload: bytes, proto: byte, fragment: bool)
    requires proto !in {0, 43, 44, 60, 135, 139, 140}
    ensures var r := Upper(payload, proto, fragment);
            && (r == None <==>
                  |payload| >= 2 && !fragment && ((proto == 17 && |payload| < 8) || (proto == 6 && |payload| < 20)))
            && (r.Some? ==>
                  && r.value.0 == proto && r.value.1 == payload
                  && (fragment || proto !in {6, 17} || |payload| < 2 ==> r.value.2 == r.value.3 == 0)
                  && (!fragment && proto in {6, 17} && |payload| >= 2 ==>
                        && r.value.2 == payload[0] as int * 256 + payload[1]
                        && r.value.3 == payload[2] as int * 256 + payload[3]))
  {
  }

  // ---------------------------------------------------------------- building from data

  /** An address and a port, 0 for none. */
  datatype Endpoint = Endpoint(address: bytes, port: nat)

  /** The Internet checksums of a header, and of a transport header with the pseudo header. */
  datatype Sums = Sums(header: bytes -> (byte, byte), transport: (bytes, bytes, byte, bytes) -> (byte, byte))

  function Put2(b: bytes, at: nat, v: (byte, byte)): (r: bytes)
    requires at + 2 <= |b|
    ensures |r| == |b|
  {
    b[at := v.0][at + 1 := v.1]
  }

  function PutPort(b: bytes, at: nat, port: nat): (r: bytes)
    requires at + 2 <= |b|
    ensures |r| == |b|
  {
    if port == 0 then b else Put2(b, at, (port / 256 % 256, port % 256))
  }

  /** The ports that are given, and the checksum, put into a transport header. */
  function FixTransport(src: Endpoint, dst: Endpoint, proto: byte, payload: bytes, sums: Sums): (r: bytes)
    ensures |r| == |payload|
  {
    if (proto == PROTO_UDP && |payload| >= 8) || (proto == PROTO_TCP && |payload| >= 20) then
      var check := if proto == PROTO_UDP then 6 else 16;
      var blank := Put2(PutPort(PutPort(payload, 0, src.port), 2, dst.port), check, (0, 0));
      Put2(blank, check, sums.transport(src.address, dst.address, proto, blank))
    else payload
  }

  function HeaderV4(src: bytes, dst: bytes, proto: byte, size: nat, sum: (byte, byte)): bytes {
    [0x45, 0] + U16(size) + [0, 0, 0, 0, 0x80, proto, sum.0, sum.1] + src + dst
  }

  function HeaderV6(src: bytes, dst: bytes, proto: byte, size: nat): bytes {
    [0x60, 0, 0, 0] + U16(size) + [proto, 0x80] + src + dst
  }

  /** The packet `ip_packet_create_from_data` puts together. */
  function Build(src: Endpoint, dst: Endpoint, proto: byte, data: bytes, sums: Sums): Option<bytes> {
    var payload := FixTransport(src, dst, proto, data, sums);
    if |src.address| != |dst.address| then None
    else if |src.address| == 4 then
      var sum := sums.header(HeaderV4(src.address, dst.address, proto, 20 + |data|, (0, 0)));
      Some(HeaderV4(src.address, dst.address, proto, 20 + |data|, sum) + payload)
    else if |src.address| == 16 then Some(HeaderV6(src.address, dst.address, proto, |data|) + payload)
    else None
  }

  function CreateFromData(src: Endpoint, dst: Endpoint, proto: byte, data: bytes, sums: Sums): Option<IpPacket> {
    match Build(src, dst, proto, data, sums)
    case None => None
    case Some(raw) => Create(raw)
  }

  /** The data ends before the transport header does. */
  predicate CutShort(proto: byte, data: bytes) {
    (proto == 17 && |data| < 8) || (proto == 6 && |data| < 20)
  }

  /** A given port, otherwise the one in the data; 0 where there are no ports. */
  function PortOf(proto: byte, data: bytes, given: nat, at: nat): nat
    requires at + 2 <= 4
  {
    if (proto != 17 && proto != 6) || |data| < 4 then 0
    else if given != 0 then given
    else data[at] as int * 256 + data[at + 1]
  }

  /** Ports and checksum of a transport header. */
  predicate IsFixed(proto: byte, i: nat) {
    (proto == 17 && (i < 4 || i == 6 || i == 7)) || (proto == 6 && (i < 4 || i == 16 || i == 17))
  }

  /** Outside the ports and the checksum the payload is the data. */
  ghost predicate SameButFixed(proto: byte, data: bytes, payload: bytes) {
    |payload| == |data| && forall i :: 0 <= i < |data| && !IsFixed(proto, i) ==> payload[i] == data[i]
  }

  lemma FixedTransport(src: Endpoint, dst: Endpoint, proto: byte, data: bytes, sums: Sums)
    requires src.port < 0x1_0000 && dst.port < 0x1_0000
    ensures var payload := FixTransport(src, dst, proto, data, sums);
            && SameButFixed(proto, data, payload)
            && (!CutShort(proto, data) ==>
                  TransportPorts(payload, proto) ==
                  Some((PortOf(proto, data, src.port, 0), PortOf(proto, data, dst.port, 2))))
            && (CutShort(proto, data) ==> TransportPorts(payload, proto) == None)
  {
  }

  lemma BuiltHeaderV4(src: bytes, dst: bytes, proto: byte, sum: (byte, byte), payload: bytes)
    requires |src| == |dst| == 4 && 20 + |payload| < 0x1_0000
    ensures var raw := HeaderV4(src, dst, proto, 20 + |payload|, sum) + payload;
            && |raw| == 20 + |payload| && raw[0] == 0x45 && raw[9] == proto && raw[6] == raw[7] == 0
            && raw[2] as int * 256 + raw[3] == |raw| && raw[12..16] == src && raw[16..20] == dst && Skip(raw, 20) == payload
  {
    var size := 20 + |payload|;
    var h := HeaderV4(src, dst, proto, size, sum);
    assert |h| == 20 && h[2..4] == U16(size);
    NetworkOrder(size);
    var raw := h + payload;
    assert raw[..20] == h;
    assert raw[2] == h[2] == U16(size)[0] && raw[3] == h[3] == U16(size)[1];
    assert h[12..16] == src && h[16..20] == dst;
  }

  lemma BuiltHeaderV6(src: bytes, dst: bytes, proto: byte, payload: bytes)
    requires |src| == |dst| == 16 && |payload| < 0x1_0000
    ensures var raw := HeaderV6(src, dst, proto, |payload|) + payload;
            && |raw| == 40 + |payload| && raw[0] == 0x60 && raw[6] == proto
            && raw[4] as int * 256 + raw[5] == |payload|
            && raw[8..24] == src && raw[24..40] == dst && Skip(raw, 40) == payload
  {
    var h := HeaderV6(src, dst, proto, |payload|);
    assert |h| == 40 && h[4..6] == U16(|payload|);
    NetworkOrder(|payload|);
    var raw := h + payload;
    assert raw[4] == h[4] == U16(|payload|)[0] && raw[5] == h[5] == U16(|payload|)[1];
    assert h[8..24] == src && h[24..40] == dst;
  }

  /** Reading back a packet that was built gives the addresses, the protocol, the ports and the data it
      was built from, unless the data is too short for its transport header. */
  lemma BuiltIsReadV4(src: Endpoint, dst: Endpoint, proto: byte, data: bytes, sums: Sums)
    requires |src.address| == |dst.address| == 4 && src.port < 0x1_0000 && dst.port < 0x1_0000 && 20 + |data| < 0x1_0000
    ensures var r := CreateFromData(src, dst, proto, data, sums);
            && (r == None <==> CutShort(proto, data))
            && (r.Some? ==>
                  var ip := r.value;
                  && ip.version == 4 && ip.src == src.address && ip.dst == dst.address && ip.proto == proto
                  && ip.sport == PortOf(proto, data, src.port, 0) && ip.dport == PortOf(proto, data, dst.port, 2)
                  && SameButFixed(proto, data, ip.payload) && Some(ip.encoding) == Build(src, dst, proto, data, sums)
                  && Reparses(ip))
  {
    var payload := FixTransport(src, dst, proto, data, sums);
    var sum := sums.header(HeaderV4(src.address, dst.address, proto, 20 + |data|, (0, 0)));
    var raw := HeaderV4(src.address, dst.address, proto, 20 + |data|, sum) + payload;
    BuiltHeaderV4(src.address, dst.address, proto, sum, payload);
    FixedTransport(src, dst, proto, data, sums);
    hide FixTransport;
    hide HeaderV4;
    hide TransportPorts;
    hide SameButFixed;
    hide CutShort;
    hide PortOf;
    assert ReadU16(raw[2..]) == |raw|;
    assert raw[..|raw|] == raw;
  }

  /** The same for IPv6 and a protocol that is not an extension header. */
  lemma BuiltIsReadV6(src: Endpoint, dst: Endpoint, proto: byte, data: bytes, sums: Sums)
    requires |src.address| == |dst.address| == 16 && src.port < 0x1_0000 && dst.port < 0x1_0000 && |data| < 0x1_0000
    requires proto !in {44, 0, 43, 60, 135, 139, 140}
    ensures var r := CreateFromData(src, dst, proto, data, sums);
            && (r == None <==> |data| >= 2 && CutShort(proto, data))
            && (r.Some? ==>
                  var ip := r.value;
                  && ip.version == 6 && ip.src == src.address && ip.dst == dst.address && ip.proto == proto
                  && ip.sport == PortOf(proto, data, src.port, 0) && ip.dport == PortOf(proto, data, dst.port, 2)
                  && SameButFixed(proto, data, ip.payload) && Some(ip.encoding) == Build(src, dst, proto, data, sums))
  {
    var payload := FixTransport(src, dst, proto, data, sums);
    var raw := HeaderV6(src.address, dst.address, proto, |data|) + payload;
    BuiltHeaderV6(src.address, dst.address, proto, payload);
    FixedTransport(src, dst, proto, data, sums);
    assert |data| < 2 ==> PortOf(proto, data, src.port, 0) == PortOf(proto, data, dst.port, 2) == 0;
    hide FixTransport;
    hide HeaderV6;
    hide TransportPorts;
    hide SameButFixed;
    hide CutShort;
    hide PortOf;
    assert ReadU16(raw[4..]) == |payload|;
    assert raw[..|raw|] == raw;
    assert Create(raw) == CreateV6(raw);
  }
}

/** ESP encapsulation and decapsulation. */
module EspPackets {
  import opened Bytes
  import opened EspContexts
  import opened IpPackets

  const IPPROTO_IPIP: byte := 4
  const IPPROTO_IPV6: byte := 41
  const IPPROTO_NONE: byte := 59

  datatype Status = SUCCESS | FAILED | NOT_FOUND | PARSE_ERROR | VERIFY_ERROR

  /** The transform of an SA: sizes, IV generator, and the two directions of the cipher.
      `seal` and `open` take associated data, IV and text; sealed text ends in the ICV. */
  datatype Aead = Aead(ivSize: nat, icvSize: nat, blockSize: nat,
                       ivGen: Option<uint32 -> Option<bytes>>,
                       seal: (bytes, bytes, bytes) -> Option<bytes>,
                       open: (bytes, bytes, bytes) -> Option<bytes>)
  {
    ghost predicate SizesHold() {
      && blockSize > 0
      && (ivGen.Some? ==> forall n :: ivGen.value(n).Some? ==> |ivGen.value(n).value| == ivSize)
      && (forall a, iv, p :: seal(a, iv, p).Some? ==> |seal(a, iv, p).value| == |p| + icvSize)
    }

    /** Sizes are as announced and opening undoes sealing. */
    ghost predicate Lawful() {
      && SizesHold()
      && (forall a, iv, p :: seal(a, iv, p).Some? ==> open(a, iv, seal(a, iv, p).value) == Some(p))
    }
  }

  // ---------------------------------------------------------------- padding

  function Padding(n: nat): (p: bytes)
    ensures |p| == n
  {
    seq(n, i requires 0 <= i < n => (i + 1) % 256)
  }

  /** Padding up to the block size, and then up to a 4-byte boundary for the ICV. */
  function PadTotal(payload: nat, ivSize: nat, blockSize: nat): nat
    requires blockSize > 0
  {
    var pad := PadLen(payload + 2, blockSize);
    pad + PadLen(ivSize + payload + 2 + pad, 4)
  }

  method GeneratePadding(padding: array<byte>)
    modifies padding
    ensures padding[..] == Padding(padding.Length)
  {
    var i := 0;
    while i < padding.Length
      invariant 0 <= i <= padding.Length
      invariant forall k :: 0 <= k < i ==> padding[k] == (k + 1) % 256
    {
      padding[i] := (i + 1) % 256;
      i := i + 1;
    }
  }

  method CheckPadding(padding: bytes) returns (ok: bool)
    ensures ok <==> padding == Padding(|padding|)
  {
    var i := 0;
    while i < |padding|
      invariant 0 <= i <= |padding|
      invariant forall k :: 0 <= k < i ==> padding[k] == Padding(|padding|)[k]
    {
      if padding[i] != (i + 1) % 256 {
        assert padding[i] != Padding(|padding|)[i];
        return false;
      }
      i := i + 1;
    }
    return true;
  }

  // ---------------------------------------------------------------- what the two directions compute

  function Plaintext(ivSize: nat, blockSize: nat, payload: bytes, nextHeader: byte): bytes
    requires blockSize > 0
  {
    var pad := PadTotal(|payload|, ivSize, blockSize);
    payload + Padding(pad) + [pad % 256] + [nextHeader]
  }

  /** The packet on the wire: SPI, sequence number, IV, ciphertext and ICV. */
  function Wire(aead: Aead, spi: uint32, seqno: uint32, iv: bytes, payload: bytes, nextHeader: byte): Option<bytes>
    requires aead.blockSize > 0
  {
    var aad := U32(spi) + U32(seqno);
    match aead.seal(aad, iv, Plaintext(aead.ivSize, aead.blockSize, payload, nextHeader))
    case None => None
    case Some(sealed) => Some(aad + iv + sealed)
  }

  datatype Fields = Fields(spi: uint32, seqno: uint32, aad: bytes, iv: bytes, sealed: bytes)

  /** The length checks and field boundaries of an inbound packet. */
  function Split(aead: Aead, data: bytes): Option<Fields>
    requires aead.blockSize > 0
  {
    if |data| < 8 + aead.ivSize + aead.icvSize then None
    else if (|data| - 8 - aead.ivSize - aead.icvSize) % aead.blockSize != 0 then None
    else Some(Fields(ReadU32(data), ReadU32(data[4..]), data[..8], data[8..8 + aead.ivSize],
                     data[8 + aead.ivSize..]))
  }

  /** Removes the trailer; None when it is short, wrongly padded or wraps no IP packet. */
  function Unpad(plain: bytes): Option<(IpPacket, byte)> {
    if |plain| < 2 then None
    else
      var pad := plain[|plain| - 2] as int;
      if |plain| - 2 < pad then None
      else if plain[|plain| - 2 - pad..|plain| - 2] != Padding(pad) then None
      else
        match Create(plain[..|plain| - 2 - pad])
        case None => None
        case Some(ip) => Some((ip, plain[|plain| - 1]))
  }

  datatype Inbound = Inbound(status: Status, ring: Ring, content: Option<(IpPacket, byte)>)

  /** Decapsulation on values: the status, the window afterwards and what was recovered. */
  function Decapsulate(aead: Aead, ring: Ring, data: bytes): (r: Inbound)
    requires aead.blockSize > 0 && ring.Valid()
    ensures r.ring.Valid()
  {
    match Split(aead, data)
    case None => Inbound(PARSE_ERROR, ring, None)
    case Some(f) =>
      if !Verify(ring, f.seqno) then Inbound(VERIFY_ERROR, ring, None)
      else
        match aead.open(f.aad, f.iv, f.sealed)
        case None => Inbound(FAILED, ring, None)
        case Some(plain) =>
          // the number counts as used even when the trailer turns out to be bad
          Inbound(if Unpad(plain).Some? then SUCCESS else PARSE_ERROR, Mark(ring, f.seqno), Unpad(plain))
  }

  function NextHeader(payload: Option<IpPacket>): byte {
    match payload
    case None => IPPROTO_NONE
    case Some(ip) => if ip.version == 4 then IPPROTO_IPIP else IPPROTO_IPV6
  }

  function Encoding(payload: Option<IpPacket>): bytes {
    match payload
    case None => []
    case Some(ip) => ip.encoding
  }

  // ---------------------------------------------------------------- the object

  class EspPacket {
    var data: bytes
    var payload: Option<IpPacket>
    var nextHeader: byte

    /** A received packet. */
    constructor FromPacket(data: bytes)
      ensures this.data == data && payload == None && nextHeader == IPPROTO_NONE
    {
      this.data, payload, nextHeader := data, None, IPPROTO_NONE;
    }

    /** A packet to be sent. */
    constructor FromPayload(payload: Option<IpPacket>)
      ensures data == [] && this.payload == payload && nextHeader == NextHeader(payload)
    {
      data, this.payload, nextHeader := [], payload, NextHeader(payload);
    }

    /** The SPI the packet begins with, unless the header is cut short. */
    method ParseHeader() returns (spi: Option<uint32>)
      ensures spi.None? <==> |data| < 8
      ensures spi.Some? ==> U32(spi.value) == data[..4]
    {
      if |data| < 8 {
        return None;
      }
      U32OfReadU32(data);
      return Some(ReadU32(data));
    }

    method RemovePadding(plaintext: bytes) returns (ok: bool)
      requires payload == None
      modifies this`payload, this`nextHeader
      ensures ok == Unpad(plaintext).Some?
      ensures ok ==> payload.Some? && Unpad(plaintext) == Some((payload.value, nextHeader))
      ensures !ok ==> payload == None && nextHeader == old(nextHeader)
    {
      if |plaintext| < 2 {
        return false;
      }
      var next, padLength := plaintext[|plaintext| - 1], plaintext[|plaintext| - 2];
      var rest := plaintext[..|plaintext| - 2];
      if |rest| < padLength {
        return false;
      }
      var padding := rest[|rest| - padLength..];
      assert padding == plaintext[|plaintext| - 2 - padLength..|plaintext| - 2];
      var good := CheckPadding(padding);
      if !good {
        return false;
      }
      assert rest[..|rest| - padLength] == plaintext[..|plaintext| - 2 - padLength];
      payload := Create(rest[..|rest| - padLength]);
      if payload == None {
        return false;
      }
      nextHeader := next;
      return true;
    }

    method Decrypt(ctx: EspContext, aead: Aead) returns (status: Status)
      requires ctx.Valid() && aead.blockSize > 0
      modifies this, ctx, ctx.window
      ensures ctx.Valid() && data == old(data)
      ensures ctx.inbound ==>
                var r := Decapsulate(aead, old(ctx.Value()), data);
                && status == r.status && ctx.Value() == r.ring
                && (status == SUCCESS ==> payload.Some? && r.content == Some((payload.value, nextHeader)))
      ensures !ctx.inbound ==> status != SUCCESS && ctx.lastSeqno == old(ctx.lastSeqno)
      ensures status != SUCCESS ==> payload == None && nextHeader == old(nextHeader)
    {
      payload := None;
      if |data| < 8 + aead.ivSize + aead.icvSize {
        return PARSE_ERROR;
      }
      if (|data| - 8 - aead.ivSize - aead.icvSize) % aead.blockSize != 0 {
        return PARSE_ERROR;
      }
      var seqno: uint32 := ReadU32(data[4..]);
      var iv, ciphertext := data[8..8 + aead.ivSize], data[8 + aead.ivSize..];
      var unseen := ctx.VerifySeqno(seqno);
      if !unseen {
        return VERIFY_ERROR;
      }
      var plaintext := aead.open(data[..8], iv, ciphertext);
      if plaintext == None {
        return FAILED;
      }
      ctx.SetAuthenticatedSeqno(seqno);
      var ok := RemovePadding(plaintext.value);
      return if ok then SUCCESS else PARSE_ERROR;
    }

    method Encrypt(ctx: EspContext, aead: Aead, spi: uint32) returns (status: Status)
      requires ctx.Valid() && aead.SizesHold()
      modifies this`data, ctx`lastSeqno
      ensures ctx.Valid()
      ensures var more := !ctx.inbound && old(ctx.lastSeqno) < UINT32_MAX;
              && ctx.lastSeqno == (if more then old(ctx.lastSeqno) + 1 else old(ctx.lastSeqno))
              && (status == SUCCESS ==>
                    more && aead.ivGen.Some? && aead.ivGen.value(ctx.lastSeqno).Some? &&
                    Some(data) == Wire(aead, spi, ctx.lastSeqno, aead.ivGen.value(ctx.lastSeqno).value,
                                       Encoding(payload), nextHeader))
              && (status == NOT_FOUND <==> more && aead.ivGen == None)
              && (status == FAILED <==>
                    !more || (aead.ivGen.Some? &&
                      var iv := aead.ivGen.value(ctx.lastSeqno);
                      iv == None || Wire(aead, spi, ctx.lastSeqno, iv.value, Encoding(payload), nextHeader) == None))
      ensures status in {SUCCESS, FAILED, NOT_FOUND}
      ensures status != SUCCESS ==> data == []
    {
      data := [];
      var ok, seqno := ctx.NextSeqno();
      if !ok {
        return FAILED;
      }
      if aead.ivGen == None {
        return NOT_FOUND;
      }
      var encoding := if payload.Some? then payload.value.encoding else [];
      var plainlen := |encoding| + 2;
      var padlen := PadLen(plainlen, aead.blockSize);
      padlen := padlen + PadLen(aead.ivSize + plainlen + padlen, 4);

      var writer := U32(spi) + U32(seqno);
      var iv := aead.ivGen.value(seqno);
      if iv == None {
        return FAILED;
      }
      writer := writer + iv.value;
      var plain := encoding;
      var padding := new byte[padlen];
      GeneratePadding(padding);
      plain := plain + padding[..];
      plain := plain + [padlen % 256];
      plain := plain + [nextHeader];
      assert plain == Plaintext(aead.ivSize, aead.blockSize, encoding, nextHeader);
      var aad := writer[..8];
      assert aad == U32(spi) + U32(seqno);
      var sealed := aead.seal(aad, iv.value, plain);
      if sealed == None {
        return FAILED;
      }
      data := writer + sealed.value;
      return SUCCESS;
    }
  }

  // ---------------------------------------------------------------- round trip

  /** The second padding step may break block alignment; it does not when this holds. */
  predicate Aligned(payload: nat, ivSize: nat, blockSize: nat)
    requires blockSize > 0
  {
    (payload + 2 + PadTotal(payload, ivSize, blockSize)) % blockSize == 0
  }

  lemma PadOfMultiple(size: nat, alignment: nat)
    requires alignment > 0 && size % alignment == 0
    ensures PadLen(size, alignment) == 0
  {
  }

  lemma UsualSizesAlign(payload: nat, ivSize: nat, blockSize: nat)
    requires ivSize % 4 == 0 && (blockSize == 1 || (blockSize > 0 && blockSize % 4 == 0))
    ensures Aligned(payload, ivSize, blockSize)
    ensures PadTotal(payload, ivSize, blockSize) < blockSize + 3
  {
    var body := payload + 2 + PadLen(payload + 2, blockSize);
    hide PadLen;
    if blockSize == 1 {
      assert Aligned(payload, ivSize, 1);
    } else {
      MultipleFactor(body, blockSize, 4);
      SumAligned(ivSize, body);
      PadOfMultiple(ivSize + body, 4);
      assert payload + 2 + PadTotal(payload, ivSize, blockSize) == body;
      hide PadTotal;
    }
  }

  lemma UnpadPlaintext(ivSize: nat, blockSize: nat, payload: bytes, nextHeader: byte)
    requires blockSize > 0 && PadTotal(|payload|, ivSize, blockSize) < 256
    ensures Unpad(Plaintext(ivSize, blockSize, payload, nextHeader)) ==
            match Create(payload) case None => None case Some(ip) => Some((ip, nextHeader))
  {
    hide PadTotal;
    hide Create;
    hide Padding;
    var pad := PadTotal(|payload|, ivSize, blockSize);
    var plain := Plaintext(ivSize, blockSize, payload, nextHeader);
    assert plain[|plain| - 2] == pad;
    assert plain[|plain| - 2 - pad..|plain| - 2] == Padding(pad);
    assert plain[..|plain| - 2 - pad] == payload;
  }

  /** The trailer comes off exactly when the last byte but one counts bytes 1, 2, 3 and so on before it,
      and what is left is an IP packet. */
  lemma UnpadExactly(plain: bytes)
    ensures Unpad(plain).Some? <==>
            && |plain| >= 2 && |plain| >= 2 + plain[|plain| - 2] as int
            && var end := |plain| - 2 - plain[|plain| - 2] as int;
               (forall i :: end <= i < |plain| - 2 ==> plain[i] == i - end + 1) && Create(plain[..end]).Some?
    ensures Unpad(plain).Some? ==>
              Unpad(plain).value == (Create(plain[..|plain| - 2 - plain[|plain| - 2] as int]).value, plain[|plain| - 1])
  {
    hide Create;
    if |plain| >= 2 && |plain| >= 2 + plain[|plain| - 2] as int {
      var pad := plain[|plain| - 2] as int;
      var end := |plain| - 2 - pad;
      var bytes := plain[end..|plain| - 2];
      assert forall i :: end <= i < |plain| - 2 ==> plain[i] == bytes[i - end];
      assert bytes == Padding(pad) <==> forall i :: 0 <= i < pad ==> bytes[i] == i + 1;
    }
  }

  lemma IcvBoundary(payload: nat, ivSize: nat, blockSize: nat)
    requires blockSize > 0
    ensures (10 + ivSize + payload + PadTotal(payload, ivSize, blockSize)) % 4 == 0
  {
  }

  lemma WireSlices(spi: uint32, seqno: uint32, iv: bytes, sealed: bytes)
    ensures var aad := U32(spi) + U32(seqno);
            var d := aad + iv + sealed;
            && |d| == 8 + |iv| + |sealed| && ReadU32(d) == spi && ReadU32(d[4..]) == seqno
            && d[..8] == aad && d[8..8 + |iv|] == iv && d[8 + |iv|..] == sealed
  {
    var d := U32(spi) + U32(seqno) + iv + sealed;
    assert d == U32(spi) + (U32(seqno) + iv + sealed);
    assert d[4..] == U32(seqno) + (iv + sealed);
    ReadU32OfU32(spi, U32(seqno) + iv + sealed);
    ReadU32OfU32(seqno, iv + sealed);
  }

  /** Where the fields of a built packet lie; the ICV starts on a 4-byte boundary. */
  lemma WireLayout(aead: Aead, spi: uint32, seqno: uint32, iv: bytes, payload: bytes, nextHeader: byte)
    requires aead.Lawful() && |iv| == aead.ivSize
    requires Wire(aead, spi, seqno, iv, payload, nextHeader).Some?
    ensures var d := Wire(aead, spi, seqno, iv, payload, nextHeader).value;
            && |d| == 10 + aead.ivSize + |payload| + PadTotal(|payload|, aead.ivSize, aead.blockSize) + aead.icvSize
            && (|d| - aead.icvSize) % 4 == 0
            && (Split(aead, d).Some? <==> Aligned(|payload|, aead.ivSize, aead.blockSize))
            && (Split(aead, d).Some? ==>
                  var f := Split(aead, d).value;
                  && f.spi == spi && f.seqno == seqno && f.aad == U32(spi) + U32(seqno) && f.iv == iv
                  && aead.open(f.aad, f.iv, f.sealed) == Some(Plaintext(aead.ivSize, aead.blockSize, payload, nextHeader)))
  {
    var aad := U32(spi) + U32(seqno);
    var plain := Plaintext(aead.ivSize, aead.blockSize, payload, nextHeader);
    var sealed := aead.seal(aad, iv, plain).value;
    WireSlices(spi, seqno, iv, sealed);
    hide U32;
    hide ReadU32;
    IcvBoundary(|payload|, aead.ivSize, aead.blockSize);
  }

  /** The text that gets sealed: the packet, bytes 1, 2, 3 and so on, their number, and 4 for an IPv4
      packet, 41 for an IPv6 packet, 59 for none. */
  ghost predicate TrailedBy(text: bytes, payload: Option<IpPacket>, pad: nat) {
    && |text| == |Encoding(payload)| + pad + 2 && text[..|Encoding(payload)|] == Encoding(payload)
    && (forall i :: |Encoding(payload)| <= i < |text| - 2 ==> text[i] == (i - |Encoding(payload)| + 1) % 256)
    && text[|text| - 2] == pad % 256
    && text[|text| - 1] == (if payload == None then 59 else if payload.value.version == 4 then 4 else 41)
  }

  lemma TextFormat(ivSize: nat, blockSize: nat, payload: Option<IpPacket>)
    requires blockSize > 0
    ensures TrailedBy(Plaintext(ivSize, blockSize, Encoding(payload), NextHeader(payload)), payload,
                      PadTotal(|Encoding(payload)|, ivSize, blockSize))
  {
    hide PadTotal;
  }

  /** What goes over the wire: SPI and sequence number in network order, the IV, and the sealed text with
      these eight bytes as associated data. */
  lemma WireFormat(aead: Aead, spi: uint32, seqno: uint32, iv: bytes, payload: Option<IpPacket>)
    requires aead.blockSize > 0 && Wire(aead, spi, seqno, iv, Encoding(payload), NextHeader(payload)).Some?
    ensures var d := Wire(aead, spi, seqno, iv, Encoding(payload), NextHeader(payload)).value;
            var text := Plaintext(aead.ivSize, aead.blockSize, Encoding(payload), NextHeader(payload));
            && |d| >= 8 + |iv| && d[8..8 + |iv|] == iv && aead.seal(d[..8], iv, text) == Some(d[8 + |iv|..])
            && d[0] as int * 0x100_0000 + d[1] as int * 0x1_0000 + d[2] as int * 0x100 + d[3] == spi
            && d[4] as int * 0x100_0000 + d[5] as int * 0x1_0000 + d[6] as int * 0x100 + d[7] == seqno
            && TrailedBy(text, payload, PadTotal(|Encoding(payload)|, aead.ivSize, aead.blockSize))
  {
    TextFormat(aead.ivSize, aead.blockSize, payload);
    NetworkOrder(spi);
    NetworkOrder(seqno);
    var text := Plaintext(aead.ivSize, aead.blockSize, Encoding(payload), NextHeader(payload));
    hide Plaintext;
    hide TrailedBy;
    var aad := U32(spi) + U32(seqno);
    WireSlices(spi, seqno, iv, aead.seal(aad, iv, text).value);
    hide U32;
    hide PadTotal;
    var d := Wire(aead, spi, seqno, iv, Encoding(payload), NextHeader(payload)).value;
    assert forall i :: 0 <= i < 8 ==> d[i] == d[..8][i];
  }

  /** For all bytes and every window that stands for a set of numbers: which status comes when, and that
      nothing but a text the cipher accepts uses up a number. */
  lemma DecapsulateExactly(aead: Aead, ring: Ring, seen: set<int>, data: bytes)
    requires aead.blockSize > 0 && Represents(ring, seen)
    ensures var r := Decapsulate(aead, ring, data);
            if |data| < 8 + aead.ivSize + aead.icvSize || (|data| - 8 - aead.ivSize - aead.icvSize) % aead.blockSize != 0
            then r == Inbound(PARSE_ERROR, ring, None)
            else
              var n := ReadU32(data[4..]);
              var plain := aead.open(data[..8], data[8..8 + aead.ivSize], data[8 + aead.ivSize..]);
              && (!Fresh(ring.last, seen, n) ==> r == Inbound(VERIFY_ERROR, ring, None))
              && (Fresh(ring.last, seen, n) && plain == None ==> r == Inbound(FAILED, ring, None))
              && (Fresh(ring.last, seen, n) && plain.Some? ==>
                    && Represents(r.ring, seen + {n as int}) && r.content == Unpad(plain.value)
                    && r.status == if r.content == None then PARSE_ERROR else SUCCESS)
  {
    hide Unpad;
    if Split(aead, data).Some? {
      var n: uint32 := ReadU32(data[4..]);
      VerifyIsFresh(ring, seen, n);
      if Verify(ring, n) {
        MarkAdds(ring, seen, n);
      }
      hide Mark;
      hide Verify;
      hide Represents;
    }
  }

  /** A packet built for a number the receiver still accepts is decapsulated to the very IP packet
      it carries, exactly when the padded text fills whole blocks and the encoding reparses. */
  lemma EncapsulationRoundTrip(aead: Aead, spi: uint32, seqno: uint32, iv: bytes, raw: bytes, ring: Ring)
    requires aead.Lawful() && |iv| == aead.ivSize
    requires ring.Valid() && Verify(ring, seqno) && Create(raw).Some?
    requires var ip := Create(raw).value;
             PadTotal(|ip.encoding|, aead.ivSize, aead.blockSize) < 256 &&
             Wire(aead, spi, seqno, iv, ip.encoding, NextHeader(Some(ip))).Some?
    ensures var ip := Create(raw).value;
            var d := Wire(aead, spi, seqno, iv, ip.encoding, NextHeader(Some(ip))).value;
            var r := Decapsulate(aead, ring, d);
            && (r.status == SUCCESS <==>
                  Aligned(|ip.encoding|, aead.ivSize, aead.blockSize) && Reparses(ip))
            && (r.status == SUCCESS ==>
                  r.content == Some((ip, NextHeader(Some(ip)))) && r.ring == Mark(ring, seqno))
  {
    var ip := Create(raw).value;
    WireLayout(aead, spi, seqno, iv, ip.encoding, NextHeader(Some(ip)));
    UnpadPlaintext(aead.ivSize, aead.blockSize, ip.encoding, NextHeader(Some(ip)));
    CreateIsIdempotent(raw);
  }
}
