/** EAP-SIM/AKA messages by the numbers of RFC 4186 and RFC 4187: what is printed, what is encrypted, what
    the parser takes and what is accepted, without the names the printer and the parser share. */
module SimAkaFormat {
  import opened Bytes
  import opened SimAka
  import opened SimAkaMessages

  // ---------------------------------------------------------------- attributes

  /** Attributes a message may carry: AT_RAND, AT_AUTN, AT_RES, AT_AUTS, AT_NONCE_MT, the identity requests,
      AT_NOTIFICATION, AT_IDENTITY, the versions, the counters, AT_NONCE_S, AT_CLIENT_ERROR_CODE, and the
      identities for the next time. */
  predicate Known(kind: byte) {
    kind in {1, 2, 3, 4, 7, 10, 12, 13, 14, 15, 16, 17, 19, 20, 21, 22, 132, 133}
  }

  /** Counters, AT_NONCE_S and the identities for the next time are secret. */
  predicate AlwaysSecret(kind: byte) {
    kind in {19, 20, 21, 132, 133}
  }

  /** A notification whose P bit is clear is secret too. */
  predicate IsSecret(a: Attr) {
    AlwaysSecret(a.kind) || (a.kind == 12 && !(a.data != [] && a.data[0] / 64 % 2 == 1))
  }

  /** The printer has rules for the known attributes and encrypts the secret ones. */
  lemma RulesByNumber(a: Attr)
    ensures Ruled(a.kind) <==> Known(a.kind)
    ensures SecretOnly(a.kind) <==> AlwaysSecret(a.kind)
    ensures Secret(a) <==> IsSecret(a)
  {
  }

  /** An attribute on the wire: its number, its length in units of four bytes, and its value with a
      reserved, a length or no field in front. */
  ghost predicate Formatted(a: Attr, e: bytes) {
    var n := |a.data|;
    && |e| >= 4 && e[0] == a.kind && e[1] as int * 4 == |e|
    && (a.kind in {10, 13, 17, 20} ==> |e| == 4 && e[2] == e[3] == 0)
    && (a.kind in {12, 16, 19, 22} ==> |e| == 4 && e[2..] == a.data)
    && (a.kind in {1, 2, 7, 21} ==> |e| == 4 + n && e[2] == e[3] == 0 && e[4..] == a.data)
    && (a.kind == 4 ==> |e| == 16 && e[2..] == a.data)
    && (a.kind in {3, 14, 15, 132, 133} ==>
          && 4 + n <= |e| < 8 + n && e[4..4 + n] == a.data && (forall i :: 4 + n <= i < |e| ==> e[i] == 0)
          && e[2] as int * 256 + e[3] == if a.kind == 3 then (n / 256 * 256 + n % 32) * 8 else n)
  }

  lemma CountedFormat(kind: byte, data: bytes)
    requires |data| <= 1016
    ensures var n, e := |data|, EncodeAs(Counted, kind, data);
            && 4 + n <= |e| < 8 + n && e[0] == kind && e[1] as int * 4 == |e|
            && e[4..4 + n] == data && (forall i :: 4 + n <= i < |e| ==> e[i] == 0)
            && e[2] as int * 256 + e[3] == if kind == 3 then (n / 256 * 256 + n % 32) * 8 else n
  {
    var n := |data|;
    if kind == AT_RES {
      ResponseField(n);
    } else {
      PlainField(kind, n);
    }
    CountedShape(kind, data, []);
    var e := EncodeAs(Counted, kind, data);
    assert e + [] == e;
    assert e[2..4][0] == e[2] && e[2..4][1] == e[3];
    hide CountField;
    assert e == [kind, e[1]] + CountField(kind, n) + data + Zeros(PadLen(n, 4));
    hide PadLen;
  }

  /** What is printed for an attribute of the right length. */
  lemma AttributeFormat(a: Attr)
    requires Encodable(a)
    ensures Formatted(a, EncodeAttr(a))
  {
    if LayoutOf(a.kind) == Counted {
      CountedFormat(a.kind, a.data);
    }
  }

  /** The length a counted attribute announces; AT_RES counts bits. */
  function Announced(rest: bytes): nat
    requires |rest| >= 4
  {
    var n := rest[2] as int * 256 + rest[3];
    if rest[0] == 3 then n / 8 else n
  }

  /** The units of four bytes an attribute announces fit its kind and the bytes that are there. */
  predicate Fitting(rest: bytes) {
    && |rest| >= 4
    && var kind, units := rest[0], rest[1] as int;
       if kind in {10, 12, 13, 16, 17, 19, 20, 22} then units == 1
       else if kind in {2, 7, 11, 21, 129} then units == 5 && |rest| >= 20
       else if kind == 4 then units == 4 && |rest| >= 16
       else if kind in {3, 14, 15, 132, 133} then
         units >= 1 && Announced(rest) <= units * 4 && 4 + Announced(rest) <= |rest|
       else 1 <= units && units * 4 <= |rest|
  }

  /** The value inside. */
  function ValueOf(rest: bytes): bytes
    requires Fitting(rest)
  {
    var kind := rest[0];
    if kind in {10, 13, 17, 20} then []
    else if kind in {12, 16, 19, 22} then rest[2..4]
    else if kind in {2, 7, 11, 21, 129} then rest[4..20]
    else if kind == 4 then rest[2..16]
    else if kind in {3, 14, 15, 132, 133} then rest[4..4 + Announced(rest)]
    else if kind in {1, 130} then rest[4..rest[1] as int * 4]
    else rest[2..rest[1] as int * 4]
  }

  /** For any bytes: an attribute is taken exactly when it fits and is not secret outside of encrypted data,
      with the value inside, and the bytes it announces are used up. */
  lemma TakenExactly(rest: bytes, encrypted: bool)
    requires rest != []
    ensures var one := ParseOne(rest, encrypted);
            && (one.Took? <==> Fitting(rest) && (AlwaysSecret(rest[0]) ==> encrypted))
            && (one.Took? ==> one.attr == Attr(rest[0], ValueOf(rest)) && one.size == Min(rest[1] as int * 4, |rest|))
  {
  }

  // ---------------------------------------------------------------- messages

  lemma AssembledFront(hdr: bytes, clear: bytes, x: Sealing, mac: bytes)
    requires |hdr| == 8
    ensures var msg := Assemble(hdr, clear, x, mac);
            |msg| >= 8 + |clear| && msg[8..8 + |clear|] == clear && msg[..2] == hdr[..2] && msg[4..8] == hdr[4..8]
  {
    hide Trailer;
    hide U16;
  }

  /** The clear attributes of a generated message are known and not secret, in their order behind the
      header; the secret ones are all in the part that gets encrypted. */
  lemma SecretsAreSealed(hdr: bytes, attrs: seq<Attr>, crypto: Crypto, iv: bytes, sigdata: bytes, a: Attr)
    requires Ready(hdr, attrs, crypto, iv) && Generated(hdr, attrs, crypto, iv, sigdata).Some?
    ensures a in Select(attrs, false) <==> a in attrs && Known(a.kind) && !IsSecret(a)
    ensures a in Select(attrs, true) <==> a in attrs && Known(a.kind) && IsSecret(a)
    ensures var msg, clear := Generated(hdr, attrs, crypto, iv, sigdata).value, EncodeSeq(Select(attrs, false));
            |msg| >= 8 + |clear| && msg[8..8 + |clear|] == clear && msg[..2] == hdr[..2] && msg[4..8] == hdr[4..8]
  {
    Selected(attrs, false, a);
    Selected(attrs, true, a);
    RulesByNumber(a);
    hide Ruled;
    hide Secret;
    hide Known;
    hide IsSecret;
    hide EncodeSeq;
    hide Seal;
    hide Trailer;
    hide Select;
    hide U16;
    var x, mac := GeneratedIs(hdr, attrs, crypto, iv, sigdata);
    ReadySigner(hdr, attrs, crypto, iv);
    AssembledFront(hdr, EncodeSeq(Select(attrs, false)), x, mac);
  }

  /** What gets encrypted: the secret attributes and AT_PADDING (6) up to the end of the block, a whole block
      of it if they end there. */
  function Filled(secret: bytes, blockSize: nat): bytes
    requires 4 <= blockSize <= 256
  {
    var n := blockSize - |secret| % blockSize;
    secret + [6, n / 4] + Zeros(if n >= 2 then n - 2 else 0)
  }

  /** What follows the clear attributes: AT_IV (129) and AT_ENCR_DATA (130) if anything is secret, and AT_MAC
      (11) in challenges and reauthentications. */
  ghost predicate TrailedBy(tail: bytes, secret: bytes, crypto: Crypto, iv: bytes, subtype: byte, mac: bytes) {
    var macPart := if subtype in {1, 11, 13} then [11, 5, 0, 0] + mac else [];
    if secret == [] then tail == macPart
    else
      && crypto.crypter.Some? && 4 <= crypto.crypter.value.blockSize <= 256
      && var text := crypto.crypter.value.encrypt(Filled(secret, crypto.crypter.value.blockSize), iv);
         && text.Some?
         && tail == [129, (|iv| / 4 + 1) % 256, 0, 0] + iv +
                    ([130, (|text.value| / 4 + 1) % 256, 0, 0] + text.value + macPart)
  }

  lemma PaddingFormat(secret: bytes, blockSize: nat)
    requires 4 <= blockSize <= 256 && blockSize % 4 == 0 && |secret| % 4 == 0
    ensures secret + PaddingAttr(|secret|, blockSize) == Filled(secret, blockSize)
  {
    PadUnits(|secret|, blockSize);
    var n := blockSize - |secret| % blockSize;
    assert PaddingAttr(|secret|, blockSize) == [6, n / 4] + Zeros(n - 2);
    Assoc(secret, [6, n / 4], Zeros(n - 2));
  }

  lemma MacPartFormat(subtype: byte, mac: bytes)
    requires NeedsMac(subtype) ==> |mac| == 16
    ensures MacPart(subtype, mac) == if subtype in {1, 11, 13} then [11, 5, 0, 0] + mac else []
  {
  }

  lemma TrailerFormat(secret: bytes, crypto: Crypto, iv: bytes, x: Sealing, subtype: byte, mac: bytes)
    requires |secret| % 4 == 0 && (secret != [] ==> crypto.crypter.Some? && crypto.crypter.value.Lawful())
    requires x == Seal(secret, crypto, iv) && x != Failed && (NeedsMac(subtype) ==> |mac| == 16)
    ensures TrailedBy(Trailer(x, subtype, mac), secret, crypto, iv, subtype, mac)
  {
    MacPartFormat(subtype, mac);
    hide MacPart;
    hide NeedsMac;
    if secret != [] {
      PaddingFormat(secret, crypto.crypter.value.blockSize);
      hide Filled;
      hide PaddingAttr;
      Assoc([130, (|x.text| / 4 + 1) % 256, 0, 0], x.text, MacPart(subtype, mac));
    }
  }

  lemma Reassembled(hdr: bytes, clear: bytes, x: Sealing, mac: bytes, other: bytes)
    requires |hdr| == 8 && Whole(x) && NeedsMac(hdr[5]) && |mac| == |other| == 16
    ensures var msg := Assemble(hdr, clear, x, mac);
            && |msg| >= 24 && Assemble(hdr, clear, x, other) == msg[..|msg| - 16] + other
  {
    hide Trailer;
    hide NeedsMac;
    hide Whole;
    TrailerMac(x, hdr[5], mac);
    TrailerMac(x, hdr[5], other);
    TrailerMac(x, hdr[5], Zeros(16));
    var t, u, z := Trailer(x, hdr[5], mac), Trailer(x, hdr[5], other), Trailer(x, hdr[5], Zeros(16));
    var msg := Assemble(hdr, clear, x, mac);
    var h := Sized8(hdr, 8 + |clear + t|);
    hide Sized8;
    assert t[..|t| - 16] == z[..|t| - 16];
    assert msg == h + (clear + t);
    assert msg[..|msg| - 16] == h + (clear + t[..|t| - 16]);
    assert Assemble(hdr, clear, x, other) == h + (clear + u) == h + (clear + t[..|t| - 16]) + other;
  }

  lemma ReadyCipher(hdr: bytes, attrs: seq<Attr>, crypto: Crypto, iv: bytes)
    requires Ready(hdr, attrs, crypto, iv)
    ensures EncodeSeq(Select(attrs, true)) != [] ==> crypto.crypter.Some? && crypto.crypter.value.Lawful()
  {
  }

  lemma NoMacWritten(x: Sealing, subtype: byte, mac: bytes)
    requires !NeedsMac(subtype)
    ensures Trailer(x, subtype, mac) == Trailer(x, subtype, [])
  {
  }

  lemma MessageFormat(hdr: bytes, clear: bytes, x: Sealing, mac: bytes, crypto: Crypto, sigdata: bytes)
    requires |hdr| == 8 && Whole(x) && 8 + |clear| + |Trailer(x, hdr[5], mac)| <= 1024
    requires NeedsMac(hdr[5]) ==>
               |mac| == 16 && crypto.signer.Some? &&
               crypto.signer.value.sign(Assemble(hdr, clear, x, Zeros(16)) + sigdata) == Some(mac)
    ensures var msg := Assemble(hdr, clear, x, mac);
            && |msg| == 8 + |clear| + |Trailer(x, hdr[5], mac)| && msg[8 + |clear|..] == Trailer(x, hdr[5], mac)
            && msg[..2] == hdr[..2] && msg[2] as int * 256 + msg[3] == |msg| && msg[4..8] == hdr[4..8]
            && msg[8..8 + |clear|] == clear
            && (NeedsMac(hdr[5]) ==>
                  && |Trailer(x, hdr[5], mac)| >= 20 && msg[|msg| - 16..] == mac
                  && crypto.signer.value.sign(msg[..|msg| - 16] + Zeros(16) + sigdata) == Some(mac))
  {
    AssembledShape(hdr, clear, x, mac);
    AssembledFront(hdr, clear, x, mac);
    var msg := Assemble(hdr, clear, x, mac);
    assert ReadU16(msg[2..]) == msg[2] as int * 256 + msg[3];
    hide ReadU16;
    if NeedsMac(hdr[5]) {
      TrailerMac(x, hdr[5], mac);
      hide Trailer;
      Reassembled(hdr, clear, x, mac, Zeros(16));
      AssembledMac(hdr, clear, x, mac);
    }
    hide Trailer;
    hide Assemble;
    hide NeedsMac;
    hide Whole;
    hide Zeros;
    assert Skip(msg, 8) == msg[8..];
    assert msg[8 + |clear|..] == msg[8..][|clear|..];
  }

  /** A generated message as a whole: the header with the length of the message in it, the clear attributes,
      and the trailer, whose MAC is the signer's value over the message with zeroes in its place. */
  lemma GeneratedFormat(hdr: bytes, attrs: seq<Attr>, crypto: Crypto, iv: bytes, sigdata: bytes)
    requires Ready(hdr, attrs, crypto, iv) && Generated(hdr, attrs, crypto, iv, sigdata).Some?
    ensures var msg, clear := Generated(hdr, attrs, crypto, iv, sigdata).value, EncodeSeq(Select(attrs, false));
            var protected := hdr[5] in {1, 11, 13};
            && |msg| >= 8 + |clear| + (if protected then 20 else 0)
            && msg[..2] == hdr[..2] && msg[2] as int * 256 + msg[3] == |msg| && msg[4..8] == hdr[4..8]
            && msg[8..8 + |clear|] == clear
            && (protected ==>
                  crypto.signer.Some? &&
                  crypto.signer.value.sign(msg[..|msg| - 16] + Zeros(16) + sigdata) == Some(msg[|msg| - 16..]))
            && TrailedBy(msg[8 + |clear|..], EncodeSeq(Select(attrs, true)), crypto, iv, hdr[5],
                         if protected then msg[|msg| - 16..] else [])
  {
    hide Ready;
    hide Generated;
    hide Seal;
    hide EncodeSeq;
    hide Select;
    hide TrailedBy;
    hide Trailer;
    hide Assemble;
    hide Zeros;
    ReadyCipher(hdr, attrs, crypto, iv);
    ReadySigner(hdr, attrs, crypto, iv);
    var x, mac := GeneratedIs(hdr, attrs, crypto, iv, sigdata);
    assert x != Failed;
    hide Whole;
    hide Crypter.Lawful;
    TrailerFormat(EncodeSeq(Select(attrs, true)), crypto, iv, x, hdr[5], if NeedsMac(hdr[5]) then mac else []);
    MessageFormat(hdr, EncodeSeq(Select(attrs, false)), x, mac, crypto, sigdata);
    if !NeedsMac(hdr[5]) {
      NoMacWritten(x, hdr[5], mac);
    }
  }

  /** Outside of encrypted data the parser refuses the secret attributes. */
  lemma SecretsOutsideAreRefused(rest: bytes)
    requires |rest| >= 2 && AlwaysSecret(rest[0])
    ensures ParseOne(rest, false) == Rejected
  {
  }

  /** With a cipher, an IV and encrypted data at hand, decrypting whole blocks leads to the attributes in
      them; anything else that is encrypted is refused; otherwise nothing happens. */
  lemma DecryptedExactly(st: PState, crypto: Crypto)
    requires crypto.crypter.Some? ==> crypto.crypter.value.blockSize > 0
    ensures Decrypted(st, crypto).Done? && crypto.crypter.Some? && st.iv != [] && st.encr != [] ==>
              && |st.encr| % crypto.crypter.value.blockSize == 0
              && var plain := crypto.crypter.value.decrypt(st.encr, st.iv);
                 plain.Some? && Decrypted(st, crypto) == ParseAll(plain.value, 0, st, true)
    ensures crypto.crypter == None || st.iv == [] || st.encr == [] ==> Decrypted(st, crypto) == Done(st)
  {
  }

  // ---------------------------------------------------------------- which clear lists are read

  /** No secret attribute, and no notification after one whose P bit is clear. */
  ghost predicate Readable(attrs: seq<Attr>, pBit: bool) {
    && (forall i :: 0 <= i < |attrs| ==> !AlwaysSecret(attrs[i].kind))
    && (forall j :: 0 <= j < |attrs| && attrs[j].kind == 12 ==> pBit)
    && (forall i, j :: 0 <= i < j < |attrs| && attrs[i].kind == 12 && attrs[j].kind == 12 ==> PBit(attrs[i].data))
  }

  /** The P bit after these attributes. */
  ghost predicate BitAfter(attrs: seq<Attr>, pBit: bool) {
    pBit && forall i :: 0 <= i < |attrs| && attrs[i].kind == 12 ==> PBit(attrs[i].data)
  }

  ghost predicate Outcomes(o: Outcome, attrs: seq<Attr>, st: PState) {
    if Readable(attrs, st.pBit)
    then o == Done(st.(attrs := st.attrs + Cuts(attrs), pBit := BitAfter(attrs, st.pBit)))
    else o == Refused
  }

  lemma ReadableCons(attrs: seq<Attr>, pBit: bool)
    requires attrs != []
    ensures var a, rest := attrs[0], attrs[1..];
            var next := if a.kind == 12 then PBit(a.data) else pBit;
            && (Readable(attrs, pBit) <==> !AlwaysSecret(a.kind) && (a.kind == 12 ==> pBit) && Readable(rest, next))
            && ((a.kind == 12 ==> pBit) ==> (BitAfter(attrs, pBit) <==> BitAfter(rest, next)))
  {
    hide PBit;
    hide AlwaysSecret;
    var a, rest := attrs[0], attrs[1..];
    assert forall i :: 0 < i < |attrs| ==> attrs[i] == rest[i - 1];
    assert forall i :: 0 <= i < |rest| ==> rest[i] == attrs[i + 1];
  }

  /** The parser state with one more clear attribute. */
  ghost function Next(st: PState, a: Attr): PState {
    st.(attrs := st.attrs + [Cut(a)], pBit := if a.kind == 12 then PBit(a.data) else st.pBit)
  }

  lemma NotReadable(attrs: seq<Attr>, st: PState)
    requires !Readable(attrs, st.pBit)
    ensures Outcomes(Refused, attrs, st)
  {
  }

  lemma NoteClear(a: Attr, at: nat, st: PState)
    requires Encodable(a) && !AlwaysSecret(a.kind)
    ensures Note(st, Cut(a), at, false) ==
            if a.kind == 12 && !st.pBit then None else Some(Next(st, a))
  {
    hide CutLen;
    hide PBit;
  }

  lemma NextAttrs(st: PState, attrs: seq<Attr>)
    requires attrs != []
    ensures Next(st, attrs[0]).attrs + Cuts(attrs[1..]) == st.attrs + Cuts(attrs)
  {
    hide Cut;
    hide PBit;
    assert Cuts(attrs) == [Cut(attrs[0])] + Cuts(attrs[1..]);
    hide Cuts;
    assert st.attrs + [Cut(attrs[0])] + Cuts(attrs[1..]) == st.attrs + ([Cut(attrs[0])] + Cuts(attrs[1..]));
  }

  lemma OutcomeCons(o: Outcome, attrs: seq<Attr>, st: PState)
    requires attrs != [] && !AlwaysSecret(attrs[0].kind) && (attrs[0].kind == 12 ==> st.pBit)
    requires Outcomes(o, attrs[1..], Next(st, attrs[0]))
    ensures Outcomes(o, attrs, st)
  {
    ReadableCons(attrs, st.pBit);
    hide Readable;
    hide BitAfter;
    hide PBit;
    hide AlwaysSecret;
    hide Cut;
    hide Cuts;
    NextAttrs(st, attrs);
  }

  lemma StopsReading(rest: bytes, at: nat, st: PState)
    requires rest != []
    requires var one := ParseOne(rest, false); one == Rejected || (one.Took? && Note(st, one.attr, at, false) == None)
    ensures ParseAll(rest, at, st, false) == Refused
  {
    hide ParseOne;
    hide Note;
  }

  lemma Starts(a: Attr)
    requires Encodable(a)
    ensures |EncodeAttr(a)| >= 4 && EncodeAttr(a)[0] == a.kind
  {
    AttributeFormat(a);
    hide EncodeAttr;
  }

  lemma ReadSecret(a: Attr, more: bytes, at: nat, st: PState)
    requires Encodable(a) && AlwaysSecret(a.kind)
    ensures ParseAll(EncodeAttr(a) + more, at, st, false) == Refused
  {
    Starts(a);
    hide EncodeAttr;
    hide Encodable;
    SecretsOutsideAreRefused(EncodeAttr(a) + more);
    hide ParseOne;
    hide ParseAll;
    StopsReading(EncodeAttr(a) + more, at, st);
  }

  lemma NotSecretOnly(a: Attr)
    ensures !AlwaysSecret(a.kind) ==> !SecretOnly(a.kind)
  {
    RulesByNumber(a);
  }

  lemma ReadOrdinary(a: Attr, more: bytes, at: nat, st: PState)
    requires Encodable(a) && !AlwaysSecret(a.kind)
    ensures ParseAll(EncodeAttr(a) + more, at, st, false) ==
            if a.kind == 12 && !st.pBit then Refused else ParseAll(more, at + |EncodeAttr(a)|, Next(st, a), false)
  {
    hide SecretOnly;
    hide AlwaysSecret;
    hide EncodeAttr;
    hide Encodable;
    hide ParseOne;
    hide ParseAll;
    hide Note;
    hide Next;
    hide Cut;
    NotSecretOnly(a);
    AttrRoundTrips(a, more, false);
    NoteClear(a, at, st);
    if a.kind == 12 && !st.pBit {
      StopsReading(EncodeAttr(a) + more, at, st);
    } else {
      ParseStep(EncodeAttr(a), more, Cut(a), at, st, false);
    }
  }

  /** What reading the first attribute of a clear list leads to. */
  lemma ReadFirst(a: Attr, more: bytes, at: nat, st: PState)
    requires Encodable(a)
    ensures var o := ParseAll(EncodeAttr(a) + more, at, st, false);
            if AlwaysSecret(a.kind) || (a.kind == 12 && !st.pBit) then o == Refused
            else o == ParseAll(more, at + |EncodeAttr(a)|, Next(st, a), false)
  {
    hide AlwaysSecret;
    hide EncodeAttr;
    hide Encodable;
    hide ParseAll;
    hide Next;
    if AlwaysSecret(a.kind) {
      ReadSecret(a, more, at, st);
    } else {
      ReadOrdinary(a, more, at, st);
    }
  }

  lemma NothingRead(at: nat, st: PState)
    ensures Outcomes(ParseAll(EncodeSeq([]), at, st, false), [], st)
  {
    assert st.attrs + Cuts([]) == st.attrs;
  }

  lemma SplitFirst(attrs: seq<Attr>)
    requires attrs != []
    ensures EncodeSeq(attrs) == EncodeAttr(attrs[0]) + EncodeSeq(attrs[1..])
  {
    ConcatMapCons(EncodeAttr, attrs, []);
    hide EncodeAttr;
    assert ConcatMap(EncodeAttr, attrs) + [] == ConcatMap(EncodeAttr, attrs);
    assert ConcatMap(EncodeAttr, attrs[1..]) + [] == ConcatMap(EncodeAttr, attrs[1..]);
  }

  /** A list of clear attributes is read exactly when it is readable, and then all of it is kept. */
  lemma {:induction false} ClearReadExactly(attrs: seq<Attr>, at: nat, st: PState)
    requires forall i :: 0 <= i < |attrs| ==> Encodable(attrs[i])
    ensures Outcomes(ParseAll(EncodeSeq(attrs), at, st, false), attrs, st)
    decreases |attrs|
  {
    hide ParseAll;
    hide EncodeAttr;
    hide EncodeSeq;
    hide Encodable;
    hide Next;
    hide Readable;
    hide AlwaysSecret;
    if attrs == [] {
      NothingRead(at, st);
    } else {
      var a := attrs[0];
      SplitFirst(attrs);
      ReadFirst(a, EncodeSeq(attrs[1..]), at, st);
      ReadableCons(attrs, st.pBit);
      hide Outcomes;
      if AlwaysSecret(a.kind) || (a.kind == 12 && !st.pBit) {
        NotReadable(attrs, st);
      } else {
        ClearReadExactly(attrs[1..], at + |EncodeAttr(a)|, Next(st, a));
        OutcomeCons(ParseAll(EncodeSeq(attrs), at, st, false), attrs, st);
      }
    }
  }

  // ---------------------------------------------------------------- accepting

  /** Challenges (1 and 11) and reauthentications (13), and notifications (12) once a P bit was clear, are
      accepted exactly when a MAC lies in the message and is the signer's value over the message with
      zeroes in its place.  Subtypes 2, 4, 5, 10, 14, and notifications otherwise, are accepted always; any
      other subtype never. */
  lemma AcceptedExactly(msg: bytes, st: PState, crypto: Crypto, sigdata: bytes)
    requires |msg| >= 8 && (st.mac.InMessage? ==> st.mac.at + 16 <= |msg|)
    ensures var protected := msg[5] in {1, 11, 13} || (msg[5] == 12 && !st.pBit);
            var free := msg[5] in {2, 4, 5, 10, 14} || (msg[5] == 12 && st.pBit);
            && (free ==> Verified(msg, st, crypto, sigdata))
            && (!free && !protected ==> !Verified(msg, st, crypto, sigdata))
            && (protected ==>
                  (Verified(msg, st, crypto, sigdata) <==>
                   && st.mac.InMessage? && crypto.signer.Some?
                   && crypto.signer.value.sign(msg[..st.mac.at] + Zeros(16) + msg[st.mac.at + 16..] + sigdata) ==
                      Some(msg[st.mac.at..st.mac.at + 16])))
  {
  }

  lemma PeerMac(attrs: seq<Attr>, x: Sealing, subtype: byte, msg: bytes, clear: bytes, hdr: bytes, mac: bytes)
    requires NeedsMac(subtype) && |hdr| == 8 && hdr[5] == subtype && Whole(x) && |mac| == 16
    requires clear == EncodeSeq(Select(attrs, false)) && msg == Assemble(hdr, clear, x, mac)
    ensures Peer(attrs, x, subtype).mac == InMessage(|msg| - 16)
  {
    hide EncodeSeq;
    hide Select;
    hide NeedsMac;
    hide Whole;
    PeerFields(attrs, x, subtype);
    TrailerMac(x, subtype, mac);
    AssembledShape(hdr, clear, x, mac);
    hide Peer;
    hide Assemble;
    hide Trailer;
  }

  lemma SameTail(msg: bytes, mac: bytes, other: bytes)
    requires |mac| == |other| == 16 <= |msg|
    ensures msg == msg[..|msg| - 16] + mac ==> (msg[..|msg| - 16] + other == msg <==> other == mac)
  {
    assert (msg[..|msg| - 16] + mac)[|msg| - 16..] == mac && (msg[..|msg| - 16] + other)[|msg| - 16..] == other;
  }

  lemma OtherMac(bad: bytes, st: PState, crypto: Crypto, sigdata: bytes, mac: bytes, other: bytes)
    requires |bad| >= 24 && bad[5] in {1, 11, 13} && st.mac == InMessage(|bad| - 16) && crypto.signer.Some?
    requires bad[|bad| - 16..] == other && crypto.signer.value.sign(ZeroMac(bad, |bad| - 16) + sigdata) == Some(mac)
    ensures Verified(bad, st, crypto, sigdata) <==> other == mac
  {
    hide ZeroMac;
    assert bad[|bad| - 16..|bad|] == bad[|bad| - 16..];
  }

  /** The same for the parts a generated message is assembled from. */
  lemma AlteredAssembled(hdr: bytes, attrs: seq<Attr>, crypto: Crypto, iv: bytes, sigdata: bytes, clear: bytes, x: Sealing,
                         mac: bytes, other: bytes)
    requires |hdr| == 8 && hdr[5] in {1, 11, 13} && |mac| == |other| == 16 && Whole(x) && crypto.signer.Some?
    requires clear == EncodeSeq(Select(attrs, false))
    requires crypto.signer.value.sign(Assemble(hdr, clear, x, Zeros(16)) + sigdata) == Some(mac)
    ensures var msg, bad := Assemble(hdr, clear, x, mac), Assemble(hdr, clear, x, other);
            && |msg| == |bad| >= 24 && bad == msg[..|msg| - 16] + other
            && Peer(attrs, x, hdr[5]).mac == InMessage(|bad| - 16)
            && (Verified(bad, Peer(attrs, x, hdr[5]), crypto, sigdata) <==> other == mac)
  {
    hide Assemble;
    hide Peer;
    hide ZeroMac;
    hide Whole;
    hide EncodeSeq;
    hide Select;
    hide Verified;
    hide Trailer;
    Reassembled(hdr, clear, x, mac, other);
    AssembledMac(hdr, clear, x, mac);
    AssembledMac(hdr, clear, x, other);
    AssembledShape(hdr, clear, x, other);
    var bad, st := Assemble(hdr, clear, x, other), Peer(attrs, x, hdr[5]);
    PeerMac(attrs, x, hdr[5], bad, clear, hdr, other);
    OtherMac(bad, st, crypto, sigdata, mac, other);
  }

  /** A generated challenge or reauthentication whose MAC was replaced by any other 16 bytes still parses,
      and is refused. */
  lemma AlteredMacIsRefused(hdr: bytes, attrs: seq<Attr>, crypto: Crypto, iv: bytes, sigdata: bytes, other: bytes)
    requires Ready(hdr, attrs, crypto, iv) && (crypto.crypter.Some? ==> crypto.crypter.value.blockSize > 0)
    requires hdr[5] in {1, 11, 13} && Generated(hdr, attrs, crypto, iv, sigdata).Some? && |other| == 16
    ensures var msg := Generated(hdr, attrs, crypto, iv, sigdata).value;
            && |msg| >= 24
            && var bad := msg[..|msg| - 16] + other;
               var parsed := ParseMessage(bad, crypto);
               && parsed.Done? && parsed.st.mac == InMessage(|bad| - 16)
               && (Verified(bad, parsed.st, crypto, sigdata) <==> bad == msg)
  {
    hide ParseMessage;
    hide Generated;
    hide Ready;
    hide Seal;
    hide EncodeSeq;
    hide Select;
    hide Verified;
    hide Assemble;
    hide Trailer;
    hide Peer;
    ReadySigner(hdr, attrs, crypto, iv);
    var x, mac := GeneratedIs(hdr, attrs, crypto, iv, sigdata);
    assert x != Failed;
    hide Whole;
    var clear := EncodeSeq(Select(attrs, false));
    ParseAssembled(hdr, attrs, crypto, iv, other);
    AlteredAssembled(hdr, attrs, crypto, iv, sigdata, clear, x, mac, other);
    SameTail(Assemble(hdr, clear, x, mac), mac, other);
    AlteredAssembled(hdr, attrs, crypto, iv, sigdata, clear, x, mac, mac);
  }
}
