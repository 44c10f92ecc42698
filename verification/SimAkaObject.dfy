/** The EAP-SIM/AKA message object: a buffer, the attribute list, and the parser's fields. */
module SimAkaObject {
  import opened Bytes
  import opened SimAka
  import opened SimAkaMessages
  import opened SimAkaFormat

  const EAP_REQUEST: byte := 1
  const EAP_RESPONSE: byte := 2
  const EAP_SIM: byte := 18
  const EAP_AKA: byte := 23

  /** How a parsing call ends; `Beyond` stands for a read or loop that C leaves undefined. */
  datatype Result = Ok | Bad | Beyond

  ghost predicate Reports(r: Result, outcome: Outcome, st: PState) {
    match outcome
    case Done(st1) => r == Ok && st == st1
    case Refused => r == Bad
    case Stuck => r == Beyond
  }

  /** The MAC found in a message lies behind the header and inside the message. */
  ghost predicate MacInside(mac: MacRef, n: nat) {
    mac.InMessage? ==> HEADER + 4 <= mac.at && mac.at + 16 <= n
  }

  /** `parse`: a message that already has attributes is only decrypted. */
  function ParseCall(raw: bytes, st: PState, crypto: Crypto): Outcome
    requires crypto.crypter.Some? ==> crypto.crypter.value.blockSize > 0
  {
    if st.attrs != [] then Decrypted(st, crypto)
    else
      match ParseAll(Skip(raw, HEADER), HEADER, st, false)
      case Done(st1) => Decrypted(st1, crypto)
      case other => other
  }

  lemma NoteGrows(st: PState, a: Attr, at: nat)
    ensures var noted := Note(st, a, at, false);
            noted.Some? ==>
              && st.attrs <= noted.value.attrs
              && (|noted.value.attrs| == |st.attrs| ==> noted.value.pBit == st.pBit && noted.value.attrs == st.attrs)
  {
  }

  lemma {:induction false} AttrsGrow(rest: bytes, at: nat, st: PState)
    ensures var o := ParseAll(rest, at, st, false);
            o.Done? ==>
              && st.attrs <= o.st.attrs
              && (|o.st.attrs| == |st.attrs| ==> o.st.pBit == st.pBit && o.st.attrs == st.attrs)
    decreases |rest|
  {
    hide ParseOne;
    hide Note;
    if rest != [] && ParseOne(rest, false).Took? {
      var one := ParseOne(rest, false);
      var noted := Note(st, one.attr, at, false);
      if noted.Some? {
        NoteGrows(st, one.attr, at);
        AttrsGrow(rest[one.size..], at + one.size, noted.value);
      }
    }
  }

  /** Each field of `t` is that of `s` or already that of `s1`. */
  ghost predicate Between(t: PState, s: PState, s1: PState) {
    && t.attrs == s.attrs && t.pBit == s.pBit && (t.mac == s.mac || t.mac == s1.mac)
    && (t.iv == s.iv || t.iv == s1.iv) && (t.encr == s.encr || t.encr == s1.encr)
  }

  lemma NoteBetween(a: Attr, at: nat, s: PState, t: PState, s1: PState)
    requires Between(t, s, s1) && Note(s, a, at, false).Some? && Note(s, a, at, false).value.attrs == s.attrs
    ensures Note(t, a, at, false).Some? && Between(Note(t, a, at, false).value, Note(s, a, at, false).value, s1)
  {
  }

  /** A pass that found no attribute to keep can be repeated: it ends in the same state. */
  lemma {:induction false} PassRepeats(rest: bytes, at: nat, s: PState, t: PState)
    requires ParseAll(rest, at, s, false).Done? && ParseAll(rest, at, s, false).st.attrs == s.attrs
    requires Between(t, s, ParseAll(rest, at, s, false).st)
    ensures ParseAll(rest, at, t, false) == ParseAll(rest, at, s, false)
    decreases |rest|
  {
    hide ParseOne;
    hide Note;
    if rest != [] {
      var one := ParseOne(rest, false);
      var s1 := ParseAll(rest, at, s, false).st;
      var s' := Note(s, one.attr, at, false).value;
      NoteGrows(s, one.attr, at);
      AttrsGrow(rest[one.size..], at + one.size, s');
      NoteBetween(one.attr, at, s, t, s1);
      hide Between;
      PassRepeats(rest[one.size..], at + one.size, s', Note(t, one.attr, at, false).value);
    }
  }

  /** Parsing before the keys are known and again afterwards is parsing once with the keys. */
  lemma ParseInTwoCalls(raw: bytes, early: Crypto, crypto: Crypto)
    requires early.crypter.None? && (crypto.crypter.Some? ==> crypto.crypter.value.blockSize > 0)
    ensures var first := ParseCall(raw, Start(), early);
            && (first.Done? ==> ParseCall(raw, first.st, crypto) == ParseMessage(raw, crypto))
            && (!first.Done? ==> ParseMessage(raw, crypto) == first)
  {
    hide ParseAll;
    var input := Skip(raw, HEADER);
    var first := ParseAll(input, HEADER, Start(), false);
    if first.Done? && first.st.attrs == [] {
      AttrsGrow(input, HEADER, Start());
      PassRepeats(input, HEADER, Start(), first.st);
    }
  }

  /** Appends to a buffer. */
  method Put(buf: array<byte>, pos: nat, data: bytes) returns (next: nat)
    requires pos + |data| <= buf.Length
    modifies buf
    ensures next == pos + |data| && buf[..next] == old(buf[..pos]) + data
  {
    forall i | 0 <= i < |data| {
      buf[pos + i] := data[i];
    }
    next := pos + |data|;
  }

  lemma NothingYet(attrs: seq<Attr>)
    ensures EncodeSeq(Select(attrs[..0], false)) == EncodeSeq(Select(attrs[..0], true)) == []
  {
  }

  lemma {:induction false} PrefixFits(attrs: seq<Attr>, i: nat, secret: bool)
    requires i <= |attrs|
    ensures |EncodeSeq(Select(attrs[..i], secret))| <= |EncodeSeq(Select(attrs, secret))|
    decreases |attrs| - i
  {
    hide EncodeAttr;
    hide Secret;
    if i == |attrs| {
      assert attrs[..i] == attrs;
    } else {
      assert attrs[..i + 1] == attrs[..i] + [attrs[i]];
      SelectSnoc(attrs[..i], attrs[i], secret);
      PrefixFits(attrs, i + 1, secret);
    }
  }

  lemma MacHasRoom(rest: bytes, encrypted: bool)
    requires rest != []
    ensures var one := ParseOne(rest, encrypted);
            one.Took? && one.attr.kind == AT_MAC ==> |rest| >= 20
  {
  }

  lemma NotedMac(st: PState, a: Attr, at: nat, encrypted: bool, n: nat)
    requires MacInside(st.mac, n) && (a.kind == AT_MAC && !encrypted ==> at >= HEADER && at + 20 <= n)
    ensures var noted := Note(st, a, at, encrypted);
            noted.Some? ==> MacInside(noted.value.mac, n)
  {
  }

  lemma RoomFor(hdr: bytes, attrs: seq<Attr>, crypto: Crypto, iv: bytes)
    requires Ready(hdr, attrs, crypto, iv)
    ensures var secret, clear := EncodeSeq(Select(attrs, true)), EncodeSeq(Select(attrs, false));
            && |secret| <= Padded(|secret|, crypto) <= ENCR_BUF
            && HEADER + |clear| + (if secret != [] then 24 + Padded(|secret|, crypto) else 0) +
               (if NeedsMac(hdr[5]) then 20 else 0) <= OUT_BUF
  {
    if EncodeSeq(Select(attrs, true)) != [] {
      assert crypto.crypter.value.Lawful();
    }
  }

  /** What an encrypted message carries besides its MAC. */
  function SealedPart(x: Sealing): bytes {
    if x.Sealed? then Reserved2(AT_IV, x.iv) + Reserved2(AT_ENCR_DATA, x.text) else []
  }

  lemma TrailerSplits(x: Sealing, subtype: byte, mac: bytes)
    ensures Trailer(x, subtype, mac) == SealedPart(x) + MacPart(subtype, mac)
  {
    hide Reserved2;
    hide MacPart;
  }

  /** Pads and encrypts the second buffer and appends it to the first. */
  method PutSealed(out: array<byte>, o: nat, encrBuf: array<byte>, e: nat, crypto: Crypto, iv: bytes)
      returns (x: Sealing, next: nat)
    requires out != encrBuf && e <= encrBuf.Length && e % 4 == 0 && o <= out.Length
    requires e > 0 ==> crypto.crypter.Some? && crypto.crypter.value.Lawful() && |iv| == 16
    requires Padded(e, crypto) <= encrBuf.Length && (e > 0 ==> o + 24 + Padded(e, crypto) <= out.Length)
    modifies out, encrBuf
    ensures x == Seal(old(encrBuf[..e]), crypto, iv)
    ensures x != Failed ==> next <= out.Length && out[..next] == old(out[..o]) + SealedPart(x)
  {
    next := o;
    if e == 0 {
      return Nothing, o;
    }
    var crypter := crypto.crypter.value;
    ghost var secret := encrBuf[..e];
    PaddingFills(secret, crypter.blockSize);
    var e1 := Put(encrBuf, e, PaddingAttr(e, crypter.blockSize));
    hide PaddingAttr;
    next := Put(out, next, Reserved2(AT_IV, iv));
    match crypter.encrypt(encrBuf[..e1], iv)
    case None => x := Failed;
    case Some(text) =>
      next := Put(out, next, Reserved2(AT_ENCR_DATA, text));
      x := Sealed(iv, text);
      Assoc(old(out[..o]), Reserved2(AT_IV, iv), Reserved2(AT_ENCR_DATA, text));
  }

  /** A message with its length written into it. */
  function WithLength(m: bytes): bytes
    requires |m| >= HEADER
  {
    m[..2] + U16(|m|) + m[4..]
  }

  lemma AssembledFlat(hdr: bytes, clear: bytes, x: Sealing, mac: bytes)
    requires |hdr| == HEADER
    ensures Assemble(hdr, clear, x, mac) == WithLength(hdr + clear + SealedPart(x) + MacPart(hdr[5], mac))
  {
    TrailerSplits(x, hdr[5], mac);
    hide Trailer;
    hide MacPart;
    hide SealedPart;
    var body := clear + Trailer(x, hdr[5], mac);
    var m := hdr + clear + SealedPart(x) + MacPart(hdr[5], mac);
    Assoc(hdr + clear, SealedPart(x), MacPart(hdr[5], mac));
    Assoc(hdr, clear, Trailer(x, hdr[5], mac));
    assert m == hdr + body;
    assert m[..2] == hdr[..2] && m[4..] == hdr[4..] + body;
    hide U16;
    Assoc(hdr[..2] + U16(|m|), hdr[4..], body);
  }

  lemma MacAtEnd(front: bytes, mac: bytes)
    requires |front| >= HEADER && |mac| == 16
    ensures var m, m0 := WithLength(front + Reserved2(AT_MAC, mac)), WithLength(front + Reserved2(AT_MAC, Zeros(16)));
            |m| == |m0| == |front| + 20 && m == m0[..|front| + 4] + mac
  {
    hide U16;
    var m, m0 := front + Reserved2(AT_MAC, mac), front + Reserved2(AT_MAC, Zeros(16));
    assert m == m0[..|front| + 4] + mac;
  }

  method PutLength(out: array<byte>, end: nat)
    requires HEADER <= end <= out.Length
    modifies out
    ensures out[..end] == WithLength(old(out[..end]))
  {
    out[2], out[3] := end / 256 % 256, end % 256;
  }

  /** Reserves the MAC, fills in the length, then signs. */
  method Finish(out: array<byte>, o: nat, subtype: byte, crypto: Crypto, sigdata: bytes,
                ghost hdr: bytes, ghost clear: bytes, ghost x: Sealing) returns (gen: Option<bytes>)
    requires HEADER <= o && o + (if NeedsMac(subtype) then 20 else 0) <= out.Length
    requires NeedsMac(subtype) ==> crypto.signer.Some? && crypto.signer.value.Lawful()
    requires |hdr| == HEADER && hdr[5] == subtype && out[..o] == hdr + clear + SealedPart(x)
    modifies out
    ensures gen == if !NeedsMac(subtype) then Some(Assemble(hdr, clear, x, []))
                   else match crypto.signer.value.sign(Assemble(hdr, clear, x, Zeros(16)) + sigdata)
                        case None => None
                        case Some(mac) => Some(Assemble(hdr, clear, x, mac))
  {
    hide Assemble;
    hide WithLength;
    hide SealedPart;
    hide Zeros;
    ghost var front := out[..o];
    if !NeedsMac(subtype) {
      AssembledFlat(hdr, clear, x, []);
      assert front + [] == front;
      PutLength(out, o);
      return Some(out[..o]);
    }
    AssembledFlat(hdr, clear, x, Zeros(16));
    var end := Put(out, o, Reserved2(AT_MAC, Zeros(16)));
    PutLength(out, end);
    match crypto.signer.value.sign(out[..end] + sigdata)
    case None => return None;
    case Some(mac) =>
      AssembledFlat(hdr, clear, x, mac);
      MacAtEnd(front, mac);
      ghost var signed := out[..end];
      assert signed[..end - 16] == out[..end - 16];
      var last := Put(out, end - 16, mac);
      gen := Some(out[..last]);
  }

  /** Whether verification looks at the MAC bytes. */
  predicate ChecksMac(msg: bytes, st: PState, crypto: Crypto)
    requires |msg| >= HEADER
  {
    RuleOf(msg[5], st.pBit) == Require && st.mac.InMessage? && crypto.signer.Some?
  }

  /** `verify`; a MAC that was found in decrypted data is read, and written, after that was freed. */
  function VerifyCall(msg: bytes, st: PState, crypto: Crypto, sigdata: bytes): Result
    requires |msg| >= HEADER && (st.mac.InMessage? ==> st.mac.at + 16 <= |msg|)
  {
    if RuleOf(msg[5], st.pBit) == Require && st.mac == Gone && crypto.signer.Some? then Beyond
    else if Verified(msg, st, crypto, sigdata) then Ok
    else Bad
  }

  /** Verifying consumes the MAC: a second check accepts only a message whose MAC is all zeroes. */
  lemma SecondVerify(msg: bytes, st: PState, crypto: Crypto, sigdata: bytes)
    requires |msg| >= HEADER && ChecksMac(msg, st, crypto) && MacInside(st.mac, |msg|)
    ensures Verified(ZeroMac(msg, st.mac.at), st, crypto, sigdata) <==>
            crypto.signer.value.sign(ZeroMac(msg, st.mac.at) + sigdata) == Some(Zeros(16))
  {
    var at := st.mac.at;
    var zeroed := ZeroMac(msg, at);
    assert zeroed[at..at + 16] == Zeros(16);
    assert ZeroMac(zeroed, at) == zeroed;
    assert zeroed[5] == msg[5];
  }

  /** The checks made on a packet before a message object exists. */
  predicate Acceptable(data: bytes) {
    && |data| >= HEADER && ReadU16(data[2..4]) == |data|
    && (data[0] == EAP_REQUEST || data[0] == EAP_RESPONSE)
    && (data[4] == EAP_SIM || data[4] == EAP_AKA)
  }

  class Message {
    var raw: array<byte>
    var attributes: seq<Attr>
    var encrypted: bool
    var pBit: bool
    var mac: MacRef
    var iv: bytes
    var encr: bytes

    ghost predicate Valid()
      reads this, raw
    {
      && raw.Length >= HEADER && ReadU16(raw[2..4]) == raw.Length
      && !encrypted && MacInside(mac, raw.Length)
    }

    function State(): PState
      reads this
    {
      PState(attributes, pBit, mac, iv, encr)
    }

    /** Takes a received packet whose header was checked. */
    constructor (data: bytes)
      requires Acceptable(data)
      ensures Valid() && fresh(raw) && raw[..] == data && State() == Start()
    {
      raw := new byte[|data|](i requires 0 <= i < |data| => data[i]);
      attributes, encrypted, pBit, mac, iv, encr := [], false, true, NoMac, [], [];
      new;
      assert raw[..] == data;
      assert raw[2..4] == data[2..4];
    }

    method AddAttribute(kind: byte, data: bytes)
      modifies `attributes
      ensures attributes == old(attributes) + [Attr(kind, data)]
    {
      attributes := attributes + [Attr(kind, data)];
    }

    /** Keeps an attribute, or the field it stands for. */
    method Record(a: Attr, at: nat) returns (ok: bool)
      modifies `attributes, `pBit, `mac, `iv, `encr
      ensures match Note(old(State()), a, at, encrypted)
              case None => !ok && State() == old(State())
              case Some(st) => ok && State() == st
    {
      if a.kind == AT_MAC {
        mac := if encrypted then Gone else InMessage(at + 4);
      } else if a.kind == AT_IV {
        iv := a.data;
      } else if a.kind == AT_ENCR_DATA {
        encr := a.data;
      } else if a.kind != AT_PADDING {
        if a.kind == AT_NOTIFICATION {
          if pBit {
            pBit := PBit(a.data);
          } else if !encrypted {
            return false;
          }
        }
        AddAttribute(a.kind, a.data);
      }
      return true;
    }

    /** The attributes are read one after the other, each recorded as it is found. */
    method ParseAttributes(input: bytes, start: nat) returns (r: Result)
      requires MacInside(mac, raw.Length)
      requires !encrypted ==> start >= HEADER && start + |input| == raw.Length
      modifies `attributes, `pBit, `mac, `iv, `encr
      ensures Reports(r, ParseAll(input, start, old(State()), encrypted), State())
      ensures MacInside(mac, raw.Length)
    {
      hide ParseOne;
      hide Note;
      var rest, at: nat := input, start;
      while rest != []
        invariant ParseAll(rest, at, State(), encrypted) == ParseAll(input, start, old(State()), encrypted)
        invariant MacInside(mac, raw.Length)
        invariant !encrypted ==> at >= HEADER && at + |rest| == raw.Length
        decreases |rest|
      {
        MacHasRoom(rest, encrypted);
        match ParseOne(rest, encrypted)
        case Rejected => return Bad;
        case Undefined => return Beyond;
        case Took(a, size) =>
          NotedMac(State(), a, at, encrypted, raw.Length);
          var noted := Record(a, at);
          if !noted {
            return Bad;
          }
          rest, at := rest[size..], at + size;
      }
      return Ok;
    }

    /** Decrypts AT_ENCR_DATA, if there is one and keys are known, and reads the attributes in it. */
    method Decrypt(crypto: Crypto) returns (r: Result)
      requires Valid() && (crypto.crypter.Some? ==> crypto.crypter.value.blockSize > 0)
      modifies `attributes, `pBit, `mac, `iv, `encr, `encrypted
      ensures Valid() && Reports(r, Decrypted(old(State()), crypto), State())
    {
      if crypto.crypter.None? || iv == [] || encr == [] {
        return Ok;
      }
      var crypter := crypto.crypter.value;
      if |encr| % crypter.blockSize != 0 {
        return Bad;
      }
      match crypter.decrypt(encr, iv)
      case None => return Bad;
      case Some(plain) =>
        encrypted := true;
        r := ParseAttributes(plain, 0);
        encrypted := false;
    }

    method Parse(crypto: Crypto) returns (r: Result)
      requires Valid() && (crypto.crypter.Some? ==> crypto.crypter.value.blockSize > 0)
      modifies `attributes, `pBit, `mac, `iv, `encr, `encrypted
      ensures Valid() && Reports(r, ParseCall(raw[..], old(State()), crypto), State())
    {
      hide ParseAll;
      if attributes == [] {
        r := ParseAttributes(Skip(raw[..], HEADER), HEADER);
        if r != Ok {
          return;
        }
      }
      r := Decrypt(crypto);
    }

    method ClearMac(at: nat)
      requires HEADER <= at && at + 16 <= raw.Length
      modifies raw
      ensures raw[..] == ZeroMac(old(raw[..]), at)
      ensures raw[..HEADER] == old(raw[..HEADER])
    {
      ghost var before := raw[..];
      forall i | at <= i < at + 16 {
        raw[i] := 0;
      }
      assert raw[..] == ZeroMac(before, at);
      assert raw[..HEADER] == before[..HEADER];
    }

    /** Checks the MAC; the MAC bytes are zeroed for that and stay zero. */
    method Verify(crypto: Crypto, sigdata: bytes) returns (r: Result)
      requires Valid()
      modifies raw
      ensures Valid() && r == VerifyCall(old(raw[..]), State(), crypto, sigdata)
      ensures old(raw[5]) in {1, 11, 13} || (old(raw[5]) == 12 && !pBit) ==>
                (r == Ok <==> mac.InMessage? && crypto.signer.Some? &&
                              crypto.signer.value.sign(ZeroMac(old(raw[..]), mac.at) + sigdata) ==
                              Some(old(raw[..])[mac.at..mac.at + 16]))
      ensures (old(raw[5]) in {1, 11, 13} || (old(raw[5]) == 12 && !pBit)) && mac.InMessage? && crypto.signer.Some? ==>
                raw[..] == ZeroMac(old(raw[..]), mac.at)
      ensures raw[..] == if ChecksMac(old(raw[..]), State(), crypto) then ZeroMac(old(raw[..]), mac.at) else old(raw[..])
    {
      match RuleOf(raw[5], pBit)
      case Ignore => return Ok;
      case Unknown => return Bad;
      case Require =>
      if mac == NoMac || crypto.signer.None? {
        return Bad;
      }
      if mac == Gone {
        return Beyond;
      }
      var backup := raw[mac.at..mac.at + 16];
      ClearMac(mac.at);
      hide ZeroMac;
      r := if crypto.signer.value.sign(raw[..] + sigdata) == Some(backup) then Ok else Bad;
    }

    /** Every attribute is written to the buffer it belongs to. */
    method EncodeAttributes(out: array<byte>, encrBuf: array<byte>) returns (o: nat, e: nat)
      requires out != encrBuf && raw != out && raw.Length >= HEADER
      requires HEADER + |EncodeSeq(Select(attributes, false))| <= out.Length
      requires |EncodeSeq(Select(attributes, true))| <= encrBuf.Length
      modifies out, encrBuf
      ensures o <= out.Length && out[..o] == old(raw[..HEADER]) + EncodeSeq(Select(attributes, false))
      ensures e <= encrBuf.Length && encrBuf[..e] == EncodeSeq(Select(attributes, true))
    {
      hide EncodeAttr;
      hide Secret;
      hide Select;
      hide EncodeSeq;
      ghost var hdr := raw[..HEADER];
      o := Put(out, 0, raw[..HEADER]);
      e := 0;
      var i := 0;
      NothingYet(attributes);
      while i < |attributes|
        invariant i <= |attributes| && o <= out.Length && e <= encrBuf.Length
        invariant out[..o] == hdr + EncodeSeq(Select(attributes[..i], false))
        invariant encrBuf[..e] == EncodeSeq(Select(attributes[..i], true))
      {
        var a := attributes[i];
        PrefixFits(attributes, i + 1, false);
        PrefixFits(attributes, i + 1, true);
        assert attributes[..i + 1] == attributes[..i] + [a];
        SelectSnoc(attributes[..i], a, false);
        SelectSnoc(attributes[..i], a, true);
        Assoc(hdr, EncodeSeq(Select(attributes[..i], false)), EncodeAttr(a));
        if Secret(a) {
          e := Put(encrBuf, e, EncodeAttr(a));
        } else {
          o := Put(out, o, EncodeAttr(a));
        }
        i := i + 1;
      }
      assert attributes[..i] == attributes;
    }

    /** Prints the message; `iv` is what the random source gives, unless it fails. */
    method Generate(crypto: Crypto, iv: bytes, rngFails: bool, sigdata: bytes) returns (gen: Option<bytes>)
      requires Valid() && Ready(raw[..HEADER], attributes, crypto, iv)
      ensures gen == if rngFails && EncodeSeq(Select(attributes, true)) != [] then None
                     else Generated(raw[..HEADER], attributes, crypto, iv, sigdata)
    {
      hide EncodeSeq;
      hide Assemble;
      var out, encrBuf := new byte[OUT_BUF], new byte[ENCR_BUF];
      ghost var hdr := raw[..HEADER];
      ghost var clear, secret := EncodeSeq(Select(attributes, false)), EncodeSeq(Select(attributes, true));
      SecretAligned(attributes, true);
      SealIsWhole(secret, crypto, iv);
      RoomFor(hdr, attributes, crypto, iv);
      hide Padded;
      hide Whole;
      hide Seal;
      var o, e := EncodeAttributes(out, encrBuf);
      if e > 0 && rngFails {
        return None;
      }
      var x, o1 := PutSealed(out, o, encrBuf, e, crypto, iv);
      if x == Failed {
        return None;
      }
      gen := Finish(out, o1, raw[5], crypto, sigdata, hdr, clear, x);
    }
  }
}
