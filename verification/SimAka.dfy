/** EAP-SIM/AKA messages: the printer, the parser, and the MAC.

    Attributes are padded TLVs counted in units of four bytes.  Some travel encrypted inside an
    AT_ENCR_DATA attribute, and challenges and reauthentications end in an AT_MAC over the message.
    The host is little-endian, which matters for the length field of AT_RES. */
module SimAka {
  import opened Bytes

  const AT_RAND: byte := 1
  const AT_AUTN: byte := 2
  const AT_RES: byte := 3
  const AT_AUTS: byte := 4
  const AT_PADDING: byte := 6
  const AT_NONCE_MT: byte := 7
  const AT_PERMANENT_ID_REQ: byte := 10
  const AT_MAC: byte := 11
  const AT_NOTIFICATION: byte := 12
  const AT_ANY_ID_REQ: byte := 13
  const AT_IDENTITY: byte := 14
  const AT_VERSION_LIST: byte := 15
  const AT_SELECTED_VERSION: byte := 16
  const AT_FULLAUTH_ID_REQ: byte := 17
  const AT_COUNTER: byte := 19
  const AT_COUNTER_TOO_SMALL: byte := 20
  const AT_NONCE_S: byte := 21
  const AT_CLIENT_ERROR_CODE: byte := 22
  const AT_IV: byte := 129
  const AT_ENCR_DATA: byte := 130
  const AT_NEXT_PSEUDONYM: byte := 132
  const AT_NEXT_REAUTH_ID: byte := 133

  datatype Attr = Attr(kind: byte, data: bytes)

  // ---------------------------------------------------------------- layouts

  /** How the value of an attribute is laid out. */
  datatype Layout = NoData | TwoBytes | Counted | Sixteen | Blocks | Fourteen | Unruled

  function LayoutOf(kind: byte): Layout {
    if kind == AT_COUNTER_TOO_SMALL || kind == AT_ANY_ID_REQ || kind == AT_PERMANENT_ID_REQ ||
       kind == AT_FULLAUTH_ID_REQ
    then NoData
    else if kind == AT_COUNTER || kind == AT_CLIENT_ERROR_CODE || kind == AT_SELECTED_VERSION ||
            kind == AT_NOTIFICATION
    then TwoBytes
    else if kind == AT_NEXT_PSEUDONYM || kind == AT_NEXT_REAUTH_ID || kind == AT_RES || kind == AT_IDENTITY ||
            kind == AT_VERSION_LIST
    then Counted
    else if kind == AT_NONCE_S || kind == AT_AUTN || kind == AT_NONCE_MT || kind == AT_IV || kind == AT_MAC
    then Sixteen
    else if kind == AT_ENCR_DATA || kind == AT_RAND then Blocks
    else if kind == AT_AUTS then Fourteen
    else Unruled
  }

  /** Attributes the parser takes only from encrypted data. */
  predicate SecretOnly(kind: byte) {
    || kind == AT_COUNTER_TOO_SMALL || kind == AT_COUNTER || kind == AT_NEXT_PSEUDONYM
    || kind == AT_NEXT_REAUTH_ID || kind == AT_NONCE_S
  }

  /** A notification with its P bit set belongs to the phase before keys exist. */
  predicate PBit(data: bytes) {
    |data| > 0 && data[0] / 64 % 2 == 1
  }

  /** Attributes the printer puts into encrypted data. */
  predicate Secret(a: Attr) {
    SecretOnly(a.kind) || (a.kind == AT_NOTIFICATION && !PBit(a.data))
  }

  // ---------------------------------------------------------------- printing

  /** `htons` on a little-endian host. */
  function Htons(n: nat): nat {
    n % 256 * 256 + n / 256 % 256
  }

  /** The length field of a Counted attribute: the factor 8 of AT_RES is applied after `htons`. */
  function CountField(kind: byte, n: nat): (f: bytes)
    ensures |f| == 2
  {
    var v := if kind == AT_RES then Htons(n) * 8 % 0x1_0000 else Htons(n);
    [v % 256, v / 256 % 256]
  }

  /** What the parser makes of that field. */
  function CountOf(kind: byte, field: bytes): nat
    requires |field| >= 2
  {
    if kind == AT_RES then ReadU16(field) / 8 else ReadU16(field)
  }

  function EncodeAs(layout: Layout, kind: byte, data: bytes): bytes {
    var n := |data|;
    match layout
    case NoData => [kind, 1, 0, 0]
    case TwoBytes => [kind, 1] + data
    case Counted =>
      var padding := PadLen(n, 4);
      [kind, ((n + padding) / 4 + 1) % 256] + CountField(kind, n) + data + Zeros(padding)
    case Sixteen => [kind, 5, 0, 0] + data
    case Blocks => [kind, (1 + n / 4) % 256, 0, 0] + data
    case Fourteen => [kind, 4] + data
    case Unruled => []
  }

  /** Kinds the printer has a rule for; AT_IV, AT_ENCR_DATA, AT_MAC and AT_PADDING it adds itself. */
  predicate Ruled(kind: byte) {
    LayoutOf(kind) != Unruled && kind != AT_IV && kind != AT_MAC && kind != AT_ENCR_DATA
  }

  /** Attributes without a rule are skipped. */
  function EncodeAttr(a: Attr): bytes {
    if Ruled(a.kind) then EncodeAs(LayoutOf(a.kind), a.kind, a.data) else []
  }

  /** Data of the length the layout asks for. */
  predicate Sized(layout: Layout, n: nat) {
    match layout
    case NoData => n == 0
    case TwoBytes => n == 2
    case Counted => n <= 1016
    case Sixteen => n == 16
    case Blocks => n % 4 == 0 && n <= 1016
    case Fourteen => n == 14
    case Unruled => true
  }

  /** A rule exists and the length fits it. */
  predicate Encodable(a: Attr) {
    Ruled(a.kind) && Sized(LayoutOf(a.kind), |a.data|)
  }

  lemma LowBits(n: nat)
    ensures n % 32 == n % 256 % 32 <= n % 256
  {
    AddMultipleMod(n % 256, n / 256 * 8, 32);
  }

  /** What is left of the length of an AT_RES: the bits above the fifth of its low byte are lost. */
  function CutLen(n: nat): (m: nat)
    ensures m <= n
  {
    LowBits(n);
    n / 256 * 256 + n % 32
  }

  /** What becomes of an attribute on its way. */
  function Cut(a: Attr): Attr {
    if a.kind == AT_RES then Attr(a.kind, a.data[..CutLen(|a.data|)]) else a
  }

  function Cuts(attrs: seq<Attr>): (r: seq<Attr>)
    ensures |r| == |attrs| && forall i :: 0 <= i < |r| ==> r[i] == Cut(attrs[i])
  {
    seq(|attrs|, i requires 0 <= i < |attrs| => Cut(attrs[i]))
  }

  function EncodeSeq(attrs: seq<Attr>): bytes {
    ConcatMap(EncodeAttr, attrs)
  }

  /** The attributes of one kind of treatment that the printer has a rule for, in order. */
  function Select(attrs: seq<Attr>, secret: bool): seq<Attr> {
    if attrs == [] then []
    else
      var last := attrs[|attrs| - 1];
      Select(attrs[..|attrs| - 1], secret) + if Ruled(last.kind) && Secret(last) == secret then [last] else []
  }

  // ---------------------------------------------------------------- parsing one attribute

  /** One step of the parser: an attribute and the bytes it occupies; a rejection; or a case that C
      leaves undefined (no progress on a zero length, a value past the end). */
  datatype One = Took(attr: Attr, size: nat) | Rejected | Undefined

  function Take(kind: byte, data: bytes, size: nat, rest: bytes): One {
    Took(Attr(kind, data), Min(size, |rest|))
  }

  function ParseAs(layout: Layout, kind: byte, units: nat, rest: bytes): (o: One)
    requires |rest| >= 2
    ensures o.Took? ==> 0 < o.size <= |rest|
  {
    var len := |rest|;
    match layout
    case NoData => if units != 1 || len < 4 then Rejected else Take(kind, [], 4, rest)
    case TwoBytes => if units != 1 || len < 4 then Rejected else Take(kind, rest[2..4], 4, rest)
    case Counted =>
      if units < 1 || len < 4 then Rejected
      else
        var n := CountOf(kind, rest[2..]);
        if n > units * 4 || n > len then Rejected
        else if 4 + n > len then Undefined
        else Take(kind, rest[4..4 + n], units * 4, rest)
    case Sixteen => if units != 5 || len < 20 then Rejected else Take(kind, rest[4..20], 20, rest)
    case Blocks =>
      if units * 4 > len || len < 4 then Rejected
      else if units == 0 then Undefined
      else Take(kind, rest[4..units * 4], units * 4, rest)
    case Fourteen => if units != 4 || len < 16 then Rejected else Take(kind, rest[2..16], 16, rest)
    case Unruled =>
      if units * 4 > len || len < 4 then Rejected
      else if units == 0 then Undefined
      else Take(kind, rest[2..units * 4], units * 4, rest)
  }

  function ParseOne(rest: bytes, encrypted: bool): (o: One)
    requires rest != []
    ensures o.Took? ==> 0 < o.size <= |rest|
  {
    if |rest| < 2 then Rejected
    else if SecretOnly(rest[0]) && !encrypted then Rejected
    else ParseAs(LayoutOf(rest[0]), rest[0], rest[1], rest)
  }

  lemma ShiftedField(top: nat, low: nat, hi: nat)
    requires low < 32 && hi < 32
    ensures ((top * 32 + low) * 256 + hi) * 8 % 0x1_0000 == low * 8 * 256 + hi * 8
    ensures (low * 8 * 256 + hi * 8) % 256 == hi * 8 && (low * 8 * 256 + hi * 8) / 256 == low * 8
  {
    RemainderUnique(((top * 32 + low) * 256 + hi) * 8, top, low * 8 * 256 + hi * 8, 0x1_0000);
    RemainderUnique(low * 8 * 256 + hi * 8, low * 8, hi * 8, 256);
  }

  lemma ResponseField(n: nat)
    requires n <= 1016
    ensures CountField(AT_RES, n) == [n / 256 * 8, n % 32 * 8]
  {
    LowBits(n);
    ShiftedField(n % 256 / 32, n % 32, n / 256);
    assert Htons(n) == (n % 256 / 32 * 32 + n % 32) * 256 + n / 256;
    hide Htons;
  }

  lemma PlainField(kind: byte, n: nat)
    requires n <= 1016 && kind != AT_RES
    ensures CountField(kind, n) == [n / 256, n % 256]
  {
    RemainderUnique(Htons(n), n % 256, n / 256, 256);
  }

  lemma CountRoundTrips(kind: byte, n: nat)
    requires n <= 1016
    ensures CountOf(kind, CountField(kind, n)) == if kind == AT_RES then CutLen(n) else n
  {
    if kind == AT_RES {
      ResponseField(n);
      RemainderUnique((n / 256 * 256 + n % 32) * 8, n / 256 * 256 + n % 32, 0, 8);
    } else {
      PlainField(kind, n);
    }
    hide CountField;
  }

  /** A length survives exactly when it is below 32 modulo 256. */
  lemma CutLenExactly(n: nat)
    ensures CutLen(n) == n <==> n % 256 < 32
  {
    LowBits(n);
  }

  /** An attribute comes back unchanged unless it is an AT_RES of such a length. */
  lemma CutExactly(a: Attr)
    ensures Cut(a) == a <==> (a.kind == AT_RES ==> |a.data| % 256 < 32)
  {
    CutLenExactly(|a.data|);
    if CutLen(|a.data|) == |a.data| {
      assert a.data[..|a.data|] == a.data;
    } else {
      assert a.kind == AT_RES ==> |Cut(a).data| < |a.data|;
    }
  }

  lemma Units(n: nat, padding: nat)
    requires n <= 1016 && padding < 4 && (n + padding) % 4 == 0
    ensures ((n + padding) / 4 + 1) % 256 == (n + padding) / 4 + 1
    ensures ((n + padding) / 4 + 1) * 4 == n + padding + 4
  {
  }

  lemma CountedShape(kind: byte, data: bytes, post: bytes)
    requires |data| <= 1016
    ensures var n, e := |data|, EncodeAs(Counted, kind, data);
            var rest := e + post;
            && |e| == rest[1] as int * 4 && 4 + n <= |e| && rest[0] == kind
            && rest[2..4] == CountField(kind, n) && rest[4..4 + n] == data
  {
    hide CountField;
    var n := |data|;
    var padding := PadLen(n, 4);
    Units(n, padding);
    hide PadLen;
    var units := (n + padding) / 4 + 1;
    assert EncodeAs(Counted, kind, data) == [kind, units] + CountField(kind, n) + data + Zeros(padding);
  }

  lemma CountedRoundTrips(kind: byte, data: bytes, post: bytes)
    requires |data| <= 1016
    ensures var rest := EncodeAs(Counted, kind, data) + post;
            ParseAs(Counted, kind, rest[1], rest) == Took(Cut(Attr(kind, data)), |EncodeAs(Counted, kind, data)|)
  {
    var rest := EncodeAs(Counted, kind, data) + post;
    CountedShape(kind, data, post);
    CountRoundTrips(kind, |data|);
    hide CutLen;
    hide CountField;
    hide EncodeAs;
    assert rest[2..][..2] == rest[2..4];
    assert CountOf(kind, rest[2..]) == CountOf(kind, rest[2..4]);
    var m := CountOf(kind, rest[2..]);
    assert rest[4..4 + m] == rest[4..4 + |data|][..m];
    assert kind != AT_RES ==> rest[4..4 + m] == data;
  }

  lemma LayoutRoundTrips(layout: Layout, kind: byte, data: bytes, post: bytes)
    requires layout != Unruled && Sized(layout, |data|)
    requires kind == AT_RES ==> layout == Counted
    ensures var rest := EncodeAs(layout, kind, data) + post;
            && |EncodeAs(layout, kind, data)| >= 4 && rest[0] == kind
            && ParseAs(layout, kind, rest[1], rest) == Took(Cut(Attr(kind, data)), |EncodeAs(layout, kind, data)|)
  {
    var rest := EncodeAs(layout, kind, data) + post;
    match layout
    case NoData =>
    case TwoBytes => assert rest[2..4] == data;
    case Counted =>
      CountedShape(kind, data, post);
      CountedRoundTrips(kind, data, post);
    case Sixteen => assert rest[4..20] == data;
    case Blocks => assert rest[4..4 + |data|] == data;
    case Fourteen => assert rest[2..16] == data;
  }

  /** The parser takes back every encodable attribute, whatever follows it, with an AT_RES cut. */
  lemma AttrRoundTrips(a: Attr, post: bytes, encrypted: bool)
    requires Encodable(a) && (SecretOnly(a.kind) ==> encrypted)
    ensures |EncodeAttr(a)| >= 4
    ensures ParseOne(EncodeAttr(a) + post, encrypted) == Took(Cut(a), |EncodeAttr(a)|)
  {
    LayoutRoundTrips(LayoutOf(a.kind), a.kind, a.data, post);
  }

  /** An AT_RES of 32 bytes comes back empty. */
  lemma ResponseOf32IsLost(data: bytes, post: bytes, encrypted: bool)
    requires |data| == 32
    ensures Encodable(Attr(AT_RES, data))
    ensures ParseOne(EncodeAttr(Attr(AT_RES, data)) + post, encrypted) == Took(Attr(AT_RES, []), 36)
  {
    AttrRoundTrips(Attr(AT_RES, data), post, encrypted);
    assert PadLen(32, 4) == 0;
  }

  // ---------------------------------------------------------------- parsing a message

  /** Where the MAC bytes are: in the message, or in decrypted data that is gone. */
  datatype MacRef = NoMac | InMessage(at: nat) | Gone

  datatype PState = PState(attrs: seq<Attr>, pBit: bool, mac: MacRef, iv: bytes, encr: bytes)

  datatype Outcome = Done(st: PState) | Refused | Stuck

  /** Records an attribute found at offset `at`. */
  function Note(st: PState, a: Attr, at: nat, encrypted: bool): Option<PState> {
    if a.kind == AT_MAC then Some(st.(mac := if encrypted then Gone else InMessage(at + 4)))
    else if a.kind == AT_IV then Some(st.(iv := a.data))
    else if a.kind == AT_ENCR_DATA then Some(st.(encr := a.data))
    else if a.kind == AT_PADDING then Some(st)
    else if a.kind == AT_NOTIFICATION then
      if st.pBit then Some(st.(pBit := PBit(a.data), attrs := st.attrs + [a]))
      else if !encrypted then None
      else Some(st.(attrs := st.attrs + [a]))
    else Some(st.(attrs := st.attrs + [a]))
  }

  /** `parse_attributes` from offset `at` on. */
  function ParseAll(rest: bytes, at: nat, st: PState, encrypted: bool): Outcome
    decreases |rest|
  {
    if rest == [] then Done(st)
    else
      match ParseOne(rest, encrypted)
      case Rejected => Refused
      case Undefined => Stuck
      case Took(a, size) =>
        match Note(st, a, at, encrypted)
        case None => Refused
        case Some(st1) => ParseAll(rest[size..], at + size, st1, encrypted)
  }

  ghost predicate AllEncodable(attrs: seq<Attr>, secret: bool) {
    forall i :: 0 <= i < |attrs| ==> Encodable(attrs[i]) && Secret(attrs[i]) == secret
  }

  ghost predicate HasNotification(attrs: seq<Attr>) {
    exists i :: 0 <= i < |attrs| && attrs[i].kind == AT_NOTIFICATION
  }

  /** The parser state once these attributes were read. */
  ghost function After(st: PState, attrs: seq<Attr>, secret: bool): PState {
    st.(attrs := st.attrs + Cuts(attrs), pBit := st.pBit && !(secret && HasNotification(attrs)))
  }

  lemma NoteEncodable(st: PState, a: Attr, at: nat, secret: bool)
    requires Encodable(a) && Secret(a) == secret && (secret || st.pBit)
    ensures Note(st, Cut(a), at, secret) == Some(After(st, [a], secret))
  {
    hide CutLen;
    assert Cuts([a]) == [Cut(a)];
    assert HasNotification([a]) <==> a.kind == AT_NOTIFICATION by {
      assert [a][0] == a;
    }
  }

  lemma CutsConcat(a: seq<Attr>, b: seq<Attr>)
    ensures Cuts(a + b) == Cuts(a) + Cuts(b)
  {
    hide Cut;
  }

  lemma NotificationCons(attrs: seq<Attr>)
    requires attrs != []
    ensures HasNotification(attrs) <==> HasNotification([attrs[0]]) || HasNotification(attrs[1..])
  {
    assert [attrs[0]][0] == attrs[0];
    if i :| 0 <= i < |attrs| && attrs[i].kind == AT_NOTIFICATION {
      assert i > 0 ==> attrs[1..][i - 1] == attrs[i];
    }
  }

  lemma AfterCons(st: PState, attrs: seq<Attr>, secret: bool)
    requires attrs != []
    ensures After(After(st, [attrs[0]], secret), attrs[1..], secret) == After(st, attrs, secret)
  {
    NotificationCons(attrs);
    CutsConcat([attrs[0]], attrs[1..]);
    assert [attrs[0]] + attrs[1..] == attrs;
    hide Cut;
    hide Cuts;
    hide HasNotification;
    assert st.attrs + Cuts([attrs[0]]) + Cuts(attrs[1..]) == st.attrs + Cuts(attrs);
  }

  /** One turn of the loop. */
  lemma ParseStep(head: bytes, more: bytes, a: Attr, at: nat, st: PState, encrypted: bool)
    requires head != [] && ParseOne(head + more, encrypted) == Took(a, |head|) && Note(st, a, at, encrypted).Some?
    ensures ParseAll(head + more, at, st, encrypted) ==
            ParseAll(more, at + |head|, Note(st, a, at, encrypted).value, encrypted)
  {
    hide ParseOne;
    hide Note;
    assert (head + more)[|head|..] == more;
  }

  lemma ParseHead(a: Attr, more: bytes, at: nat, st: PState, secret: bool)
    requires Encodable(a) && Secret(a) == secret && (secret || st.pBit)
    ensures ParseAll(EncodeAttr(a) + more, at, st, secret) ==
            ParseAll(more, at + |EncodeAttr(a)|, After(st, [a], secret), secret)
  {
    hide ParseAll;
    AttrRoundTrips(a, more, secret);
    NoteEncodable(st, a, at, secret);
    hide EncodeAttr;
    ParseStep(EncodeAttr(a), more, Cut(a), at, st, secret);
  }

  /** A parser that takes an attribute back from its encoding. */
  ghost predicate TakesBack(parse: (bytes, nat, PState) -> Outcome, enc: Attr -> bytes, a: Attr, secret: bool) {
    forall more, at: nat, st: PState :: secret || st.pBit ==>
      parse(enc(a) + more, at, st) == parse(more, at + |enc(a)|, After(st, [a], secret))
  }

  lemma {:induction false} ParseTakenBack(parse: (bytes, nat, PState) -> Outcome, enc: Attr -> bytes,
                                          attrs: seq<Attr>, tail: bytes, at: nat, st: PState, secret: bool)
    requires forall i :: 0 <= i < |attrs| ==> TakesBack(parse, enc, attrs[i], secret)
    requires secret || st.pBit
    ensures parse(ConcatMap(enc, attrs) + tail, at, st) ==
            parse(tail, at + |ConcatMap(enc, attrs)|, After(st, attrs, secret))
    decreases |attrs|
  {
    if attrs == [] {
      assert ConcatMap(enc, attrs) + tail == tail;
      assert st.attrs + Cuts(attrs) == st.attrs;
    } else {
      ConcatMapCons(enc, attrs, tail);
      assert TakesBack(parse, enc, attrs[0], secret);
      var st1 := After(st, [attrs[0]], secret);
      ParseTakenBack(parse, enc, attrs[1..], tail, at + |enc(attrs[0])|, st1, secret);
      AfterCons(st, attrs, secret);
    }
  }

  function Parser(secret: bool): (bytes, nat, PState) -> Outcome {
    (rest: bytes, at: nat, st: PState) => ParseAll(rest, at, st, secret)
  }

  lemma EncodedTakesBack(a: Attr, secret: bool)
    requires Encodable(a) && Secret(a) == secret
    ensures TakesBack(Parser(secret), EncodeAttr, a, secret)
  {
    hide ParseAll;
    hide EncodeAttr;
    forall more, at: nat, st: PState | secret || st.pBit
      ensures ParseAll(EncodeAttr(a) + more, at, st, secret) ==
              ParseAll(more, at + |EncodeAttr(a)|, After(st, [a], secret), secret)
    {
      ParseHead(a, more, at, st, secret);
    }
  }

  /** Reading the encoding of a list of attributes adds exactly these attributes, each AT_RES cut. */
  lemma ParseEncoded(attrs: seq<Attr>, tail: bytes, at: nat, st: PState, secret: bool)
    requires AllEncodable(attrs, secret) && (secret || st.pBit)
    ensures ParseAll(EncodeSeq(attrs) + tail, at, st, secret) ==
            ParseAll(tail, at + |EncodeSeq(attrs)|, After(st, attrs, secret), secret)
  {
    hide ParseAll;
    hide EncodeAttr;
    forall i | 0 <= i < |attrs|
      ensures TakesBack(Parser(secret), EncodeAttr, attrs[i], secret)
    {
      EncodedTakesBack(attrs[i], secret);
    }
    ParseTakenBack(Parser(secret), EncodeAttr, attrs, tail, at, st, secret);
  }
}

/** Whole EAP-SIM/AKA messages. */
module SimAkaMessages {
  import opened Bytes
  import opened SimAka

  const AKA_CHALLENGE: byte := 1
  const AKA_AUTHENTICATION_REJECT: byte := 2
  const AKA_SYNCHRONIZATION_FAILURE: byte := 4
  const AKA_IDENTITY: byte := 5
  const SIM_START: byte := 10
  const SIM_CHALLENGE: byte := 11
  const NOTIFICATION: byte := 12
  const REAUTHENTICATION: byte := 13
  const CLIENT_ERROR: byte := 14

  const HEADER: nat := 8
  const OUT_BUF: nat := 1024
  const ENCR_BUF: nat := 512

  datatype Crypter = Crypter(blockSize: nat, encrypt: (bytes, bytes) -> Option<bytes>,
                             decrypt: (bytes, bytes) -> Option<bytes>)
  {
    /** A block cipher mode that keeps lengths and can be undone. */
    ghost predicate Lawful() {
      && 0 < blockSize <= 256 && blockSize % 4 == 0
      && forall p, iv :: encrypt(p, iv).Some? ==>
           |encrypt(p, iv).value| == |p| && decrypt(encrypt(p, iv).value, iv) == Some(p)
    }
  }

  datatype Signer = Signer(sign: bytes -> Option<bytes>) {
    /** MACs of 16 bytes. */
    ghost predicate Lawful() {
      forall d :: sign(d).Some? ==> |sign(d).value| == 16
    }
  }

  datatype Crypto = Crypto(crypter: Option<Crypter>, signer: Option<Signer>)

  // ---------------------------------------------------------------- printing

  /** An attribute with two reserved bytes, as the printer writes AT_IV, AT_ENCR_DATA and AT_MAC. */
  function Reserved2(kind: byte, data: bytes): bytes {
    [kind, (|data| / 4 + 1) % 256, 0, 0] + data
  }

  lemma PadUnits(used: nat, blockSize: nat)
    requires blockSize > 0 && blockSize % 4 == 0 && used % 4 == 0
    ensures var n := blockSize - used % blockSize;
            n % 4 == 0 && 4 <= n <= blockSize && (used + n) % blockSize == 0
  {
    RemainderFactor(used, blockSize, 4);
    NextMultiple(used, blockSize);
  }

  /** AT_PADDING that fills up the last block; a full block when there is nothing to fill. */
  function PaddingAttr(used: nat, blockSize: nat): (p: bytes)
    requires 0 < blockSize <= 256 && blockSize % 4 == 0 && used % 4 == 0
    ensures |p| == blockSize - used % blockSize && (used + |p|) % blockSize == 0
  {
    PadUnits(used, blockSize);
    var n := blockSize - used % blockSize;
    [AT_PADDING, n / 4] + Zeros(n - 2)
  }

  /** The encrypted attributes of a message: none, or an IV and a ciphertext. */
  datatype Sealing = Nothing | Sealed(iv: bytes, text: bytes) | Failed

  function Seal(secret: bytes, crypto: Crypto, iv: bytes): Sealing
    requires secret != [] ==> crypto.crypter.Some? && |secret| % 4 == 0 &&
                              0 < crypto.crypter.value.blockSize <= 256 && crypto.crypter.value.blockSize % 4 == 0
  {
    if secret == [] then Nothing
    else
      match crypto.crypter.value.encrypt(secret + PaddingAttr(|secret|, crypto.crypter.value.blockSize), iv)
      case None => Failed
      case Some(text) => Sealed(iv, text)
  }

  predicate NeedsMac(subtype: byte) {
    subtype == SIM_CHALLENGE || subtype == AKA_CHALLENGE || subtype == REAUTHENTICATION
  }

  function MacPart(subtype: byte, mac: bytes): bytes {
    if NeedsMac(subtype) then Reserved2(AT_MAC, mac) else []
  }

  /** The header with the length of the whole message filled in. */
  function Sized8(hdr: bytes, n: nat): (h: bytes)
    requires |hdr| == HEADER
    ensures |h| == HEADER
  {
    hdr[..2] + U16(n) + hdr[4..]
  }

  /** Everything after the clear attributes. */
  function Trailer(x: Sealing, subtype: byte, mac: bytes): bytes {
    match x
    case Sealed(iv, text) => Reserved2(AT_IV, iv) + (Reserved2(AT_ENCR_DATA, text) + MacPart(subtype, mac))
    case _ => MacPart(subtype, mac)
  }

  /** The message with the given MAC bytes in it. */
  function Assemble(hdr: bytes, clear: bytes, x: Sealing, mac: bytes): bytes
    requires |hdr| == HEADER
  {
    var body := clear + Trailer(x, hdr[5], mac);
    Sized8(hdr, HEADER + |body|) + body
  }

  /** Where the printer has a rule, the data has the length of its layout. */
  predicate Typed(a: Attr) {
    Ruled(a.kind) ==> Sized(LayoutOf(a.kind), |a.data|)
  }

  lemma LayoutAligned(layout: Layout, kind: byte, data: bytes)
    requires Sized(layout, |data|) && layout != Unruled
    ensures |EncodeAs(layout, kind, data)| % 4 == 0
  {
    hide CountField;
    var n := |data|;
    var padding := PadLen(n, 4);
    hide PadLen;
    assert layout == Counted ==> |EncodeAs(layout, kind, data)| == 4 + (n + padding);
  }

  lemma EncodingAligned(a: Attr)
    requires Typed(a)
    ensures |EncodeAttr(a)| % 4 == 0
  {
    if Ruled(a.kind) {
      LayoutAligned(LayoutOf(a.kind), a.kind, a.data);
    }
  }

  lemma Unprinted(a: Attr)
    ensures !Ruled(a.kind) ==> EncodeAttr(a) == []
  {
  }

  /** One more attribute goes to exactly one of the two buffers. */
  lemma SelectSnoc(attrs: seq<Attr>, a: Attr, secret: bool)
    ensures EncodeSeq(Select(attrs + [a], secret)) ==
            EncodeSeq(Select(attrs, secret)) + if Secret(a) == secret then EncodeAttr(a) else []
  {
    hide EncodeAttr;
    hide Secret;
    assert (attrs + [a])[..|attrs|] == attrs;
    if Ruled(a.kind) && Secret(a) == secret {
      ConcatMapConcat(EncodeAttr, Select(attrs, secret), [a]);
      assert ConcatMap(EncodeAttr, [a]) == ConcatMap(EncodeAttr, []) + EncodeAttr(a);
    } else {
      Unprinted(a);
      assert Select(attrs, secret) + [] == Select(attrs, secret);
      assert EncodeSeq(Select(attrs, secret)) + [] == EncodeSeq(Select(attrs, secret));
    }
  }

  lemma AlignedSnoc(attrs: seq<Attr>, a: Attr, secret: bool)
    requires |EncodeSeq(Select(attrs, secret))| % 4 == 0 && Typed(a)
    ensures |EncodeSeq(Select(attrs + [a], secret))| % 4 == 0
  {
    hide EncodeAttr;
    hide Secret;
    hide Typed;
    hide Select;
    hide EncodeSeq;
    EncodingAligned(a);
    SelectSnoc(attrs, a, secret);
    SumAligned(|EncodeSeq(Select(attrs, secret))|, if Secret(a) == secret then |EncodeAttr(a)| else 0);
  }

  lemma {:induction false} SecretAligned(attrs: seq<Attr>, secret: bool)
    requires forall i :: 0 <= i < |attrs| ==> Typed(attrs[i])
    ensures |EncodeSeq(Select(attrs, secret))| % 4 == 0
  {
    hide EncodeAttr;
    hide Secret;
    hide Typed;
    if attrs != [] {
      hide Select;
      hide EncodeSeq;
      var init, last := attrs[..|attrs| - 1], attrs[|attrs| - 1];
      assert init + [last] == attrs;
      SecretAligned(init, secret);
      AlignedSnoc(init, last, secret);
    }
  }

  /** The size of the encrypted attributes with their padding. */
  function Padded(n: nat, crypto: Crypto): nat {
    if n == 0 || crypto.crypter.None? || crypto.crypter.value.blockSize == 0 then 0
    else n - n % crypto.crypter.value.blockSize + crypto.crypter.value.blockSize
  }

  function TrailerSize(n: nat, subtype: byte, crypto: Crypto): nat {
    (if n == 0 then 0 else 24 + Padded(n, crypto)) + if NeedsMac(subtype) then 20 else 0
  }

  /** What callers must provide: data of the right lengths, the keys a message of this kind needs,
      and no more than the buffers hold. */
  ghost predicate Ready(hdr: bytes, attrs: seq<Attr>, crypto: Crypto, iv: bytes) {
    var secret := EncodeSeq(Select(attrs, true));
    && |hdr| == HEADER && (forall i :: 0 <= i < |attrs| ==> Typed(attrs[i]))
    && (secret != [] ==> crypto.crypter.Some? && crypto.crypter.value.Lawful() && |iv| == 16)
    && (NeedsMac(hdr[5]) ==> crypto.signer.Some? && crypto.signer.value.Lawful())
    && Padded(|secret|, crypto) <= ENCR_BUF
    && HEADER + |EncodeSeq(Select(attrs, false))| + TrailerSize(|secret|, hdr[5], crypto) <= OUT_BUF
  }

  ghost function Generated(hdr: bytes, attrs: seq<Attr>, crypto: Crypto, iv: bytes, sigdata: bytes): Option<bytes>
    requires Ready(hdr, attrs, crypto, iv)
  {
    var clear := EncodeSeq(Select(attrs, false));
    SecretAligned(attrs, true);
    var x := Seal(EncodeSeq(Select(attrs, true)), crypto, iv);
    if x == Failed then None
    else if !NeedsMac(hdr[5]) then Some(Assemble(hdr, clear, x, []))
    else
      match crypto.signer.value.sign(Assemble(hdr, clear, x, Zeros(16)) + sigdata)
      case None => None
      case Some(mac) => Some(Assemble(hdr, clear, x, mac))
  }

  // ---------------------------------------------------------------- parsing

  function Start(): PState {
    PState([], true, NoMac, [], [])
  }

  function Decrypted(st: PState, crypto: Crypto): Outcome
    requires crypto.crypter.Some? ==> crypto.crypter.value.blockSize > 0
  {
    if crypto.crypter.None? || st.iv == [] || st.encr == [] then Done(st)
    else if |st.encr| % crypto.crypter.value.blockSize != 0 then Refused
    else
      match crypto.crypter.value.decrypt(st.encr, st.iv)
      case None => Refused
      case Some(plain) => ParseAll(plain, 0, st, true)
  }

  /** The first call of `parse` on a received message. */
  function ParseMessage(msg: bytes, crypto: Crypto): Outcome
    requires crypto.crypter.Some? ==> crypto.crypter.value.blockSize > 0
  {
    match ParseAll(Skip(msg, HEADER), HEADER, Start(), false)
    case Done(st) => Decrypted(st, crypto)
    case other => other
  }

  // ---------------------------------------------------------------- verifying

  datatype MacRule = Ignore | Require | Unknown

  /** Messages that are never protected. */
  predicate MacFree(subtype: byte) {
    || subtype == SIM_START || subtype == CLIENT_ERROR || subtype == AKA_AUTHENTICATION_REJECT
    || subtype == AKA_SYNCHRONIZATION_FAILURE || subtype == AKA_IDENTITY
  }

  function RuleOf(subtype: byte, pBit: bool): MacRule {
    if MacFree(subtype) then Ignore
    else if NeedsMac(subtype) then Require
    else if subtype == NOTIFICATION then if pBit then Ignore else Require
    else Unknown
  }

  /** The message with its MAC bytes zeroed. */
  function ZeroMac(msg: bytes, at: nat): bytes
    requires at + 16 <= |msg|
  {
    msg[..at] + Zeros(16) + msg[at + 16..]
  }

  /** Whether the message is accepted. */
  function Verified(msg: bytes, st: PState, crypto: Crypto, sigdata: bytes): bool
    requires |msg| >= HEADER
    requires st.mac.InMessage? ==> st.mac.at + 16 <= |msg|
  {
    match RuleOf(msg[5], st.pBit)
    case Ignore => true
    case Unknown => false
    case Require =>
      && st.mac.InMessage? && crypto.signer.Some?
      && crypto.signer.value.sign(ZeroMac(msg, st.mac.at) + sigdata) == Some(msg[st.mac.at..st.mac.at + 16])
  }

  // ---------------------------------------------------------------- round trip

  /** The attributes the printer adds by itself. */
  predicate Special(kind: byte, data: bytes) {
    if kind == AT_IV || kind == AT_MAC then |data| == 16
    else kind == AT_ENCR_DATA && |data| % 4 == 0 && |data| <= 1016
  }

  lemma Reserved2Layout(kind: byte, data: bytes, at: nat, st: PState)
    requires Special(kind, data)
    ensures Reserved2(kind, data) == EncodeAs(LayoutOf(kind), kind, data)
    ensures |Reserved2(kind, data)| == 4 + |data|
    ensures LayoutOf(kind) != Unruled && Sized(LayoutOf(kind), |data|) && !SecretOnly(kind)
    ensures Note(st, Attr(kind, data), at, false).Some?
  {
  }

  lemma ParseReserved2(kind: byte, data: bytes, more: bytes, at: nat, st: PState)
    requires Special(kind, data)
    ensures ParseAll(Reserved2(kind, data) + more, at, st, false) ==
            ParseAll(more, at + 4 + |data|, Note(st, Attr(kind, data), at, false).value, false)
  {
    Reserved2Layout(kind, data, at, st);
    hide Special;
    hide Note;
    hide Sized;
    hide SecretOnly;
    hide EncodeAs;
    hide ParseAs;
    hide LayoutOf;
    hide Reserved2;
    hide ParseAll;
    LayoutRoundTrips(LayoutOf(kind), kind, data, more);
    ParseStep(Reserved2(kind, data), more, Attr(kind, data), at, st, false);
  }

  lemma ParsePadding(used: nat, blockSize: nat, at: nat, st: PState)
    requires 0 < blockSize <= 256 && blockSize % 4 == 0 && used % 4 == 0
    ensures ParseAll(PaddingAttr(used, blockSize), at, st, true) == Done(st)
  {
    var p := PaddingAttr(used, blockSize);
    PadUnits(used, blockSize);
    var n := blockSize - used % blockSize;
    assert p[0] == AT_PADDING && p[1] as int * 4 == n == |p|;
    assert p[n..] == [];
  }

  lemma ParseMac(subtype: byte, mac: bytes, at: nat, st: PState)
    requires NeedsMac(subtype) ==> |mac| == 16
    requires st.mac == NoMac
    ensures ParseAll(MacPart(subtype, mac), at, st, false) ==
            Done(st.(mac := if NeedsMac(subtype) then InMessage(at + 4) else NoMac))
  {
    if NeedsMac(subtype) {
      assert Reserved2(AT_MAC, mac) + [] == Reserved2(AT_MAC, mac);
      ParseReserved2(AT_MAC, mac, [], at, st);
    }
  }

  ghost predicate Whole(x: Sealing) {
    x != Failed && (x.Sealed? ==> |x.iv| == 16 && |x.text| % 4 == 0 && |x.text| <= 1016)
  }

  /** The parser state after the trailer. */
  function Trailed(st: PState, x: Sealing, subtype: byte, at: nat): PState {
    var mac := if NeedsMac(subtype) then InMessage(at + (if x.Sealed? then 28 + |x.text| else 4)) else NoMac;
    if x.Sealed? then st.(mac := mac, iv := x.iv, encr := x.text) else st.(mac := mac)
  }

  lemma ParseText(text: bytes, subtype: byte, mac: bytes, at: nat, st: PState)
    requires |text| % 4 == 0 && |text| <= 1016 && (NeedsMac(subtype) ==> |mac| == 16) && st.mac == NoMac
    ensures ParseAll(Reserved2(AT_ENCR_DATA, text) + MacPart(subtype, mac), at, st, false) ==
            Done(st.(mac := if NeedsMac(subtype) then InMessage(at + 8 + |text|) else NoMac, encr := text))
  {
    ParseReserved2(AT_ENCR_DATA, text, MacPart(subtype, mac), at, st);
    ParseMac(subtype, mac, at + 4 + |text|, st.(encr := text));
  }

  lemma ParseIvThen(iv: bytes, rest: bytes, at: nat, st: PState, result: Outcome)
    requires |iv| == 16 && ParseAll(rest, at + 20, st.(iv := iv), false) == result
    ensures ParseAll(Reserved2(AT_IV, iv) + rest, at, st, false) == result
  {
    ParseReserved2(AT_IV, iv, rest, at, st);
  }

  lemma ParseSealed(iv: bytes, text: bytes, subtype: byte, mac: bytes, at: nat, st: PState)
    requires |iv| == 16 && |text| % 4 == 0 && |text| <= 1016 && (NeedsMac(subtype) ==> |mac| == 16)
    requires st.mac == NoMac
    ensures ParseAll(Trailer(Sealed(iv, text), subtype, mac), at, st, false) ==
            Done(Trailed(st, Sealed(iv, text), subtype, at))
  {
    hide ParseAll;
    ParseText(text, subtype, mac, at + 20, st.(iv := iv));
    ParseIvThen(iv, Reserved2(AT_ENCR_DATA, text) + MacPart(subtype, mac), at, st,
                Done(Trailed(st, Sealed(iv, text), subtype, at)));
  }

  lemma ParseTrailer(x: Sealing, subtype: byte, mac: bytes, at: nat, st: PState)
    requires Whole(x) && (NeedsMac(subtype) ==> |mac| == 16)
    requires st.mac == NoMac
    ensures ParseAll(Trailer(x, subtype, mac), at, st, false) == Done(Trailed(st, x, subtype, at))
  {
    match x
    case Nothing => ParseMac(subtype, mac, at, st);
    case Sealed(iv, text) => ParseSealed(iv, text, subtype, mac, at, st);
  }

  /** What the clear part of a message parses to. */
  lemma ParseClear(clear: seq<Attr>, x: Sealing, subtype: byte, mac: bytes)
    requires AllEncodable(clear, false) && Whole(x) && (NeedsMac(subtype) ==> |mac| == 16)
    ensures ParseAll(EncodeSeq(clear) + Trailer(x, subtype, mac), HEADER, Start(), false) ==
            Done(Trailed(PState(Cuts(clear), true, NoMac, [], []), x, subtype, HEADER + |EncodeSeq(clear)|))
  {
    hide ParseAll;
    hide Encodable;
    hide Trailer;
    var st := PState(Cuts(clear), true, NoMac, [], []);
    assert [] + Cuts(clear) == Cuts(clear);
    assert After(Start(), clear, false) == st;
    ParseEncoded(clear, Trailer(x, subtype, mac), HEADER, Start(), false);
    hide After;
    hide Cuts;
    hide EncodeSeq;
    hide AllEncodable;
    ParseTrailer(x, subtype, mac, HEADER + |EncodeSeq(clear)|, st);
  }

  lemma {:induction false} SelectEncodable(attrs: seq<Attr>, secret: bool)
    requires forall i :: 0 <= i < |attrs| ==> Typed(attrs[i])
    ensures AllEncodable(Select(attrs, secret), secret)
  {
    if attrs != [] {
      SelectEncodable(attrs[..|attrs| - 1], secret);
    }
  }

  /** The decrypted part parses to the secret attributes. */
  lemma ParseSecret(secret: seq<Attr>, blockSize: nat, st: PState)
    requires AllEncodable(secret, true) && 0 < blockSize <= 256 && blockSize % 4 == 0 && |EncodeSeq(secret)| % 4 == 0
    ensures ParseAll(EncodeSeq(secret) + PaddingAttr(|EncodeSeq(secret)|, blockSize), 0, st, true) ==
            Done(After(st, secret, true))
  {
    hide ParseAll;
    var used := |EncodeSeq(secret)|;
    ParseEncoded(secret, PaddingAttr(used, blockSize), 0, st, true);
    ParsePadding(used, blockSize, used, After(st, secret, true));
  }

  /** What the peer makes of a message. */
  ghost function Peer(attrs: seq<Attr>, x: Sealing, subtype: byte): PState {
    var at := HEADER + |EncodeSeq(Select(attrs, false))|;
    After(Trailed(PState(Cuts(Select(attrs, false)), true, NoMac, [], []), x, subtype, at), Select(attrs, true), true)
  }

  lemma PeerFields(attrs: seq<Attr>, x: Sealing, subtype: byte)
    ensures var st := Peer(attrs, x, subtype);
            && st.attrs == Cuts(Select(attrs, false) + Select(attrs, true))
            && (st.pBit <==> !HasNotification(Select(attrs, true)))
            && (st.mac == if NeedsMac(subtype)
                          then InMessage(HEADER + |EncodeSeq(Select(attrs, false))| + if x.Sealed? then 28 + |x.text| else 4)
                          else NoMac)
  {
    hide Cut;
    CutsConcat(Select(attrs, false), Select(attrs, true));
    hide Cuts;
    hide Select;
  }

  lemma PaddingFills(secret: bytes, blockSize: nat)
    requires 0 < blockSize <= 256 && blockSize % 4 == 0 && |secret| % 4 == 0
    ensures var n := |secret + PaddingAttr(|secret|, blockSize)|;
            n == |secret| - |secret| % blockSize + blockSize && n % 4 == 0 && n % blockSize == 0
  {
    PadUnits(|secret|, blockSize);
    SumAligned(|secret|, blockSize - |secret| % blockSize);
    assert |secret + PaddingAttr(|secret|, blockSize)| == |secret| + |PaddingAttr(|secret|, blockSize)|;
    hide PaddingAttr;
  }

  lemma SealIsWhole(secret: bytes, crypto: Crypto, iv: bytes)
    requires |secret| % 4 == 0 && Padded(|secret|, crypto) <= ENCR_BUF
    requires secret != [] ==> crypto.crypter.Some? && crypto.crypter.value.Lawful() && |iv| == 16
    ensures var x := Seal(secret, crypto, iv);
            x != Failed ==> Whole(x) && (x.Sealed? <==> secret != []) && (x.Sealed? ==> |x.text| == Padded(|secret|, crypto))
  {
    if secret != [] {
      var bs := crypto.crypter.value.blockSize;
      PadUnits(|secret|, bs);
      PaddingFills(secret, bs);
      hide PaddingAttr;
    }
  }

  lemma AfterNothing(st: PState)
    ensures After(st, [], true) == st
  {
    assert st.attrs + Cuts([]) == st.attrs;
  }

  lemma SomethingEncoded(attrs: seq<Attr>)
    requires AllEncodable(attrs, true) && attrs != []
    ensures EncodeSeq(attrs) != []
  {
    AttrRoundTrips(attrs[0], [], true);
    hide EncodeAttr;
    ConcatMapCons(EncodeAttr, attrs, []);
  }

  /** Decryption gives back what was sealed. */
  lemma DecryptSealed(attrs: seq<Attr>, crypto: Crypto, iv: bytes, st: PState)
    requires AllEncodable(attrs, true) && |EncodeSeq(attrs)| % 4 == 0
    requires EncodeSeq(attrs) != [] ==> crypto.crypter.Some? && crypto.crypter.value.Lawful() && |iv| == 16
    requires crypto.crypter.Some? ==> crypto.crypter.value.blockSize > 0
    requires var x := Seal(EncodeSeq(attrs), crypto, iv);
             && x != Failed && (x.Sealed? ==> st.iv == iv && st.encr == x.text) && (x == Nothing ==> st.iv == [])
    ensures Decrypted(st, crypto) == Done(After(st, attrs, true))
  {
    hide ParseAll;
    hide Encodable;
    hide EncodeAttr;
    hide PaddingAttr;
    hide After;
    if attrs == [] {
      AfterNothing(st);
    } else {
      SomethingEncoded(attrs);
      ParseSecret(attrs, crypto.crypter.value.blockSize, st);
    }
  }

  /** A trailer with a MAC, up to the MAC itself. */
  ghost function TrailerFront(x: Sealing): bytes {
    var macHead := [AT_MAC, 5, 0, 0];
    match x
    case Sealed(iv, text) => Reserved2(AT_IV, iv) + (Reserved2(AT_ENCR_DATA, text) + macHead)
    case _ => macHead
  }

  lemma TrailerSplits(x: Sealing, subtype: byte, mac: bytes)
    requires NeedsMac(subtype) && |mac| == 16
    ensures Trailer(x, subtype, mac) == TrailerFront(x) + mac
  {
    hide NeedsMac;
    var macHead := [AT_MAC, 5, 0, 0];
    assert MacPart(subtype, mac) == macHead + mac;
    hide MacPart;
    hide Reserved2;
    if x.Sealed? {
      var iv, text := Reserved2(AT_IV, x.iv), Reserved2(AT_ENCR_DATA, x.text);
      Assoc(text, macHead, mac);
      Assoc(iv, text + macHead, mac);
    }
  }

  lemma TailSwapped(front: bytes, a: bytes, b: bytes)
    ensures (front + a)[..|front|] + b == front + b
  {
  }

  lemma TrailerMac(x: Sealing, subtype: byte, mac: bytes)
    requires Whole(x) && NeedsMac(subtype) && |mac| == 16
    ensures var t := Trailer(x, subtype, mac);
            |t| == (if x.Sealed? then 24 + |x.text| else 0) + 20 &&
            t == Trailer(x, subtype, Zeros(16))[..|t| - 16] + mac
  {
    assert |TrailerFront(x)| == (if x.Sealed? then 24 + |x.text| else 0) + 4;
    TrailerSplits(x, subtype, mac);
    TrailerSplits(x, subtype, Zeros(16));
    hide TrailerFront;
    hide Trailer;
    hide Zeros;
    TailSwapped(TrailerFront(x), Zeros(16), mac);
  }

  lemma SwapTail(front: bytes, t: bytes, t0: bytes, mac: bytes)
    requires |t| == |t0| >= 16 && |mac| == 16
    requires t == t0[..|t| - 16] + mac && t0 == t0[..|t| - 16] + Zeros(16)
    ensures var msg := front + t;
            msg[|msg| - 16..] == mac && ZeroMac(msg, |msg| - 16) == front + t0
  {
    var msg := front + t;
    assert msg[..|msg| - 16] == front + t0[..|t| - 16];
    assert msg[|msg| - 16..] == mac;
    assert front + t0 == front + t0[..|t| - 16] + Zeros(16);
  }

  /** The MAC is the end of the message, and zeroing it gives the message that was signed. */
  lemma AssembledMac(hdr: bytes, clear: bytes, x: Sealing, mac: bytes)
    requires |hdr| == HEADER && Whole(x) && NeedsMac(hdr[5]) && |mac| == 16
    ensures var msg := Assemble(hdr, clear, x, mac);
            && |msg| >= 16 && msg[|msg| - 16..] == mac
            && ZeroMac(msg, |msg| - 16) == Assemble(hdr, clear, x, Zeros(16))
  {
    hide Trailer;
    hide Sized8;
    hide ZeroMac;
    hide Zeros;
    hide Whole;
    hide NeedsMac;
    var t, t0 := Trailer(x, hdr[5], mac), Trailer(x, hdr[5], Zeros(16));
    TrailerMac(x, hdr[5], mac);
    TrailerMac(x, hdr[5], Zeros(16));
    var h := Sized8(hdr, HEADER + |clear + t|);
    assert Assemble(hdr, clear, x, mac) == h + (clear + t) && Assemble(hdr, clear, x, Zeros(16)) == h + (clear + t0);
    hide Assemble;
    Assoc(h, clear, t);
    Assoc(h, clear, t0);
    SwapTail(h + clear, t, t0, mac);
  }

  lemma AssembledShape(hdr: bytes, clear: bytes, x: Sealing, mac: bytes)
    requires |hdr| == HEADER
    ensures var msg := Assemble(hdr, clear, x, mac);
            && |msg| == HEADER + |clear| + |Trailer(x, hdr[5], mac)|
            && msg[5] == hdr[5] && Skip(msg, HEADER) == clear + Trailer(x, hdr[5], mac)
            && (|msg| < 0x1_0000 ==> ReadU16(msg[2..]) == |msg|)
  {
    hide Trailer;
  }

  /** What a message that carries these attributes parses to. */
  lemma ParseAssembled(hdr: bytes, attrs: seq<Attr>, crypto: Crypto, iv: bytes, mac: bytes)
    requires Ready(hdr, attrs, crypto, iv) && (crypto.crypter.Some? ==> crypto.crypter.value.blockSize > 0)
    requires NeedsMac(hdr[5]) ==> |mac| == 16
    requires |EncodeSeq(Select(attrs, true))| % 4 == 0
    requires Seal(EncodeSeq(Select(attrs, true)), crypto, iv) != Failed
    ensures var x := Seal(EncodeSeq(Select(attrs, true)), crypto, iv);
            ParseMessage(Assemble(hdr, EncodeSeq(Select(attrs, false)), x, mac), crypto) == Done(Peer(attrs, x, hdr[5]))
  {
    hide ParseAll;
    hide Encodable;
    hide Typed;
    var clear, secret := Select(attrs, false), Select(attrs, true);
    SelectEncodable(attrs, true);
    SelectEncodable(attrs, false);
    var x := Seal(EncodeSeq(secret), crypto, iv);
    SealIsWhole(EncodeSeq(secret), crypto, iv);
    AssembledShape(hdr, EncodeSeq(clear), x, mac);
    ParseClear(clear, x, hdr[5], mac);
    var st := Trailed(PState(Cuts(clear), true, NoMac, [], []), x, hdr[5], HEADER + |EncodeSeq(clear)|);
    DecryptSealed(secret, crypto, iv, st);
  }

  /** Every message the printer produces is assembled from a sealing and, where needed, a MAC over
      the message with zeroes in its place. */
  lemma GeneratedIs(hdr: bytes, attrs: seq<Attr>, crypto: Crypto, iv: bytes, sigdata: bytes) returns (x: Sealing, mac: bytes)
    requires Ready(hdr, attrs, crypto, iv) && Generated(hdr, attrs, crypto, iv, sigdata).Some?
    ensures |EncodeSeq(Select(attrs, true))| % 4 == 0
    ensures x == Seal(EncodeSeq(Select(attrs, true)), crypto, iv) && Whole(x)
    ensures var clear := EncodeSeq(Select(attrs, false));
            && Generated(hdr, attrs, crypto, iv, sigdata).value == Assemble(hdr, clear, x, mac)
            && HEADER + |clear| + |Trailer(x, hdr[5], mac)| <= OUT_BUF
            && (NeedsMac(hdr[5]) ==>
                  |mac| == 16 && crypto.signer.value.sign(Assemble(hdr, clear, x, Zeros(16)) + sigdata) == Some(mac))
  {
    hide EncodeSeq;
    hide Assemble;
    SecretAligned(attrs, true);
    var clear, secret := EncodeSeq(Select(attrs, false)), EncodeSeq(Select(attrs, true));
    x := Seal(secret, crypto, iv);
    SealIsWhole(secret, crypto, iv);
    hide Seal;
    mac := if NeedsMac(hdr[5]) then crypto.signer.value.sign(Assemble(hdr, clear, x, Zeros(16)) + sigdata).value else [];
  }

  lemma ReadySigner(hdr: bytes, attrs: seq<Attr>, crypto: Crypto, iv: bytes)
    requires Ready(hdr, attrs, crypto, iv)
    ensures |hdr| == HEADER && (NeedsMac(hdr[5]) ==> crypto.signer.Some?)
  {
  }

  /** Parsing a message the printer produced yields the clear attributes in order, then the encrypted
      ones in order: all that the printer has a rule for, unchanged but for the cut of AT_RES. */
  lemma ParseGenerated(hdr: bytes, attrs: seq<Attr>, crypto: Crypto, iv: bytes, sigdata: bytes)
    requires Ready(hdr, attrs, crypto, iv) && (crypto.crypter.Some? ==> crypto.crypter.value.blockSize > 0)
    ensures match Generated(hdr, attrs, crypto, iv, sigdata)
            case None => true
            case Some(msg) =>
              var parsed := ParseMessage(msg, crypto);
              && parsed.Done?
              && parsed.st.attrs == Cuts(Select(attrs, false) + Select(attrs, true))
              && (parsed.st.pBit <==> !HasNotification(Select(attrs, true)))
              && (parsed.st.mac == if NeedsMac(hdr[5]) then InMessage(|msg| - 16) else NoMac)
              && |msg| <= OUT_BUF && msg[5] == hdr[5] && ReadU16(msg[2..]) == |msg|
  {
    hide ParseMessage;
    hide Ready;
    hide Generated;
    hide Seal;
    hide Peer;
    hide Encodable;
    if Generated(hdr, attrs, crypto, iv, sigdata).Some? {
      ReadySigner(hdr, attrs, crypto, iv);
      var x, mac := GeneratedIs(hdr, attrs, crypto, iv, sigdata);
      var clear := EncodeSeq(Select(attrs, false));
      AssembledShape(hdr, clear, x, mac);
      if NeedsMac(hdr[5]) {
        TrailerMac(x, hdr[5], mac);
      }
      ParseAssembled(hdr, attrs, crypto, iv, mac);
      PeerFields(attrs, x, hdr[5]);
      hide Assemble;
      hide Trailer;
    }
  }

  lemma Verdict(msg: bytes, st: PState, crypto: Crypto, sigdata: bytes)
    requires |msg| >= HEADER && (NeedsMac(msg[5]) ==> |msg| >= 16)
    requires st.mac == if NeedsMac(msg[5]) then InMessage(|msg| - 16) else NoMac
    requires NeedsMac(msg[5]) ==>
               crypto.signer.Some? &&
               crypto.signer.value.sign(ZeroMac(msg, |msg| - 16) + sigdata) == Some(msg[|msg| - 16..])
    ensures Verified(msg, st, crypto, sigdata) <==>
              NeedsMac(msg[5]) || MacFree(msg[5]) || (msg[5] == NOTIFICATION && st.pBit)
  {
    if NeedsMac(msg[5]) {
      assert msg[|msg| - 16..|msg| - 16 + 16] == msg[|msg| - 16..];
    }
    hide ZeroMac;
  }

  /** A generated message is accepted by a peer with the same keys exactly when it is of a kind that
      carries a MAC, or of a kind that needs none: a notification with an encrypted (phase 0)
      notification code needs a MAC that the printer does not write. */
  lemma VerifyGenerated(hdr: bytes, attrs: seq<Attr>, crypto: Crypto, iv: bytes, sigdata: bytes)
    requires Ready(hdr, attrs, crypto, iv) && (crypto.crypter.Some? ==> crypto.crypter.value.blockSize > 0)
    ensures match Generated(hdr, attrs, crypto, iv, sigdata)
            case None => true
            case Some(msg) =>
              var parsed := ParseMessage(msg, crypto);
              && |msg| >= HEADER && parsed.Done?
              && (parsed.st.mac.InMessage? ==> parsed.st.mac.at + 16 <= |msg|)
              && (Verified(msg, parsed.st, crypto, sigdata) <==>
                    || hdr[5] in {1, 11, 13} || hdr[5] in {2, 4, 5, 10, 14}
                    || (hdr[5] == 12 && !HasNotification(Select(attrs, true))))
  {
    hide ParseMessage;
    hide Assemble;
    hide Seal;
    hide Trailer;
    hide ZeroMac;
    hide Encodable;
    hide Generated;
    hide Verified;
    hide Ready;
    hide EncodeSeq;
    hide HasNotification;
    hide ReadU16;
    hide Whole;
    if Generated(hdr, attrs, crypto, iv, sigdata).Some? {
      var msg := Generated(hdr, attrs, crypto, iv, sigdata).value;
      ReadySigner(hdr, attrs, crypto, iv);
      var x, mac := GeneratedIs(hdr, attrs, crypto, iv, sigdata);
      ParseGenerated(hdr, attrs, crypto, iv, sigdata);
      var clear := EncodeSeq(Select(attrs, false));
      AssembledShape(hdr, clear, x, mac);
      if NeedsMac(hdr[5]) {
        AssembledMac(hdr, clear, x, mac);
      }
      Verdict(msg, ParseMessage(msg, crypto).st, crypto, sigdata);
    }
  }

  // ---------------------------------------------------------------- when the promises fail

  /** The lengths that survive. */
  predicate Survives(a: Attr) {
    a.kind == AT_RES ==> |a.data| % 256 < 32
  }

  lemma CutsExactly(attrs: seq<Attr>)
    ensures Cuts(attrs) == attrs <==> forall a :: a in attrs ==> Survives(a)
  {
    forall i | 0 <= i < |attrs|
      ensures Cuts(attrs)[i] == attrs[i] <==> Survives(attrs[i])
    {
      CutExactly(attrs[i]);
    }
    hide Cut;
    if Cuts(attrs) == attrs {
      forall a | a in attrs
        ensures Survives(a)
      {
        var i :| 0 <= i < |attrs| && attrs[i] == a;
        assert Cuts(attrs)[i] == attrs[i];
      }
    }
  }

  lemma {:induction false} Selected(attrs: seq<Attr>, secret: bool, a: Attr)
    ensures a in Select(attrs, secret) <==> a in attrs && Ruled(a.kind) && Secret(a) == secret
  {
    hide Ruled;
    hide Secret;
    if attrs != [] {
      Selected(attrs[..|attrs| - 1], secret, a);
      assert attrs == attrs[..|attrs| - 1] + [attrs[|attrs| - 1]];
    }
  }

  /** What comes back of a message is what was put in, exactly when every AT_RES survives. */
  lemma UnchangedExactly(attrs: seq<Attr>)
    ensures var printed := Select(attrs, false) + Select(attrs, true);
            Cuts(printed) == printed <==> forall a :: a in attrs ==> Survives(a)
  {
    var printed := Select(attrs, false) + Select(attrs, true);
    CutsExactly(printed);
    forall a
      ensures a in printed <==> a in attrs && Ruled(a.kind)
    {
      Selected(attrs, false, a);
      Selected(attrs, true, a);
    }
    assert Ruled(AT_RES);
    hide Select;
    hide Cuts;
    hide Ruled;
  }

  /** A cipher that keeps its text, and no MAC key: enough to print a notification. */
  function PlainCrypto(): Crypto {
    Crypto(Some(Crypter(16, (p, iv) => Some(p), (c, iv) => Some(c))), None)
  }

  lemma OneSelected(a: Attr, secret: bool)
    requires Ruled(a.kind)
    ensures Select([a], secret) == if Secret(a) == secret then [a] else []
    ensures EncodeSeq(Select([a], secret)) == if Secret(a) == secret then EncodeAttr(a) else []
  {
    hide EncodeAttr;
    hide Secret;
    hide Ruled;
    assert [a][..0] == [];
    assert Select([a], secret) == Select([], secret) + if Secret(a) == secret then [a] else [];
    if Secret(a) == secret {
      assert ConcatMap(EncodeAttr, [a]) == ConcatMap(EncodeAttr, []) + EncodeAttr(a);
    }
  }

  function NoticeHeader(): bytes {
    [1, 0, 0, 8, 18, NOTIFICATION, 0, 0]
  }

  function Notice(): Attr {
    Attr(AT_NOTIFICATION, [0, 0])
  }

  lemma NoticeEncoded()
    ensures Ruled(AT_NOTIFICATION) && Secret(Notice()) && EncodeAttr(Notice()) == [AT_NOTIFICATION, 1, 0, 0]
  {
    assert LayoutOf(AT_NOTIFICATION) == TwoBytes;
    assert EncodeAs(TwoBytes, AT_NOTIFICATION, [0, 0]) == [AT_NOTIFICATION, 1] + [0, 0];
  }

  lemma NoticeSelected()
    ensures Select([Notice()], true) == [Notice()] && Select([Notice()], false) == []
    ensures EncodeSeq(Select([Notice()], true)) == [AT_NOTIFICATION, 1, 0, 0] && EncodeSeq(Select([Notice()], false)) == []
  {
    hide Select;
    hide EncodeSeq;
    NoticeEncoded();
    hide EncodeAttr;
    OneSelected(Notice(), true);
    OneSelected(Notice(), false);
  }

  lemma NoticeReady()
    ensures Ready(NoticeHeader(), [Notice()], PlainCrypto(), Zeros(16))
  {
    NoticeSelected();
    hide Select;
    hide EncodeSeq;
    assert PlainCrypto().crypter.value.Lawful();
    assert Padded(4, PlainCrypto()) == 16;
  }

  lemma NoticePrinted(sigdata: bytes)
    requires Ready(NoticeHeader(), [Notice()], PlainCrypto(), Zeros(16))
    ensures Generated(NoticeHeader(), [Notice()], PlainCrypto(), Zeros(16), sigdata).Some?
  {
    SecretAligned([Notice()], true);
    hide Select;
    hide EncodeSeq;
    hide Assemble;
    hide PaddingAttr;
  }

  /** A notification whose code goes encrypted is printed, and then refused. */
  lemma SecretNotificationIsRefused(sigdata: bytes)
    ensures Ready(NoticeHeader(), [Notice()], PlainCrypto(), Zeros(16))
    ensures var msg := Generated(NoticeHeader(), [Notice()], PlainCrypto(), Zeros(16), sigdata);
            && msg.Some? && |msg.value| >= HEADER
            && var parsed := ParseMessage(msg.value, PlainCrypto());
               parsed.Done? && parsed.st.mac == NoMac && !Verified(msg.value, parsed.st, PlainCrypto(), sigdata)
  {
    NoticeReady();
    hide Ready;
    NoticePrinted(sigdata);
    hide Generated;
    NoticeSelected();
    assert [Notice()][0] == Notice() && HasNotification([Notice()]);
    hide HasNotification;
    hide Select;
    hide EncodeSeq;
    hide ParseMessage;
    hide Verified;
    hide Cuts;
    ParseGenerated(NoticeHeader(), [Notice()], PlainCrypto(), Zeros(16), sigdata);
    VerifyGenerated(NoticeHeader(), [Notice()], PlainCrypto(), Zeros(16), sigdata);
  }
}
