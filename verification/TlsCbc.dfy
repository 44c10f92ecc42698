/** TLS 1.0 record protection: MAC, padding and CBC with an implicit IV that chains from record to
    record (section 6.2.3.2 of RFC 2246). */
module TlsCbc {
  import opened Bytes
  import opened ExclusiveOr

  // ---------------------------------------------------------------- cipher block chaining

  /** A block cipher. */
  datatype Cipher = Cipher(size: nat, encipher: bytes -> bytes, decipher: bytes -> bytes) {
    ghost predicate Lawful() {
      && 0 < size < 256
      && (forall b :: |b| == size ==> |encipher(b)| == size)
      && (forall b :: |b| == size ==> |decipher(b)| == size)
      && (forall b :: |b| == size ==> decipher(encipher(b)) == b)
    }
  }

  /** A number of whole blocks. */
  predicate Aligned(n: nat, size: nat) {
    size > 0 && n % size == 0
  }

  lemma NoBlocks(size: nat)
    requires size > 0
    ensures Aligned(0, size)
  {
  }

  lemma DropBlock(n: nat, size: nat)
    requires Aligned(n, size) && n > 0
    ensures n >= size && Aligned(n - size, size)
  {
    AddMultipleMod(n, -1, size);
    assert n == n / size * size && n / size >= 1;
  }

  lemma SumOfBlocks(m: nat, n: nat, size: nat)
    requires Aligned(m, size) && Aligned(n, size)
    ensures Aligned(m + n, size)
  {
    ExactQuotient(n, size);
    AddMultipleMod(m, n / size, size);
  }

  lemma OneMore(n: nat, size: nat)
    requires Aligned(n, size)
    ensures Aligned(size + n, size)
  {
    AddMultipleMod(n, 1, size);
  }

  function Cbc(data: bytes, iv: bytes, c: Cipher): (r: bytes)
    requires c.Lawful() && |iv| == c.size && Aligned(|data|, c.size)
    ensures |r| == |data|
    decreases |data|
  {
    if data == [] then []
    else
      DropBlock(|data|, c.size);
      var b := c.encipher(Xor(data[..c.size], iv));
      b + Cbc(data[c.size..], b, c)
  }

  function UnCbc(data: bytes, iv: bytes, c: Cipher): (r: bytes)
    requires c.Lawful() && |iv| == c.size && Aligned(|data|, c.size)
    ensures |r| == |data|
    decreases |data|
  {
    if data == [] then []
    else
      DropBlock(|data|, c.size);
      Xor(c.decipher(data[..c.size]), iv) + UnCbc(data[c.size..], data[..c.size], c)
  }

  lemma CbcCons(head: bytes, tail: bytes, iv: bytes, c: Cipher)
    requires c.Lawful() && |iv| == |head| == c.size && Aligned(|tail|, c.size)
    ensures Aligned(|head + tail|, c.size)
    ensures var b := c.encipher(Xor(head, iv)); Cbc(head + tail, iv, c) == b + Cbc(tail, b, c)
  {
    hide Xor;
    OneMore(|tail|, c.size);
    hide Aligned;
    assert (head + tail)[..c.size] == head && (head + tail)[c.size..] == tail;
  }

  lemma {:induction false} CbcUndone(data: bytes, iv: bytes, c: Cipher)
    requires c.Lawful() && |iv| == c.size && Aligned(|data|, c.size)
    ensures UnCbc(Cbc(data, iv, c), iv, c) == data
    decreases |data|
  {
    hide Aligned;
    if data != [] {
      DropBlock(|data|, c.size);
      var head, tail := data[..c.size], data[c.size..];
      var b := c.encipher(Xor(head, iv));
      var rest := Cbc(tail, b, c);
      XorCancel(head, iv);
      CbcUndone(tail, b, c);
      assert (b + rest)[..c.size] == b && (b + rest)[c.size..] == rest;
      hide Xor;
      assert data == head + tail;
    }
  }

  /** The IV of what comes next: the last ciphertext block. */
  function NextIv(text: bytes, iv: bytes): (r: bytes)
    requires text == [] || |text| >= |iv|
    ensures |r| == |iv|
  {
    if text == [] then iv else text[|text| - |iv|..]
  }

  lemma NextIvCons(b: bytes, rest: bytes, iv: bytes)
    requires |b| == |iv| && (rest == [] || |rest| >= |b|)
    ensures NextIv(b + rest, iv) == NextIv(rest, b)
  {
  }

  lemma CbcConcatStep(head: bytes, tail: bytes, q: bytes, iv: bytes, c: Cipher)
    requires c.Lawful() && |iv| == |head| == c.size
    requires Aligned(|tail|, c.size) && Aligned(|q|, c.size) && Aligned(|tail + q|, c.size)
    requires Aligned(|head + tail|, c.size) && Aligned(|head + tail + q|, c.size) && (tail == [] || |tail| >= c.size)
    requires var b := c.encipher(Xor(head, iv));
             Cbc(tail + q, b, c) == Cbc(tail, b, c) + Cbc(q, NextIv(Cbc(tail, b, c), b), c)
    ensures Cbc(head + tail + q, iv, c) == Cbc(head + tail, iv, c) + Cbc(q, NextIv(Cbc(head + tail, iv, c), iv), c)
  {
    hide Xor;
    hide Cbc;
    hide Aligned;
    var b := c.encipher(Xor(head, iv));
    var rest := Cbc(tail, b, c);
    Assoc(head, tail, q);
    CbcCons(head, tail, iv, c);
    CbcCons(head, tail + q, iv, c);
    NextIvCons(b, rest, iv);
    hide NextIv;
    var more := Cbc(q, NextIv(rest, b), c);
    Assoc(b, rest, more);
  }

  lemma CbcOfNone(iv: bytes, c: Cipher)
    requires c.Lawful() && |iv| == c.size && Aligned(0, c.size)
    ensures Cbc([], iv, c) == [] && NextIv([], iv) == iv
  {
  }

  lemma CbcNothing(q: bytes, iv: bytes, c: Cipher)
    requires c.Lawful() && |iv| == c.size && Aligned(|q|, c.size)
    ensures Aligned(|[] + q|, c.size) && Cbc([] + q, iv, c) == Cbc([], iv, c) + Cbc(q, NextIv(Cbc([], iv, c), iv), c)
  {
    assert [] + q == q;
    NoBlocks(c.size);
    CbcOfNone(iv, c);
    hide Aligned;
    hide Cbc;
    var rest := Cbc(q, iv, c);
    assert [] + rest == rest;
  }

  /** Chaining two encryptions through the last block is one encryption. */
  lemma {:induction false} CbcConcat(p: bytes, q: bytes, iv: bytes, c: Cipher)
    requires c.Lawful() && |iv| == c.size && Aligned(|p|, c.size) && Aligned(|q|, c.size)
    ensures Aligned(|p + q|, c.size) && (p == [] || |p| >= c.size)
    ensures Cbc(p + q, iv, c) == Cbc(p, iv, c) + Cbc(q, NextIv(Cbc(p, iv, c), iv), c)
    decreases |p|
  {
    hide Xor;
    hide Aligned;
    hide Cbc;
    hide NextIv;
    SumOfBlocks(|p|, |q|, c.size);
    if p == [] {
      CbcNothing(q, iv, c);
    } else {
      DropBlock(|p|, c.size);
      var head, tail := p[..c.size], p[c.size..];
      Rejoin(p, c.size);
      CbcConcat(tail, q, c.encipher(Xor(head, iv)), c);
      CbcConcatStep(head, tail, q, iv, c);
    }
  }

  lemma MiddleOf(a: bytes, b: bytes, q: bytes, size: nat)
    requires |b| == size
    ensures var text := a + (b + q);
            && text[|a|..|a| + size] == b && (|a| >= size ==> text[|a| - size..|a|] == a[|a| - size..])
  {
  }

  /** Every block is enciphered with the ciphertext block before it, or the IV, mixed in. */
  lemma CbcFormula(p: bytes, block: bytes, q: bytes, iv: bytes, c: Cipher)
    requires c.Lawful() && |iv| == |block| == c.size && Aligned(|p|, c.size) && Aligned(|q|, c.size)
    ensures Aligned(|p + (block + q)|, c.size) && (p == [] || |p| >= c.size)
    ensures var text := Cbc(p + (block + q), iv, c);
            var before := if p == [] then iv else text[|p| - c.size..|p|];
            && |text| == |p| + c.size + |q| && |before| == c.size
            && text[|p|..|p| + c.size] == c.encipher(Xor(block, before))
  {
    hide Xor;
    hide Cbc;
    OneMore(|q|, c.size);
    hide Aligned;
    CbcConcat(p, block + q, iv, c);
    var first := Cbc(p, iv, c);
    var b := c.encipher(Xor(block, NextIv(first, iv)));
    assert |b| == c.size;
    hide Cipher.Lawful;
    CbcCons(block, q, NextIv(first, iv), c);
    MiddleOf(first, b, Cbc(q, b, c), c.size);
  }

  // ---------------------------------------------------------------- one record

  /** The cipher and the MAC of one direction; `encrypts` and `decrypts` tell for which texts and IVs
      the crypter does its work and does not report a failure. */
  datatype Suite = Suite(cipher: Cipher, macSize: nat, sign: bytes -> Option<bytes>,
                         encrypts: (bytes, bytes) -> bool, decrypts: (bytes, bytes) -> bool) {
    ghost predicate Lawful() {
      cipher.Lawful() && forall d :: sign(d).Some? ==> |sign(d).value| == macSize
    }
  }

  /** New keys: the MAC's first, and then the cipher's unless that failed. */
  function Rekeyed(s: Suite, keyed: Suite, macWorks: bool, encrWorks: bool): Suite {
    if !macWorks then s else if !encrWorks then s.(sign := keyed.sign) else keyed
  }

  lemma RekeyedFits(s: Suite, keyed: Suite, macWorks: bool, encrWorks: bool)
    requires s.Lawful() && keyed.Lawful() && keyed.cipher.size == s.cipher.size && keyed.macSize == s.macSize
    ensures var r := Rekeyed(s, keyed, macWorks, encrWorks);
            r.Lawful() && r.cipher.size == s.cipher.size
  {
    hide Cipher.Lawful;
  }

  datatype Header = Header(version: nat, kind: byte, seqno: nat)

  /** The data the MAC covers in front of the record. */
  function Associated(h: Header, n: nat): bytes {
    U32(h.seqno / 0x1_0000_0000) + U32(h.seqno % 0x1_0000_0000) + [h.kind] + U16(h.version) + U16(n)
  }

  lemma AssociatedParts(hi: bytes, lo: bytes, kind: bytes, version: bytes, length: bytes, data: bytes)
    requires |hi| == |lo| == 4 && |kind| == 1 && |version| == |length| == 2
    ensures var a := hi + lo + kind + version + length + data;
            && |a| == 13 + |data| && a == hi + a[4..] && a[4..] == lo + a[8..] && a[8] == kind[0]
            && a[9..] == version + a[11..] && a[11..] == length + data && a[13..] == data
  {
  }

  lemma AssociatedFields(h: Header, n: nat, data: bytes)
    requires h.seqno < 0x1_0000_0000_0000_0000 && h.version < 0x1_0000 && n < 0x1_0000
    ensures var a := Associated(h, n) + data;
            && |a| == 13 + |data| && ReadU32(a) == h.seqno / 0x1_0000_0000 && ReadU32(a[4..]) == h.seqno % 0x1_0000_0000
            && a[8] == h.kind && ReadU16(a[9..]) == h.version && ReadU16(a[11..]) == n && a[13..] == data
  {
    hide ReadU32;
    hide ReadU16;
    hide U32;
    hide U16;
    var hi, lo := h.seqno / 0x1_0000_0000, h.seqno % 0x1_0000_0000;
    var a := Associated(h, n) + data;
    AssociatedParts(U32(hi), U32(lo), [h.kind], U16(h.version), U16(n), data);
    ReadU32OfU32(hi, a[4..]);
    ReadU32OfU32(lo, a[8..]);
    ReadU16OfU16(h.version, a[11..]);
    ReadU16OfU16(n, data);
  }

  /** What is authenticated determines number, type, version and contents of a record. */
  lemma MacCoversRecord(h: Header, data: bytes, h': Header, data': bytes)
    requires h.seqno < 0x1_0000_0000_0000_0000 && h.version < 0x1_0000 && |data| < 0x1_0000
    requires h'.seqno < 0x1_0000_0000_0000_0000 && h'.version < 0x1_0000 && |data'| < 0x1_0000
    requires Associated(h, |data|) + data == Associated(h', |data'|) + data'
    ensures h == h' && data == data'
  {
    AssociatedFields(h, |data|, data);
    AssociatedFields(h', |data'|, data');
    hide Associated;
  }

  function Mac(s: Suite, h: Header, data: bytes): Option<bytes> {
    s.sign(Associated(h, |data|) + data)
  }

  function Repeat(n: nat, b: byte): (r: bytes)
    ensures |r| == n
  {
    seq(n, _ => b)
  }

  /** Data and MAC, filled up to whole blocks with bytes that all hold the amount of padding. */
  function Padded(body: bytes, size: nat): (r: bytes)
    requires 0 < size < 256
    ensures Aligned(|r|, size) && r != []
  {
    var n := PadLen(|body| + 1, size);
    body + Repeat(n, n) + [n]
  }

  /** Removes the padding; too large an amount is left in place. */
  function Strip(text: bytes): Option<bytes>
    requires text != []
  {
    var n := text[|text| - 1];
    if n as int >= |text| then Some(text)
    else if forall i :: |text| - n - 1 <= i < |text| - 1 ==> text[i] == n then Some(text[..|text| - n - 1])
    else None
  }

  lemma StripPadded(body: bytes, size: nat)
    requires 0 < size < 256
    ensures Strip(Padded(body, size)) == Some(body)
  {
    var n := PadLen(|body| + 1, size);
    var text := Padded(body, size);
    hide Aligned;
    assert text[..|text| - n - 1] == body;
  }

  /** Takes the MAC off and checks it. */
  function Authentic(s: Suite, h: Header, body: bytes): Option<bytes> {
    if |body| < s.macSize then None
    else
      var data := body[..|body| - s.macSize];
      if Mac(s, h, data) == Some(body[|body| - s.macSize..]) then Some(data) else None
  }

  /** What goes into the cipher. */
  function Text(s: Suite, h: Header, data: bytes): (r: Option<bytes>)
    requires s.Lawful()
    ensures r.Some? ==> Aligned(|r.value|, s.cipher.size) && r.value != []
  {
    match Mac(s, h, data)
    case None => None
    case Some(mac) => Some(Padded(data + mac, s.cipher.size))
  }

  function Seal(s: Suite, iv: bytes, h: Header, data: bytes): Option<bytes>
    requires s.Lawful() && |iv| == s.cipher.size
  {
    match Text(s, h, data)
    case None => None
    case Some(text) => if s.encrypts(text, iv) then Some(Cbc(text, iv, s.cipher)) else None
  }

  function Open(s: Suite, iv: bytes, h: Header, text: bytes): Option<bytes>
    requires s.Lawful() && |iv| == s.cipher.size
  {
    if |text| < s.cipher.size || !Aligned(|text|, s.cipher.size) || !s.decrypts(text, iv) then None
    else
      match Strip(UnCbc(text, iv, s.cipher))
      case None => None
      case Some(body) => Authentic(s, h, body)
  }

  /** The IV after a record; a record of the wrong size leaves it alone. */
  function Advance(s: Suite, iv: bytes, text: bytes): (r: bytes)
    requires s.Lawful() && |iv| == s.cipher.size
    ensures |r| == s.cipher.size
  {
    if |text| < s.cipher.size || !Aligned(|text|, s.cipher.size) then iv else NextIv(text, iv)
  }

  lemma BodyRecovered(s: Suite, iv: bytes, body: bytes)
    requires s.Lawful() && |iv| == s.cipher.size
    ensures var text := Padded(body, s.cipher.size);
            |text| >= s.cipher.size && Strip(UnCbc(Cbc(text, iv, s.cipher), iv, s.cipher)) == Some(body)
  {
    hide Cbc;
    hide UnCbc;
    hide Padded;
    hide Strip;
    hide Aligned;
    var text := Padded(body, s.cipher.size);
    DropBlock(|text|, s.cipher.size);
    CbcUndone(text, iv, s.cipher);
    StripPadded(body, s.cipher.size);
  }

  lemma MacChecksOut(s: Suite, h: Header, data: bytes, mac: bytes)
    requires s.Lawful() && Mac(s, h, data) == Some(mac)
    ensures Authentic(s, h, data + mac) == Some(data)
  {
    var body := data + mac;
    assert |mac| == s.macSize;
    hide Mac;
    assert body[..|body| - s.macSize] == data && body[|body| - s.macSize..] == mac;
  }

  /** A protected record opens to its data unless the crypter fails on it, and both sides derive the
      same next IV in either case. */
  lemma OpenSealed(s: Suite, iv: bytes, h: Header, data: bytes)
    requires s.Lawful() && |iv| == s.cipher.size
    ensures var text := Seal(s, iv, h, data);
            text.Some? ==>
              && |text.value| >= s.cipher.size && Advance(s, iv, text.value) == NextIv(text.value, iv)
              && Open(s, iv, h, text.value) == if s.decrypts(text.value, iv) then Some(data) else None
  {
    hide Cbc;
    hide UnCbc;
    hide Padded;
    hide Strip;
    hide Aligned;
    hide Mac;
    hide Authentic;
    hide NextIv;
    var mac := Mac(s, h, data);
    if mac.Some? {
      BodyRecovered(s, iv, data + mac.value);
      MacChecksOut(s, h, data, mac.value);
    }
  }

  lemma StripExactly(text: bytes)
    requires text != []
    ensures var n := text[|text| - 1] as int;
            Strip(text) ==
            if n >= |text| then Some(text)
            else if forall i :: |text| - n - 1 <= i < |text| ==> text[i] as int == n then Some(text[..|text| - n - 1])
            else None
  {
  }

  /** The text that gets encrypted: the data, the MAC over header and data, and at least one and at most a
      block of bytes that all say how many of them there are besides the last. */
  ghost predicate Framed(s: Suite, h: Header, data: bytes, plain: bytes) {
    var end := |data| + s.macSize;
    && end < |plain| <= end + s.cipher.size && plain[..|data|] == data
    && s.sign(Associated(h, |data|) + data) == Some(plain[|data|..end])
    && forall i :: end <= i < |plain| ==> plain[i] == |plain| - end - 1
  }

  lemma PaddedFormat(body: bytes, size: nat)
    requires 0 < size < 256
    ensures var r := Padded(body, size);
            && |body| < |r| <= |body| + size && r[..|body|] == body
            && forall i :: |body| <= i < |r| ==> r[i] == |r| - |body| - 1
  {
    hide Aligned;
  }

  lemma BodyParts(data: bytes, mac: bytes, plain: bytes)
    requires |plain| >= |data + mac| && plain[..|data + mac|] == data + mac
    ensures plain[..|data|] == data && plain[|data|..|data| + |mac|] == mac
  {
    assert plain[..|data|] == plain[..|data + mac|][..|data|];
    assert plain[|data|..|data| + |mac|] == plain[..|data + mac|][|data|..];
  }

  /** What a protected record decrypts to. */
  lemma SealedFormat(s: Suite, iv: bytes, h: Header, data: bytes)
    requires s.Lawful() && |iv| == s.cipher.size && Seal(s, iv, h, data).Some?
    ensures var text := Seal(s, iv, h, data).value;
            Aligned(|text|, s.cipher.size) && Framed(s, h, data, UnCbc(text, iv, s.cipher))
  {
    hide Aligned;
    hide Padded;
    hide Cbc;
    hide UnCbc;
    hide Associated;
    var mac := Mac(s, h, data).value;
    assert |mac| == s.macSize && 0 < s.cipher.size < 256;
    hide Cipher.Lawful;
    hide Suite.Lawful;
    var body := data + mac;
    PaddedFormat(body, s.cipher.size);
    CbcUndone(Padded(body, s.cipher.size), iv, s.cipher);
    BodyParts(data, mac, Padded(body, s.cipher.size));
  }

  lemma AuthenticExactly(s: Suite, h: Header, body: bytes, data: bytes)
    ensures Authentic(s, h, body) == Some(data) <==>
            && |body| == |data| + s.macSize && body[..|data|] == data
            && s.sign(Associated(h, |data|) + data) == Some(body[|data|..])
  {
    hide Associated;
  }

  /** Data comes out of any text exactly when this is in whole blocks, the crypter works, the bytes the last
      one counts all equal it (unless it counts more than there are), and the end of what is left is the
      MAC over header and data. */
  lemma OpenedExactly(s: Suite, iv: bytes, h: Header, text: bytes, data: bytes)
    requires s.Lawful() && |iv| == s.cipher.size
    ensures Open(s, iv, h, text) == Some(data) <==>
            && |text| >= s.cipher.size && Aligned(|text|, s.cipher.size) && s.decrypts(text, iv)
            && var plain := UnCbc(text, iv, s.cipher);
               var n := plain[|plain| - 1] as int;
               var body := if n >= |plain| then plain else plain[..|plain| - n - 1];
               && (n < |plain| ==> forall i :: |plain| - n - 1 <= i < |plain| ==> plain[i] as int == n)
               && |body| == |data| + s.macSize && body[..|data|] == data
               && s.sign(Associated(h, |data|) + data) == Some(body[|data|..])
  {
    hide Aligned;
    hide UnCbc;
    hide Associated;
    assert s.cipher.size > 0;
    hide Cipher.Lawful;
    hide Suite.Lawful;
    if |text| >= s.cipher.size && Aligned(|text|, s.cipher.size) && s.decrypts(text, iv) {
      var plain := UnCbc(text, iv, s.cipher);
      StripExactly(plain);
      hide Strip;
      var n := plain[|plain| - 1] as int;
      AuthenticExactly(s, h, if n >= |plain| then plain else plain[..|plain| - n - 1], data);
      hide Authentic;
    }
  }

  // ---------------------------------------------------------------- a connection

  /** A sender and a receiver with the records between them: the plaintexts that were protected, the
      padded texts that went into the cipher, the ciphertexts, for which of them the receiver's crypter
      worked, and what the receiver got. */
  datatype Link = Link(sender: bytes, receiver: bytes, sent: seq<bytes>, texts: seq<bytes>, wire: seq<bytes>,
                       worked: seq<bool>, got: seq<Option<bytes>>)

  /** One record from the upper layer to the peer; when it cannot be protected nothing happens. */
  function Transfer(s: Suite, l: Link, h: Header, data: bytes): (r: Link)
    requires s.Lawful() && |l.sender| == |l.receiver| == s.cipher.size
    ensures |r.sender| == |r.receiver| == s.cipher.size
  {
    match Text(s, h, data)
    case None => l
    case Some(padded) =>
      if !s.encrypts(padded, l.sender) then l
      else
        var text := Cbc(padded, l.sender, s.cipher);
        DropBlock(|padded|, s.cipher.size);
        Link(NextIv(text, l.sender), Advance(s, l.receiver, text), l.sent + [data], l.texts + [padded], l.wire + [text],
             l.worked + [s.decrypts(text, l.receiver)], l.got + [Open(s, l.receiver, h, text)])
  }

  function Connection(s: Suite, iv: bytes, records: seq<(Header, bytes)>): (r: Link)
    requires s.Lawful() && |iv| == s.cipher.size
    ensures |r.sender| == |r.receiver| == s.cipher.size
  {
    if records == [] then Link(iv, iv, [], [], [], [], [])
    else
      var last := records[|records| - 1];
      Transfer(s, Connection(s, iv, records[..|records| - 1]), last.0, last.1)
  }

  ghost predicate Streamed(s: Suite, iv: bytes, now: bytes, texts: seq<bytes>, wire: seq<bytes>)
    requires s.Lawful() && |iv| == s.cipher.size
  {
    && Aligned(|Flatten(texts)|, s.cipher.size)
    && Flatten(wire) == Cbc(Flatten(texts), iv, s.cipher)
    && (Flatten(wire) == [] || |Flatten(wire)| >= s.cipher.size) && now == NextIv(Flatten(wire), iv)
  }

  /** Both sides share the IV, everything sent was received, and the stream is one encryption. */
  ghost predicate InStep(s: Suite, iv: bytes, l: Link)
    requires s.Lawful() && |iv| == s.cipher.size
  {
    && l.sender == l.receiver && |l.sender| == s.cipher.size
    && |l.got| == |l.worked| == |l.sent|
    && (forall i :: 0 <= i < |l.sent| ==> l.got[i] == if l.worked[i] then Some(l.sent[i]) else None)
    && Streamed(s, iv, l.sender, l.texts, l.wire)
  }

  lemma NextIvConcat(a: bytes, b: bytes, iv: bytes)
    requires (a == [] || |a| >= |iv|) && |b| >= |iv| && b != []
    ensures NextIv(a + b, iv) == NextIv(b, NextIv(a, iv))
  {
  }

  lemma StreamGrows(s: Suite, iv: bytes, now: bytes, texts: seq<bytes>, wire: seq<bytes>, padded: bytes)
    requires s.Lawful() && |iv| == s.cipher.size && Streamed(s, iv, now, texts, wire)
    requires Aligned(|padded|, s.cipher.size) && |padded| >= s.cipher.size
    ensures var text := Cbc(padded, now, s.cipher);
            Streamed(s, iv, NextIv(text, now), texts + [padded], wire + [text])
  {
    hide Cbc;
    hide NextIv;
    hide Flatten;
    hide Aligned;
    var text := Cbc(padded, now, s.cipher);
    FlattenSnoc(texts, padded);
    FlattenSnoc(wire, text);
    CbcConcat(Flatten(texts), padded, iv, s.cipher);
    NextIvConcat(Flatten(wire), text, iv);
  }

  lemma TransferKeepsStep(s: Suite, iv: bytes, l: Link, h: Header, data: bytes)
    requires s.Lawful() && |iv| == s.cipher.size && InStep(s, iv, l)
    ensures InStep(s, iv, Transfer(s, l, h, data))
  {
    hide Streamed;
    hide Text;
    hide Aligned;
    hide Cbc;
    hide NextIv;
    hide Open;
    hide Advance;
    var padded := Text(s, h, data);
    if padded.Some? && s.encrypts(padded.value, l.sender) {
      DropBlock(|padded.value|, s.cipher.size);
      OpenSealed(s, l.sender, h, data);
      StreamGrows(s, iv, l.sender, l.texts, l.wire, padded.value);
    }
  }

  /** Over any run of records in order the IVs stay equal, every protected record is received as it was
      sent unless the receiver's crypter failed on it, and the ciphertexts together are one CBC
      encryption of the padded plaintexts together. */
  lemma {:induction false} ConnectionStaysInStep(s: Suite, iv: bytes, records: seq<(Header, bytes)>)
    requires s.Lawful() && |iv| == s.cipher.size
    ensures InStep(s, iv, Connection(s, iv, records))
  {
    if records == [] {
      NoBlocks(s.cipher.size);
    } else {
      hide InStep;
      var last := records[|records| - 1];
      ConnectionStaysInStep(s, iv, records[..|records| - 1]);
      TransferKeepsStep(s, iv, Connection(s, iv, records[..|records| - 1]), last.0, last.1);
    }
  }

  // ---------------------------------------------------------------- the object

  /** Looks at every padding byte. */
  method StripPadding(text: bytes) returns (body: Option<bytes>)
    requires text != []
    ensures body == Strip(text)
  {
    var n := text[|text| - 1];
    if n as int >= |text| {
      return Some(text);
    }
    var i := |text| - n - 1;
    while i < |text| - 1
      invariant |text| - n - 1 <= i <= |text| - 1
      invariant forall j :: |text| - n - 1 <= j < i ==> text[j] == n
    {
      if text[i] != n {
        return None;
      }
      i := i + 1;
    }
    body := Some(text[..|text| - n - 1]);
  }

  class TlsAead {
    var suite: Suite
    var iv: bytes

    ghost predicate Valid()
      reads this
    {
      suite.Lawful() && |iv| == suite.cipher.size
    }

    constructor (s: Suite)
      requires s.Lawful()
      ensures Valid() && suite == s
    {
      suite := s;
      iv := Zeros(s.cipher.size);
    }

    /** Takes an IV of the cipher's size, then the keys; when setting a key fails the IV stays taken. */
    method SetKeys(keyed: Suite, value: bytes, macWorks: bool, encrWorks: bool) returns (ok: bool)
      requires Valid() && keyed.Lawful() && keyed.cipher.size == suite.cipher.size && keyed.macSize == suite.macSize
      modifies this
      ensures Valid() && ok == (|value| == |old(iv)| && macWorks && encrWorks)
      ensures iv == if |value| == |old(iv)| then value else old(iv)
      ensures suite == if |value| == |old(iv)| then Rekeyed(old(suite), keyed, macWorks, encrWorks) else old(suite)
      ensures |value| == |old(iv)| && macWorks ==> suite == if encrWorks then keyed else old(suite).(sign := keyed.sign)
      ensures |value| != |old(iv)| || !macWorks ==> suite == old(suite)
    {
      hide Suite.Lawful;
      if |value| != |iv| {
        return false;
      }
      RekeyedFits(suite, keyed, macWorks, encrWorks);
      iv := value;
      suite := Rekeyed(suite, keyed, macWorks, encrWorks);
      return macWorks && encrWorks;
    }

    method Encrypt(h: Header, data: bytes) returns (text: Option<bytes>)
      requires Valid()
      modifies `iv
      ensures Valid() && text == Seal(suite, old(iv), h, data)
      ensures text.Some? ==> |text.value| >= |old(iv)|
      ensures iv == if text.Some? && |text.value| >= |old(iv)| then NextIv(text.value, old(iv)) else old(iv)
    {
      hide Cbc;
      hide Text;
      hide Aligned;
      match Text(suite, h, data)
      case None => return None;
      case Some(padded) =>
        if !suite.encrypts(padded, iv) {
          return None;
        }
        DropBlock(|padded|, suite.cipher.size);
        text := Some(Cbc(padded, iv, suite.cipher));
        iv := text.value[|text.value| - |iv|..];
    }

    /** The IV moves on whenever the size is right, whatever becomes of the record. */
    method Decrypt(h: Header, text: bytes) returns (data: Option<bytes>)
      requires Valid()
      modifies `iv
      ensures Valid() && data == Open(suite, old(iv), h, text) && iv == Advance(suite, old(iv), text)
    {
      hide UnCbc;
      hide Aligned;
      hide Strip;
      hide Mac;
      var size := suite.cipher.size;
      if |text| < size || !Aligned(|text|, size) {
        return None;
      }
      var before := iv;
      iv := text[|text| - |iv|..];
      if !suite.decrypts(text, before) {
        return None;
      }
      var plain := UnCbc(text, before, suite.cipher);
      var body := StripPadding(plain);
      if body.None? || |body.value| < suite.macSize {
        return None;
      }
      var n := |body.value| - suite.macSize;
      if Mac(suite, h, body.value[..n]) != Some(body.value[n..]) {
        return None;
      }
      data := Some(body.value[..n]);
    }
  }
}
