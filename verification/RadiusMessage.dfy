/** RADIUS messages: building, signing and verifying. */
module RadiusMessages {
  import opened Bytes
  import opened RadiusCipher
  import opened ExclusiveOr

  const ACCESS_REQUEST: byte := 1
  const USER_PASSWORD: byte := 2
  const EAP_MESSAGE: byte := 79
  const MESSAGE_AUTHENTICATOR: byte := 80

  const AUTH: nat := 4
  const BODY: nat := 20
  const MAX_VALUE: nat := 253

  /** HMAC-MD5 under the shared secret. */
  datatype Signer = Signer(sign: bytes -> Option<bytes>) {
    ghost predicate Lawful() {
      forall d :: sign(d).Some? ==> |sign(d).value| == BLOCK
    }
  }

  /** The shared secret and what is computed with it. */
  datatype Keys = Keys(secret: bytes, hasher: Hasher, signer: Signer) {
    ghost predicate Lawful() {
      hasher.Lawful() && signer.Lawful()
    }
  }

  // ---------------------------------------------------------------- layout

  predicate WellFormed(msg: bytes) {
    BODY <= |msg| < 0x1_0000 && ReadU16(msg[2..4]) == |msg|
  }

  function SetAuth(msg: bytes, a: bytes): (m: bytes)
    requires |msg| >= BODY && |a| == BLOCK
    ensures |m| == |msg| && m[..AUTH] == msg[..AUTH] && m[AUTH..BODY] == a && m[BODY..] == msg[BODY..]
  {
    msg[..AUTH] + a + msg[BODY..]
  }

  /** Another authenticator can be put in and the first one back. */
  lemma AuthRestored(msg: bytes, other: bytes)
    requires |msg| >= BODY && |other| == BLOCK
    ensures SetAuth(SetAuth(msg, other), msg[AUTH..BODY]) == msg
  {
    assert msg == msg[..AUTH] + msg[AUTH..BODY] + msg[BODY..];
  }

  lemma TailSlice(msg: bytes, at: nat, i: nat, j: nat)
    requires at + i <= at + j <= |msg|
    ensures msg[at..][i..j] == msg[at + i..at + j]
  {
  }

  /** An attribute as `add` writes it. */
  function Encode(kind: byte, data: bytes): (e: bytes)
    ensures 2 <= |e| <= 255 && e[1] == |e| && e[0] == kind
  {
    var d := data[..Min(|data|, MAX_VALUE)];
    [kind, |d| + 2] + d
  }

  function WithLength(m: bytes): (r: bytes)
    requires |m| >= BODY
    ensures |r| == |m| && r[..2] == m[..2] && r[AUTH..] == m[AUTH..]
  {
    m[..2] + U16(|m|) + m[AUTH..]
  }

  function Append(msg: bytes, kind: byte, data: bytes): (r: bytes)
    requires |msg| >= BODY
    ensures |r| == |msg| + |Encode(kind, data)|
    ensures |r| < 0x1_0000 ==> WellFormed(r)
    ensures r[0] == msg[0] && r[AUTH..] == msg[AUTH..] + Encode(kind, data)
  {
    var m := msg + Encode(kind, data);
    WithLength(m)
  }

  // ---------------------------------------------------------------- attributes

  /** An attribute found by the enumerator, its value at offset `at` of the message. */
  datatype Item = Item(kind: byte, at: nat, data: bytes)

  /** The attributes up to the end or to a truncated one.  A length field below 2 yields a value of a
      nonsensical length, which nothing accepts and which is shown as empty; a length field of 0 keeps
      the enumerator in place, so that the list ends there. */
  function Items(rest: bytes, at: nat): seq<Item>
    decreases |rest|
  {
    if |rest| < 2 || rest[1] as int > |rest| then []
    else
      var item := Item(rest[0], at + 2, if rest[1] < 2 then [] else rest[2..rest[1]]);
      [item] + if rest[1] == 0 then [] else Items(rest[rest[1]..], at + rest[1])
  }

  /** A search for a Message-Authenticator never ends: it reaches a length field of 0 before one. */
  predicate Loops(rest: bytes)
    decreases |rest|
  {
    && |rest| >= 2 && rest[1] as int <= |rest| && rest[0] != MESSAGE_AUTHENTICATOR
    && (rest[1] == 0 || Loops(rest[rest[1]..]))
  }

  /** A list of complete attributes, as `add` builds it. */
  predicate Whole(rest: bytes)
    decreases |rest|
  {
    rest == [] || (|rest| >= 2 && 2 <= rest[1] && rest[1] as int <= |rest| && Whole(rest[rest[1]..]))
  }

  /** Messages built by `add` can always be searched. */
  lemma {:induction false} WholeNeverLoops(rest: bytes)
    requires Whole(rest)
    ensures !Loops(rest)
    decreases |rest|
  {
    if rest != [] {
      WholeNeverLoops(rest[rest[1]..]);
    }
  }

  lemma WholeHead(rest: bytes)
    requires Whole(rest) && rest != []
    ensures |rest| >= 2 && 2 <= rest[1] && rest[1] as int <= |rest| && Whole(rest[rest[1]..])
  {
  }

  lemma ItemsCons(head: bytes, more: bytes, at: nat)
    requires 2 <= |head| <= 255 && head[1] == |head|
    ensures Items(head + more, at) == [Item(head[0], at + 2, head[2..])] + Items(more, at + |head|)
    ensures Whole(head + more) <==> Whole(more)
  {
    assert (head + more)[|head|..] == more && (head + more)[2..|head|] == head[2..];
  }

  lemma AppendedStep(head: bytes, tail: bytes, at: nat, e: bytes)
    requires 2 <= |head| <= 255 && head[1] == |head| && 2 <= |e|
    requires Whole(tail + e)
    requires Items(tail + e, at + |head|) == Items(tail, at + |head|) + [Item(e[0], at + |head| + |tail| + 2, e[2..])]
    ensures Whole(head + tail + e)
    ensures Items(head + tail + e, at) == Items(head + tail, at) + [Item(e[0], at + |head + tail| + 2, e[2..])]
  {
    hide Items;
    hide Whole;
    ItemsCons(head, tail, at);
    ItemsCons(head, tail + e, at);
    assert head + tail + e == head + (tail + e);
  }

  lemma SoleItem(e: bytes, at: nat)
    requires 2 <= |e| <= 255 && e[1] == |e|
    ensures Whole(e) && Items([], at) == [] && Items(e, at) == [Item(e[0], at + 2, e[2..])]
  {
    assert e + [] == e;
    ItemsCons(e, [], at);
  }

  /** An added attribute is the last one enumerated, and the others stay as they were. */
  lemma {:induction false} AppendedItem(rest: bytes, at: nat, e: bytes)
    requires Whole(rest) && 2 <= |e| <= 255 && e[1] == |e|
    ensures Whole(rest + e)
    ensures Items(rest + e, at) == Items(rest, at) + [Item(e[0], at + |rest| + 2, e[2..])]
    decreases |rest|
  {
    hide Items;
    hide Whole;
    if rest == [] {
      assert rest + e == e;
      SoleItem(e, at);
    } else {
      WholeHead(rest);
      var n := rest[1];
      var head, tail := rest[..n], rest[n..];
      assert rest == head + tail;
      AppendedItem(tail, at + n, e);
      AppendedStep(head, tail, at, e);
    }
  }

  /** The item is inside the bytes that start at offset `at`, where it says. */
  predicate Lies(rest: bytes, at: nat, item: Item) {
    && at + 2 <= item.at && item.at + |item.data| <= at + |rest|
    && item.data == rest[item.at - at..item.at - at + |item.data|]
  }

  lemma FirstLies(rest: bytes, at: nat)
    requires Items(rest, at) != []
    ensures Lies(rest, at, Items(rest, at)[0])
  {
  }

  lemma LaterItem(rest: bytes, at: nat, i: nat)
    requires 0 < i < |Items(rest, at)|
    ensures |rest| >= 2 && 0 < rest[1] && rest[1] as int <= |rest|
    ensures i - 1 < |Items(rest[rest[1]..], at + rest[1])|
    ensures Items(rest, at)[i] == Items(rest[rest[1]..], at + rest[1])[i - 1]
  {
  }

  lemma LiesDeeper(rest: bytes, n: nat, at: nat, item: Item)
    requires n <= |rest| && Lies(rest[n..], at + n, item)
    ensures Lies(rest, at, item)
  {
  }

  /** Every enumerated item lies where it says. */
  lemma {:induction false} ItemsLie(rest: bytes, at: nat, i: nat)
    requires i < |Items(rest, at)|
    ensures Lies(rest, at, Items(rest, at)[i])
    decreases |rest|
  {
    hide Items;
    hide Lies;
    if i == 0 {
      FirstLies(rest, at);
    } else {
      LaterItem(rest, at, i);
      ItemsLie(rest[rest[1]..], at + rest[1], i - 1);
      LiesDeeper(rest, rest[1], at, Items(rest, at)[i]);
    }
  }

  ghost predicate Has(items: seq<Item>, kind: byte) {
    exists i :: 0 <= i < |items| && items[i].kind == kind
  }

  /** The first Message-Authenticator. */
  function FirstAuth(items: seq<Item>): (found: Option<Item>)
    ensures found.None? <==> !Has(items, MESSAGE_AUTHENTICATOR)
    ensures found.Some? ==> found.value in items
  {
    if items == [] then None
    else if items[0].kind == MESSAGE_AUTHENTICATOR then
      assert items[0].kind == MESSAGE_AUTHENTICATOR;
      Some(items[0])
    else
      var later := FirstAuth(items[1..]);
      assert later.Some? ==> exists i :: 0 <= i < |items[1..]| && items[1..][i] == later.value;
      assert forall i :: 0 < i < |items| ==> items[i] == items[1..][i - 1];
      later
  }

  lemma {:induction false} FirstAuthLast(items: seq<Item>, last: Item)
    requires !Has(items, MESSAGE_AUTHENTICATOR)
    ensures FirstAuth(items + [last]) == if last.kind == MESSAGE_AUTHENTICATOR then Some(last) else None
  {
    if items != [] {
      assert items[0].kind != MESSAGE_AUTHENTICATOR;
      assert forall i :: 0 <= i < |items[1..]| ==> items[1..][i] == items[i + 1];
      assert (items + [last])[1..] == items[1..] + [last];
      FirstAuthLast(items[1..], last);
    }
  }

  // ---------------------------------------------------------------- verifying

  function Zeroed(msg: bytes, at: nat): bytes {
    if at + BLOCK <= |msg| then msg[..at] + Zeros(BLOCK) + msg[at + BLOCK..] else msg
  }

  /** The authenticator of the request a response belongs to. */
  function RequestAuth(reqAuth: Option<bytes>): (a: bytes)
    requires reqAuth.Some? ==> |reqAuth.value| == BLOCK
    ensures |a| == BLOCK
  {
    if reqAuth.Some? then reqAuth.value else Zeros(BLOCK)
  }

  /** The message with the request's authenticator, which is what responses are computed over. */
  function Swapped(msg: bytes, reqAuth: Option<bytes>): (m: bytes)
    requires |msg| >= BODY && (reqAuth.Some? ==> |reqAuth.value| == BLOCK)
    ensures |m| == |msg| && m[BODY..] == msg[BODY..]
  {
    if msg[0] == ACCESS_REQUEST then msg else SetAuth(msg, RequestAuth(reqAuth))
  }

  /** The authenticator of a response is the hash over it. */
  predicate Hashed(msg: bytes, reqAuth: Option<bytes>, keys: Keys)
    requires |msg| >= BODY && (reqAuth.Some? ==> |reqAuth.value| == BLOCK)
  {
    msg[0] == ACCESS_REQUEST || keys.hasher.hash(Swapped(msg, reqAuth) + keys.secret) == Some(msg[AUTH..BODY])
  }

  /** The first Message-Authenticator is the HMAC over the message with zeroes in its place, and an
      EAP-Message needs one. */
  ghost predicate Attested(m: bytes, keys: Keys)
    requires |m| >= BODY
  {
    var items := Items(m[BODY..], BODY);
    match FirstAuth(items)
    case Some(item) => |item.data| == BLOCK && keys.signer.sign(Zeroed(m, item.at)) == Some(item.data)
    case None => !Has(items, EAP_MESSAGE)
  }

  /** A response's authenticator is the hash over it; the first Message-Authenticator is the HMAC over
      the message with zeroes in its place; and an EAP-Message needs one. */
  ghost predicate Verifies(msg: bytes, reqAuth: Option<bytes>, keys: Keys)
    requires |msg| >= BODY && (reqAuth.Some? ==> |reqAuth.value| == BLOCK)
  {
    Hashed(msg, reqAuth, keys) && Attested(Swapped(msg, reqAuth), keys)
  }

  /** What `verify` answers; None when it does not return. */
  ghost function Verdict(msg: bytes, reqAuth: Option<bytes>, keys: Keys): Option<bool>
    requires |msg| >= BODY && (reqAuth.Some? ==> |reqAuth.value| == BLOCK)
  {
    if !Hashed(msg, reqAuth, keys) then Some(false)
    else if Loops(msg[BODY..]) then None
    else Some(Verifies(msg, reqAuth, keys))
  }

  // ---------------------------------------------------------------- signing

  /** No random source, or one that may fail. */
  datatype Rng = NoRng | Rng(draw: Option<bytes>)

  function Pad16(data: bytes): (p: bytes)
    ensures |p| % BLOCK == 0 && |data| <= |p| < |data| + 16 && p[..|data|] == data
    ensures forall i :: |data| <= i < |p| ==> p[i] == 0
  {
    data + Zeros(PadLen(|data|, BLOCK))
  }

  function WithPassword(msg: bytes, password: bytes, keys: Keys): Option<bytes>
    requires |msg| >= BODY && |password| % BLOCK == 0
  {
    if password == [] then Some(msg)
    else
      match Chain(password, msg[AUTH..BODY] + [], keys.secret, keys.hasher, true)
      case None => None
      case Some(c) => Some(Append(msg, USER_PASSWORD, c))
  }

  function WithMac(msg: bytes, keys: Keys, msgAuth: bool): Option<bytes>
    requires |msg| >= BODY
  {
    if !msgAuth then Some(msg)
    else
      var m := Append(msg, MESSAGE_AUTHENTICATOR, Zeros(BLOCK));
      match keys.signer.sign(m)
      case None => None
      case Some(mac) => Some(m[..|m| - BLOCK] + mac)
  }

  function WithResponseAuth(msg: bytes, keys: Keys): Option<bytes>
    requires |msg| >= BODY && keys.hasher.Lawful()
  {
    match keys.hasher.hash(msg + keys.secret)
    case None => None
    case Some(h) => Some(SetAuth(msg, h))
  }

  /** The room a pending password takes. */
  function PasswordSize(n: nat): nat {
    if n == 0 then 0 else 2 + Min(n, MAX_VALUE)
  }

  /** What callers provide, and a message that signing keeps below the limit of its length field. */
  ghost predicate Ready(msg: bytes, password: bytes, reqAuth: Option<bytes>, keys: Keys, rng: Rng, msgAuth: bool) {
    && WellFormed(msg) && |password| % BLOCK == 0 && keys.Lawful()
    && (reqAuth.Some? ==> |reqAuth.value| == BLOCK)
    && (rng.Rng? && rng.draw.Some? ==> |rng.draw.value| == BLOCK)
    && |msg| + PasswordSize(|password|) + (if msgAuth then 2 + BLOCK else 0) < 0x1_0000
  }

  ghost function Signed(msg: bytes, password: bytes, reqAuth: Option<bytes>, keys: Keys, rng: Rng, msgAuth: bool)
      : Option<bytes>
    requires Ready(msg, password, reqAuth, keys, rng, msgAuth)
  {
    if rng.Rng? && rng.draw.None? then None
    else
      var a := if rng.Rng? then rng.draw.value else RequestAuth(reqAuth);
      match WithPassword(SetAuth(msg, a), password, keys)
      case None => None
      case Some(m2) =>
        match WithMac(m2, keys, msgAuth)
        case None => None
        case Some(m4) => if rng.Rng? then Some(m4) else WithResponseAuth(m4, keys)
  }

  // ---------------------------------------------------------------- sign then verify

  lemma HasAppend(items: seq<Item>, last: Item, kind: byte)
    ensures Has(items + [last], kind) <==> Has(items, kind) || last.kind == kind
  {
    assert (items + [last])[|items|] == last;
    if i :| 0 <= i < |items| && items[i].kind == kind {
      assert (items + [last])[i].kind == kind;
    }
  }

  /** What `add` does to the attribute list. */
  lemma AppendItems(msg: bytes, kind: byte, data: bytes)
    requires |msg| >= BODY && Whole(msg[BODY..])
    ensures var r := Append(msg, kind, data);
            && Whole(r[BODY..]) && r[AUTH..BODY] == msg[AUTH..BODY]
            && Items(r[BODY..], BODY) == Items(msg[BODY..], BODY) + [Item(kind, |msg| + 2, Encode(kind, data)[2..])]
  {
    hide Items;
    hide Whole;
    hide Encode;
    var r, e := Append(msg, kind, data), Encode(kind, data);
    assert r[AUTH..][BODY - AUTH..] == msg[BODY..] + e;
    assert r[AUTH..][..BODY - AUTH] == msg[AUTH..BODY];
    AppendedItem(msg[BODY..], BODY, e);
  }

  /** A run of additions. */
  function AppendAll(msg: bytes, added: seq<(byte, bytes)>): (r: bytes)
    requires |msg| >= BODY
    ensures |r| >= BODY
  {
    if added == [] then msg
    else
      var last := added[|added| - 1];
      Append(AppendAll(msg, added[..|added| - 1]), last.0, last.1)
  }

  ghost predicate Enumerated(items: seq<Item>, added: seq<(byte, bytes)>) {
    && |items| == |added|
    && forall i :: 0 <= i < |added| ==>
         items[i].kind == added[i].0 && items[i].data == added[i].1[..Min(|added[i].1|, MAX_VALUE)]
  }

  lemma EnumeratedSnoc(items: seq<Item>, added: seq<(byte, bytes)>, at: nat)
    requires added != [] && Enumerated(items, added[..|added| - 1])
    ensures var last := added[|added| - 1];
            Enumerated(items + [Item(last.0, at, Encode(last.0, last.1)[2..])], added)
  {
    var last := added[|added| - 1];
    assert Encode(last.0, last.1)[2..] == last.1[..Min(|last.1|, MAX_VALUE)];
    assert forall i :: 0 <= i < |added| - 1 ==> added[..|added| - 1][i] == added[i];
  }

  lemma NothingAdded()
    ensures Whole([]) && Enumerated(Items([], BODY), [])
  {
  }

  /** The enumerator yields what was added, in order, each value cut to 253 bytes. */
  lemma {:induction false} EnumeratesAdded(msg: bytes, added: seq<(byte, bytes)>)
    requires |msg| >= BODY && msg[BODY..] == []
    ensures Whole(AppendAll(msg, added)[BODY..])
    ensures Enumerated(Items(AppendAll(msg, added)[BODY..], BODY), added)
  {
    hide Items;
    hide Whole;
    hide Append;
    hide Enumerated;
    hide Encode;
    if added == [] {
      NothingAdded();
    } else {
      var init, last := added[..|added| - 1], added[|added| - 1];
      EnumeratesAdded(msg, init);
      var m := AppendAll(msg, init);
      AppendItems(m, last.0, last.1);
      EnumeratedSnoc(Items(m[BODY..], BODY), added, |m| + 2);
    }
  }

  /** The list of a message without a Message-Authenticator. */
  ghost predicate Plain(msg: bytes, eap: bool) {
    && |msg| >= BODY && Whole(msg[BODY..]) && !Has(Items(msg[BODY..], BODY), MESSAGE_AUTHENTICATOR)
    && (Has(Items(msg[BODY..], BODY), EAP_MESSAGE) <==> eap)
  }

  lemma PasswordKeepsPlain(msg: bytes, password: bytes, keys: Keys, eap: bool)
    requires Plain(msg, eap) && |password| % BLOCK == 0
    ensures var m := WithPassword(msg, password, keys);
            m.Some? ==> Plain(m.value, eap) && m.value[0] == msg[0] && m.value[AUTH..BODY] == msg[AUTH..BODY]
                        && |m.value| <= |msg| + 2 + MAX_VALUE
  {
    if password != [] {
      var c := Chain(password, msg[AUTH..BODY] + [], keys.secret, keys.hasher, true);
      if c.Some? {
        AppendItems(msg, USER_PASSWORD, c.value);
        var last := Item(USER_PASSWORD, |msg| + 2, Encode(USER_PASSWORD, c.value)[2..]);
        HasAppend(Items(msg[BODY..], BODY), last, MESSAGE_AUTHENTICATOR);
        HasAppend(Items(msg[BODY..], BODY), last, EAP_MESSAGE);
      }
    }
  }

  lemma MacTail(msg: bytes, mac: bytes)
    requires |msg| >= BODY && |mac| == BLOCK
    ensures var m := Append(msg, MESSAGE_AUTHENTICATOR, Zeros(BLOCK));
            var signed := m[..|m| - BLOCK] + mac;
            && |signed| == |m| == |msg| + 2 + BLOCK
            && signed[BODY..] == msg[BODY..] + Encode(MESSAGE_AUTHENTICATOR, mac)
            && signed[..BODY] == m[..BODY] && m[AUTH..BODY] == msg[AUTH..BODY]
            && Zeroed(signed, |msg| + 2) == m
  {
    var m, e := Append(msg, MESSAGE_AUTHENTICATOR, Zeros(BLOCK)), Encode(MESSAGE_AUTHENTICATOR, Zeros(BLOCK));
    assert m[AUTH..][BODY - AUTH..] == m[BODY..] == msg[BODY..] + e;
    assert m[AUTH..][..BODY - AUTH] == m[AUTH..BODY];
    assert Zeros(BLOCK)[..BLOCK] == Zeros(BLOCK) && mac[..BLOCK] == mac;
    assert e == [MESSAGE_AUTHENTICATOR, 18] + Zeros(BLOCK);
    assert m[|m| - BLOCK..] == Zeros(BLOCK);
  }

  lemma EncodedValue(mac: bytes)
    requires |mac| == BLOCK
    ensures Encode(MESSAGE_AUTHENTICATOR, mac)[2..] == mac
  {
  }

  lemma MacAttests(msg: bytes, keys: Keys, msgAuth: bool, eap: bool)
    requires Plain(msg, eap) && keys.Lawful()
    ensures var m := WithMac(msg, keys, msgAuth);
            m.Some? ==>
              && |msg| <= |m.value| <= |msg| + 2 + BLOCK && m.value[0] == msg[0] && m.value[AUTH..BODY] == msg[AUTH..BODY]
              && (Attested(m.value, keys) <==> (eap ==> msgAuth)) && Whole(m.value[BODY..])
  {
    hide Items;
    hide Whole;
    hide Zeroed;
    hide Append;
    if msgAuth {
      var m := Append(msg, MESSAGE_AUTHENTICATOR, Zeros(BLOCK));
      var mac := keys.signer.sign(m);
      if mac.Some? {
        var signed := m[..|m| - BLOCK] + mac.value;
        MacTail(msg, mac.value);
        var e := Encode(MESSAGE_AUTHENTICATOR, mac.value);
        EncodedValue(mac.value);
        hide Encode;
        AppendedItem(msg[BODY..], BODY, e);
        FirstAuthLast(Items(msg[BODY..], BODY), Item(MESSAGE_AUTHENTICATOR, |msg| + 2, mac.value));
        assert signed[..BODY][AUTH..] == m[..BODY][AUTH..];
        assert signed[..BODY][0] == m[..BODY][0];
      }
    }
  }

  /** A request signed with a random authenticator, or any other message signed over the authenticator
      of its request, is accepted under the same secret exactly when an EAP-Message in it came with a
      Message-Authenticator. */
  lemma SignedVerifies(msg: bytes, password: bytes, reqAuth: Option<bytes>, keys: Keys, rng: Rng, msgAuth: bool)
    requires Ready(msg, password, reqAuth, keys, rng, msgAuth) && Whole(msg[BODY..])
    requires !Has(Items(msg[BODY..], BODY), MESSAGE_AUTHENTICATOR)
    requires msg[0] == ACCESS_REQUEST <==> rng.Rng?
    ensures var m := Signed(msg, password, reqAuth, keys, rng, msgAuth);
            m.Some? ==>
              && |m.value| >= BODY
              && Verdict(m.value, reqAuth, keys) == Some(Has(Items(msg[BODY..], BODY), EAP_MESSAGE) ==> msgAuth)
  {
    hide Items;
    hide Whole;
    hide Zeroed;
    hide FirstAuth;
    hide WithPassword;
    hide WithMac;
    hide Has;
    hide Loops;
    hide Attested;
    var eap := Has(Items(msg[BODY..], BODY), EAP_MESSAGE);
    if Signed(msg, password, reqAuth, keys, rng, msgAuth).Some? {
      var a := if rng.Rng? then rng.draw.value else RequestAuth(reqAuth);
      var m1 := SetAuth(msg, a);
      assert m1[..AUTH][0] == msg[..AUTH][0];
      PasswordKeepsPlain(m1, password, keys, eap);
      var m2 := WithPassword(m1, password, keys).value;
      MacAttests(m2, keys, msgAuth, eap);
      var m4 := WithMac(m2, keys, msgAuth).value;
      WholeNeverLoops(m4[BODY..]);
      if !rng.Rng? {
        var m5 := WithResponseAuth(m4, keys).value;
        assert m5[..AUTH][0] == m4[..AUTH][0];
        AuthRestored(m4, m5[AUTH..BODY]);
      }
    }
  }

  lemma ChainKeepsLength(data: bytes, seed: bytes, keys: Keys)
    requires |data| % BLOCK == 0
    ensures var c := Chain(data, seed, keys.secret, keys.hasher, true);
            c.Some? ==> |c.value| == |data|
  {
    if Chain(data, seed, keys.secret, keys.hasher, true).Some? {
      ChainLength(data, seed, keys.secret, keys.hasher, true);
    }
  }

  lemma MacKeepsRest(msg: bytes, keys: Keys, msgAuth: bool)
    requires |msg| >= BODY && keys.Lawful()
    ensures var m := WithMac(msg, keys, msgAuth);
            m.Some? ==> |m.value| >= |msg| && m.value[AUTH..|msg|] == msg[AUTH..]
  {
    if msgAuth {
      var m := Append(msg, MESSAGE_AUTHENTICATOR, Zeros(BLOCK));
      assert m[AUTH..][..|msg| - AUTH] == msg[AUTH..];
    }
  }

  lemma SameSlice(a: bytes, b: bytes, start: nat, i: nat, j: nat)
    requires start <= i <= j <= |b| <= |a| && a[start..|b|] == b[start..]
    ensures a[i..j] == b[i..j]
  {
    forall k | i <= k < j
      ensures a[k] == b[k]
    {
      assert a[start..|b|][k - start] == b[start..][k - start];
    }
  }

  /** What a server needs to find the password in a User-Password value. */
  ghost predicate Decrypts(value: bytes, auth: bytes, keys: Keys, password: bytes) {
    Blocks(|value|) && Chain(value, auth + [], keys.secret, keys.hasher, false) == Some(password)
  }

  lemma FullSlice(s: bytes)
    ensures s[..|s|] == s && forall i :: 0 <= i <= |s| ==> s[i..|s|] == s[i..]
  {
  }

  lemma SliceOfJoin(m: bytes, a: bytes, b: bytes, start: nat)
    requires start <= |a| && |m| == |a| + |b| && m[start..] == a[start..] + b
    ensures m[start..|a|] == a[start..] && m[|a|..] == b
  {
    forall i | start <= i < |m|
      ensures m[i] == if i < |a| then a[i] else b[i - |a|]
    {
      assert m[start..][i - start] == (a[start..] + b)[i - start];
    }
  }

  /** Where an added value lies. */
  lemma AppendedValue(msg: bytes, kind: byte, data: bytes)
    requires |msg| >= BODY
    ensures var m := Append(msg, kind, data);
            && |m| == |msg| + 2 + Min(|data|, MAX_VALUE) && m[|msg|] == kind && m[AUTH..BODY] == msg[AUTH..BODY]
            && m[|msg| + 2..] == data[..Min(|data|, MAX_VALUE)]
  {
    var m, e := Append(msg, kind, data), Encode(kind, data);
    hide Append;
    SliceOfJoin(m, msg, e, AUTH);
    assert m[|msg|..][0] == e[0];
    assert m[|msg| + 2..] == m[|msg|..][2..];
    assert m[AUTH..BODY] == m[AUTH..|msg|][..BODY - AUTH] == msg[AUTH..][..BODY - AUTH];
  }

  lemma EncryptedPassword(msg: bytes, password: bytes, keys: Keys)
    requires |msg| >= BODY && |password| % BLOCK == 0 && |password| > 0
    requires WithPassword(msg, password, keys).Some?
    ensures var m := WithPassword(msg, password, keys).value;
            && |m| == |msg| + 2 + Min(|password|, MAX_VALUE) && m[|msg|] == USER_PASSWORD
            && m[AUTH..BODY] == msg[AUTH..BODY]
            && (|password| <= MAX_VALUE <==> Decrypts(m[|msg| + 2..], msg[AUTH..BODY], keys, password))
  {
    var auth := msg[AUTH..BODY];
    ChainUndone(password, auth + [], keys.secret, keys.hasher, true);
    var c := Chain(password, auth + [], keys.secret, keys.hasher, true).value;
    hide Chain;
    AppendedValue(msg, USER_PASSWORD, c);
    hide Append;
    hide Encode;
    FullSlice(c);
  }

  /** The User-Password of a signed request decrypts, with the authenticator the request carries, to
      the zero-padded password exactly when this fits one attribute: a longer one is cut to 253 bytes,
      which are not whole blocks. */
  lemma PasswordRecovered(msg: bytes, password: bytes, reqAuth: Option<bytes>, keys: Keys, rng: Rng, msgAuth: bool)
    requires Ready(msg, password, reqAuth, keys, rng, msgAuth) && rng.Rng? && |password| > 0
    ensures var m := Signed(msg, password, reqAuth, keys, rng, msgAuth);
            var end := |msg| + 2 + Min(|password|, MAX_VALUE);
            m.Some? ==>
              && |m.value| >= end && m.value[|msg|] == USER_PASSWORD
              && (Decrypts(m.value[|msg| + 2..end], m.value[AUTH..BODY], keys, password) <==> |password| <= MAX_VALUE)
  {
    hide Chain;
    hide WithPassword;
    hide WithMac;
    hide Decrypts;
    var end := |msg| + 2 + Min(|password|, MAX_VALUE);
    if Signed(msg, password, reqAuth, keys, rng, msgAuth).Some? {
      var m1 := SetAuth(msg, rng.draw.value);
      var m2 := WithPassword(m1, password, keys).value;
      EncryptedPassword(m1, password, keys);
      MacKeepsRest(m2, keys, msgAuth);
      var m4 := WithMac(m2, keys, msgAuth).value;
      SameSlice(m4, m2, AUTH, AUTH, BODY);
      SameSlice(m4, m2, AUTH, |msg|, |m2|);
      SameSlice(m4, m2, AUTH, |msg| + 2, |m2|);
      assert m4[|msg|..|m2|][0] == m2[|msg|..|m2|][0];
      assert m2[|msg| + 2..|m2|] == m2[|msg| + 2..];
    }
  }

  // ---------------------------------------------------------------- when the promises fail

  /** A request with one EAP-Message whose length field is 0. */
  function Endless(): bytes {
    [ACCESS_REQUEST, 0] + U16(22) + Zeros(BLOCK) + [EAP_MESSAGE, 0]
  }

  /** Verification of a well-formed message need not return. */
  lemma EndlessIsNeverVerified(keys: Keys)
    ensures WellFormed(Endless()) && Verdict(Endless(), None, keys) == None
  {
    var msg := Endless();
    assert msg[2..4] == U16(22);
    assert msg[BODY..] == [EAP_MESSAGE, 0];
  }

  /** Keys under which nothing fails. */
  function PlainKeys(): Keys {
    Keys([], Hasher(d => Some(Zeros(BLOCK))), Signer(d => Some(Zeros(BLOCK))))
  }

  lemma {:induction false} PlainChain(data: bytes, seed: bytes)
    requires |data| % BLOCK == 0
    ensures Chain(data, seed, [], PlainKeys().hasher, true).Some?
    decreases |data|
  {
    if data != [] {
      PlainChain(data[BLOCK..], Xor(data[..BLOCK], Zeros(BLOCK)));
    }
  }

  function EmptyRequest(): bytes {
    [ACCESS_REQUEST, 0] + U16(BODY) + Zeros(BLOCK)
  }

  lemma PlainReady(password: bytes)
    requires |password| == 256
    ensures Ready(EmptyRequest(), password, None, PlainKeys(), Rng(Some(Zeros(BLOCK))), false)
  {
    assert EmptyRequest()[2..4] == U16(BODY);
    ReadU16OfU16(BODY, []);
    assert U16(BODY) + [] == U16(BODY);
  }

  /** A request with a password of 256 bytes is signed, and the password is lost. */
  lemma LongPasswordIsLost(password: bytes)
    requires |password| == 256
    ensures Ready(EmptyRequest(), password, None, PlainKeys(), Rng(Some(Zeros(BLOCK))), false)
    ensures var m := Signed(EmptyRequest(), password, None, PlainKeys(), Rng(Some(Zeros(BLOCK))), false);
            && m.Some? && |m.value| == BODY + 2 + MAX_VALUE
            && !Decrypts(m.value[BODY + 2..], m.value[AUTH..BODY], PlainKeys(), password)
  {
    PlainReady(password);
    hide Ready;
    var rng := Rng(Some(Zeros(BLOCK)));
    var m1 := SetAuth(EmptyRequest(), Zeros(BLOCK));
    PlainChain(password, m1[AUTH..BODY] + []);
    PasswordRecovered(EmptyRequest(), password, None, PlainKeys(), rng, false);
    EncryptedPassword(m1, password, PlainKeys());
    hide Chain;
    hide Decrypts;
    var m := Signed(EmptyRequest(), password, None, PlainKeys(), rng, false).value;
    assert |EmptyRequest()| == BODY && m == WithPassword(m1, password, PlainKeys()).value;
    assert |m| == BODY + 2 + MAX_VALUE;
    FullSlice(m);
  }

  // ---------------------------------------------------------------- the message object

  lemma ItemsEnd(left: bytes, at: nat)
    requires |left| < 2 || left[1] as int > |left|
    ensures !Loops(left) && FirstAuth(Items(left, at)) == None && !Has(Items(left, at), EAP_MESSAGE)
  {
  }

  /** What the enumerator's first attribute contributes. */
  lemma ItemsHead(left: bytes, at: nat)
    requires |left| >= 2 && left[1] as int <= |left|
    ensures Loops(left) <==> left[0] != MESSAGE_AUTHENTICATOR && (left[1] == 0 || Loops(left[left[1]..]))
    ensures left[0] == MESSAGE_AUTHENTICATOR ==>
              FirstAuth(Items(left, at)) == Some(Item(left[0], at + 2, if left[1] < 2 then [] else left[2..left[1]]))
    ensures left[0] != MESSAGE_AUTHENTICATOR && left[1] > 0 ==>
              var rest := Items(left[left[1]..], at + left[1]);
              && FirstAuth(Items(left, at)) == FirstAuth(rest)
              && (Has(Items(left, at), EAP_MESSAGE) <==> left[0] == EAP_MESSAGE || Has(rest, EAP_MESSAGE))
  {
    var items := Items(left, at);
    assert left[1] > 0 ==> items[1..] == Items(left[left[1]..], at + left[1]);
    hide Items;
    assert forall i :: 0 < i < |items| ==> items[i] == items[1..][i - 1];
    if i :| 0 <= i < |items| && items[i].kind == EAP_MESSAGE {
    }
  }

  lemma KeepsLength(before: bytes, after: bytes)
    requires WellFormed(before) && |after| == |before| && after[..AUTH] == before[..AUTH]
    ensures WellFormed(after)
  {
    assert before[2..4] == before[..AUTH][2..4] == after[..AUTH][2..4] == after[2..4];
  }

  class RadiusMessage {
    var msg: bytes
    var password: array<byte>

    ghost predicate Valid()
      reads this, password
    {
      WellFormed(msg) && password.Length % BLOCK == 0
    }

    constructor (code: byte)
      ensures Valid() && msg == [code, 0] + U16(BODY) + Zeros(BLOCK) && password.Length == 0 && fresh(password)
    {
      msg := [code, 0] + U16(BODY) + Zeros(BLOCK);
      password := new byte[0];
    }

    /** Takes a received packet whose length was checked. */
    constructor Parse(data: bytes)
      requires WellFormed(data)
      ensures Valid() && msg == data && password.Length == 0 && fresh(password)
    {
      msg := data;
      password := new byte[0];
    }

    /** A first User-Password is kept aside, to be encrypted when the message is signed.  Beyond 65535
        bytes the length field wraps, and the message is no longer well-formed. */
    method Add(kind: byte, data: bytes)
      requires Valid()
      modifies this
      ensures |msg| < 0x1_0000 ==> Valid()
      ensures if kind == USER_PASSWORD && old(password.Length) == 0
              then msg == old(msg) && fresh(password) && password[..] == Pad16(data)
              else msg == Append(old(msg), kind, data) && password == old(password)
    {
      if kind == USER_PASSWORD && password.Length == 0 {
        var padded := Pad16(data);
        password := new byte[|padded|](i requires 0 <= i < |padded| => padded[i]);
        assert password[..] == padded;
        return;
      }
      msg := Append(msg, kind, data);
    }

    /** Encrypts the pending password in its own buffer and adds it. */
    method FlushPassword(keys: Keys) returns (ok: bool)
      requires Valid() && keys.Lawful()
      modifies this, password
      ensures match WithPassword(old(msg), old(password[..]), keys)
              case None => !ok
              case Some(m) => ok && msg == m && password.Length == 0
      ensures ok ==> |msg| == |old(msg)| + PasswordSize(old(password.Length))
      ensures ok && |msg| < 0x1_0000 ==> Valid()
    {
      hide Chain;
      if password.Length == 0 {
        return true;
      }
      assert Blocks(password.Length);
      ChainKeepsLength(password[..], msg[AUTH..BODY] + [], keys);
      ok := Crypt(msg[AUTH..BODY], [], password, password, keys.secret, keys.hasher);
      if ok {
        Add(USER_PASSWORD, password[..]);
        password := new byte[0];
      }
    }

    /** Adds a Message-Authenticator of zeroes, then puts the HMAC in its place. */
    method AddMac(keys: Keys) returns (ok: bool)
      requires Valid() && keys.Lawful()
      modifies `msg
      ensures match WithMac(old(msg), keys, true)
              case None => !ok
              case Some(m) => ok && msg == m
      ensures |msg| >= BODY
    {
      msg := Append(msg, MESSAGE_AUTHENTICATOR, Zeros(BLOCK));
      match keys.signer.sign(msg)
      case None => return false;
      case Some(mac) =>
        msg := msg[..|msg| - BLOCK] + mac;
        return true;
    }

    method Sign(reqAuth: Option<bytes>, keys: Keys, rng: Rng, msgAuth: bool) returns (ok: bool)
      requires Valid() && Ready(msg, password[..], reqAuth, keys, rng, msgAuth)
      modifies this, password
      ensures match Signed(old(msg), old(password[..]), reqAuth, keys, rng, msgAuth)
              case None => !ok
              case Some(m) => ok && msg == m && password.Length == 0
    {
      hide WithPassword;
      hide Append;
      ghost var before := msg;
      if rng.NoRng? {
        msg := SetAuth(msg, RequestAuth(reqAuth));
      } else if rng.draw.None? {
        return false;
      } else {
        msg := SetAuth(msg, rng.draw.value);
      }
      KeepsLength(before, msg);
      ok := FlushPassword(keys);
      if !ok {
        return;
      }
      if msgAuth {
        ok := AddMac(keys);
        if !ok {
          return;
        }
      }
      if rng.NoRng? {
        match keys.hasher.hash(msg + keys.secret)
        case None => return false;
        case Some(h) => msg := SetAuth(msg, h);
      }
    }

    /** Computes the HMAC with zeroes in place of the Message-Authenticator and restores it. */
    method CheckMac(at: nat, keys: Keys) returns (same: bool)
      requires at + BLOCK <= |msg|
      modifies `msg
      ensures same == (keys.signer.sign(Zeroed(old(msg), at)) == Some(old(msg)[at..at + BLOCK]))
      ensures same ==> msg == old(msg)
    {
      var buf := msg[at..at + BLOCK];
      msg := Zeroed(msg, at);
      same := keys.signer.sign(msg) == Some(buf);
      if same {
        msg := msg[..at] + buf + msg[at + BLOCK..];
      }
    }

    /** Runs through the attributes up to a Message-Authenticator, which decides. */
    method CheckAttributes(keys: Keys) returns (loops: bool, attested: Option<bool>, hasEap: bool)
      requires |msg| >= BODY && keys.Lawful()
      modifies `msg
      ensures loops == Loops(old(msg)[BODY..])
      ensures !loops ==>
                var items := Items(old(msg)[BODY..], BODY);
                match FirstAuth(items)
                case None => attested == None && (hasEap <==> Has(items, EAP_MESSAGE))
                case Some(item) =>
                  attested == Some(|item.data| == BLOCK && keys.signer.sign(Zeroed(old(msg), item.at)) == Some(item.data))
      ensures attested != Some(false) ==> msg == old(msg)
    {
      hide Has;
      hide Items;
      hide FirstAuth;
      hide Loops;
      hide Zeroed;
      var left, at := msg[BODY..], BODY;
      ghost var items := Items(left, at);
      hasEap := false;
      while |left| >= 2 && left[1] as int <= |left|
        invariant at >= BODY && at + |left| == |msg| && left == msg[at..] && msg == old(msg)
        invariant Loops(msg[BODY..]) == Loops(left)
        invariant FirstAuth(items) == FirstAuth(Items(left, at))
        invariant Has(items, EAP_MESSAGE) <==> hasEap || Has(Items(left, at), EAP_MESSAGE)
        decreases |left|
      {
        var kind, size := left[0], left[1];
        ItemsHead(left, at);
        if kind == MESSAGE_AUTHENTICATOR {
          if size as int - 2 != BLOCK {
            return false, Some(false), hasEap;
          }
          TailSlice(msg, at, 2, size);
          var same := CheckMac(at + 2, keys);
          return false, Some(same), hasEap;
        }
        if size == 0 {
          return true, None, hasEap;
        }
        hasEap := hasEap || kind == EAP_MESSAGE;
        assert left[size..] == msg[at + size as int..];
        left, at := left[size..], at + size;
      }
      ItemsEnd(left, at);
      return false, None, hasEap;
    }

    /** Checks the authenticators, overwriting them for the computation and putting them back; None
        stands for a search that does not end. */
    method Verify(reqAuth: Option<bytes>, keys: Keys) returns (ok: Option<bool>)
      requires Valid() && keys.Lawful() && (reqAuth.Some? ==> |reqAuth.value| == BLOCK)
      modifies `msg
      ensures ok == Verdict(old(msg), reqAuth, keys)
      ensures ok == Some(true) ==> msg == old(msg)
    {
      hide Has;
      hide FirstAuth;
      hide Items;
      hide Loops;
      var resAuth := msg[AUTH..BODY];
      if msg[0] != ACCESS_REQUEST {
        msg := SetAuth(msg, RequestAuth(reqAuth));
        if keys.hasher.hash(msg + keys.secret) != Some(resAuth) {
          return Some(false);
        }
      }
      assert msg == Swapped(old(msg), reqAuth);
      var loops, attested, hasEap := CheckAttributes(keys);
      if loops {
        return None;
      }
      if attested == Some(false) {
        return Some(false);
      }
      if msg[0] != ACCESS_REQUEST {
        msg := SetAuth(msg, resAuth);
      }
      ok := Some(attested.Some? || !hasEap);
    }
  }
}
