/** RADIUS messages as RFC 2865 and RFC 3579 describe them: what signing writes and what verifying accepts,
    byte by byte. */
module RadiusFormat {
  import opened Bytes
  import opened RadiusCipher
  import opened RadiusMessages

  // ---------------------------------------------------------------- signing

  /** `b` continues `a`: code, identifier, authenticator and attributes are still there, and the length field
      is right again. */
  ghost predicate Grown(a: bytes, b: bytes) {
    && 20 <= |a| <= |b| && b[..2] == a[..2] && b[4..|a|] == a[4..]
    && (WellFormed(a) && |b| < 0x1_0000 ==> WellFormed(b))
  }

  lemma GrownTwice(a: bytes, b: bytes, c: bytes)
    requires Grown(a, b) && Grown(b, c)
    ensures Grown(a, c)
  {
    hide WellFormed;
    assert c[4..|a|] == c[4..|b|][..|a| - 4] == b[4..][..|a| - 4] == b[4..|a|];
  }

  lemma AppendGrows(msg: bytes, kind: byte, data: bytes)
    requires |msg| >= 20
    ensures Grown(msg, Append(msg, kind, data))
  {
    hide WellFormed;
    var e := Encode(kind, data);
    hide Encode;
    var r := Append(msg, kind, data);
    assert r[4..|msg|] == r[4..][..|msg| - 4] == msg[4..];
  }

  /** A User-Password at offset `at`: as much of the encrypted password as one attribute takes. */
  ghost predicate HasPassword(m: bytes, at: nat, password: bytes, auth: bytes, keys: Keys) {
    password != [] ==>
      && |password| % 16 == 0 && at + 2 + Min(|password|, 253) <= |m|
      && var c := Chain(password, auth, keys.secret, keys.hasher, true);
         && c.Some? && |c.value| == |password|
         && m[at] == 2 && m[at + 1] as int == 2 + Min(|password|, 253)
         && m[at + 2..at + 2 + Min(|password|, 253)] == c.value[..Min(|password|, 253)]
  }

  /** A Message-Authenticator at the end: the HMAC over `base` with zeroes in its place. */
  ghost predicate HasMac(m: bytes, base: bytes, keys: Keys) {
    && |m| == |base| >= 18 && m[|m| - 18] == 80 && m[|m| - 17] == 18
    && keys.signer.sign(base[..|base| - 16] + Zeros(16)) == Some(m[|m| - 16..])
  }

  lemma PasswordFormat(msg: bytes, password: bytes, keys: Keys)
    requires |msg| >= 20 && |password| % 16 == 0 && WithPassword(msg, password, keys).Some?
    ensures var m := WithPassword(msg, password, keys).value;
            && Grown(msg, m) && |m| == |msg| + PasswordSize(|password|)
            && HasPassword(m, |msg|, password, msg[4..20], keys)
  {
    if password == [] {
      assert msg[4..|msg|] == msg[4..];
    } else {
      assert msg[4..20] + [] == msg[4..20];
      var c := Chain(password, msg[4..20], keys.secret, keys.hasher, true).value;
      ChainLength(password, msg[4..20], keys.secret, keys.hasher, true);
      hide Chain;
      AppendGrows(msg, USER_PASSWORD, c);
      AppendedValue(msg, USER_PASSWORD, c);
      var m, e := Append(msg, USER_PASSWORD, c), Encode(USER_PASSWORD, c);
      SliceOfJoin(m, msg, e, 4);
      assert m[|msg|..][1] == e[1];
      FullSlice(m);
    }
  }

  lemma MacFormat(msg: bytes, keys: Keys, msgAuth: bool)
    requires |msg| >= 20 && keys.Lawful() && WithMac(msg, keys, msgAuth).Some?
    ensures var m := WithMac(msg, keys, msgAuth).value;
            && Grown(msg, m) && |m| == |msg| + (if msgAuth then 18 else 0)
            && (msgAuth ==> HasMac(m, m, keys))
  {
    if !msgAuth {
      assert msg[4..|msg|] == msg[4..];
    } else {
      var blank := Append(msg, MESSAGE_AUTHENTICATOR, Zeros(16));
      var mac := keys.signer.sign(blank).value;
      var m := blank[..|blank| - 16] + mac;
      AppendGrows(msg, MESSAGE_AUTHENTICATOR, Zeros(16));
      AppendedValue(msg, MESSAGE_AUTHENTICATOR, Zeros(16));
      MacTail(msg, mac);
      var e := Encode(MESSAGE_AUTHENTICATOR, Zeros(16));
      SliceOfJoin(blank, msg, e, 4);
      assert blank[|msg|..][1] == e[1];
      hide Append;
      assert Zeros(16)[..16] == Zeros(16);
      assert blank == blank[..|blank| - 16] + Zeros(16);
      assert m[..|m| - 16] == blank[..|blank| - 16];
      assert m[..2] == blank[..2] && m[4..|msg|] == blank[4..|msg|] && m[2..4] == blank[2..4];
    }
  }

  /** The authenticator signing works with: a random one, or that of the request. */
  function Base(reqAuth: Option<bytes>, rng: Rng): bytes
    requires rng.Rng? ==> rng.draw.Some?
  {
    if rng.Rng? then rng.draw.value else if reqAuth.Some? then reqAuth.value else Zeros(16)
  }

  /** What a signed message is made of: the message, then the encrypted password, then the
      Message-Authenticator; and its authenticator is the random one or the hash over the message with the
      request's authenticator and the secret. */
  ghost predicate SignedAs(m: bytes, msg: bytes, password: bytes, auth: bytes, keys: Keys, random: bool, msgAuth: bool) {
    && 20 <= |msg| <= |m| == |msg| + PasswordSize(|password|) + (if msgAuth then 18 else 0)
    && WellFormed(m) && m[..2] == msg[..2] && m[20..|msg|] == msg[20..]
    && var base := m[..4] + auth + m[20..];
       && (if random then m[4..20] == auth else keys.hasher.hash(base + keys.secret) == Some(m[4..20]))
       && HasPassword(m, |msg|, password, auth, keys) && (msgAuth ==> HasMac(m, base, keys))
  }

  lemma SamePassword(m: bytes, other: bytes, at: nat, password: bytes, auth: bytes, keys: Keys)
    requires HasPassword(m, at, password, auth, keys) && at <= |m| <= |other| && other[at..|m|] == m[at..]
    ensures HasPassword(other, at, password, auth, keys)
  {
    hide Chain;
    if password != [] {
      var n := Min(|password|, 253);
      assert m[at..][0] == m[at] && m[at..][1] == m[at + 1];
      assert other[at..|m|][0] == other[at] && other[at..|m|][1] == other[at + 1];
      SameSlice(other, m, at, at + 2, at + 2 + n);
    }
  }

  lemma SplitAtAuth(m: bytes)
    requires |m| >= 20
    ensures m[..4] + m[4..20] + m[20..] == m
  {
  }

  /** The message before its last authenticator is put in. */
  lemma Unhashed(msg: bytes, password: bytes, auth: bytes, keys: Keys, msgAuth: bool, m1: bytes, m2: bytes, m4: bytes)
    requires WellFormed(msg) && |auth| == 16 && |password| % 16 == 0 && keys.Lawful()
    requires |msg| + PasswordSize(|password|) + (if msgAuth then 18 else 0) < 0x1_0000
    requires m1 == SetAuth(msg, auth)
    requires WithPassword(m1, password, keys) == Some(m2) && |m2| >= 20 && WithMac(m2, keys, msgAuth) == Some(m4)
    ensures SignedAs(m4, msg, password, auth, keys, true, msgAuth)
  {
    hide Chain;
    hide WithPassword;
    hide WithMac;
    hide HasPassword;
    hide HasMac;
    PasswordFormat(m1, password, keys);
    MacFormat(m2, keys, msgAuth);
    KeepsLength(msg, m1);
    GrownTwice(m1, m2, m4);
    hide WellFormed;
    SameSlice(m4, m1, 4, 4, 20);
    SameSlice(m4, m1, 4, 20, |msg|);
    SameSlice(m4, m2, 4, |msg|, |m2|);
    FullSlice(m1);
    FullSlice(m2);
    SplitAtAuth(m4);
    assert m1[..4][..2] == m1[..2] && msg[..4][..2] == msg[..2];
    SamePassword(m2, m4, |msg|, password, auth, keys);
  }

  lemma SameFrom(a: bytes, b: bytes, at: nat, k: nat)
    requires |a| == |b| && at <= k <= |a| && a[at..] == b[at..]
    ensures a[k..] == b[k..] && a[at..k] == b[at..k] && (k < |a| ==> a[k] == b[k])
  {
    assert a[at..][k - at..] == a[k..] && b[at..][k - at..] == b[k..];
    assert a[at..][..k - at] == a[at..k] && b[at..][..k - at] == b[at..k];
    assert k < |a| ==> a[at..][k - at] == a[k] && b[at..][k - at] == b[k];
  }

  lemma Rehashed(m4: bytes, h: bytes, msg: bytes, password: bytes, auth: bytes, keys: Keys, msgAuth: bool)
    requires SignedAs(m4, msg, password, auth, keys, true, msgAuth) && |h| == 16
    requires keys.hasher.hash(m4 + keys.secret) == Some(h)
    ensures SignedAs(SetAuth(m4, h), msg, password, auth, keys, false, msgAuth)
  {
    hide HasPassword;
    var m := SetAuth(m4, h);
    KeepsLength(m4, m);
    hide WellFormed;
    SplitAtAuth(m4);
    hide SetAuth;
    assert m[..4][..2] == m[..2] && m4[..4][..2] == m4[..2];
    SameFrom(m, m4, 20, |msg|);
    FullSlice(m4);
    FullSlice(m);
    SamePassword(m4, m, |msg|, password, auth, keys);
    if msgAuth {
      SameFrom(m, m4, 20, |m| - 18);
      SameFrom(m, m4, 20, |m| - 17);
      SameFrom(m, m4, 20, |m| - 16);
    }
  }

  /** Every message that gets signed is as described. */
  lemma SignedFormat(msg: bytes, password: bytes, reqAuth: Option<bytes>, keys: Keys, rng: Rng, msgAuth: bool)
    requires Ready(msg, password, reqAuth, keys, rng, msgAuth) && Signed(msg, password, reqAuth, keys, rng, msgAuth).Some?
    ensures SignedAs(Signed(msg, password, reqAuth, keys, rng, msgAuth).value, msg, password, Base(reqAuth, rng), keys,
                     rng.Rng?, msgAuth)
  {
    hide WithPassword;
    hide WithMac;
    hide SignedAs;
    hide WellFormed;
    var auth := Base(reqAuth, rng);
    var m1 := SetAuth(msg, auth);
    var m2 := WithPassword(m1, password, keys).value;
    assert |m2| >= 20 by { PasswordFormat(m1, password, keys); }
    var m4 := WithMac(m2, keys, msgAuth).value;
    Unhashed(msg, password, auth, keys, msgAuth, m1, m2, m4);
    if !rng.Rng? {
      Rehashed(m4, keys.hasher.hash(m4 + keys.secret).value, msg, password, auth, keys, msgAuth);
    }
  }

  // ---------------------------------------------------------------- verifying

  /** The first attribute of a kind. */
  ghost predicate IsFirst(items: seq<Item>, i: int, kind: byte) {
    0 <= i < |items| && items[i].kind == kind && forall j :: 0 <= j < i ==> items[j].kind != kind
  }

  lemma {:induction false} FirstAuthIs(items: seq<Item>, i: int)
    requires IsFirst(items, i, 80)
    ensures FirstAuth(items) == Some(items[i])
    decreases i
  {
    if i > 0 {
      assert items[0].kind != 80;
      assert IsFirst(items[1..], i - 1, 80);
      FirstAuthIs(items[1..], i - 1);
    }
  }

  lemma {:induction false} SomeFirst(items: seq<Item>, k: nat)
    requires k < |items| && items[k].kind == 80
    ensures exists i :: IsFirst(items, i, 80)
  {
    if j :| 0 <= j < k && items[j].kind == 80 {
      SomeFirst(items, j);
    } else {
      assert IsFirst(items, k, 80);
    }
  }

  /** There are attributes, none is a Message-Authenticator, and the last has a length field of 0. */
  ghost predicate EndsInZero(rest: bytes, at: nat, items: seq<Item>) {
    && items != [] && (forall i :: 0 <= i < |items| ==> items[i].kind != 80)
    && at + 2 <= items[|items| - 1].at <= at + |rest| && rest[items[|items| - 1].at - 1 - at] == 0
  }

  lemma EndsInZeroCons(rest: bytes, n: nat, at: nat, item: Item, later: seq<Item>)
    requires 0 < n <= |rest| && later != [] && at + n + 2 <= later[|later| - 1].at <= at + |rest|
    ensures EndsInZero(rest, at, [item] + later) <==> item.kind != 80 && EndsInZero(rest[n..], at + n, later)
  {
    var items := [item] + later;
    assert items[0] == item && forall i :: 0 < i < |items| ==> items[i] == later[i - 1];
    assert forall i :: 0 <= i < |later| ==> later[i] == items[i + 1];
    assert (forall i :: 0 <= i < |items| ==> items[i].kind != 80) <==>
           item.kind != 80 && forall i :: 0 <= i < |later| ==> later[i].kind != 80;
    assert items[|items| - 1] == later[|later| - 1];
    assert rest[n..][later[|later| - 1].at - 1 - (at + n)] == rest[later[|later| - 1].at - 1 - at];
  }

  /** How search and enumeration go on behind an attribute with a length. */
  lemma LaterItems(rest: bytes, at: nat)
    requires |rest| >= 2 && rest[1] as int <= |rest| && rest[1] > 0
    ensures var item := Item(rest[0], at + 2, if rest[1] < 2 then [] else rest[2..rest[1]]);
            Items(rest, at) == [item] + Items(rest[rest[1]..], at + rest[1])
    ensures Loops(rest) <==> rest[0] != 80 && Loops(rest[rest[1]..])
  {
  }

  /** The search ends, or does not, with the first attribute. */
  lemma LastItem(rest: bytes, at: nat)
    requires |rest| < 2 || rest[1] as int > |rest| || rest[1] == 0
    ensures Loops(rest) <==> EndsInZero(rest, at, Items(rest, at))
  {
  }

  lemma EndsOf(rest: bytes, n: nat, at: nat, item: Item)
    requires 2 <= |rest| && n == rest[1] as int && 0 < n <= |rest| && item.at == at + 2
    ensures !EndsInZero(rest, at, [item]) && !EndsInZero(rest[n..], at + n, [])
  {
  }

  /** A search for a Message-Authenticator does not end exactly when there is none and the last attribute found
      has a length field of 0. */
  lemma {:induction false} LoopsExactly(rest: bytes, at: nat)
    ensures Loops(rest) <==> EndsInZero(rest, at, Items(rest, at))
    decreases |rest|
  {
    hide Items;
    hide Loops;
    hide EndsInZero;
    if |rest| >= 2 && rest[1] as int <= |rest| && rest[1] > 0 {
      var item := Item(rest[0], at + 2, if rest[1] < 2 then [] else rest[2..rest[1]]);
      var tail, later := rest[rest[1]..], Items(rest[rest[1]..], at + rest[1]);
      LaterItems(rest, at);
      LoopsExactly(tail, at + rest[1]);
      if later == [] {
        EndsOf(rest, rest[1], at, item);
        assert [item] + later == [item];
      } else {
        ItemsLie(tail, at + rest[1], |later| - 1);
        EndsInZeroCons(rest, rest[1], at, item, later);
      }
    } else {
      LastItem(rest, at);
    }
  }

  /** The message responses are computed over: with the request's authenticator in it. */
  function Computed(msg: bytes, reqAuth: Option<bytes>): bytes
    requires |msg| >= 20
  {
    if msg[0] == 1 then msg else msg[..4] + (if reqAuth.Some? then reqAuth.value else Zeros(16)) + msg[20..]
  }

  /** The first Message-Authenticator (attribute 80), if there is one, has 16 bytes and is the HMAC over the
      message with zeroes in its place, and there is one if there is an EAP-Message (attribute 79). */
  ghost predicate Vouched(m: bytes, items: seq<Item>, keys: Keys) {
    && (forall i :: IsFirst(items, i, 80) ==>
          && |items[i].data| == 16 && items[i].at + 16 <= |m|
          && keys.signer.sign(m[..items[i].at] + Zeros(16) + m[items[i].at + 16..]) == Some(items[i].data))
    && ((exists i :: 0 <= i < |items| && items[i].kind == 79) ==> exists i :: IsFirst(items, i, 80))
  }

  lemma NoFirst(items: seq<Item>)
    requires forall i :: !IsFirst(items, i, 80)
    ensures FirstAuth(items) == None
  {
    forall k | 0 <= k < |items|
      ensures items[k].kind != 80
    {
      if items[k].kind == 80 {
        SomeFirst(items, k);
        assert false;
      }
    }
    hide FirstAuth;
  }

  lemma VouchedBy(m: bytes, items: seq<Item>, i: int, keys: Keys)
    requires IsFirst(items, i, 80) && items[i].at + |items[i].data| <= |m|
    ensures Vouched(m, items, keys) <==>
            |items[i].data| == 16 && keys.signer.sign(Zeroed(m, items[i].at)) == Some(items[i].data)
  {
    assert forall k :: IsFirst(items, k, 80) ==> k == i;
    assert |items[i].data| == 16 ==>
             Zeroed(m, items[i].at) == m[..items[i].at] + Zeros(16) + m[items[i].at + 16..];
    hide Zeroed;
  }

  lemma VouchedByNone(m: bytes, items: seq<Item>, keys: Keys)
    requires forall i :: !IsFirst(items, i, 80)
    ensures Vouched(m, items, keys) <==> !Has(items, 79)
  {
    hide IsFirst;
  }

  lemma VouchedExactly(m: bytes, keys: Keys)
    requires |m| >= 20
    ensures Attested(m, keys) <==> Vouched(m, Items(m[20..], 20), keys)
  {
    var items := Items(m[20..], 20);
    hide Items;
    if i :| IsFirst(items, i, 80) {
      FirstAuthIs(items, i);
      ItemsLie(m[20..], 20, i);
      VouchedBy(m, items, i, keys);
    } else {
      NoFirst(items);
      VouchedByNone(m, items, keys);
    }
    hide FirstAuth;
    hide IsFirst;
    hide Vouched;
    hide Has;
  }

  lemma ComputedIs(msg: bytes, reqAuth: Option<bytes>)
    requires |msg| >= 20 && (reqAuth.Some? ==> |reqAuth.value| == 16)
    ensures Computed(msg, reqAuth) == Swapped(msg, reqAuth) && Computed(msg, reqAuth)[20..] == msg[20..]
    ensures |Computed(msg, reqAuth)| == |msg|
  {
  }

  /** For any message: a response (any code but 1) whose authenticator is not the hash over the computed
      message and the secret is refused; otherwise there is no answer exactly when the search loops, and the
      message is accepted exactly when its Message-Authenticator vouches for it. */
  lemma VerdictExactly(msg: bytes, reqAuth: Option<bytes>, keys: Keys)
    requires |msg| >= 20 && (reqAuth.Some? ==> |reqAuth.value| == 16)
    ensures var m, items := Computed(msg, reqAuth), Items(msg[20..], 20);
            var answer := Verdict(msg, reqAuth, keys);
            if msg[0] != 1 && keys.hasher.hash(m + keys.secret) != Some(msg[4..20]) then answer == Some(false)
            else
              && (answer == None <==> EndsInZero(msg[20..], 20, items))
              && (answer == Some(true) <==> answer != None && Vouched(m, items, keys))
  {
    hide Loops;
    hide Items;
    hide Attested;
    hide Vouched;
    hide EndsInZero;
    ComputedIs(msg, reqAuth);
    LoopsExactly(msg[20..], 20);
    var m := Computed(msg, reqAuth);
    VouchedExactly(m, keys);
    hide Computed;
    hide Swapped;
  }
}
