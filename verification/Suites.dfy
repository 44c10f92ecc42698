/** Negotiation of the TLS cipher suite: filters over the table of suites, and the choice. */
module Suites {
  import opened Bytes

  const ENCR_NULL: nat := 11
  const ENCR_3DES: nat := 3
  const ENCR_AES_CBC: nat := 12
  const ENCR_AES_GCM_ICV16: nat := 20
  const ENCR_CAMELLIA_CBC: nat := 23
  const AUTH_UNDEFINED: nat := 1024
  const AUTH_HMAC_MD5_128: nat := 6
  const AUTH_HMAC_SHA1_160: nat := 7
  const AUTH_HMAC_SHA2_256_256: nat := 1027
  const AUTH_HMAC_SHA2_384_384: nat := 1028
  const MODP_NONE: nat := 0

  datatype Key = Rsa | Ecdsa

  datatype Suite = Suite(suite: nat, key: Key, dh: nat, hash: nat, prf: nat, mac: nat, encr: nat, encrSize: nat)

  // ---------------------------------------------------------------- order-preserving filters

  function Filter<T>(s: seq<T>, keep: T -> bool): (r: seq<T>)
    ensures |r| <= |s|
  {
    if s == [] then []
    else Filter(s[..|s| - 1], keep) + if keep(s[|s| - 1]) then [s[|s| - 1]] else []
  }

  /** The positions that are kept. */
  function Positions<T>(s: seq<T>, keep: T -> bool): seq<nat> {
    if s == [] then []
    else Positions(s[..|s| - 1], keep) + if keep(s[|s| - 1]) then [|s| - 1] else []
  }

  /** `r` is what stands at the increasing positions `at` of `s`, and these are the positions kept. */
  ghost predicate Selects<T>(s: seq<T>, keep: T -> bool, r: seq<T>, at: seq<nat>) {
    && |r| == |at|
    && (forall i :: 0 <= i < |at| ==> at[i] < |s| && r[i] == s[at[i]] && keep(r[i]))
    && (forall i, j :: 0 <= i < j < |at| ==> at[i] < at[j])
    && (forall k :: 0 <= k < |s| && keep(s[k]) ==> k in at)
  }

  lemma SelectsSnoc<T>(s: seq<T>, keep: T -> bool, r: seq<T>, at: seq<nat>)
    requires s != [] && Selects(s[..|s| - 1], keep, r, at)
    ensures keep(s[|s| - 1]) ==> Selects(s, keep, r + [s[|s| - 1]], at + [|s| - 1])
    ensures !keep(s[|s| - 1]) ==> Selects(s, keep, r, at)
  {
    var init, last := s[..|s| - 1], |s| - 1;
    assert forall k :: 0 <= k < last ==> init[k] == s[k];
    var at' := at + [last];
    assert at'[|at|] == last;
    forall k: nat | k in at
      ensures k in at'
    {
      var i :| 0 <= i < |at| && at[i] == k;
      assert at'[i] == k;
    }
  }

  /** A filter keeps exactly the elements that satisfy the predicate, in their order. */
  lemma {:induction false} FilterIsSublist<T>(s: seq<T>, keep: T -> bool)
    ensures Selects(s, keep, Filter(s, keep), Positions(s, keep))
  {
    if s != [] {
      var init := s[..|s| - 1];
      FilterIsSublist(init, keep);
      SelectsSnoc(s, keep, Filter(init, keep), Positions(init, keep));
      hide Selects;
      assert Filter(init, keep) + [] == Filter(init, keep) && Positions(init, keep) + [] == Positions(init, keep);
    }
  }

  function Both<T>(p: T -> bool, q: T -> bool): T -> bool {
    x => p(x) && q(x)
  }

  /** Two passes are one pass with both predicates. */
  lemma {:induction false} FilterTwice<T>(s: seq<T>, p: T -> bool, q: T -> bool)
    ensures Filter(Filter(s, p), q) == Filter(s, Both(p, q))
  {
    if s != [] {
      var init, last := s[..|s| - 1], s[|s| - 1];
      FilterTwice(init, p, q);
      var f := Filter(init, p);
      if p(last) {
        assert (f + [last])[..|f|] == f;
      } else {
        assert f + [] == f;
      }
    }
  }

  lemma {:induction false} FilterSame<T>(s: seq<T>, p: T -> bool, q: T -> bool)
    requires forall x :: x in s ==> p(x) == q(x)
    ensures Filter(s, p) == Filter(s, q)
  {
    if s != [] {
      FilterSame(s[..|s| - 1], p, q);
    }
  }

  /** The passes compact the array in place. */
  method Compact(suites: array<Suite>, count: nat, keep: Suite -> bool) returns (remaining: nat)
    requires count <= suites.Length
    modifies suites
    ensures remaining <= count && suites[..remaining] == Filter(old(suites[..count]), keep)
  {
    ghost var before := suites[..];
    remaining := 0;
    var i := 0;
    while i < count
      invariant remaining <= i <= count && forall k :: i <= k < suites.Length ==> suites[k] == before[k]
      invariant suites[..remaining] == Filter(before[..i], keep)
    {
      assert before[..i + 1][..i] == before[..i] && before[i] == suites[i];
      ghost var kept := suites[..remaining];
      if keep(suites[i]) {
        suites[remaining] := suites[i];
        remaining := remaining + 1;
        assert suites[..remaining] == kept + [before[i]];
      }
      i := i + 1;
    }
    assert before[..count] == old(suites[..count]);
  }

  // ---------------------------------------------------------------- supported algorithms

  /** What an algorithm enumerator of the crypto factory lists. */
  datatype Field = Crypter | Aead | Signer | Prf | Hash | Dh

  /** CCM, GCM and GMAC with AES, CCM with Camellia, and ChaCha20. */
  predicate IsAead(encr: nat) {
    14 <= encr <= 16 || 18 <= encr <= 21 || 25 <= encr <= 28
  }

  predicate IsEc(group: nat) {
    19 <= group <= 21 || 25 <= group <= 30
  }

  /** One listed algorithm serves the suite; 0 stands for any, and so do the suite's own wildcards. */
  predicate Serves(s: Suite, field: Field, alg: nat) {
    alg == 0 ||
    match field
    case Crypter => alg == s.encr || s.encr == ENCR_NULL
    case Aead => alg == s.encr || s.encr == ENCR_NULL
    case Signer => alg == s.mac || s.mac == AUTH_UNDEFINED
    case Prf => alg == s.prf
    case Hash => alg == s.hash
    case Dh => alg == s.dh || s.dh == MODP_NONE
  }

  /** The pass does not concern this suite. */
  predicate Exempt(s: Suite, field: Field) {
    (field == Crypter && IsAead(s.encr)) || (field == Aead && !IsAead(s.encr))
  }

  predicate Supported(s: Suite, field: Field, algs: seq<nat>) {
    Exempt(s, field) || exists i :: 0 <= i < |algs| && Serves(s, field, algs[i])
  }

  /** Runs through the enumerated algorithms until one serves. */
  method FindsOne(s: Suite, field: Field, algs: seq<nat>) returns (found: bool)
    ensures found == Supported(s, field, algs)
  {
    if Exempt(s, field) {
      return true;
    }
    hide Serves;
    var j := 0;
    while j < |algs|
      invariant j <= |algs| && forall i :: 0 <= i < j ==> !Serves(s, field, algs[i])
    {
      if Serves(s, field, algs[j]) {
        return true;
      }
      j := j + 1;
    }
    return false;
  }

  method FilterSuite(suites: array<Suite>, count: nat, field: Field, algs: seq<nat>) returns (remaining: nat)
    requires count <= suites.Length
    modifies suites
    ensures remaining <= count && suites[..remaining] == Filter(old(suites[..count]), s => Supported(s, field, algs))
  {
    hide Supported;
    ghost var before := suites[..];
    ghost var keep := (s: Suite) => Supported(s, field, algs);
    remaining := 0;
    var i := 0;
    while i < count
      invariant remaining <= i <= count && forall k :: i <= k < suites.Length ==> suites[k] == before[k]
      invariant suites[..remaining] == Filter(before[..i], keep)
    {
      assert before[..i + 1][..i] == before[..i] && before[i] == suites[i];
      ghost var kept := suites[..remaining];
      var supported := FindsOne(suites[i], field, algs);
      if supported {
        suites[remaining] := suites[i];
        remaining := remaining + 1;
        assert suites[..remaining] == kept + [before[i]];
      }
      i := i + 1;
    }
    assert before[..count] == old(suites[..count]);
  }

  // ---------------------------------------------------------------- configuration

  /** The settings that restrict the list; a missing setting restricts nothing. */
  datatype Config = Config(requireEncryption: bool, rsa: bool, ecdsa: bool, algs: Field -> seq<nat>,
                           keyExchange: Option<seq<string>>, cipher: Option<seq<string>>, mac: Option<seq<string>>,
                           suites: Option<seq<string>>, names: string -> Option<nat>)

  function Lower(c: char): char {
    if 'A' <= c <= 'Z' then (c as int + 32) as char else c
  }

  predicate CaseEq(a: string, b: string) {
    |a| == |b| && forall i :: 0 <= i < |a| ==> Lower(a[i]) == Lower(b[i])
  }

  predicate KeyExchangeToken(token: string, s: Suite) {
    || (CaseEq(token, "ecdhe-ecdsa") && IsEc(s.dh) && s.key == Ecdsa)
    || (CaseEq(token, "ecdhe-rsa") && IsEc(s.dh) && s.key == Rsa)
    || (CaseEq(token, "dhe-rsa") && !IsEc(s.dh) && s.dh != MODP_NONE && s.key == Rsa)
    || (CaseEq(token, "rsa") && s.dh == MODP_NONE && s.key == Rsa)
  }

  predicate CipherToken(token: string, s: Suite) {
    || (CaseEq(token, "aes128") && s.encr == ENCR_AES_CBC && s.encrSize == 16)
    || (CaseEq(token, "aes256") && s.encr == ENCR_AES_CBC && s.encrSize == 32)
    || (CaseEq(token, "aes128gcm") && s.encr == ENCR_AES_GCM_ICV16 && s.encrSize == 16)
    || (CaseEq(token, "aes256gcm") && s.encr == ENCR_AES_GCM_ICV16 && s.encrSize == 32)
    || (CaseEq(token, "camellia128") && s.encr == ENCR_CAMELLIA_CBC && s.encrSize == 16)
    || (CaseEq(token, "camellia256") && s.encr == ENCR_CAMELLIA_CBC && s.encrSize == 32)
    || (CaseEq(token, "3des") && s.encr == ENCR_3DES)
    || (CaseEq(token, "null") && s.encr == ENCR_NULL)
  }

  predicate MacToken(token: string, s: Suite) {
    || (CaseEq(token, "md5") && s.mac == AUTH_HMAC_MD5_128)
    || (CaseEq(token, "sha1") && s.mac == AUTH_HMAC_SHA1_160)
    || (CaseEq(token, "sha256") && s.mac == AUTH_HMAC_SHA2_256_256)
    || (CaseEq(token, "sha384") && s.mac == AUTH_HMAC_SHA2_384_384)
  }

  /** The token is the name of the suite. */
  function Named(names: string -> Option<nat>): (string, Suite) -> bool {
    (token: string, s: Suite) => names(token) == Some(s.suite)
  }

  predicate SomeFits(s: Suite, tokens: seq<string>, fits: (string, Suite) -> bool) {
    exists i :: 0 <= i < |tokens| && fits(tokens[i], s)
  }

  /** A missing setting admits every suite, another one those that one of its tokens fits. */
  predicate Admits(s: Suite, setting: Option<seq<string>>, fits: (string, Suite) -> bool) {
    setting.None? || SomeFits(s, setting.value, fits)
  }

  /** Runs through the tokens until one fits. */
  method FindsToken(s: Suite, tokens: seq<string>, fits: (string, Suite) -> bool) returns (found: bool)
    ensures found == SomeFits(s, tokens, fits)
  {
    var j := 0;
    while j < |tokens|
      invariant j <= |tokens| && forall i :: 0 <= i < j ==> !fits(tokens[i], s)
    {
      if fits(tokens[j], s) {
        return true;
      }
      j := j + 1;
    }
    return false;
  }

  /** Keeps the suites some token fits. */
  method FilterTokens(suites: array<Suite>, count: nat, tokens: seq<string>, fits: (string, Suite) -> bool)
      returns (remaining: nat)
    requires count <= suites.Length
    modifies suites
    ensures remaining <= count && suites[..remaining] == Filter(old(suites[..count]), s => SomeFits(s, tokens, fits))
  {
    hide SomeFits;
    ghost var before := suites[..];
    ghost var keep := (s: Suite) => SomeFits(s, tokens, fits);
    remaining := 0;
    var i := 0;
    while i < count
      invariant remaining <= i <= count && forall k :: i <= k < suites.Length ==> suites[k] == before[k]
      invariant suites[..remaining] == Filter(before[..i], keep)
    {
      assert before[..i + 1][..i] == before[..i] && before[i] == suites[i];
      ghost var kept := suites[..remaining];
      var found := FindsToken(suites[i], tokens, fits);
      if found {
        suites[remaining] := suites[i];
        remaining := remaining + 1;
        assert suites[..remaining] == kept + [before[i]];
      }
      i := i + 1;
    }
    assert before[..count] == old(suites[..count]);
  }

  /** The conditions of the passes, in the order they run. */
  predicate Passes(s: Suite, c: Config, pass: nat) {
    match pass
    case 0 => c.requireEncryption ==> s.encr != ENCR_NULL
    case 1 => !c.rsa ==> s.key != Rsa
    case 2 => !c.ecdsa ==> s.key != Ecdsa
    case 3 => Supported(s, Crypter, c.algs(Crypter))
    case 4 => Supported(s, Aead, c.algs(Aead))
    case 5 => Supported(s, Signer, c.algs(Signer))
    case 6 => Supported(s, Prf, c.algs(Prf))
    case 7 => Supported(s, Hash, c.algs(Hash))
    case 8 => Supported(s, Dh, c.algs(Dh))
    case 9 => Admits(s, c.keyExchange, KeyExchangeToken)
    case 10 => Admits(s, c.cipher, CipherToken)
    case 11 => Admits(s, c.mac, MacToken)
    case 12 => Admits(s, c.suites, Named(c.names))
    case _ => true
  }

  const PASSES: nat := 13

  predicate PassesFirst(s: Suite, c: Config, n: nat) {
    forall i :: 0 <= i < n ==> Passes(s, c, i)
  }

  /** Everything a suite on the list must satisfy. */
  predicate Acceptable(s: Suite, c: Config) {
    PassesFirst(s, c, PASSES)
  }

  function UpTo(c: Config, n: nat): Suite -> bool {
    s => PassesFirst(s, c, n)
  }

  /** The table after the first `n` passes. */
  function Filtered(table: seq<Suite>, c: Config, n: nat): (r: seq<Suite>)
    ensures |r| <= |table|
  {
    Filter(table, UpTo(c, n))
  }

  lemma NextPass(table: seq<Suite>, c: Config, n: nat, keep: Suite -> bool)
    requires forall s :: keep(s) == Passes(s, c, n)
    ensures Filter(Filtered(table, c, n), keep) == Filtered(table, c, n + 1)
  {
    hide Passes;
    FilterTwice(table, UpTo(c, n), keep);
    FilterSame(table, Both(UpTo(c, n), keep), UpTo(c, n + 1));
  }

  lemma NoPass(table: seq<Suite>, c: Config, n: nat)
    requires forall s :: Passes(s, c, n)
    ensures Filtered(table, c, n) == Filtered(table, c, n + 1)
  {
    hide Passes;
    FilterSame(table, UpTo(c, n), UpTo(c, n + 1));
  }

  lemma {:induction false} FilterAll(table: seq<Suite>)
    ensures Filter(table, s => true) == table
  {
    if table != [] {
      FilterAll(table[..|table| - 1]);
    }
  }

  lemma FirstPass(table: seq<Suite>, c: Config)
    ensures Filtered(table, c, 0) == table
  {
    FilterSame(table, UpTo(c, 0), s => true);
    FilterAll(table);
  }

  /** The pass `n` with its predicate, or no pass when the setting asks for none. */
  method RunPass(suites: array<Suite>, count: nat, wanted: bool, keep: Suite -> bool,
                 ghost table: seq<Suite>, ghost c: Config, ghost n: nat) returns (remaining: nat)
    requires count <= suites.Length && suites[..count] == Filtered(table, c, n)
    requires if wanted then forall s :: keep(s) == Passes(s, c, n) else forall s :: Passes(s, c, n)
    modifies suites
    ensures remaining <= count && suites[..remaining] == Filtered(table, c, n + 1)
  {
    hide Passes;
    hide Filtered;
    if wanted {
      NextPass(table, c, n, keep);
      remaining := Compact(suites, count, keep);
    } else {
      NoPass(table, c, n);
      remaining := count;
    }
  }

  method RunFilter(suites: array<Suite>, count: nat, field: Field, algs: seq<nat>,
                   ghost table: seq<Suite>, ghost c: Config, ghost n: nat) returns (remaining: nat)
    requires count <= suites.Length && suites[..count] == Filtered(table, c, n)
    requires forall s :: Supported(s, field, algs) == Passes(s, c, n)
    modifies suites
    ensures remaining <= count && suites[..remaining] == Filtered(table, c, n + 1)
  {
    hide Filtered;
    NextPass(table, c, n, s => Supported(s, field, algs));
    hide Passes;
    hide Supported;
    remaining := FilterSuite(suites, count, field, algs);
  }

  /** The pass over a setting, if there is one. */
  method RunSetting(suites: array<Suite>, count: nat, setting: Option<seq<string>>, fits: (string, Suite) -> bool,
                    ghost table: seq<Suite>, ghost c: Config, ghost n: nat) returns (remaining: nat)
    requires count <= suites.Length && suites[..count] == Filtered(table, c, n)
    requires forall s :: Admits(s, setting, fits) == Passes(s, c, n)
    modifies suites
    ensures remaining <= count && suites[..remaining] == Filtered(table, c, n + 1)
  {
    hide Filtered;
    hide Passes;
    hide SomeFits;
    if setting.None? {
      NoPass(table, c, n);
      remaining := count;
    } else {
      NextPass(table, c, n, s => SomeFits(s, setting.value, fits));
      remaining := FilterTokens(suites, count, setting.value, fits);
    }
  }

  method FilterNullAndKeys(suites: array<Suite>, count: nat, c: Config, ghost table: seq<Suite>) returns (remaining: nat)
    requires count <= suites.Length && suites[..count] == Filtered(table, c, 0)
    modifies suites
    ensures remaining <= count && suites[..remaining] == Filtered(table, c, 3)
  {
    hide Filtered;
    hide Supported;
    hide Admits;
    remaining := RunPass(suites, count, c.requireEncryption, (s: Suite) => s.encr != ENCR_NULL, table, c, 0);
    remaining := RunPass(suites, remaining, !c.rsa, (s: Suite) => s.key != Rsa, table, c, 1);
    remaining := RunPass(suites, remaining, !c.ecdsa, (s: Suite) => s.key != Ecdsa, table, c, 2);
  }

  method FilterUnsupported(suites: array<Suite>, count: nat, c: Config, ghost table: seq<Suite>) returns (remaining: nat)
    requires count <= suites.Length && suites[..count] == Filtered(table, c, 3)
    modifies suites
    ensures remaining <= count && suites[..remaining] == Filtered(table, c, 9)
  {
    hide Filtered;
    hide Supported;
    remaining := RunFilter(suites, count, Crypter, c.algs(Crypter), table, c, 3);
    remaining := RunFilter(suites, remaining, Aead, c.algs(Aead), table, c, 4);
    remaining := RunFilter(suites, remaining, Signer, c.algs(Signer), table, c, 5);
    remaining := RunFilter(suites, remaining, Prf, c.algs(Prf), table, c, 6);
    remaining := RunFilter(suites, remaining, Hash, c.algs(Hash), table, c, 7);
    remaining := RunFilter(suites, remaining, Dh, c.algs(Dh), table, c, 8);
  }

  method FilterConfigured(suites: array<Suite>, count: nat, c: Config, ghost table: seq<Suite>) returns (remaining: nat)
    requires count <= suites.Length && suites[..count] == Filtered(table, c, 9)
    modifies suites
    ensures remaining <= count && suites[..remaining] == Filtered(table, c, 13)
  {
    hide Filtered;
    remaining := RunSetting(suites, count, c.keyExchange, KeyExchangeToken, table, c, 9);
    remaining := RunSetting(suites, remaining, c.cipher, CipherToken, table, c, 10);
    remaining := RunSetting(suites, remaining, c.mac, MacToken, table, c, 11);
    remaining := RunSetting(suites, remaining, c.suites, Named(c.names), table, c, 12);
  }

  function Ids(suites: seq<Suite>): (r: seq<nat>)
    ensures |r| == |suites| && forall i :: 0 <= i < |r| ==> r[i] == suites[i].suite
  {
    seq(|suites|, i requires 0 <= i < |suites| => suites[i].suite)
  }

  lemma SameFilter(table: seq<Suite>, c: Config)
    ensures Filtered(table, c, PASSES) == Filter(table, s => Acceptable(s, c))
  {
    FilterSame(table, UpTo(c, PASSES), s => Acceptable(s, c));
  }

  /** The list is exactly the order-preserving sublist of the table that satisfies every pass. */
  method BuildCipherSuiteList(table: seq<Suite>, c: Config) returns (list: seq<nat>)
    ensures list == Ids(Filter(table, s => Acceptable(s, c)))
  {
    var suites := new Suite[|table|](i requires 0 <= i < |table| => table[i]);
    var count := |table|;
    assert suites[..count] == table;
    FirstPass(table, c);
    SameFilter(table, c);
    hide Filtered;
    count := FilterNullAndKeys(suites, count, c, table);
    count := FilterUnsupported(suites, count, c, table);
    count := FilterConfigured(suites, count, c, table);
    list := Ids(suites[..count]);
  }

  // ---------------------------------------------------------------- what a listed suite is

  /** An enumerator lists the algorithm, or 0, which stands for any. */
  ghost predicate Lists(algs: seq<nat>, alg: nat) {
    exists i :: 0 <= i < |algs| && (algs[i] == alg || algs[i] == 0)
  }

  /** The ciphers that are AEADs: AES-CCM 14 to 16, AES-GCM 18 to 20, AES-GMAC 21, Camellia-CCM 25 to 27,
      ChaCha20/Poly1305 28. */
  predicate Combined(encr: nat) {
    encr in {14, 15, 16, 18, 19, 20, 21, 25, 26, 27, 28}
  }

  /** The cipher is listed among those of its sort, with 11 for no encryption; so are MAC, with 1024 for one
      that is part of the cipher, and the group, with 0 for none; and hash and PRF are listed. */
  ghost predicate Available(s: Suite, algs: Field -> seq<nat>) {
    var ciphers := algs(if Combined(s.encr) then Aead else Crypter);
    && (Lists(ciphers, s.encr) || (s.encr == 11 && ciphers != []))
    && (Lists(algs(Signer), s.mac) || (s.mac == 1024 && algs(Signer) != []))
    && (Lists(algs(Dh), s.dh) || (s.dh == 0 && algs(Dh) != []))
    && Lists(algs(Prf), s.prf) && Lists(algs(Hash), s.hash)
  }

  /** Of every setting there is, some token names what the suite has. */
  ghost predicate Settled(s: Suite, c: Config) {
    && (c.keyExchange.Some? ==> exists i :: 0 <= i < |c.keyExchange.value| && KeyExchangeToken(c.keyExchange.value[i], s))
    && (c.cipher.Some? ==> exists i :: 0 <= i < |c.cipher.value| && CipherToken(c.cipher.value[i], s))
    && (c.mac.Some? ==> exists i :: 0 <= i < |c.mac.value| && MacToken(c.mac.value[i], s))
    && (c.suites.Some? ==> exists i :: 0 <= i < |c.suites.value| && c.names(c.suites.value[i]) == Some(s.suite))
  }

  /** No null cipher when encryption is required, only keys that are wanted, everything available, and every
      setting admits the suite. */
  ghost predicate Fits(s: Suite, c: Config) {
    && (c.requireEncryption ==> s.encr != 11) && (s.key == Rsa ==> c.rsa) && (s.key == Ecdsa ==> c.ecdsa)
    && Available(s, c.algs) && Settled(s, c)
  }

  lemma SupportedExactly(s: Suite, field: Field, algs: seq<nat>)
    ensures Supported(s, field, algs) <==>
            match field
            case Crypter => Combined(s.encr) || Lists(algs, s.encr) || (s.encr == 11 && algs != [])
            case Aead => !Combined(s.encr) || Lists(algs, s.encr) || (s.encr == 11 && algs != [])
            case Signer => Lists(algs, s.mac) || (s.mac == 1024 && algs != [])
            case Prf => Lists(algs, s.prf)
            case Hash => Lists(algs, s.hash)
            case Dh => Lists(algs, s.dh) || (s.dh == 0 && algs != [])
  {
    assert algs != [] ==> (Serves(s, field, algs[0]) || !Serves(s, field, algs[0]));
  }

  lemma AvailableExactly(s: Suite, c: Config)
    ensures Available(s, c.algs) <==>
            Passes(s, c, 3) && Passes(s, c, 4) && Passes(s, c, 5) && Passes(s, c, 6) && Passes(s, c, 7) && Passes(s, c, 8)
  {
    SupportedExactly(s, Crypter, c.algs(Crypter));
    SupportedExactly(s, Aead, c.algs(Aead));
    SupportedExactly(s, Signer, c.algs(Signer));
    SupportedExactly(s, Prf, c.algs(Prf));
    SupportedExactly(s, Hash, c.algs(Hash));
    SupportedExactly(s, Dh, c.algs(Dh));
    hide Supported;
    hide Lists;
    hide Combined;
  }

  lemma SettingsExactly(s: Suite, c: Config)
    ensures Settled(s, c) <==> Passes(s, c, 9) && Passes(s, c, 10) && Passes(s, c, 11) && Passes(s, c, 12)
  {
    hide KeyExchangeToken;
    hide CipherToken;
    hide MacToken;
  }

  /** The passes together leave exactly the suites that fit. */
  lemma AcceptableExactly(s: Suite, c: Config)
    ensures Acceptable(s, c) <==> Fits(s, c)
  {
    AvailableExactly(s, c);
    SettingsExactly(s, c);
    hide Available;
    hide Settled;
    assert Acceptable(s, c) ==> forall i :: 0 <= i < 13 ==> Passes(s, c, i);
    assert Passes(s, c, 0) <==> (c.requireEncryption ==> s.encr != 11);
    assert Passes(s, c, 1) <==> (s.key == Rsa ==> c.rsa);
    assert Passes(s, c, 2) <==> (s.key == Ecdsa ==> c.ecdsa);
    hide Passes;
  }

  /** The list holds the numbers of exactly the rows that fit. */
  lemma ListedExactly(table: seq<Suite>, c: Config, id: nat)
    ensures id in Ids(Filter(table, s => Acceptable(s, c))) <==>
            exists i :: 0 <= i < |table| && table[i].suite == id && Fits(table[i], c)
  {
    var keep := (s: Suite) => Acceptable(s, c);
    FilterIsSublist(table, keep);
    forall i | 0 <= i < |table|
      ensures keep(table[i]) <==> Fits(table[i], c)
    {
      AcceptableExactly(table[i], c);
    }
    hide Acceptable;
    hide Fits;
    hide Filter;
    var r, at := Filter(table, keep), Positions(table, keep);
    if id in Ids(r) {
      var i :| 0 <= i < |r| && Ids(r)[i] == id;
      assert table[at[i]].suite == id && Fits(table[at[i]], c);
    }
    if k :| 0 <= k < |table| && table[k].suite == id && Fits(table[k], c) {
      var i :| 0 <= i < |at| && at[i] == k;
      assert Ids(r)[i] == id;
    }
  }

  lemma OtherToken(a: string, b: string, i: nat)
    requires i < |a| == |b| && Lower(a[i]) != Lower(b[i])
    ensures !CaseEq(a, b)
  {
  }

  /** The key exchanges a setting can name. */
  lemma KeyExchangesByName(s: Suite)
    ensures KeyExchangeToken("ecdhe-ecdsa", s) <==> IsEc(s.dh) && s.key == Ecdsa
    ensures KeyExchangeToken("ecdhe-rsa", s) <==> IsEc(s.dh) && s.key == Rsa
    ensures KeyExchangeToken("dhe-rsa", s) <==> !IsEc(s.dh) && s.dh != 0 && s.key == Rsa
    ensures KeyExchangeToken("rsa", s) <==> s.dh == 0 && s.key == Rsa
    ensures IsEc(s.dh) <==> s.dh in {19, 20, 21, 25, 26, 27, 28, 29, 30}
  {
  }

  /** The MACs a setting can name. */
  lemma MacsByName(s: Suite)
    ensures MacToken("md5", s) <==> s.mac == 6
    ensures MacToken("sha1", s) <==> s.mac == 7
    ensures MacToken("sha256", s) <==> s.mac == 1027
    ensures MacToken("sha384", s) <==> s.mac == 1028
  {
    OtherToken("sha256", "sha384", 3);
    OtherToken("sha384", "sha256", 3);
  }

  /** The ciphers a setting can name, with their key sizes. */
  lemma CiphersByName(s: Suite)
    ensures CipherToken("aes128", s) <==> s.encr == 12 && s.encrSize == 16
    ensures CipherToken("aes256", s) <==> s.encr == 12 && s.encrSize == 32
    ensures CipherToken("aes128gcm", s) <==> s.encr == 20 && s.encrSize == 16
    ensures CipherToken("aes256gcm", s) <==> s.encr == 20 && s.encrSize == 32
    ensures CipherToken("camellia128", s) <==> s.encr == 23 && s.encrSize == 16
    ensures CipherToken("camellia256", s) <==> s.encr == 23 && s.encrSize == 32
    ensures CipherToken("3des", s) <==> s.encr == 3
    ensures CipherToken("null", s) <==> s.encr == 11
  {
    OtherToken("aes128", "aes256", 3);
    OtherToken("aes256", "aes128", 3);
    OtherToken("aes128gcm", "aes256gcm", 3);
    OtherToken("aes256gcm", "aes128gcm", 3);
    OtherToken("camellia128", "camellia256", 8);
    OtherToken("camellia256", "camellia128", 8);
    OtherToken("3des", "null", 0);
    OtherToken("null", "3des", 0);
  }

  // ---------------------------------------------------------------- the choice

  /** The table row of a suite. */
  function FindSuite(table: seq<Suite>, id: nat): (r: Option<Suite>)
    ensures r.Some? ==> r.value in table && r.value.suite == id
    ensures r.None? ==> forall i :: 0 <= i < |table| ==> table[i].suite != id
  {
    if table == [] then None
    else if table[0].suite == id then Some(table[0])
    else FindSuite(table[1..], id)
  }

  /** A suite both sides have, with a key that fits. */
  predicate Candidate(table: seq<Suite>, offered: seq<nat>, key: Option<Key>, id: nat) {
    && id in offered
    && var row := FindSuite(table, id);
       row.Some? && (key.None? || key == Some(row.value.key))
  }

  /** What can be created at all: the PRF of a suite, and its two transforms. */
  datatype Factory = Factory(prf: Suite -> bool, aeads: Suite -> bool)

  /** A candidate whose PRF and transforms can be created. */
  predicate Selectable(table: seq<Suite>, offered: seq<nat>, key: Option<Key>, f: Factory, id: nat) {
    && Candidate(table, offered, key, id)
    && var row := FindSuite(table, id).value;
       f.prf(row) && f.aeads(row)
  }

  lemma {:induction false} RowOf(table: seq<Suite>, id: nat) returns (n: nat)
    ensures n <= |table| && (forall k :: 0 <= k < n ==> table[k].suite != id)
    ensures FindSuite(table, id) == if n < |table| then Some(table[n]) else None
    ensures n < |table| ==> table[n].suite == id
  {
    if table == [] || table[0].suite == id {
      n := 0;
    } else {
      var m := RowOf(table[1..], id);
      n := m + 1;
      assert forall k :: 0 < k < n ==> table[k] == table[1..][k - 1];
    }
  }

  /** A suite can be selected exactly when the peer offers it too, and its first row in the table is for the key
      in use, if there is one, and gives a PRF and transforms. */
  lemma SelectableExactly(table: seq<Suite>, offered: seq<nat>, key: Option<Key>, f: Factory, id: nat)
    ensures Selectable(table, offered, key, f, id) <==>
            && (exists j :: 0 <= j < |offered| && offered[j] == id)
            && exists i ::
                 && 0 <= i < |table| && table[i].suite == id && (forall k :: 0 <= k < i ==> table[k].suite != id)
                 && (key.Some? ==> table[i].key == key.value) && f.prf(table[i]) && f.aeads(table[i])
  {
    var n := RowOf(table, id);
    hide FindSuite;
  }

  /** Position `i` holds a selectable suite and no earlier position does. */
  ghost predicate First(suites: seq<nat>, i: nat, table: seq<Suite>, offered: seq<nat>, key: Option<Key>, f: Factory)
    requires i < |suites|
  {
    && Selectable(table, offered, key, f, suites[i])
    && forall k :: 0 <= k < i ==> !Selectable(table, offered, key, f, suites[k])
  }

  /** The PRF left behind by the candidates among the first `n` suites: that of the last one, if it
      could be created; the previous one if there was none. */
  function PrfAfter(before: Option<Suite>, suites: seq<nat>, n: nat, table: seq<Suite>, offered: seq<nat>,
                    key: Option<Key>, f: Factory): Option<Suite>
    requires n <= |suites|
  {
    if n == 0 then before
    else if Candidate(table, offered, key, suites[n - 1]) then
      var row := FindSuite(table, suites[n - 1]).value;
      if f.prf(row) then Some(row) else None
    else PrfAfter(before, suites, n - 1, table, offered, key, f)
  }

  class TlsCrypto {
    var suites: seq<nat>
    var suite: nat
    /** the rows the PRF and the transforms in place were made for */
    var prf: Option<Suite>
    var aeads: Option<Suite>

    /** Drops what is in place and creates anew; without transforms if that fails. */
    method CreateCiphers(row: Suite, f: Factory) returns (ok: bool)
      modifies `prf, `aeads
      ensures ok == (f.prf(row) && f.aeads(row))
      ensures prf == if f.prf(row) then Some(row) else None
      ensures aeads == if ok then Some(row) else None
    {
      prf, aeads := None, None;
      if !f.prf(row) {
        return false;
      }
      prf := Some(row);
      if !f.aeads(row) {
        return false;
      }
      aeads := Some(row);
      return true;
    }

    /** The inner loop: one of our suites against all that were offered. */
    method TryOffered(id: nat, table: seq<Suite>, offered: seq<nat>, key: Option<Key>, f: Factory) returns (ok: bool)
      modifies `prf, `aeads
      ensures ok == Selectable(table, offered, key, f, id)
      ensures var row := FindSuite(table, id);
              if Candidate(table, offered, key, id)
              then prf == (if f.prf(row.value) then row else None) && aeads == (if ok then row else None)
              else prf == old(prf) && aeads == old(aeads)
    {
      hide FindSuite;
      ghost var row := FindSuite(table, id);
      var j := 0;
      while j < |offered|
        invariant j <= |offered|
        invariant if id in offered[..j] && row.Some? && (key.None? || key == Some(row.value.key))
                  then !(f.prf(row.value) && f.aeads(row.value)) && aeads == None &&
                       prf == (if f.prf(row.value) then row else None)
                  else prf == old(prf) && aeads == old(aeads)
      {
        if id == offered[j] {
          var algs := FindSuite(table, id);
          if algs.Some? && (key.None? || key == Some(algs.value.key)) {
            ok := CreateCiphers(algs.value, f);
            if ok {
              return true;
            }
          }
        }
        assert offered[..j + 1] == offered[..j] + [offered[j]];
        j := j + 1;
      }
      assert offered[..j] == offered;
      return false;
    }

    /** The first of our suites that can be used, in our order, with its PRF and transforms in place;
        0 if there is none, and then the transforms are gone if any candidate was tried. */
    method SelectCipherSuite(table: seq<Suite>, offered: seq<nat>, key: Option<Key>, f: Factory) returns (chosen: nat)
      modifies `suite, `prf, `aeads
      ensures (exists i :: 0 <= i < |suites| && First(suites, i, table, offered, key, f) &&
                           chosen == suites[i] == suite && prf == aeads == FindSuite(table, suite))
              || (&& chosen == 0 && suite == old(suite)
                  && (forall i :: 0 <= i < |suites| ==> !Selectable(table, offered, key, f, suites[i]))
                  && prf == PrfAfter(old(prf), suites, |suites|, table, offered, key, f)
                  && aeads == if exists i :: 0 <= i < |suites| && Candidate(table, offered, key, suites[i]) then None
                              else old(aeads))
    {
      hide FindSuite;
      var i := 0;
      while i < |suites|
        invariant i <= |suites| && suite == old(suite)
        invariant forall k :: 0 <= k < i ==> !Selectable(table, offered, key, f, suites[k])
        invariant prf == PrfAfter(old(prf), suites, i, table, offered, key, f)
        invariant aeads == if exists k :: 0 <= k < i && Candidate(table, offered, key, suites[k]) then None else old(aeads)
      {
        var ok := TryOffered(suites[i], table, offered, key, f);
        if ok {
          suite := suites[i];
          assert First(suites, i, table, offered, key, f);
          return suite;
        }
        i := i + 1;
      }
      return 0;
    }
  }
}
