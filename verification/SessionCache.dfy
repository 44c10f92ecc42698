/** The TLS session cache: a list in order of creation and a table by session identifier. */
module SessionCache {
  import opened Bytes

  const WORD: nat := 0x1_0000_0000

  /** A cached session; `serial` tells entries apart, as their addresses do. */
  datatype Entry = Entry(session: bytes, id: Option<nat>, master: bytes, suite: nat, t: nat, serial: nat)

  /** The newest entry comes first in the list. */
  datatype Cache = Cache(list: seq<Entry>, table: map<bytes, Entry>, maxSessions: nat, maxAge: nat)

  // ---------------------------------------------------------------- operations

  /** Adds an entry; beyond the limit the oldest goes, from the list and from the table. */
  function Create(c: Cache, e: Entry): Cache {
    var list, table := [e] + c.list, c.table[e.session := e];
    if |list| > c.maxSessions
    then c.(list := list[..|list| - 1], table := table - {list[|list| - 1].session})
    else c.(list := list, table := table)
  }

  /** Seconds as an unsigned 32-bit number. */
  function Age(e: Entry, now: nat): nat {
    (now - e.t) % WORD
  }

  predicate IdFits(id: Option<nat>, e: Entry) {
    id.None? || e.id.None? || id == e.id
  }

  function Lookup(c: Cache, session: bytes, id: Option<nat>, now: nat): Option<Entry> {
    if session in c.table && Age(c.table[session], now) <= c.maxAge && IdFits(id, c.table[session])
    then Some(c.table[session]) else None
  }

  /** Entries a client may resume for this server. */
  predicate Usable(e: Entry, id: nat, now: nat, maxAge: nat) {
    e.t + maxAge >= now && e.id == Some(id)
  }

  function Check(list: seq<Entry>, id: nat, now: nat, maxAge: nat): Option<Entry> {
    if list == [] then None
    else if Usable(list[0], id, now, maxAge) then Some(list[0])
    else Check(list[1..], id, now, maxAge)
  }

  function Run(entries: seq<Entry>, maxSessions: nat, maxAge: nat): (c: Cache)
    ensures c.maxSessions == maxSessions && c.maxAge == maxAge
  {
    if entries == [] then Cache([], map[], maxSessions, maxAge)
    else Create(Run(entries[..|entries| - 1], maxSessions, maxAge), entries[|entries| - 1])
  }

  // ---------------------------------------------------------------- agreement

  predicate Live(list: seq<Entry>, session: bytes) {
    exists i :: 0 <= i < |list| && list[i].session == session
  }

  /** Table and list hold the same entries. */
  ghost predicate Agrees(list: seq<Entry>, table: map<bytes, Entry>) {
    && (forall i :: 0 <= i < |list| ==> list[i].session in table && table[list[i].session] == list[i])
    && (forall k :: k in table ==> Live(list, k))
  }

  /** The entries are different objects. */
  ghost predicate Distinct(list: seq<Entry>, e: Entry) {
    forall i :: 0 <= i < |list| ==> list[i].serial != e.serial
  }

  lemma PushAgrees(list: seq<Entry>, table: map<bytes, Entry>, e: Entry)
    requires Agrees(list, table) && !Live(list, e.session)
    ensures Agrees([e] + list, table[e.session := e])
  {
    var r, t := [e] + list, table[e.session := e];
    forall i | 0 <= i < |r|
      ensures r[i].session in t && t[r[i].session] == r[i]
    {
      assert i > 0 ==> r[i] == list[i - 1];
    }
    forall k | k in t
      ensures Live(r, k)
    {
      if k == e.session {
        assert r[0].session == k;
      } else {
        var i :| 0 <= i < |list| && list[i].session == k;
        assert r[i + 1].session == k;
      }
    }
  }

  /** No session identifier twice. */
  ghost predicate Unique(list: seq<Entry>) {
    forall i, j :: 0 <= i < j < |list| ==> list[i].session != list[j].session
  }

  lemma PopAgrees(list: seq<Entry>, table: map<bytes, Entry>)
    requires Agrees(list, table) && list != [] && Unique(list)
    ensures Agrees(list[..|list| - 1], table - {list[|list| - 1].session})
  {
    var n := |list| - 1;
    var t := table - {list[n].session};
    forall k | k in t
      ensures Live(list[..n], k)
    {
      var i :| 0 <= i < |list| && list[i].session == k;
      assert list[..n][i].session == k;
    }
  }

  ghost predicate Inv(c: Cache) {
    Agrees(c.list, c.table) && Unique(c.list) && |c.list| <= c.maxSessions
  }

  lemma PushUnique(list: seq<Entry>, e: Entry)
    requires Unique(list) && !Live(list, e.session)
    ensures Unique([e] + list)
  {
    var r := [e] + list;
    assert forall i :: 0 < i < |r| ==> r[i] == list[i - 1];
  }

  lemma PopUnique(list: seq<Entry>)
    requires Unique(list) && list != []
    ensures Unique(list[..|list| - 1])
  {
  }

  lemma CreateKeepsInv(c: Cache, e: Entry)
    requires Inv(c) && !Live(c.list, e.session)
    ensures Inv(Create(c, e))
  {
    hide Agrees;
    PushAgrees(c.list, c.table, e);
    PushUnique(c.list, e);
    hide Live;
    var list := [e] + c.list;
    PopUnique(list);
    hide Unique;
    if |list| > c.maxSessions {
      PopAgrees(list, c.table[e.session := e]);
    }
  }

  /** A duplicate leaves an entry in the list that the table does not lead to. */
  lemma DuplicateBreaks(c: Cache, e: Entry)
    requires Inv(c) && Live(c.list, e.session) && Distinct(c.list, e)
    ensures !Agrees(Create(c, e).list, Create(c, e).table)
  {
    var r := Create(c, e);
    var i :| 0 <= i < |c.list| && c.list[i].session == e.session;
    var list := [e] + c.list;
    assert list[i + 1] == c.list[i];
    assert r.list[0] == e;
    if i + 1 < |r.list| {
      assert r.list[i + 1] == c.list[i];
    }
  }

  /** One creation keeps list and table together exactly when the identifier is not in use. */
  lemma AgreementExactly(c: Cache, e: Entry)
    requires Inv(c) && Distinct(c.list, e)
    ensures Agrees(Create(c, e).list, Create(c, e).table) <==> !Live(c.list, e.session)
  {
    if Live(c.list, e.session) {
      DuplicateBreaks(c, e);
    } else {
      CreateKeepsInv(c, e);
    }
  }

  /** Every identifier is unused when it is created. */
  ghost predicate AllFresh(entries: seq<Entry>, maxSessions: nat, maxAge: nat) {
    forall n :: 0 <= n < |entries| ==> !Live(Run(entries[..n], maxSessions, maxAge).list, entries[n].session)
  }

  lemma {:induction false} RunAgrees(entries: seq<Entry>, maxSessions: nat, maxAge: nat)
    requires AllFresh(entries, maxSessions, maxAge)
    ensures Inv(Run(entries, maxSessions, maxAge))
  {
    if entries != [] {
      var init := entries[..|entries| - 1];
      forall n | 0 <= n < |init|
        ensures !Live(Run(init[..n], maxSessions, maxAge).list, init[n].session)
      {
        assert init[..n] == entries[..n];
      }
      RunAgrees(init, maxSessions, maxAge);
      assert entries[..|init|] == init;
      CreateKeepsInv(Run(init, maxSessions, maxAge), entries[|init|]);
    }
  }

  /** The newest entries, newest first. */
  function Newest(entries: seq<Entry>, n: nat): (r: seq<Entry>)
    ensures |r| == Min(n, |entries|)
  {
    seq(Min(n, |entries|), i requires 0 <= i < Min(n, |entries|) => entries[|entries| - 1 - i])
  }

  /** Whatever is created, the list is the newest `maxSessions` entries: the oldest are evicted first. */
  lemma {:induction false} KeepsNewest(entries: seq<Entry>, maxSessions: nat, maxAge: nat)
    ensures Run(entries, maxSessions, maxAge).list == Newest(entries, maxSessions)
  {
    if entries != [] {
      KeepsNewest(entries[..|entries| - 1], maxSessions, maxAge);
    }
  }

  /** No two creations make the same object. */
  ghost predicate Serial(entries: seq<Entry>) {
    forall i, j :: 0 <= i < j < |entries| ==> entries[i].serial != entries[j].serial
  }

  /** What is in the cache was created before. */
  lemma OthersAreDistinct(entries: seq<Entry>, n: nat, maxSessions: nat, maxAge: nat)
    requires Serial(entries) && n < |entries|
    ensures Distinct(Run(entries[..n], maxSessions, maxAge).list, entries[n])
  {
    KeepsNewest(entries[..n], maxSessions, maxAge);
    hide Run;
    var list := Newest(entries[..n], maxSessions);
    forall i | 0 <= i < |list|
      ensures list[i].serial != entries[n].serial
    {
      assert list[i] == entries[n - 1 - i];
    }
  }

  lemma RunSnoc(entries: seq<Entry>, n: nat, maxSessions: nat, maxAge: nat)
    requires n < |entries|
    ensures Run(entries[..n + 1], maxSessions, maxAge) == Create(Run(entries[..n], maxSessions, maxAge), entries[n])
  {
    assert entries[..n + 1][..n] == entries[..n];
  }

  lemma FreshPrefix(entries: seq<Entry>, n: nat, maxSessions: nat, maxAge: nat)
    requires n <= |entries|
    requires forall k :: 0 <= k < n ==> !Live(Run(entries[..k], maxSessions, maxAge).list, entries[k].session)
    ensures AllFresh(entries[..n], maxSessions, maxAge)
  {
    hide Run;
    forall k | 0 <= k < n
      ensures !Live(Run(entries[..n][..k], maxSessions, maxAge).list, entries[..n][k].session)
    {
      assert entries[..n][..k] == entries[..k];
    }
  }

  /** Table and list agree after the first `n` creations. */
  ghost predicate AgreesAt(entries: seq<Entry>, n: nat, maxSessions: nat, maxAge: nat)
    requires n <= |entries|
  {
    var c := Run(entries[..n], maxSessions, maxAge);
    Agrees(c.list, c.table)
  }

  lemma FreshStep(entries: seq<Entry>, n: nat, maxSessions: nat, maxAge: nat)
    requires Serial(entries) && n < |entries|
    requires AllFresh(entries[..n], maxSessions, maxAge) && AgreesAt(entries, n + 1, maxSessions, maxAge)
    ensures !Live(Run(entries[..n], maxSessions, maxAge).list, entries[n].session)
  {
    hide Run;
    hide Agrees;
    hide Live;
    hide Create;
    hide AllFresh;
    RunAgrees(entries[..n], maxSessions, maxAge);
    OthersAreDistinct(entries, n, maxSessions, maxAge);
    RunSnoc(entries, n, maxSessions, maxAge);
    AgreementExactly(Run(entries[..n], maxSessions, maxAge), entries[n]);
  }

  lemma {:induction false} AgreementNeedsFresh(entries: seq<Entry>, n: nat, maxSessions: nat, maxAge: nat)
    requires Serial(entries) && n <= |entries|
    requires forall k: nat :: k <= |entries| ==> AgreesAt(entries, k, maxSessions, maxAge)
    ensures forall k :: 0 <= k < n ==> !Live(Run(entries[..k], maxSessions, maxAge).list, entries[k].session)
  {
    hide Run;
    if n > 0 {
      AgreementNeedsFresh(entries, n - 1, maxSessions, maxAge);
      FreshPrefix(entries, n - 1, maxSessions, maxAge);
      hide AgreesAt;
      hide AllFresh;
      hide Live;
      FreshStep(entries, n - 1, maxSessions, maxAge);
    }
  }

  /** Over a run, table and list agree all along exactly when no identifier is created while in use. */
  lemma RunAgreesExactly(entries: seq<Entry>, maxSessions: nat, maxAge: nat)
    requires Serial(entries)
    ensures (forall n: nat :: n <= |entries| ==> AgreesAt(entries, n, maxSessions, maxAge)) <==>
            AllFresh(entries, maxSessions, maxAge)
  {
    hide Run;
    hide Live;
    if forall n: nat :: n <= |entries| ==> AgreesAt(entries, n, maxSessions, maxAge) {
      AgreementNeedsFresh(entries, |entries|, maxSessions, maxAge);
    }
    if AllFresh(entries, maxSessions, maxAge) {
      forall n: nat | n <= |entries|
        ensures AgreesAt(entries, n, maxSessions, maxAge)
      {
        FreshPrefix(entries, n, maxSessions, maxAge);
        RunAgrees(entries[..n], maxSessions, maxAge);
      }
    }
  }

  // ---------------------------------------------------------------- check and lookup

  /** What `check` returns is the first usable entry, and it returns one whenever there is one. */
  lemma {:induction false} CheckIsFirst(list: seq<Entry>, id: nat, now: nat, maxAge: nat) returns (k: nat)
    ensures k <= |list| && forall i :: 0 <= i < k ==> !Usable(list[i], id, now, maxAge)
    ensures match Check(list, id, now, maxAge)
            case None => k == |list|
            case Some(e) => k < |list| && list[k] == e && Usable(e, id, now, maxAge)
  {
    if list == [] || Usable(list[0], id, now, maxAge) {
      k := 0;
    } else {
      var n := CheckIsFirst(list[1..], id, now, maxAge);
      k := n + 1;
      assert forall i :: 0 < i < |list| ==> list[i] == list[1..][i - 1];
    }
  }

  /** A session `check` offers is found by `lookup` at the same instant, as the very same entry. */
  lemma CheckedIsFound(c: Cache, id: nat, now: nat)
    requires Agrees(c.list, c.table) && c.maxAge < WORD
    requires forall i :: 0 <= i < |c.list| ==> c.list[i].t <= now
    ensures var e := Check(c.list, id, now, c.maxAge);
            e.Some? ==> Lookup(c, e.value.session, Some(id), now) == e
  {
    var k := CheckIsFirst(c.list, id, now, c.maxAge);
    if k < |c.list| {
      assert c.table[c.list[k].session] == c.list[k];
    }
  }

  /** With its server's identity a session is found only if `check` offers one for that identity too. */
  lemma FoundIsChecked(c: Cache, session: bytes, id: nat, now: nat)
    requires Agrees(c.list, c.table) && c.maxAge < WORD
    requires forall i :: 0 <= i < |c.list| ==> c.list[i].t <= now < WORD
    ensures var e := Lookup(c, session, Some(id), now);
            e.Some? && e.value.id.Some? ==> Check(c.list, id, now, c.maxAge).Some?
  {
    var e := Lookup(c, session, Some(id), now);
    if e.Some? && e.value.id.Some? {
      assert Live(c.list, session);
      var i :| 0 <= i < |c.list| && c.list[i].session == session;
      assert c.list[i] == e.value;
      var k := CheckIsFirst(c.list, id, now, c.maxAge);
    }
  }

  // ---------------------------------------------------------------- over whole runs

  /** The creation is among the last `maxSessions`. */
  predicate Recent(entries: seq<Entry>, k: int, maxSessions: nat) {
    0 <= k < |entries| && |entries| - k <= maxSessions
  }

  lemma NewestAt(entries: seq<Entry>, maxSessions: nat, k: nat)
    requires Recent(entries, k, maxSessions)
    ensures |entries| - 1 - k < |Newest(entries, maxSessions)|
    ensures Newest(entries, maxSessions)[|entries| - 1 - k] == entries[k]
  {
  }

  lemma ListedIsRecent(entries: seq<Entry>, maxSessions: nat, e: Entry)
    ensures e in Newest(entries, maxSessions) <==> exists k :: Recent(entries, k, maxSessions) && entries[k] == e
  {
    var list := Newest(entries, maxSessions);
    if i :| 0 <= i < |list| && list[i] == e {
      assert Recent(entries, |entries| - 1 - i, maxSessions) && entries[|entries| - 1 - i] == e;
    }
    if k :| Recent(entries, k, maxSessions) && entries[k] == e {
      NewestAt(entries, maxSessions, k);
    }
  }

  lemma TableHolds(list: seq<Entry>, table: map<bytes, Entry>, session: bytes, e: Entry)
    requires Agrees(list, table)
    ensures session in table && table[session] == e <==> e in list && e.session == session
  {
    if session in table {
      var i :| 0 <= i < |list| && list[i].session == session;
      assert table[session] == list[i];
    }
    if i :| 0 <= i < |list| && list[i] == e {
      assert e.session in table && table[e.session] == e;
    }
  }

  lemma AgeIs(e: Entry, now: nat)
    requires e.t <= now < e.t + 0x1_0000_0000
    ensures Age(e, now) == now - e.t
  {
    RemainderUnique(now - e.t, 0, now - e.t, WORD);
  }

  lemma LookupIs(c: Cache, session: bytes, id: Option<nat>, now: nat, e: Entry)
    ensures Lookup(c, session, id, now) == Some(e) <==>
            && session in c.table && c.table[session] == e && Age(e, now) <= c.maxAge
            && (id == None || e.id == None || id == e.id)
  {
    hide Age;
  }

  /** A session is found exactly when it is among the last that were created, not older than the limit, and
      its identity does not contradict the one asked for. */
  lemma LookupExactly(entries: seq<Entry>, maxSessions: nat, maxAge: nat, session: bytes, id: Option<nat>, now: nat,
                      e: Entry)
    requires AllFresh(entries, maxSessions, maxAge)
    requires e.t <= now < e.t + 0x1_0000_0000
    ensures Lookup(Run(entries, maxSessions, maxAge), session, id, now) == Some(e) <==>
            && (exists k :: Recent(entries, k, maxSessions) && entries[k] == e)
            && e.session == session && now - e.t <= maxAge && (id == None || e.id == None || id == e.id)
  {
    RunAgrees(entries, maxSessions, maxAge);
    KeepsNewest(entries, maxSessions, maxAge);
    ListedIsRecent(entries, maxSessions, e);
    var c := Run(entries, maxSessions, maxAge);
    hide Run;
    hide AllFresh;
    hide Newest;
    hide Recent;
    TableHolds(c.list, c.table, session, e);
    hide Inv;
    hide Agrees;
    AgeIs(e, now);
    hide Age;
    LookupIs(c, session, id, now, e);
    hide Lookup;
  }

  /** A client can resume it: not older than the limit and from that very server. */
  predicate Resumable(e: Entry, id: nat, now: nat, maxAge: nat) {
    now - e.t <= maxAge && e.id.Some? && e.id.value == id
  }

  /** A client is offered the newest session that is among the last created and can be resumed, and none only
      if there is none. */
  lemma OfferExactly(entries: seq<Entry>, maxSessions: nat, maxAge: nat, id: nat, now: nat)
    ensures match Check(Run(entries, maxSessions, maxAge).list, id, now, maxAge)
            case Some(e) =>
              exists k :: Recent(entries, k, maxSessions) && entries[k] == e && Resumable(e, id, now, maxAge) &&
                forall j :: k < j && Recent(entries, j, maxSessions) ==> !Resumable(entries[j], id, now, maxAge)
            case None => forall j :: Recent(entries, j, maxSessions) ==> !Resumable(entries[j], id, now, maxAge)
  {
    KeepsNewest(entries, maxSessions, maxAge);
    var list := Run(entries, maxSessions, maxAge).list;
    hide Run;
    var n := CheckIsFirst(list, id, now, maxAge);
    forall j | Recent(entries, j, maxSessions) && |entries| - 1 - j < n
      ensures !Resumable(entries[j], id, now, maxAge)
    {
      NewestAt(entries, maxSessions, j);
      assert !Usable(list[|entries| - 1 - j], id, now, maxAge);
    }
    hide Check;
    if n < |list| {
      var k := |entries| - 1 - n;
      assert list[n] == entries[k] && Recent(entries, k, maxSessions);
    }
  }

  // ---------------------------------------------------------------- the object

  class TlsCache {
    var list: seq<Entry>
    var table: map<bytes, Entry>
    const maxSessions: nat
    const maxAge: nat

    function Model(): Cache
      reads this
    {
      Cache(list, table, maxSessions, maxAge)
    }

    constructor (sessions: nat, age: nat)
      ensures Model() == Run([], sessions, age)
    {
      list, table, maxSessions, maxAge := [], map[], sessions, age;
    }

    method Add(session: bytes, id: Option<nat>, master: bytes, suite: nat, now: nat, serial: nat)
      modifies this
      ensures Model() == Create(old(Model()), Entry(session, id, master, suite, now, serial))
    {
      var entry := Entry(session, id, master, suite, now, serial);
      list := [entry] + list;
      table := table[session := entry];
      if |list| > maxSessions {
        var last := list[|list| - 1];
        list := list[..|list| - 1];
        table := table - {last.session};
      }
    }

    method Find(session: bytes, id: Option<nat>, now: nat) returns (suite: nat, master: bytes)
      ensures match Lookup(Model(), session, id, now)
              case None => suite == 0 && master == []
              case Some(e) => suite == e.suite && master == e.master
    {
      suite, master := 0, [];
      if session in table {
        var entry := table[session];
        if (now - entry.t) % WORD <= maxAge {
          if id.None? || entry.id.None? || id == entry.id {
            suite, master := entry.suite, entry.master;
          }
        }
      }
    }

    method Offer(id: nat, now: nat) returns (session: bytes)
      ensures match Check(list, id, now, maxAge)
              case None => session == []
              case Some(e) => session == e.session
    {
      var i := 0;
      assert list[0..] == list;
      while i < |list|
        invariant i <= |list| && Check(list[i..], id, now, maxAge) == Check(list, id, now, maxAge)
      {
        if list[i].t + maxAge >= now && list[i].id == Some(id) {
          return list[i].session;
        }
        assert list[i..][1..] == list[i + 1..];
        i := i + 1;
      }
      return [];
    }
  }
}
