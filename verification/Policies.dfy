/** The policy list: pseudo-priorities, and lookup of the policy for a packet. */
module Policies {
  import opened Bytes

  // ---------------------------------------------------------------- policies

  datatype Class = Pass | Default | Routed | Fallback

  /** A traffic selector: an address and a port range, a protocol (0 for any), and the subnet that
      covers it, with its prefix length and its port (0 for any). */
  datatype Selector = Selector(low: nat, high: nat, fromPort: nat, toPort: nat, protocol: byte, prefix: nat, port: nat)

  datatype Direction = In | Out | Fwd

  datatype Kind = Ipsec | Passthrough | Drop

  datatype Policy = Policy(kind: Kind, src: Selector, dst: Selector, direction: Direction,
                           reqid: nat, mark: nat, class_: Class)

  datatype Host = Host(address: nat, port: nat)

  datatype Packet = Packet(src: Host, dst: Host, protocol: byte)

  predicate MatchPort(ts: Selector, port: nat) {
    || (ts.fromPort == 0 && ts.toPort == 0xffff) || (ts.fromPort == 0xffff && ts.toPort == 0)
    || ts.fromPort <= port <= ts.toPort
  }

  predicate Includes(ts: Selector, h: Host) {
    ts.low <= h.address <= ts.high && MatchPort(ts, h.port)
  }

  predicate MatchPacket(p: Policy, packet: Packet) {
    var protocol := Max(p.src.protocol, p.dst.protocol);
    (protocol == 0 || protocol == packet.protocol as nat) && Includes(p.src, packet.src) && Includes(p.dst, packet.dst)
  }

  /** Whether the policy decides about this packet. */
  predicate Applies(p: Policy, packet: Packet, inbound: bool, reqid: nat) {
    inbound == (p.direction == In) && MatchPacket(p, packet) && (reqid == 0 || reqid == p.reqid)
  }

  // ---------------------------------------------------------------- pseudo-priority

  const PRIO_BASE: nat := 384
  const WORD: nat := 0x1_0000_0000

  function Shifts(c: Class): nat {
    match c
    case Pass => 1
    case Default => 2
    case Routed => 4
    case Fallback => 8
  }

  /** The 32-bit computation. */
  function Priority(p: Policy): nat {
    var base := PRIO_BASE * Shifts(p.class_) % WORD;
    var sized := ((base - p.src.prefix) % WORD - p.dst.prefix) % WORD;
    var port, protocol := Max(p.src.port, p.dst.port), Max(p.src.protocol, p.dst.protocol);
    (sized * 4 % WORD + (if port != 0 then 0 else 2) + (if protocol != 0 then 0 else 1)) % WORD
  }

  predicate Prefixed(p: Policy) {
    p.src.prefix <= 128 && p.dst.prefix <= 128
  }

  /** The wildcards of a policy, a wildcard port weighing more. */
  function Wildcards(p: Policy): nat {
    (if p.src.port == p.dst.port == 0 then 2 else 0) + (if p.src.protocol == p.dst.protocol == 0 then 1 else 0)
  }

  lemma NoWrap(x: int)
    requires 0 <= x < WORD
    ensures x % WORD == x
  {
  }

  /** Nothing wraps: the priority is the plain number the formula suggests. */
  lemma PriorityIsExact(p: Policy)
    requires Prefixed(p)
    ensures Priority(p) == (PRIO_BASE * Shifts(p.class_) - p.src.prefix - p.dst.prefix) * 4 + Wildcards(p)
    ensures PRIO_BASE * Shifts(p.class_) >= p.src.prefix + p.dst.prefix
  {
    var base := PRIO_BASE * Shifts(p.class_);
    assert base % WORD == base;
    NoWrap(base - p.src.prefix);
    NoWrap(base - p.src.prefix - p.dst.prefix);
    var sized := base - p.src.prefix - p.dst.prefix;
    NoWrap(sized * 4);
    NoWrap(sized * 4 + Wildcards(p));
  }

  /** Passthrough policies come before all others, routed ones after the default, fallbacks last. */
  predicate Before(c: Class, d: Class) {
    match c
    case Pass => d != Pass
    case Default => d == Routed || d == Fallback
    case Routed => d == Fallback
    case Fallback => false
  }

  predicate HasPort(p: Policy) {
    p.src.port != 0 || p.dst.port != 0
  }

  predicate HasProtocol(p: Policy) {
    p.src.protocol != 0 || p.dst.protocol != 0
  }

  function Specific(p: Policy): nat {
    p.src.prefix + p.dst.prefix
  }

  /** Class first, then the longer prefixes, then a given port, then a given protocol. */
  predicate Outranks(p: Policy, q: Policy) {
    || Before(p.class_, q.class_)
    || (&& p.class_ == q.class_
        && (|| Specific(p) > Specific(q)
            || (&& Specific(p) == Specific(q)
                && (|| (HasPort(p) && !HasPort(q))
                    || (HasPort(p) == HasPort(q) && HasProtocol(p) && !HasProtocol(q))))))
  }

  /** Neither outranks the other. */
  predicate Level(p: Policy, q: Policy) {
    p.class_ == q.class_ && Specific(p) == Specific(q) && HasPort(p) == HasPort(q) && HasProtocol(p) == HasProtocol(q)
  }

  lemma PriorityIsLexicographic(p: Policy, q: Policy)
    requires Prefixed(p) && Prefixed(q)
    ensures Priority(p) < Priority(q) <==> Outranks(p, q)
    ensures Priority(p) == Priority(q) <==> Level(p, q)
  {
    PriorityIsExact(p);
    PriorityIsExact(q);
    hide Priority;
    assert Before(p.class_, q.class_) <==> Shifts(p.class_) < Shifts(q.class_);
    assert p.class_ == q.class_ <==> Shifts(p.class_) == Shifts(q.class_);
    assert Shifts(p.class_) < Shifts(q.class_) ==> 2 * Shifts(p.class_) <= Shifts(q.class_);
    assert Shifts(q.class_) < Shifts(p.class_) ==> 2 * Shifts(q.class_) <= Shifts(p.class_);
  }

  // ---------------------------------------------------------------- the list

  datatype Entry = Entry(priority: nat, policy: Policy)

  /** The list, with the order number of every addition beside it. */
  datatype State = State(list: seq<Entry>, born: seq<nat>, clock: nat)

  datatype Op = Add(policy: Policy) | Del(policy: Policy) | Flush

  /** Forward policies and those that ask for no IPsec are ignored. */
  predicate Kept(p: Policy) {
    p.kind == Ipsec && p.direction != Fwd
  }

  /** Where an entry of this priority goes: before the first that is not more urgent. */
  function Place(list: seq<Entry>, priority: nat): (k: nat)
    ensures k <= |list|
    ensures forall i :: 0 <= i < k ==> list[i].priority < priority
    ensures k < |list| ==> list[k].priority >= priority
  {
    if list == [] || list[0].priority >= priority then 0 else 1 + Place(list[1..], priority)
  }

  /** The first entry that is this very policy. */
  function FirstEqual(list: seq<Entry>, p: Policy): (k: nat)
    ensures k <= |list|
    ensures k < |list| ==> list[k].priority == Priority(p) && list[k].policy == p
    ensures forall i :: 0 <= i < k ==> !(list[i].priority == Priority(p) && list[i].policy == p)
  {
    if list == [] || (list[0].priority == Priority(p) && list[0].policy == p) then 0 else 1 + FirstEqual(list[1..], p)
  }

  function InsertAt<T>(s: seq<T>, k: nat, x: T): seq<T>
    requires k <= |s|
  {
    s[..k] + [x] + s[k..]
  }

  function RemoveAt<T>(s: seq<T>, k: nat): seq<T>
    requires k < |s|
  {
    s[..k] + s[k + 1..]
  }

  function Apply(st: State, op: Op): (r: State)
    requires |st.list| == |st.born|
    ensures |r.list| == |r.born|
  {
    match op
    case Add(p) =>
      if !Kept(p) then st
      else
        var k := Place(st.list, Priority(p));
        State(InsertAt(st.list, k, Entry(Priority(p), p)), InsertAt<nat>(st.born, k, st.clock), st.clock + 1)
    case Del(p) =>
      var k := FirstEqual(st.list, p);
      if !Kept(p) || k == |st.list| then st else State(RemoveAt(st.list, k), RemoveAt<nat>(st.born, k), st.clock)
    case Flush => State([], [], st.clock)
  }

  function Run(ops: seq<Op>): (st: State)
    ensures |st.list| == |st.born|
  {
    if ops == [] then State([], [], 0) else Apply(Run(ops[..|ops| - 1]), ops[|ops| - 1])
  }

  /** The policy found for a packet: the first one in the list that applies. */
  function Find(list: seq<Entry>, packet: Packet, inbound: bool, reqid: nat): Option<Policy> {
    if list == [] then None
    else if Applies(list[0].policy, packet, inbound, reqid) then Some(list[0].policy)
    else Find(list[1..], packet, inbound, reqid)
  }

  // ---------------------------------------------------------------- the reference: a history

  /** All policies ever added, in order, without those that were deleted. */
  type History = seq<Option<Policy>>

  function LastEqual(h: History, p: Policy): (k: Option<nat>)
    ensures k.Some? ==> k.value < |h| && h[k.value] == Some(p)
    ensures forall i :: 0 <= i < |h| && h[i] == Some(p) ==> k.Some? && i <= k.value
  {
    if h == [] then None
    else if h[|h| - 1] == Some(p) then Some(|h| - 1)
    else LastEqual(h[..|h| - 1], p)
  }

  function Record(h: History, op: Op): History {
    match op
    case Add(p) => if Kept(p) then h + [Some(p)] else h
    case Del(p) =>
      var k := LastEqual(h, p);
      if Kept(p) && k.Some? then h[k.value := None] else h
    case Flush => seq(|h|, _ => None)
  }

  function HistoryOf(ops: seq<Op>): History {
    if ops == [] then [] else Record(HistoryOf(ops[..|ops| - 1]), ops[|ops| - 1])
  }

  ghost predicate Candidate(h: History, k: int, packet: Packet, inbound: bool, reqid: nat) {
    0 <= k < |h| && h[k].Some? && Applies(h[k].value, packet, inbound, reqid)
  }

  /** No candidate is more urgent, and none as urgent is newer. */
  ghost predicate Best(h: History, k: int, packet: Packet, inbound: bool, reqid: nat) {
    && Candidate(h, k, packet, inbound, reqid)
    && forall j :: Candidate(h, j, packet, inbound, reqid) ==>
         Priority(h[k].value) < Priority(h[j].value) || (Priority(h[k].value) == Priority(h[j].value) && j <= k)
  }

  // ---------------------------------------------------------------- refinement

  /** Sorted by priority, newest first among equals. */
  ghost predicate Sorted(st: State)
    requires |st.list| == |st.born|
  {
    forall i, j :: 0 <= i < j < |st.list| ==>
      st.list[i].priority < st.list[j].priority || (st.list[i].priority == st.list[j].priority && st.born[i] > st.born[j])
  }

  /** Every entry is a live policy of the history, and every live policy is an entry. */
  ghost predicate Same(st: State, h: History)
    requires |st.list| == |st.born|
  {
    && st.clock == |h|
    && (forall i :: 0 <= i < |st.list| ==>
          st.born[i] < |h| && h[st.born[i]] == Some(st.list[i].policy) && st.list[i].priority == Priority(st.list[i].policy))
    && (forall k :: 0 <= k < |h| && h[k].Some? ==> k in st.born)
  }

  ghost predicate Represents(st: State, h: History)
    requires |st.list| == |st.born|
  {
    Sorted(st) && Same(st, h)
  }

  lemma Inserted<T>(s: seq<T>, k: nat, x: T)
    requires k <= |s|
    ensures var r := InsertAt(s, k, x);
            && |r| == |s| + 1 && r[k] == x
            && (forall i :: 0 <= i < k ==> r[i] == s[i]) && (forall i :: k < i < |r| ==> r[i] == s[i - 1])
  {
  }

  lemma InsertedPair(st: State, k: nat, e: Entry, i: nat, j: nat)
    requires |st.list| == |st.born| && Sorted(st) && k <= |st.list| && i < j <= |st.list|
    requires forall n :: 0 <= n < |st.born| ==> st.born[n] < st.clock
    requires forall n :: 0 <= n < k ==> st.list[n].priority < e.priority
    requires k < |st.list| ==> st.list[k].priority >= e.priority
    ensures var list, born := InsertAt(st.list, k, e), InsertAt<nat>(st.born, k, st.clock);
            && |list| == |born| == |st.list| + 1
            && (list[i].priority < list[j].priority || (list[i].priority == list[j].priority && born[i] > born[j]))
  {
    Inserted(st.list, k, e);
    Inserted<nat>(st.born, k, st.clock);
    hide InsertAt;
    if i == k && j > k + 1 {
      assert st.list[k].priority <= st.list[j - 1].priority;
    }
  }

  lemma InsertKeepsSorted(st: State, p: Policy)
    requires |st.list| == |st.born| && Sorted(st) && Kept(p)
    requires forall i :: 0 <= i < |st.born| ==> st.born[i] < st.clock
    ensures Sorted(Apply(st, Add(p)))
  {
    hide Priority;
    var k, r := Place(st.list, Priority(p)), Apply(st, Add(p));
    assert r.list == InsertAt(st.list, k, Entry(Priority(p), p)) && r.born == InsertAt<nat>(st.born, k, st.clock);
    Inserted(st.list, k, Entry(Priority(p), p));
    hide Apply;
    hide Place;
    hide InsertAt;
    forall i, j | 0 <= i < j < |r.list|
      ensures r.list[i].priority < r.list[j].priority ||
              (r.list[i].priority == r.list[j].priority && r.born[i] > r.born[j])
    {
      InsertedPair(st, k, Entry(Priority(p), p), i, j);
    }
  }

  lemma InsertKeepsOthers(born: seq<nat>, k: nat, b: nat, clock: nat)
    requires k <= |born| && (b in born || b == clock)
    ensures b in InsertAt<nat>(born, k, clock)
  {
    var r := InsertAt<nat>(born, k, clock);
    if b == clock {
      assert r[k] == b;
    } else {
      var i :| 0 <= i < |born| && born[i] == b;
      assert r[if i < k then i else i + 1] == b;
    }
  }

  lemma InsertKeepsSame(st: State, h: History, p: Policy)
    requires |st.list| == |st.born| && Same(st, h) && Kept(p)
    ensures Same(Apply(st, Add(p)), Record(h, Add(p)))
  {
    hide Priority;
    hide InsertAt;
    var k, r, h' := Place(st.list, Priority(p)), Apply(st, Add(p)), Record(h, Add(p));
    Inserted(st.list, k, Entry(Priority(p), p));
    Inserted<nat>(st.born, k, st.clock);
    forall i | 0 <= i < |r.list|
      ensures r.born[i] < |h'| && h'[r.born[i]] == Some(r.list[i].policy) && r.list[i].priority == Priority(r.list[i].policy)
    {
      assert i < k ==> r.list[i] == st.list[i] && r.born[i] == st.born[i];
      assert i > k ==> r.list[i] == st.list[i - 1] && r.born[i] == st.born[i - 1];
    }
    forall b: nat | b < |h'| && h'[b].Some?
      ensures b in r.born
    {
      InsertKeepsOthers(st.born, k, b, st.clock);
    }
  }

  /** The first equal entry of the list is the newest one of the history. */
  lemma FirstIsNewest(st: State, h: History, p: Policy)
    requires |st.list| == |st.born| && Represents(st, h)
    ensures var k, newest := FirstEqual(st.list, p), LastEqual(h, p);
            (k < |st.list| <==> newest.Some?) && (k < |st.list| ==> st.born[k] == newest.value)
  {
    hide Priority;
    var k, newest := FirstEqual(st.list, p), LastEqual(h, p);
    if newest.Some? {
      var i :| 0 <= i < |st.born| && st.born[i] == newest.value;
      assert st.list[i].policy == p;
      assert k <= i;
      assert h[st.born[k]] == Some(p);
    }
  }

  lemma Removed<T>(s: seq<T>, k: nat)
    requires k < |s|
    ensures var r := RemoveAt(s, k);
            && |r| == |s| - 1
            && (forall i :: 0 <= i < k ==> r[i] == s[i]) && (forall i :: k <= i < |r| ==> r[i] == s[i + 1])
  {
  }

  lemma RemoveKeepsSorted(st: State, k: nat)
    requires |st.list| == |st.born| && Sorted(st) && k < |st.list|
    ensures Sorted(State(RemoveAt(st.list, k), RemoveAt<nat>(st.born, k), st.clock))
  {
    Removed(st.list, k);
    Removed<nat>(st.born, k);
    hide RemoveAt;
  }

  /** No two entries stem from the same addition. */
  lemma OnlyOne(st: State, h: History, k: nat)
    requires |st.list| == |st.born| && Represents(st, h) && k < |st.list|
    ensures forall i :: 0 <= i < |st.born| && i != k ==> st.born[i] != st.born[k]
  {
    hide Priority;
    forall i | 0 <= i < |st.born| && i != k
      ensures st.born[i] != st.born[k]
    {
      assert h[st.born[i]] == Some(st.list[i].policy) && h[st.born[k]] == Some(st.list[k].policy);
    }
  }

  lemma RemoveKeepsEntries(st: State, h: History, k: nat)
    requires |st.list| == |st.born| && Represents(st, h) && k < |st.list|
    ensures var list, born := RemoveAt(st.list, k), RemoveAt<nat>(st.born, k);
            && |list| == |born|
            && forall i :: 0 <= i < |list| ==>
                 born[i] < |h| && h[born[i]] == Some(list[i].policy) && list[i].priority == Priority(list[i].policy) &&
                 born[i] != st.born[k]
  {
    OnlyOne(st, h, k);
    Removed(st.list, k);
    Removed<nat>(st.born, k);
    hide Priority;
    hide RemoveAt;
    hide Sorted;
    var list, born := RemoveAt(st.list, k), RemoveAt<nat>(st.born, k);
    forall i | 0 <= i < |list|
      ensures born[i] < |h| && h[born[i]] == Some(list[i].policy) && list[i].priority == Priority(list[i].policy) &&
              born[i] != st.born[k]
    {
      var i' := if i < k then i else i + 1;
      assert list[i] == st.list[i'] && born[i] == st.born[i'];
    }
  }

  lemma RemoveKeepsOthers(born: seq<nat>, k: nat, b: nat)
    requires k < |born| && b in born && b != born[k]
    ensures b in RemoveAt<nat>(born, k)
  {
    var i :| 0 <= i < |born| && born[i] == b;
    assert RemoveAt<nat>(born, k)[if i < k then i else i - 1] == b;
  }

  lemma RemoveKeepsSame(st: State, h: History, k: nat)
    requires |st.list| == |st.born| && Represents(st, h) && k < |st.list|
    ensures Same(State(RemoveAt(st.list, k), RemoveAt<nat>(st.born, k), st.clock), h[st.born[k] := None])
  {
    hide Priority;
    hide RemoveAt;
    hide Sorted;
    RemoveKeepsEntries(st, h, k);
    var list, born, h' := RemoveAt(st.list, k), RemoveAt<nat>(st.born, k), h[st.born[k] := None];
    forall i | 0 <= i < |list|
      ensures born[i] < |h'| && h'[born[i]] == Some(list[i].policy)
    {
      assert born[i] != st.born[k];
    }
    forall b: nat | b < |h'| && h'[b].Some?
      ensures b in born
    {
      RemoveKeepsOthers(st.born, k, b);
    }
  }

  lemma RemoveKeeps(st: State, h: History, k: nat)
    requires |st.list| == |st.born| && Represents(st, h) && k < |st.list|
    ensures Represents(State(RemoveAt(st.list, k), RemoveAt<nat>(st.born, k), st.clock), h[st.born[k] := None])
  {
    RemoveKeepsSorted(st, k);
    RemoveKeepsSame(st, h, k);
    hide Sorted;
  }

  /** Every operation on the list is the same operation on the history. */
  lemma ApplyRefines(st: State, h: History, op: Op)
    requires |st.list| == |st.born| && Represents(st, h)
    ensures Represents(Apply(st, op), Record(h, op))
  {
    match op
    case Add(p) =>
      if Kept(p) {
        InsertKeepsSorted(st, p);
        InsertKeepsSame(st, h, p);
      }
    case Del(p) =>
      FirstIsNewest(st, h, p);
      var k := FirstEqual(st.list, p);
      if Kept(p) && k < |st.list| {
        RemoveKeeps(st, h, k);
      }
    case Flush =>
  }

  lemma {:induction false} RunRefines(ops: seq<Op>)
    ensures Represents(Run(ops), HistoryOf(ops))
  {
    if ops != [] {
      RunRefines(ops[..|ops| - 1]);
      ApplyRefines(Run(ops[..|ops| - 1]), HistoryOf(ops[..|ops| - 1]), ops[|ops| - 1]);
    }
  }

  lemma {:induction false} FindIsFirst(list: seq<Entry>, packet: Packet, inbound: bool, reqid: nat) returns (k: nat)
    ensures k <= |list| && forall i :: 0 <= i < k ==> !Applies(list[i].policy, packet, inbound, reqid)
    ensures match Find(list, packet, inbound, reqid)
            case None => k == |list|
            case Some(p) => k < |list| && list[k].policy == p && Applies(p, packet, inbound, reqid)
  {
    if list == [] || Applies(list[0].policy, packet, inbound, reqid) {
      k := 0;
    } else {
      var n := FindIsFirst(list[1..], packet, inbound, reqid);
      k := n + 1;
      assert forall i :: 0 < i < |list| ==> list[i] == list[1..][i - 1];
    }
  }

  lemma FindIsBest(st: State, h: History, packet: Packet, inbound: bool, reqid: nat)
    requires |st.list| == |st.born| && Represents(st, h)
    ensures match Find(st.list, packet, inbound, reqid)
            case None => forall k :: !Candidate(h, k, packet, inbound, reqid)
            case Some(p) => exists k :: Best(h, k, packet, inbound, reqid) && h[k] == Some(p)
  {
    hide Priority;
    hide Applies;
    hide Find;
    var n := FindIsFirst(st.list, packet, inbound, reqid);
    forall j | Candidate(h, j, packet, inbound, reqid)
      ensures exists i :: n <= i < |st.list| && st.born[i] == j
    {
      var i :| 0 <= i < |st.born| && st.born[i] == j;
      assert n <= i;
    }
    if n < |st.list| {
      assert Best(h, st.born[n], packet, inbound, reqid);
    }
  }

  /** After any run of additions, deletions and flushes the policy found for a packet is the one of the
      lowest pseudo-priority, and the most recently added of these, among all that apply. */
  lemma LookupIsBestMatch(ops: seq<Op>, packet: Packet, inbound: bool, reqid: nat)
    ensures match Find(Run(ops).list, packet, inbound, reqid)
            case None => forall k :: !Candidate(HistoryOf(ops), k, packet, inbound, reqid)
            case Some(p) => exists k :: Best(HistoryOf(ops), k, packet, inbound, reqid) && HistoryOf(ops)[k] == Some(p)
  {
    RunRefines(ops);
    FindIsBest(Run(ops), HistoryOf(ops), packet, inbound, reqid);
  }

  /** How many live copies of a policy there are. */
  ghost function Copies(h: History, q: Policy): nat {
    if h == [] then 0 else Copies(h[..|h| - 1], q) + if h[|h| - 1] == Some(q) then 1 else 0
  }

  lemma {:induction false} CopiesWithout(h: History, k: nat, q: Policy)
    requires k < |h| && h[k].Some?
    ensures Copies(h[k := None], q) == Copies(h, q) - if h[k] == Some(q) then 1 else 0
  {
    var init := h[..|h| - 1];
    if k == |h| - 1 {
      assert h[k := None][..|h| - 1] == init;
    } else {
      assert h[k := None][..|h| - 1] == init[k := None];
      CopiesWithout(init, k, q);
    }
  }

  lemma {:induction false} NoCopies(h: History, q: Policy)
    ensures Copies(h, q) > 0 <==> exists k :: 0 <= k < |h| && h[k] == Some(q)
  {
    if h != [] {
      var init := h[..|h| - 1];
      NoCopies(init, q);
      if k :| 0 <= k < |h| && h[k] == Some(q) {
        assert k < |init| ==> init[k] == Some(q);
      }
      if k :| 0 <= k < |init| && init[k] == Some(q) {
        assert h[k] == Some(q);
      }
    }
  }

  lemma {:induction false} CopiesOfNone(n: nat, q: Policy)
    ensures Copies(seq(n, _ => None), q) == 0
  {
    if n > 0 {
      var h: History := seq(n, _ => None);
      assert h[..n - 1] == seq(n - 1, _ => None);
      CopiesOfNone(n - 1, q);
    }
  }

  /** Adding an IPsec policy that is not for forwarding makes one more copy of it live, deleting it one less
      if there is one, and flushing leaves none; other policies are not concerned. */
  lemma LiveCopies(h: History, op: Op, q: Policy)
    ensures var counts := !op.Flush? && op.policy == q && q.kind == Ipsec && q.direction != Fwd;
            Copies(Record(h, op), q) ==
            match op
            case Add(_) => Copies(h, q) + if counts then 1 else 0
            case Del(_) => Copies(h, q) - if counts && Copies(h, q) > 0 then 1 else 0
            case Flush => 0
  {
    match op
    case Add(p) => assert (h + [Some(p)])[..|h|] == h;
    case Del(p) =>
      var k := LastEqual(h, p);
      NoCopies(h, q);
      hide LastEqual;
      if Kept(p) && k.Some? {
        CopiesWithout(h, k.value, q);
      }
    case Flush => CopiesOfNone(|h|, q);
  }

  lemma {:induction false} LiveIsKept(ops: seq<Op>, k: nat)
    requires k < |HistoryOf(ops)| && HistoryOf(ops)[k].Some?
    ensures HistoryOf(ops)[k].value.kind == Ipsec && HistoryOf(ops)[k].value.direction != Fwd
    ensures exists i :: 0 <= i < |ops| && ops[i] == Add(HistoryOf(ops)[k].value)
  {
    if ops != [] {
      var init, op, h := ops[..|ops| - 1], ops[|ops| - 1], HistoryOf(ops);
      if k < |HistoryOf(init)| && HistoryOf(init)[k] == h[k] {
        LiveIsKept(init, k);
        var i :| 0 <= i < |init| && init[i] == Add(h[k].value);
        assert ops[i] == Add(h[k].value);
      } else {
        assert op == Add(h[k].value);
        assert ops[|ops| - 1] == Add(h[k].value);
      }
    }
  }

  /** The address is in the range of the selector, and the port too unless the range is 0 to 65535 or
      65535 to 0, which stand for any and for opaque. */
  predicate Covers(ts: Selector, h: Host) {
    && ts.low <= h.address && h.address <= ts.high
    && (|| (ts.fromPort <= h.port && h.port <= ts.toPort)
        || (ts.fromPort, ts.toPort) in {(0, 65535), (65535, 0)})
  }

  /** What a policy found for a packet is: an IPsec policy that was added, of the direction asked for and of
      the reqid asked for unless that is 0, whose selectors cover the packet and whose protocol, if it has
      one, is the packet's; and if none is found no live policy is such. */
  lemma FoundCovers(ops: seq<Op>, packet: Packet, inbound: bool, reqid: nat)
    ensures match Find(Run(ops).list, packet, inbound, reqid)
            case Some(p) =>
              && (exists i :: 0 <= i < |ops| && ops[i] == Add(p))
              && p.kind == Ipsec && p.direction == (if inbound then In else Out) && (reqid == 0 || p.reqid == reqid)
              && Covers(p.src, packet.src) && Covers(p.dst, packet.dst)
              && (p.src.protocol != 0 || p.dst.protocol != 0 ==>
                    packet.protocol as nat == Max(p.src.protocol, p.dst.protocol))
            case None =>
              forall k :: 0 <= k < |HistoryOf(ops)| && HistoryOf(ops)[k].Some? ==>
                var p := HistoryOf(ops)[k].value;
                || p.direction != (if inbound then In else Out) || (reqid != 0 && p.reqid != reqid)
                || !Covers(p.src, packet.src) || !Covers(p.dst, packet.dst)
                || (Max(p.src.protocol, p.dst.protocol) != 0 &&
                    packet.protocol as nat != Max(p.src.protocol, p.dst.protocol))
  {
    LookupIsBestMatch(ops, packet, inbound, reqid);
    var h := HistoryOf(ops);
    hide Run;
    hide HistoryOf;
    hide Priority;
    match Find(Run(ops).list, packet, inbound, reqid)
    case Some(p) =>
      var k :| Best(h, k, packet, inbound, reqid) && h[k] == Some(p);
      LiveIsKept(ops, k);
    case None =>
      forall k | 0 <= k < |h| && h[k].Some?
        ensures !Candidate(h, k, packet, inbound, reqid) && h[k].value.direction != Fwd
      {
        LiveIsKept(ops, k);
      }
  }

  /** No live policy that applies outranks the one found, and of those level with it none is newer.  In
      particular no fallback is returned while a passthrough class policy applies. */
  lemma NothingOutranksFound(ops: seq<Op>, packet: Packet, inbound: bool, reqid: nat)
    requires forall k :: 0 <= k < |HistoryOf(ops)| && HistoryOf(ops)[k].Some? ==> Prefixed(HistoryOf(ops)[k].value)
    ensures match Find(Run(ops).list, packet, inbound, reqid)
            case None => true
            case Some(p) =>
              exists k ::
                && 0 <= k < |HistoryOf(ops)| && HistoryOf(ops)[k] == Some(p)
                && forall j :: Candidate(HistoryOf(ops), j, packet, inbound, reqid) ==>
                     var q := HistoryOf(ops)[j].value;
                     !Outranks(q, p) && !Before(q.class_, p.class_) && (Level(q, p) ==> j <= k)
  {
    LookupIsBestMatch(ops, packet, inbound, reqid);
    var h := HistoryOf(ops);
    hide Run;
    hide HistoryOf;
    hide Applies;
    hide Find;
    hide Priority;
    if Find(Run(ops).list, packet, inbound, reqid).Some? {
      var p := Find(Run(ops).list, packet, inbound, reqid).value;
      var k :| Best(h, k, packet, inbound, reqid) && h[k] == Some(p);
      forall j | Candidate(h, j, packet, inbound, reqid)
        ensures var q := h[j].value; !Outranks(q, p) && !Before(q.class_, p.class_) && (Level(q, p) ==> j <= k)
      {
        PriorityIsLexicographic(h[j].value, p);
      }
    }
  }

  // ---------------------------------------------------------------- the manager

  class PolicyManager {
    var policies: seq<Entry>
    ghost var born: seq<nat>
    ghost var clock: nat

    ghost predicate Valid()
      reads this
    {
      |policies| == |born|
    }

    ghost function Model(): State
      reads this
    {
      State(policies, born, clock)
    }

    constructor ()
      ensures Valid() && Model() == Run([])
    {
      policies, born, clock := [], [], 0;
    }

    method AddPolicy(p: Policy)
      requires Valid()
      modifies this
      ensures Valid() && Model() == Apply(old(Model()), Add(p))
    {
      if !Kept(p) {
        return;
      }
      var priority := Priority(p);
      hide Priority;
      var k := 0;
      while k < |policies| && policies[k].priority < priority
        invariant k <= |policies| && forall i :: 0 <= i < k ==> policies[i].priority < priority
      {
        k := k + 1;
      }
      assert k == Place(policies, priority);
      policies := InsertAt(policies, k, Entry(priority, p));
      born := InsertAt<nat>(born, k, clock);
      clock := clock + 1;
    }

    method DelPolicy(p: Policy) returns (ok: bool)
      requires Valid()
      modifies this
      ensures Valid() && Model() == Apply(old(Model()), Del(p))
      ensures ok <==> !Kept(p) || exists e :: e in old(policies) && e == Entry(Priority(p), p)
    {
      if !Kept(p) {
        return true;
      }
      var priority := Priority(p);
      hide Priority;
      var k := 0;
      while k < |policies|
        invariant k <= |policies| && forall i :: 0 <= i < k ==> policies[i] != Entry(priority, p)
      {
        if policies[k].priority == priority && policies[k].policy == p {
          assert k == FirstEqual(policies, p);
          assert policies[k] in policies && policies[k] == Entry(priority, p);
          policies := RemoveAt(policies, k);
          born := RemoveAt<nat>(born, k);
          return true;
        }
        k := k + 1;
      }
      assert FirstEqual(policies, p) == |policies|;
      return false;
    }

    method FlushPolicies()
      requires Valid()
      modifies this
      ensures Valid() && Model() == Apply(old(Model()), Flush)
    {
      while policies != []
        invariant Valid() && clock == old(clock)
        decreases |policies|
      {
        policies := policies[..|policies| - 1];
        born := born[..|born| - 1];
      }
    }

    method FindByPacket(packet: Packet, inbound: bool, reqid: nat) returns (found: Option<Policy>)
      requires Valid()
      ensures found == Find(policies, packet, inbound, reqid)
    {
      hide Applies;
      var i := 0;
      assert policies[0..] == policies;
      while i < |policies|
        invariant i <= |policies| && Find(policies[i..], packet, inbound, reqid) == Find(policies, packet, inbound, reqid)
      {
        var p := policies[i].policy;
        if Applies(p, packet, inbound, reqid) {
          return Some(p);
        }
        assert policies[i..][1..] == policies[i + 1..];
        i := i + 1;
      }
      return None;
    }
  }
}
