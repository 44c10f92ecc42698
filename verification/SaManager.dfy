/** Checkout, checkin and deferred deletion of one SA entry, as interleaved critical sections.

    The manager's mutex makes everything between two condvar waits atomic, so each step below is
    one such section.  A thread that is inside the manager on behalf of this entry is in one of the
    `Local` states; a blocked thread runs again only after it was woken. */
module SaEntries {
  import opened Bytes

  type Tid = nat

  datatype Local =
    | Waiting(woken: bool, brief: bool)      // in wait_for_entry; brief: update_sa and query_sa
    | Holding                                // has the SA checked out
    | Removing(woken: bool, draining: bool)  // in wait_remove_entry, first or second loop
    | Reclaiming                             // took the entry off the list, will destroy it

  datatype Entry = Entry(locked: bool, waiting: int, awaitsDeletion: bool,
                         listed: bool, destroyed: nat, threads: map<Tid, Local>)

  /** `pick` is the thread a signal wakes. */
  datatype Step =
    | Checkout(t: Tid, brief: bool, pick: Option<Tid>)
    | Resume(t: Tid, pick: Option<Tid>)
    | Checkin(t: Tid, pick: Option<Tid>)
    | Remove(t: Tid)
    | Destroy(t: Tid)
    | Spurious(t: Tid)

  function Created(): Entry {
    Entry(false, 0, false, true, 0, map[])
  }

  predicate OnCondvar(l: Local) {
    l.Waiting? || l.Removing?
  }

  predicate Blocked(en: Entry, t: Tid) {
    t in en.threads && OnCondvar(en.threads[t]) && !en.threads[t].woken
  }

  predicate Woken(en: Entry, t: Tid) {
    t in en.threads && OnCondvar(en.threads[t]) && en.threads[t].woken
  }

  // ---------------------------------------------------------------- condvar

  /** A signal wakes a blocked thread unless there is none. */
  ghost predicate ValidPick(en: Entry, pick: Option<Tid>) {
    match pick
    case Some(t) => Blocked(en, t)
    case None => forall t :: t in en.threads ==> !Blocked(en, t)
  }

  function Signal(en: Entry, pick: Option<Tid>): Entry {
    if pick.Some? && Blocked(en, pick.value) then
      en.(threads := en.threads[pick.value := en.threads[pick.value].(woken := true)])
    else en
  }

  function Broadcast(en: Entry): Entry {
    en.(threads := map t | t in en.threads ::
          if OnCondvar(en.threads[t]) then en.threads[t].(woken := true) else en.threads[t])
  }

  // ---------------------------------------------------------------- critical sections

  function Leave(en: Entry, t: Tid): Entry {
    en.(threads := en.threads - {t})
  }

  function Become(en: Entry, t: Tid, l: Local): Entry {
    en.(threads := en.threads[t := l])
  }

  /** One turn of `wait_for_entry`, for a thread that is not on the condvar. */
  function WaitForEntry(en: Entry, t: Tid, brief: bool, pick: Option<Tid>): Entry {
    if en.locked && !en.awaitsDeletion then
      Become(en.(waiting := en.waiting + 1), t, Waiting(false, brief))
    else if en.awaitsDeletion then Signal(en, pick)
    else if brief then Signal(en, pick)   // locked, used, unlocked and signalled in one section
    else Become(en.(locked := true), t, Holding)
  }

  /** The two loops of `wait_remove_entry`; past them the entry leaves the list. */
  function WaitRemoveEntry(en: Entry, t: Tid, draining: bool): Entry {
    if !draining && en.locked then Become(en, t, Removing(false, false))
    else if en.waiting > 0 then Become(Broadcast(en), t, Removing(false, true))
    else Become(en.(listed := false), t, Reclaiming)
  }

  ghost predicate Enabled(en: Entry, step: Step) {
    match step
    case Checkout(t, _, pick) => en.listed && t !in en.threads && ValidPick(en, pick)
    case Resume(t, pick) => Woken(en, t) && ValidPick(Leave(en, t), pick)
    case Checkin(t, pick) => t in en.threads && en.threads[t].Holding? && ValidPick(Leave(en, t), pick)
    case Remove(t) => en.listed && t !in en.threads
    case Destroy(t) => t in en.threads && en.threads[t].Reclaiming?
    case Spurious(t) => Blocked(en, t)
  }

  function Apply(en: Entry, step: Step): Entry {
    match step
    case Checkout(t, brief, pick) => WaitForEntry(en, t, brief, pick)
    case Resume(t, pick) =>
      if Woken(en, t) then
        match en.threads[t]
        case Waiting(_, brief) =>
          WaitForEntry(Leave(en.(waiting := en.waiting - 1), t), t, brief, pick)
        case Removing(_, draining) => WaitRemoveEntry(Leave(en, t), t, draining)
      else en
    case Checkin(t, pick) =>
      // the entry is looked up again by the SA it holds
      if en.listed && en.locked then Signal(Leave(en.(locked := false), t), pick) else Leave(en, t)
    case Remove(t) =>
      if en.awaitsDeletion then en
      else WaitRemoveEntry(en.(awaitsDeletion := true), t, false)
    case Destroy(t) => Leave(en.(destroyed := en.destroyed + 1), t)
    case Spurious(t) => Signal(en, Some(t))
  }

  // ---------------------------------------------------------------- invariant

  ghost function Waiters(en: Entry): set<Tid> {
    set t | t in en.threads && en.threads[t].Waiting?
  }

  ghost predicate SomeIs(en: Entry, t: Tid, removing: bool) {
    t in en.threads && if removing then en.threads[t].Removing? else en.threads[t].Holding?
  }

  /** The counter counts, and the lock bit means one holder. */
  ghost predicate Counted(en: Entry) {
    && en.waiting == |Waiters(en)|
    && (en.locked <==> exists t :: SomeIs(en, t, false))
    && (forall t, u :: SomeIs(en, t, false) && SomeIs(en, u, false) ==> t == u)
  }

  /** One thread at most deletes, the flag says so, and a draining one finds the entry unlocked. */
  ghost predicate OneRemover(en: Entry) {
    && (en.listed && en.awaitsDeletion <==> exists t :: SomeIs(en, t, true))
    && (forall t, u :: SomeIs(en, t, true) && SomeIs(en, u, true) ==> t == u)
    && (forall t :: SomeIs(en, t, true) && en.threads[t].draining ==> !en.locked)
  }

  /** An unlisted entry is known to its reclaimer only. */
  ghost predicate Unlisted(en: Entry) {
    && (en.listed ==> en.destroyed == 0 && forall t :: t in en.threads ==> !en.threads[t].Reclaiming?)
    && (!en.listed ==> en.awaitsDeletion && !en.locked && en.waiting == 0)
    && (!en.listed && en.destroyed == 0 ==> exists t :: en.threads == map[t := Reclaiming])
    && (!en.listed && en.destroyed > 0 ==> en.destroyed == 1 && en.threads == map[])
  }

  /** No lost wakeup: a thread blocked on an unlocked entry can count on a woken one. */
  ghost predicate NoLostWakeup(en: Entry) {
    !en.locked && (exists t :: Blocked(en, t)) ==> exists t :: Woken(en, t)
  }

  ghost predicate Inv(en: Entry) {
    Counted(en) && OneRemover(en) && Unlisted(en) && NoLostWakeup(en)
  }

  // ---------------------------------------------------------------- every step keeps it

  lemma WaitersAfterBecome(en: Entry, t: Tid, l: Local)
    requires t !in en.threads
    ensures |Waiters(Become(en, t, l))| == |Waiters(en)| + if l.Waiting? then 1 else 0
  {
    assert Waiters(Become(en, t, l)) == Waiters(en) + if l.Waiting? then {t} else {};
  }

  lemma WaitersAfterLeave(en: Entry, t: Tid)
    requires t in en.threads
    ensures |Waiters(Leave(en, t))| == |Waiters(en)| - if en.threads[t].Waiting? then 1 else 0
  {
    assert Waiters(Leave(en, t)) == Waiters(en) - {t};
  }

  /** Waking threads changes who is blocked and nothing else. */
  lemma WakingKeeps(en: Entry, to: Entry)
    requires to == en.(threads := to.threads) && to.threads.Keys == en.threads.Keys
    requires forall t :: t in en.threads ==>
               to.threads[t] == en.threads[t] ||
               (OnCondvar(en.threads[t]) && to.threads[t] == en.threads[t].(woken := true))
    ensures Counted(en) ==> Counted(to)
    ensures OneRemover(en) ==> OneRemover(to)
    ensures en.listed && Unlisted(en) ==> Unlisted(to)
  {
    assert Waiters(to) == Waiters(en);
    assert forall t, removing :: SomeIs(to, t, removing) <==> SomeIs(en, t, removing);
  }

  lemma SignalKeeps(en: Entry, pick: Option<Tid>)
    requires Counted(en) && OneRemover(en) && Unlisted(en) && en.listed && ValidPick(en, pick)
    ensures Inv(Signal(en, pick))
  {
    var to := Signal(en, pick);
    WakingKeeps(en, to);
    if t :| Blocked(to, t) {
      assert Blocked(en, t);
      assert Woken(to, pick.value);
    }
  }

  lemma WaitForEntryKeeps(en: Entry, t: Tid, brief: bool, pick: Option<Tid>)
    requires Counted(en) && OneRemover(en) && Unlisted(en) && en.listed && ValidPick(en, pick)
    requires t !in en.threads
    ensures Inv(WaitForEntry(en, t, brief, pick))
  {
    if en.awaitsDeletion || (!en.locked && brief) {
      SignalKeeps(en, pick);
    } else {
      var l := if en.locked then Waiting(false, brief) else Holding;
      var to := WaitForEntry(en, t, brief, pick);
      WaitersAfterBecome(en, t, l);
      assert Waiters(to) == Waiters(Become(en, t, l));
      assert forall u :: SomeIs(to, u, false) <==> SomeIs(en, u, false) || (u == t && l.Holding?);
      assert forall u :: SomeIs(to, u, true) <==> SomeIs(en, u, true);
      assert l.Holding? ==> SomeIs(to, t, false);
    }
  }

  /** What `wait_remove_entry` finds when it looks at the entry. */
  ghost predicate RemoverAlone(en: Entry, t: Tid, draining: bool) {
    && Counted(en) && Unlisted(en) && en.listed && en.awaitsDeletion && t !in en.threads
    && (forall u :: !SomeIs(en, u, true))
    && (draining ==> !en.locked)
  }

  lemma RemoverBlocks(en: Entry, t: Tid, draining: bool)
    requires RemoverAlone(en, t, draining) && (en.locked || en.waiting > 0)
    ensures Inv(WaitRemoveEntry(en, t, draining))
  {
    var to := WaitRemoveEntry(en, t, draining);
    var base := if en.locked then en else Broadcast(en);
    WakingKeeps(en, base);
    WaitersAfterBecome(base, t, to.threads[t]);
    assert forall u, removing :: SomeIs(base, u, removing) <==> SomeIs(en, u, removing);
    assert forall u :: SomeIs(to, u, false) <==> SomeIs(base, u, false);
    assert forall u :: SomeIs(to, u, true) <==> SomeIs(base, u, true) || u == t;
    assert SomeIs(to, t, true);
    if !en.locked {
      assert Waiters(en) != {};
      var w :| w in Waiters(en);
      assert Woken(to, w);
    }
  }

  lemma RemoverTakes(en: Entry, t: Tid, draining: bool)
    requires RemoverAlone(en, t, draining) && !en.locked && en.waiting == 0
    ensures en.threads == map[]
    ensures Inv(WaitRemoveEntry(en, t, draining))
  {
    assert Waiters(en) == {};
    forall u
      ensures u !in en.threads
    {
      assert u !in Waiters(en) && !SomeIs(en, u, false) && !SomeIs(en, u, true);
    }
    var to := WaitRemoveEntry(en, t, draining);
    assert to.threads == map[t := Reclaiming];
    assert Waiters(to) == {};
    assert forall u, removing :: !SomeIs(to, u, removing);
  }

  lemma WaitRemoveKeeps(en: Entry, t: Tid, draining: bool)
    requires RemoverAlone(en, t, draining)
    ensures Inv(WaitRemoveEntry(en, t, draining))
  {
    if en.locked || en.waiting > 0 {
      RemoverBlocks(en, t, draining);
    } else {
      RemoverTakes(en, t, draining);
    }
  }

  /** Off the list, only the reclaimer can still take a step. */
  lemma UnlistedSteps(en: Entry, step: Step)
    requires Inv(en) && !en.listed && Enabled(en, step)
    ensures step.Destroy? && en.destroyed == 0 && en.threads == map[step.t := Reclaiming]
    ensures !Apply(en, step).listed
  {
  }

  lemma LeaveSomeIs(en: Entry, t: Tid)
    ensures forall u, removing :: SomeIs(Leave(en, t), u, removing) <==> u != t && SomeIs(en, u, removing)
  {
  }

  lemma ResumeKeeps(en: Entry, t: Tid, pick: Option<Tid>)
    requires Inv(en) && en.listed && Enabled(en, Resume(t, pick))
    ensures Inv(Apply(en, Resume(t, pick)))
  {
    WaitersAfterLeave(en, t);
    LeaveSomeIs(en, t);
    match en.threads[t]
    case Waiting(_, brief) =>
      var rest := Leave(en.(waiting := en.waiting - 1), t);
      assert Waiters(rest) == Waiters(Leave(en, t));
      assert forall u, removing :: SomeIs(rest, u, removing) <==> SomeIs(Leave(en, t), u, removing);
      assert forall u, removing :: SomeIs(rest, u, removing) <==> SomeIs(en, u, removing);
      assert forall u :: Blocked(rest, u) <==> Blocked(Leave(en, t), u);
      WaitForEntryKeeps(rest, t, brief, pick);
    case Removing(_, draining) =>
      var rest := Leave(en, t);
      assert SomeIs(en, t, true);
      assert forall u :: SomeIs(rest, u, false) <==> SomeIs(en, u, false);
      WaitRemoveKeeps(rest, t, draining);
  }

  lemma CheckinKeeps(en: Entry, t: Tid, pick: Option<Tid>)
    requires Inv(en) && en.listed && Enabled(en, Checkin(t, pick))
    ensures Inv(Apply(en, Checkin(t, pick)))
  {
    assert SomeIs(en, t, false);
    var rest := Leave(en.(locked := false), t);
    WaitersAfterLeave(en, t);
    LeaveSomeIs(en, t);
    assert Waiters(rest) == Waiters(Leave(en, t));
    assert forall u, removing :: SomeIs(rest, u, removing) <==> SomeIs(Leave(en, t), u, removing);
    assert forall u :: Blocked(rest, u) <==> Blocked(Leave(en, t), u);
    assert Counted(rest) && OneRemover(rest) && Unlisted(rest);
    SignalKeeps(rest, pick);
  }

  lemma RemoveKeeps(en: Entry, t: Tid)
    requires Inv(en) && Enabled(en, Remove(t))
    ensures Inv(Apply(en, Remove(t)))
  {
    if !en.awaitsDeletion {
      var marked := en.(awaitsDeletion := true);
      assert Waiters(marked) == Waiters(en);
      assert forall u, removing :: SomeIs(marked, u, removing) <==> SomeIs(en, u, removing);
      WaitRemoveKeeps(marked, t, false);
    }
  }

  lemma SpuriousKeeps(en: Entry, t: Tid)
    requires Inv(en) && en.listed && Enabled(en, Spurious(t))
    ensures Inv(Apply(en, Spurious(t)))
  {
    var to := Signal(en, Some(t));
    WakingKeeps(en, to);
    assert Woken(to, t);
  }

  lemma StepKeepsInv(en: Entry, step: Step)
    requires Inv(en) && Enabled(en, step)
    ensures Inv(Apply(en, step))
  {
    if !en.listed {
      UnlistedSteps(en, step);
      var to := Apply(en, step);
      assert to.threads == map[];
      assert Waiters(to) == {};
      assert forall u, removing :: !SomeIs(to, u, removing);
    } else {
      match step
      case Checkout(t, brief, pick) => WaitForEntryKeeps(en, t, brief, pick);
      case Resume(t, pick) => ResumeKeeps(en, t, pick);
      case Checkin(t, pick) => CheckinKeeps(en, t, pick);
      case Remove(t) => RemoveKeeps(en, t);
      case Destroy(t) =>
      case Spurious(t) => SpuriousKeeps(en, t);
    }
  }

  // ---------------------------------------------------------------- whole lives of an entry

  /** Any interleaving, from the creation of the entry on. */
  ghost predicate IsLife(states: seq<Entry>, steps: seq<Step>) {
    && |states| == |steps| + 1
    && states[0] == Created()
    && forall i :: 0 <= i < |steps| ==> Enabled(states[i], steps[i]) && states[i + 1] == Apply(states[i], steps[i])
  }

  lemma {:induction false} LifeKeepsInv(states: seq<Entry>, steps: seq<Step>, i: nat)
    requires IsLife(states, steps) && i <= |steps|
    ensures Inv(states[i])
  {
    if i == 0 {
      assert Waiters(states[0]) == {};
      assert forall u, removing :: !SomeIs(states[0], u, removing);
    } else {
      LifeKeepsInv(states, steps, i - 1);
      StepKeepsInv(states[i - 1], steps[i - 1]);
    }
  }

  /** At most one thread ever has the SA, and nobody sleeps through an unlock. */
  lemma CheckoutIsExclusive(states: seq<Entry>, steps: seq<Step>, i: nat)
    requires IsLife(states, steps) && i <= |steps|
    ensures var en := states[i];
            && (forall t, u :: t in en.threads && u in en.threads ==>
                  en.threads[t].Holding? && en.threads[u].Holding? ==> t == u)
            && (forall t :: t in en.threads && en.threads[t].Holding? ==> en.locked && en.listed)
            && (!en.locked && (exists t :: Blocked(en, t)) ==> exists t :: Woken(en, t))
  {
    LifeKeepsInv(states, steps, i);
    var en := states[i];
    forall t | t in en.threads && en.threads[t].Holding?
      ensures SomeIs(en, t, false) && en.listed
    {
    }
  }

  /** The step that takes the entry off the list finds no holder and no waiter, and leaves the
      entry to the thread that took it. */
  lemma UnlistingIsSafe(states: seq<Entry>, steps: seq<Step>, i: nat)
    requires IsLife(states, steps) && i < |steps| && states[i].listed && !states[i + 1].listed
    ensures (steps[i].Remove? || steps[i].Resume?) && states[i + 1].threads == map[steps[i].t := Reclaiming]
    ensures !states[i + 1].locked && states[i + 1].waiting == 0
  {
    LifeKeepsInv(states, steps, i);
    LifeKeepsInv(states, steps, i + 1);
    var t := steps[i].t;
    assert t in states[i + 1].threads;
  }

  /** Destruction happens at most once, after the entry left the list, when nobody else is inside
      the manager for it; and it is the last step the entry ever sees. */
  lemma DestructionIsSafe(states: seq<Entry>, steps: seq<Step>, i: nat)
    requires IsLife(states, steps) && i < |steps| && steps[i].Destroy?
    ensures !states[i].listed && states[i].destroyed == 0
    ensures states[i].threads == map[steps[i].t := Reclaiming]
    ensures i + 1 == |steps| && states[i + 1].destroyed == 1
  {
    LifeKeepsInv(states, steps, i);
    LifeKeepsInv(states, steps, i + 1);
    assert !states[i].listed;
    UnlistedSteps(states[i], steps[i]);
    assert states[i + 1].destroyed == 1;
    if i + 1 < |steps| {
      UnlistedSteps(states[i + 1], steps[i + 1]);
    }
  }

  // ---------------------------------------------------------------- what a step achieves

  /** Only who is woken may differ. */
  ghost predicate SameThread(en: Entry, to: Entry, u: Tid) {
    && (u in en.threads <==> u in to.threads)
    && (u in en.threads ==>
          to.threads[u] == en.threads[u] ||
          (OnCondvar(en.threads[u]) && to.threads[u] == en.threads[u].(woken := true)))
  }

  /** A thread that asks for the SA, at once or after waiting, has it checked out afterwards exactly when
      the entry was free and not about to be deleted, and waits exactly when it was locked and not about
      to be deleted; `brief` users are done with it at once. */
  lemma CheckoutExactly(en: Entry, step: Step)
    requires Enabled(en, step) && (step.Checkout? || (step.Resume? && en.threads[step.t].Waiting?))
    ensures var to, t := Apply(en, step), step.t;
            var brief := if step.Checkout? then step.brief else en.threads[t].brief;
            && (t in to.threads && to.threads[t] == Holding <==> !en.locked && !en.awaitsDeletion && !brief)
            && (t in to.threads && to.threads[t] == Waiting(false, brief) <==> en.locked && !en.awaitsDeletion)
            && (t in to.threads ==> to.threads[t].Holding? || to.threads[t].Waiting?)
            && (to.locked <==> en.locked || (!en.awaitsDeletion && !brief))
            && to.awaitsDeletion == en.awaitsDeletion && to.listed == en.listed
            && forall u :: u != t ==> SameThread(en, to, u)
  {
  }

  /** Removing marks the entry, and takes it off the list at once exactly when it is free and nobody waits. */
  lemma RemoveExactly(en: Entry, t: Tid)
    requires Enabled(en, Remove(t))
    ensures var to := Apply(en, Remove(t));
            && to.awaitsDeletion && to.locked == en.locked
            && (en.awaitsDeletion ==> to == en)
            && (!en.awaitsDeletion ==>
                  && t in to.threads && (forall u :: u != t ==> SameThread(en, to, u))
                  && (if !en.locked && en.waiting <= 0 then to.threads[t] == Reclaiming && !to.listed
                      else to.threads[t] == Removing(false, !en.locked) && to.listed))
  {
  }

  /** Checking in frees the entry and wakes a thread if one is blocked. */
  lemma CheckinExactly(en: Entry, t: Tid, pick: Option<Tid>)
    requires Inv(en) && Enabled(en, Checkin(t, pick))
    ensures var to := Apply(en, Checkin(t, pick));
            && !to.locked && t !in to.threads && (forall u :: u != t ==> SameThread(en, to, u))
            && ((exists u :: Blocked(en, u)) ==> exists u :: Blocked(en, u) && Woken(to, u))
  {
    assert SomeIs(en, t, false);
    if u :| Blocked(en, u) {
      assert Blocked(Leave(en, t), u);
      assert Woken(Apply(en, Checkin(t, pick)), pick.value);
    }
  }

  lemma SomePick(en: Entry)
    ensures exists pick :: ValidPick(en, pick)
  {
    if t :| Blocked(en, t) {
      assert ValidPick(en, Some(t));
    } else {
      assert ValidPick(en, None);
    }
  }

  /** Whoever comes to a listed entry can ask for the SA or for its removal, and every thread inside has
      its step. */
  lemma NobodyIsShutOut(en: Entry, t: Tid, brief: bool)
    ensures en.listed && t !in en.threads ==>
              Enabled(en, Remove(t)) && exists pick :: Enabled(en, Checkout(t, brief, pick))
    ensures t in en.threads ==>
              match en.threads[t]
              case Waiting(woken, _) =>
                if woken then exists pick :: Enabled(en, Resume(t, pick)) else Enabled(en, Spurious(t))
              case Removing(woken, _) =>
                if woken then exists pick :: Enabled(en, Resume(t, pick)) else Enabled(en, Spurious(t))
              case Holding => exists pick :: Enabled(en, Checkin(t, pick))
              case Reclaiming => Enabled(en, Destroy(t))
  {
    SomePick(en);
    SomePick(Leave(en, t));
    var pick, other :| ValidPick(en, pick) && ValidPick(Leave(en, t), other);
    hide ValidPick;
    assert en.listed && t !in en.threads ==> Enabled(en, Checkout(t, brief, pick));
    assert Woken(en, t) ==> Enabled(en, Resume(t, other));
    assert t in en.threads && en.threads[t].Holding? ==> Enabled(en, Checkin(t, other));
  }

  lemma {:induction false} SubsetSize(a: set<Tid>, b: set<Tid>)
    requires a <= b
    ensures |a| <= |b|
  {
    if a != {} {
      var x :| x in a;
      SubsetSize(a - {x}, b - {x});
    }
  }

  // ---------------------------------------------------------------- waiters are served

  ghost function WokenWaiters(en: Entry): set<Tid> {
    set t | t in en.threads && en.threads[t].Waiting? && en.threads[t].woken
  }

  /** How many more turns and checkins there can be while nobody new arrives. */
  ghost function LiveRank(en: Entry): nat {
    3 * |Waiters(en)| + |WokenWaiters(en)| + if en.locked then 2 else 0
  }

  ghost predicate Alive(en: Entry) {
    Inv(en) && en.listed && !en.awaitsDeletion
  }

  /** A turn of a woken thread, or the end of a checkout. */
  predicate IsMove(step: Step) {
    step.Resume? || step.Checkin?
  }

  lemma SignalWakes(en: Entry, pick: Option<Tid>)
    ensures var to := Signal(en, pick);
            Waiters(to) == Waiters(en) && |WokenWaiters(to)| <= |WokenWaiters(en)| + 1 && to.locked == en.locked
  {
    var to := Signal(en, pick);
    assert Waiters(to) == Waiters(en);
    if pick.Some? && Blocked(en, pick.value) && en.threads[pick.value].Waiting? {
      assert WokenWaiters(to) == WokenWaiters(en) + {pick.value};
    } else {
      assert WokenWaiters(to) == WokenWaiters(en);
    }
  }

  lemma RankAfterLeave(en: Entry, t: Tid)
    requires t in en.threads
    ensures var w, n := |Waiters(Leave(en, t))|, |WokenWaiters(Leave(en, t))|;
            if en.threads[t].Waiting?
            then w == |Waiters(en)| - 1 && n == |WokenWaiters(en)| - if en.threads[t].woken then 1 else 0
            else w == |Waiters(en)| && n == |WokenWaiters(en)|
  {
    assert Waiters(Leave(en, t)) == Waiters(en) - {t};
    assert WokenWaiters(Leave(en, t)) == WokenWaiters(en) - {t};
  }

  lemma RankAfterBecome(en: Entry, t: Tid, l: Local)
    requires t !in en.threads && (l.Holding? || (l.Waiting? && !l.woken))
    ensures |Waiters(Become(en, t, l))| == |Waiters(en)| + if l.Waiting? then 1 else 0
    ensures |WokenWaiters(Become(en, t, l))| == |WokenWaiters(en)|
  {
    WaitersAfterBecome(en, t, l);
    assert WokenWaiters(Become(en, t, l)) == WokenWaiters(en);
  }

  /** Asking costs at most three, and leaves at least one behind what was paid by a waiter. */
  lemma AskingRank(en: Entry, t: Tid, brief: bool, pick: Option<Tid>)
    requires t !in en.threads && !en.awaitsDeletion
    ensures var to := WaitForEntry(en, t, brief, pick);
            LiveRank(to) <= LiveRank(en) + (if en.locked then 3 else 2)
  {
    if en.locked {
      RankAfterBecome(en.(waiting := en.waiting + 1), t, Waiting(false, brief));
      assert Waiters(en.(waiting := en.waiting + 1)) == Waiters(en);
      assert WokenWaiters(en.(waiting := en.waiting + 1)) == WokenWaiters(en);
    } else if brief {
      SignalWakes(en, pick);
    } else {
      RankAfterBecome(en.(locked := true), t, Holding);
      assert Waiters(en.(locked := true)) == Waiters(en);
      assert WokenWaiters(en.(locked := true)) == WokenWaiters(en);
    }
  }

  lemma MoveLowersRank(en: Entry, step: Step)
    requires Alive(en) && Enabled(en, step) && IsMove(step)
    ensures Alive(Apply(en, step)) && LiveRank(Apply(en, step)) < LiveRank(en)
  {
    StepKeepsInv(en, step);
    var t := step.t;
    RankAfterLeave(en, t);
    if step.Checkin? {
      assert SomeIs(en, t, false);
      var rest := Leave(en.(locked := false), t);
      assert Waiters(rest) == Waiters(Leave(en, t)) && WokenWaiters(rest) == WokenWaiters(Leave(en, t));
      SignalWakes(rest, step.pick);
    } else {
      assert !SomeIs(en, t, true);
      var rest := Leave(en.(waiting := en.waiting - 1), t);
      assert Waiters(rest) == Waiters(Leave(en, t)) && WokenWaiters(rest) == WokenWaiters(Leave(en, t));
      AskingRank(rest, t, en.threads[t].brief, step.pick);
    }
  }

  lemma OtherRaisesRank(en: Entry, step: Step)
    requires Alive(en) && Enabled(en, step) && !IsMove(step) && !step.Remove?
    ensures Alive(Apply(en, step)) && LiveRank(Apply(en, step)) <= LiveRank(en) + 3
  {
    StepKeepsInv(en, step);
    match step
    case Checkout(t, brief, pick) => AskingRank(en, t, brief, pick);
    case Spurious(t) => SignalWakes(en, Some(t));
    case _ =>
  }

  /** While somebody waits, somebody can make a move. */
  lemma AliveCanMove(en: Entry)
    requires Alive(en) && Waiters(en) != {}
    ensures exists step :: IsMove(step) && Enabled(en, step)
  {
    if en.locked {
      var t :| SomeIs(en, t, false);
      NobodyIsShutOut(en, t, false);
      var pick :| Enabled(en, Checkin(t, pick));
      assert IsMove(Checkin(t, pick));
    } else {
      var w :| w in Waiters(en);
      assert Blocked(en, w) || Woken(en, w);
      var t :| Woken(en, t);
      NobodyIsShutOut(en, t, false);
      var pick :| Enabled(en, Resume(t, pick));
      assert IsMove(Resume(t, pick));
    }
  }

  /** Any interleaving from some state on. */
  ghost predicate IsRun(states: seq<Entry>, steps: seq<Step>) {
    && |states| == |steps| + 1
    && forall i :: 0 <= i < |steps| ==> Enabled(states[i], steps[i]) && states[i + 1] == Apply(states[i], steps[i])
  }

  /** How many of the first `n` steps were moves. */
  function Moves(steps: seq<Step>, n: nat): (k: nat)
    requires n <= |steps|
    ensures k <= n
  {
    if n == 0 then 0 else Moves(steps, n - 1) + if IsMove(steps[n - 1]) then 1 else 0
  }

  lemma FirstRank(en: Entry)
    requires Inv(en)
    ensures LiveRank(en) <= 4 * en.waiting + 2
  {
    assert WokenWaiters(en) <= Waiters(en);
    SubsetSize(WokenWaiters(en), Waiters(en));
  }

  /** Nobody asked for the deletion in the first `n` steps. */
  ghost predicate Undisturbed(states: seq<Entry>, n: nat) {
    forall i :: 0 <= i <= n && i < |states| ==> !states[i].awaitsDeletion
  }

  lemma AliveStep(en: Entry, step: Step)
    requires Alive(en) && Enabled(en, step) && !Apply(en, step).awaitsDeletion
    ensures Alive(Apply(en, step))
    ensures LiveRank(Apply(en, step)) + (if IsMove(step) then 1 else 0) <= LiveRank(en) + if IsMove(step) then 0 else 3
  {
    if IsMove(step) {
      MoveLowersRank(en, step);
    } else {
      OtherRaisesRank(en, step);
    }
  }

  lemma {:induction false} MovesBound(states: seq<Entry>, steps: seq<Step>, n: nat)
    requires IsRun(states, steps) && Alive(states[0]) && n <= |steps| && Undisturbed(states, n)
    ensures Alive(states[n])
    ensures Moves(steps, n) + LiveRank(states[n]) <= LiveRank(states[0]) + 3 * (n - Moves(steps, n))
  {
    hide Alive;
    hide LiveRank;
    hide Apply;
    hide Enabled;
    hide IsMove;
    if n > 0 {
      MovesBound(states, steps, n - 1);
      assert !states[n].awaitsDeletion && states[n - 1 + 1] == Apply(states[n - 1], steps[n - 1]);
      AliveStep(states[n - 1], steps[n - 1]);
    }
  }

  ghost predicate WaitsFor(en: Entry, t: Tid) {
    t in en.threads && en.threads[t].Waiting? && !en.threads[t].brief
  }

  ghost predicate Has(en: Entry, t: Tid) {
    t in en.threads && en.threads[t].Holding?
  }

  /** A waiter gives up for a deletion only. */
  lemma WaiterStays(en: Entry, step: Step, t: Tid)
    requires Alive(en) && Enabled(en, step) && WaitsFor(en, t)
    ensures var to := Apply(en, step); to.awaitsDeletion || Has(to, t) || WaitsFor(to, t)
  {
    if (step.Checkout? || step.Resume?) && step.t != t {
      assert !SomeIs(en, step.t, true);
      CheckoutExactly(en, step);
      assert SameThread(en, Apply(en, step), t);
    }
  }

  lemma {:induction false} WaiterStaysOn(states: seq<Entry>, steps: seq<Step>, t: Tid, n: nat)
    requires IsRun(states, steps) && Alive(states[0]) && WaitsFor(states[0], t) && n <= |steps| && Undisturbed(states, n)
    requires forall i :: 0 <= i <= n ==> !Has(states[i], t)
    ensures WaitsFor(states[n], t)
  {
    hide Alive;
    hide Apply;
    hide Enabled;
    hide Has;
    hide WaitsFor;
    if n > 0 {
      WaiterStaysOn(states, steps, t, n - 1);
      MovesBound(states, steps, n - 1);
      WaiterStays(states[n - 1], steps[n - 1], t);
    }
  }

  /** A thread that waits for a live entry gets the SA, unless the entry is to be deleted: in every
      interleaving the moves until then are bounded by the number of waiters and three for every other
      step (a new arrival, a spurious wakeup), and until then some thread can make a move. */
  lemma WaiterIsServed(states: seq<Entry>, steps: seq<Step>, t: Tid)
    requires IsRun(states, steps) && Alive(states[0]) && WaitsFor(states[0], t)
    ensures || (exists i :: 0 <= i <= |steps| && (Has(states[i], t) || states[i].awaitsDeletion))
            || (&& Moves(steps, |steps|) <= 4 * states[0].waiting + 2 + 3 * (|steps| - Moves(steps, |steps|))
                && exists step :: IsMove(step) && Enabled(states[|steps|], step))
  {
    if forall i :: 0 <= i <= |steps| ==> !Has(states[i], t) && !states[i].awaitsDeletion {
      WaiterStaysOn(states, steps, t, |steps|);
      MovesBound(states, steps, |steps|);
      assert t in Waiters(states[|steps|]);
      AliveCanMove(states[|steps|]);
      FirstRank(states[0]);
    }
  }

  // ---------------------------------------------------------------- deletion gets done

  ghost predicate RemoverWoken(en: Entry) {
    exists t :: SomeIs(en, t, true) && Woken(en, t)
  }

  /** How many more turns the threads at a dying entry can take. */
  ghost function Rank(en: Entry): nat {
    2 * |Waiters(en)| + if RemoverWoken(en) then 1 else 0
  }

  ghost predicate Dying(en: Entry) {
    Inv(en) && en.listed && en.awaitsDeletion && !en.locked
  }

  /** Somebody can always go on. */
  lemma DyingCanStep(en: Entry)
    requires Dying(en)
    ensures exists t :: Woken(en, t)
  {
    var r :| SomeIs(en, r, true);
    assert Blocked(en, r) || Woken(en, r);
  }

  /** Every turn of a woken thread comes closer to the removal, or is the removal. */
  lemma DyingStep(en: Entry, t: Tid, pick: Option<Tid>)
    requires Dying(en) && Enabled(en, Resume(t, pick))
    ensures var to := Apply(en, Resume(t, pick));
            Rank(en) > 0 && (to.listed ==> Dying(to) && Rank(to) < Rank(en))
  {
    var to := Apply(en, Resume(t, pick));
    StepKeepsInv(en, Resume(t, pick));
    WaitersAfterLeave(en, t);
    if en.threads[t].Waiting? {
      assert t in Waiters(en);
      assert Waiters(to) == Waiters(Leave(en, t));
    } else {
      assert SomeIs(en, t, true) && Woken(en, t);
      if to.listed {
        assert Waiters(to) == Waiters(en);
        assert to.threads[t] == Removing(false, true);
        assert SomeIs(to, t, true) && !Woken(to, t);
        assert !RemoverWoken(to);
      }
    }
  }

  /** Any other step leaves the entry dying, and at most wakes the remover once more. */
  lemma DyingOther(en: Entry, step: Step)
    requires Dying(en) && Enabled(en, step) && !step.Resume?
    ensures var to := Apply(en, step); Dying(to) && Rank(to) <= Rank(en) + 1
  {
    var to := Apply(en, step);
    StepKeepsInv(en, step);
    assert step.Checkin? ==> SomeIs(en, step.t, false);
    assert Waiters(to) == Waiters(en);
  }

  /** How many of the first `n` steps were turns of a woken thread. */
  function Turns(steps: seq<Step>, n: nat): (k: nat)
    requires n <= |steps|
    ensures k <= n
  {
    if n == 0 then 0 else Turns(steps, n - 1) + if steps[n - 1].Resume? then 1 else 0
  }

  /** Every turn is paid for by the rank at the start or by some other step. */
  lemma {:induction false} TurnsBound(states: seq<Entry>, steps: seq<Step>, n: nat)
    requires IsRun(states, steps) && Dying(states[0]) && n <= |steps|
    ensures Inv(states[n]) && (states[n].listed ==> Dying(states[n]))
    ensures Turns(steps, n) + (if states[n].listed then Rank(states[n]) else 0) <= Rank(states[0]) + (n - Turns(steps, n))
  {
    hide Inv;
    hide Rank;
    hide Apply;
    hide Enabled;
    if n > 0 {
      TurnsBound(states, steps, n - 1);
      var en, step := states[n - 1], steps[n - 1];
      StepKeepsInv(en, step);
      if !en.listed {
        UnlistedSteps(en, step);
      } else if step.Resume? {
        DyingStep(en, step.t, step.pick);
      } else {
        DyingOther(en, step);
      }
    }
  }

  /** Once the SA is checked in, an entry that awaits deletion leaves the list: whatever the
      interleaving, woken threads take at most 2 * waiting + 1 turns, plus one for every other step (a
      new arrival, a spurious wakeup), and until the entry is off the list some thread can run. */
  lemma DeletionCompletes(states: seq<Entry>, steps: seq<Step>)
    requires IsRun(states, steps) && Dying(states[0])
    ensures Turns(steps, |steps|) <= 2 * states[0].waiting + 1 + (|steps| - Turns(steps, |steps|))
    ensures states[|steps|].listed ==> exists t :: Woken(states[|steps|], t)
  {
    TurnsBound(states, steps, |steps|);
    if states[|steps|].listed {
      DyingCanStep(states[|steps|]);
    }
  }
}

/** The manager: a list of SA entries, each following the protocol above.  Threads find entries by
    searching the list, so a step may concern any listed entry. */
module SaManagers {
  import E = SaEntries

  type Eid = nat

  /** `sas` is the list, newest first; `entries` has every entry ever created, by its number. */
  datatype Manager = Manager(sas: seq<Eid>, entries: seq<E.Entry>)

  datatype Step = Add | On(e: Eid, step: E.Step)

  function Init(): Manager {
    Manager([], [])
  }

  function Off(sas: seq<Eid>, e: Eid): seq<Eid> {
    if sas == [] then [] else if sas[0] == e then sas[1..] else [sas[0]] + Off(sas[1..], e)
  }

  ghost predicate Enabled(m: Manager, step: Step) {
    step.On? ==> step.e < |m.entries| && E.Enabled(m.entries[step.e], step.step)
  }

  function Apply(m: Manager, step: Step): Manager
    requires step.On? ==> step.e < |m.entries|
  {
    match step
    case Add => Manager([|m.entries|] + m.sas, m.entries + [E.Created()])
    case On(e, s) =>
      var to := E.Apply(m.entries[e], s);
      Manager(if m.entries[e].listed && !to.listed then Off(m.sas, e) else m.sas, m.entries[e := to])
  }

  ghost predicate IsRun(states: seq<Manager>, steps: seq<Step>) {
    && |states| == |steps| + 1
    && states[0] == Init()
    && forall i :: 0 <= i < |steps| ==> Enabled(states[i], steps[i]) && states[i + 1] == Apply(states[i], steps[i])
  }

  ghost predicate NoRepeats(sas: seq<Eid>) {
    forall i, j :: 0 <= i < j < |sas| ==> sas[i] != sas[j]
  }

  ghost predicate Lists(sas: seq<Eid>, entries: seq<E.Entry>) {
    forall e: Eid :: e in sas <==> e < |entries| && entries[e].listed
  }

  /** The list is the listed entries, each once, and every entry keeps its invariant. */
  ghost predicate Inv(m: Manager) {
    && (forall e :: 0 <= e < |m.entries| ==> E.Inv(m.entries[e]))
    && Lists(m.sas, m.entries)
    && NoRepeats(m.sas)
  }

  lemma {:induction false} OffRemoves(sas: seq<Eid>, e: Eid)
    requires NoRepeats(sas)
    ensures forall x :: x in Off(sas, e) <==> x in sas && x != e
    ensures NoRepeats(Off(sas, e))
  {
    if sas != [] {
      assert sas == [sas[0]] + sas[1..];
      OffRemoves(sas[1..], e);
      assert sas[0] !in sas[1..];
    }
  }

  /** A new entry is free, unmarked and first in the list; a step concerns its entry only, and takes it off the
      list exactly when it unlists it. */
  lemma StepIsLocal(m: Manager, step: Step)
    requires Enabled(m, step) && NoRepeats(m.sas)
    ensures var to := Apply(m, step);
            match step
            case Add =>
              && |to.entries| == |m.entries| + 1 && to.entries[..|m.entries|] == m.entries && to.sas == [|m.entries|] + m.sas
              && var en := to.entries[|m.entries|];
                 en.listed && !en.locked && !en.awaitsDeletion && en.waiting == 0 && en.threads == map[]
            case On(e, s) =>
              && |to.entries| == |m.entries| && to.entries[e] == E.Apply(m.entries[e], s)
              && (forall x :: 0 <= x < |m.entries| && x != e ==> to.entries[x] == m.entries[x])
              && (forall x :: x in to.sas <==> x in m.sas && !(x == e && m.entries[e].listed && !to.entries[e].listed))
  {
    if step.On? {
      OffRemoves(m.sas, step.e);
      hide E.Apply;
    }
  }

  lemma CreatedIsFine()
    ensures E.Inv(E.Created())
  {
    assert E.Waiters(E.Created()) == {};
    assert forall u, removing :: !E.SomeIs(E.Created(), u, removing);
  }

  lemma NeverRelisted(en: E.Entry, s: E.Step)
    ensures E.Apply(en, s).listed ==> en.listed
  {
  }

  lemma ListAfter(m: Manager, e: Eid, to: E.Entry)
    requires Lists(m.sas, m.entries) && NoRepeats(m.sas) && e < |m.entries| && (to.listed ==> m.entries[e].listed)
    ensures var sas := if m.entries[e].listed && !to.listed then Off(m.sas, e) else m.sas;
            Lists(sas, m.entries[e := to]) && NoRepeats(sas)
  {
    OffRemoves(m.sas, e);
  }

  lemma StepKeepsInv(m: Manager, step: Step)
    requires Inv(m) && Enabled(m, step)
    ensures Inv(Apply(m, step))
  {
    match step
    case Add =>
      CreatedIsFine();
      assert |m.entries| !in m.sas;
    case On(e, s) =>
      E.StepKeepsInv(m.entries[e], s);
      NeverRelisted(m.entries[e], s);
      ListAfter(m, e, E.Apply(m.entries[e], s));
  }

  lemma {:induction false} RunKeepsInv(states: seq<Manager>, steps: seq<Step>, i: nat)
    requires IsRun(states, steps) && i <= |steps|
    ensures Inv(states[i])
  {
    if i > 0 {
      RunKeepsInv(states, steps, i - 1);
      StepKeepsInv(states[i - 1], steps[i - 1]);
    }
  }

  /** Under every interleaving over any number of SAs: the list holds each listed entry once; an
      entry that some thread holds, waits for or removes is on the list, so a list position kept
      across a wait stays good; one that was destroyed is off the list, was destroyed once, and no
      thread knows it any more. */
  lemma ManagerIsSafe(states: seq<Manager>, steps: seq<Step>, i: nat, e: Eid)
    requires IsRun(states, steps) && i <= |steps| && e < |states[i].entries|
    ensures var en := states[i].entries[e];
            && NoRepeats(states[i].sas)
            && (forall t :: t in en.threads && !en.threads[t].Reclaiming? ==> e in states[i].sas)
            && (en.destroyed > 0 ==> en.destroyed == 1 && e !in states[i].sas && en.threads == map[])
  {
    RunKeepsInv(states, steps, i);
    assert E.Inv(states[i].entries[e]);
  }
}
