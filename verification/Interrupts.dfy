/**
 * The interrupt mailbox: `sendInterrupts`, `clearInterrupts`, `checkInterrupts` and `waitForInterrupt` as
 * interleaved atomic steps of any number of threads. A mask of 64 interrupt bits is a set of bit numbers.
 */
module Interrupts {
  import opened Words

  type Mask = set<nat>

  /** Where a thread is. The three `Send` states and the three `Wait` states with `Locked` or `Taken` hold the lock. */
  datatype Pc =
    | Idle
    | SendLocked(target: nat, bits: Mask)  // lock taken, nothing sent
    | SendPosted(target: nat)              // fetch_or done
    | SendNotified                         // notify_all done
    | WaitLocked                           // lock held, about to fetch
    | WaitEmpty                            // fetched nothing, about to wait
    | WaitTaken(bits: Mask)                // fetched something, lock still held
    | Asleep                               // inside condition_variable::wait, lock released
    | Woken                                // notified or spuriously awake, about to take the lock again
    | WaitDelivering(bits: Mask)           // lock released, about to call the handler
    | CheckTaken(bits: Mask)               // checkInterrupts between its fetch and its handler call

  datatype Event =
    | Sent(core: nat, bits: Mask)
    | Taken(core: nat, bits: Mask)
    | Delivered(core: nat, bits: Mask)
    | Cleared(core: nat, bits: Mask)

  /** `pending` has one mailbox per core; a core's thread has the same number. Other threads only send. */
  datatype State = State(pcs: map<nat, Pc>, pending: map<nat, Mask>, lock: Option<nat>, log: seq<Event>)

  datatype Step =
    | SendLock(target: nat, bits: Mask) | SendPost | SendNotify | SendUnlock
    | WaitLock | WaitFetch | WaitSleep | WakeSpuriously | WaitRelock | WaitUnlock | WaitDeliver
    | CheckFetch | CheckDeliver
    | Clear(bits: Mask)

  datatype Action = Action(thread: nat, step: Step)

  function NotifyAll(pcs: map<nat, Pc>): map<nat, Pc> {
    map t | t in pcs :: if pcs[t] == Asleep then Woken else pcs[t]
  }

  predicate Enabled(s: State, a: Action) {
    var t := a.thread;
    t in s.pcs &&
    match a.step
    case SendLock(target, _) => s.pcs[t] == Idle && s.lock == None && target in s.pending
    case SendPost => s.pcs[t].SendLocked? && s.pcs[t].target in s.pending
    case SendNotify => s.pcs[t].SendPosted?
    case SendUnlock => s.pcs[t] == SendNotified
    case WaitLock => s.pcs[t] == Idle && s.lock == None && t in s.pending
    case WaitFetch => s.pcs[t] == WaitLocked && t in s.pending
    case WaitSleep => s.pcs[t] == WaitEmpty
    case WakeSpuriously => s.pcs[t] == Asleep
    case WaitRelock => s.pcs[t] == Woken && s.lock == None
    case WaitUnlock => s.pcs[t].WaitTaken?
    case WaitDeliver => s.pcs[t].WaitDelivering?
    case CheckFetch => s.pcs[t] == Idle && t in s.pending
    case CheckDeliver => s.pcs[t].CheckTaken?
    case Clear(_) => s.pcs[t] == Idle && t in s.pending
  }

  function Do(s: State, a: Action): State
    requires Enabled(s, a)
  {
    var t := a.thread;
    match a.step
    case SendLock(target, bits) => s.(pcs := s.pcs[t := SendLocked(target, bits)], lock := Some(t))
    case SendPost =>
      var SendLocked(c, bits) := s.pcs[t];
      s.(pcs := s.pcs[t := SendPosted(c)], pending := s.pending[c := s.pending[c] + bits], log := s.log + [Sent(c, bits)])
    case SendNotify => s.(pcs := NotifyAll(s.pcs)[t := SendNotified])
    case SendUnlock => s.(pcs := s.pcs[t := Idle], lock := None)
    case WaitLock => s.(pcs := s.pcs[t := WaitLocked], lock := Some(t))
    case WaitFetch =>
      if s.pending[t] == {} then s.(pcs := s.pcs[t := WaitEmpty])
      else s.(pcs := s.pcs[t := WaitTaken(s.pending[t])], pending := s.pending[t := {}],
              log := s.log + [Taken(t, s.pending[t])])
    case WaitSleep => s.(pcs := s.pcs[t := Asleep], lock := None)
    case WakeSpuriously => s.(pcs := s.pcs[t := Woken])
    case WaitRelock => s.(pcs := s.pcs[t := WaitLocked], lock := Some(t))
    case WaitUnlock => s.(pcs := s.pcs[t := WaitDelivering(s.pcs[t].bits)], lock := None)
    case WaitDeliver => s.(pcs := s.pcs[t := Idle], log := s.log + [Delivered(t, s.pcs[t].bits)])
    case CheckFetch =>
      if s.pending[t] == {} then s
      else s.(pcs := s.pcs[t := CheckTaken(s.pending[t])], pending := s.pending[t := {}],
              log := s.log + [Taken(t, s.pending[t])])
    case CheckDeliver => s.(pcs := s.pcs[t := Idle], log := s.log + [Delivered(t, s.pcs[t].bits)])
    case Clear(bits) => s.(pending := s.pending[t := s.pending[t] - bits], log := s.log + [Cleared(t, bits)])
  }

  /** `s` is reached from `s0` by the given actions, each of them enabled when it happens. */
  ghost predicate Reaches(s0: State, actions: seq<Action>, s: State) {
    if actions == [] then s == s0
    else
      var n := |actions| - 1;
      exists m :: Reaches(s0, actions[..n], m) && Enabled(m, actions[n]) && s == Do(m, actions[n])
  }

  /** No thread is anywhere but outside these functions, and nothing has happened yet. */
  ghost predicate Init(s: State) {
    && s.pending.Keys <= s.pcs.Keys && s.lock == None && s.log == []
    && (forall t | t in s.pcs :: s.pcs[t] == Idle)
    && (forall c | c in s.pending :: s.pending[c] == {})
  }

  // What each call does when nothing comes in between.

  /** Thread `t` takes the given steps, each enabled in its turn, and that leads from `s` to `s'`. */
  ghost predicate Runs(s: State, t: nat, steps: seq<Step>, s': State)
    decreases steps
  {
    if steps == [] then s == s'
    else Enabled(s, Action(t, steps[0])) && Runs(Do(s, Action(t, steps[0])), t, steps[1..], s')
  }

  lemma RunsFirst(s: State, t: nat, step: Step, steps: seq<Step>, s': State)
    requires Enabled(s, Action(t, step)) && Runs(Do(s, Action(t, step)), t, steps, s')
    ensures Runs(s, t, [step] + steps, s')
  {
    assert ([step] + steps)[1..] == steps;
  }

  lemma RunsOne(s: State, t: nat, step: Step)
    requires Enabled(s, Action(t, step))
    ensures Runs(s, t, [step], Do(s, Action(t, step)))
  {
    assert Runs(Do(s, Action(t, step)), t, [], Do(s, Action(t, step)));
    assert [step][1..] == [];
  }

  lemma RunsTwo(s: State, t: nat, a: Step, b: Step)
    requires Enabled(s, Action(t, a)) && Enabled(Do(s, Action(t, a)), Action(t, b))
    ensures Runs(s, t, [a, b], Do(Do(s, Action(t, a)), Action(t, b)))
  {
    var s1 := Do(s, Action(t, a));
    RunsOne(s1, t, b);
    RunsFirst(s, t, a, [b], Do(s1, Action(t, b)));
    assert [a] + [b] == [a, b];
  }

  lemma RunsThree(s: State, t: nat, a: Step, b: Step, c: Step)
    requires Enabled(s, Action(t, a))
    requires Enabled(Do(s, Action(t, a)), Action(t, b))
    requires Enabled(Do(Do(s, Action(t, a)), Action(t, b)), Action(t, c))
    ensures Runs(s, t, [a, b, c], Do(Do(Do(s, Action(t, a)), Action(t, b)), Action(t, c)))
  {
    var s1 := Do(s, Action(t, a));
    RunsTwo(s1, t, b, c);
    RunsFirst(s, t, a, [b, c], Do(Do(s1, Action(t, b)), Action(t, c)));
    assert [a] + [b, c] == [a, b, c];
  }

  lemma RunsFour(s: State, t: nat, a: Step, b: Step, c: Step, d: Step)
    requires Enabled(s, Action(t, a))
    requires Enabled(Do(s, Action(t, a)), Action(t, b))
    requires Enabled(Do(Do(s, Action(t, a)), Action(t, b)), Action(t, c))
    requires Enabled(Do(Do(Do(s, Action(t, a)), Action(t, b)), Action(t, c)), Action(t, d))
    ensures Runs(s, t, [a, b, c, d], Do(Do(Do(Do(s, Action(t, a)), Action(t, b)), Action(t, c)), Action(t, d)))
  {
    var s1 := Do(s, Action(t, a));
    RunsThree(s1, t, b, c, d);
    RunsFirst(s, t, a, [b, c, d], Do(Do(Do(s1, Action(t, b)), Action(t, c)), Action(t, d)));
    assert [a] + [b, c, d] == [a, b, c, d];
  }

  /** `sendInterrupts` adds its bits to the mailbox of its target, wakes every sleeper and gives the lock back. */
  lemma SendMeaning(s: State, t: nat, c: nat, bits: Mask)
    requires t in s.pcs && s.pcs[t] == Idle && s.lock == None && c in s.pending
    ensures var woken := map u | u in s.pcs :: if s.pcs[u] == Asleep then Woken else s.pcs[u];
            Runs(s, t, [SendLock(c, bits), SendPost, SendNotify, SendUnlock],
                 State(woken, s.pending[c := s.pending[c] + bits], None, s.log + [Sent(c, bits)]))
  {
    RunsFour(s, t, SendLock(c, bits), SendPost, SendNotify, SendUnlock);
    var s4 := Do(Do(Do(Do(s, Action(t, SendLock(c, bits))), Action(t, SendPost)), Action(t, SendNotify)), Action(t, SendUnlock));
    var woken := map u | u in s.pcs :: if s.pcs[u] == Asleep then Woken else s.pcs[u];
    assert s4.pcs == woken;
    assert s4 == State(woken, s.pending[c := s.pending[c] + bits], None, s.log + [Sent(c, bits)]);
  }

  /** `waitForInterrupt` empties its mailbox into its handler if there is something in it, and goes to sleep if not. */
  lemma WaitMeaning(s: State, t: nat)
    requires t in s.pcs && s.pcs[t] == Idle && s.lock == None && t in s.pending
    ensures var mask := s.pending[t];
            if mask == {} then Runs(s, t, [WaitLock, WaitFetch, WaitSleep], s.(pcs := s.pcs[t := Asleep]))
            else Runs(s, t, [WaitLock, WaitFetch, WaitUnlock, WaitDeliver],
                      State(s.pcs, s.pending[t := {}], None, s.log + [Taken(t, mask)] + [Delivered(t, mask)]))
  {
    if s.pending[t] == {} {
      RunsThree(s, t, WaitLock, WaitFetch, WaitSleep);
      var s3 := Do(Do(Do(s, Action(t, WaitLock)), Action(t, WaitFetch)), Action(t, WaitSleep));
      assert s3 == s.(pcs := s.pcs[t := Asleep]);
    } else {
      RunsFour(s, t, WaitLock, WaitFetch, WaitUnlock, WaitDeliver);
      var s4 := Do(Do(Do(Do(s, Action(t, WaitLock)), Action(t, WaitFetch)), Action(t, WaitUnlock)), Action(t, WaitDeliver));
      assert s4.pcs == s.pcs;
    }
  }

  /** A woken waiter looks at its mailbox again, and does the same. */
  lemma WokenMeaning(s: State, t: nat)
    requires t in s.pcs && s.pcs[t] == Woken && s.lock == None && t in s.pending
    ensures var mask := s.pending[t];
            if mask == {} then Runs(s, t, [WaitRelock, WaitFetch, WaitSleep], s.(pcs := s.pcs[t := Asleep]))
            else Runs(s, t, [WaitRelock, WaitFetch, WaitUnlock, WaitDeliver],
                      State(s.pcs[t := Idle], s.pending[t := {}], None,
                            s.log + [Taken(t, mask)] + [Delivered(t, mask)]))
  {
    if s.pending[t] == {} {
      RunsThree(s, t, WaitRelock, WaitFetch, WaitSleep);
      var s3 := Do(Do(Do(s, Action(t, WaitRelock)), Action(t, WaitFetch)), Action(t, WaitSleep));
      assert s3 == s.(pcs := s.pcs[t := Asleep]);
    } else {
      RunsFour(s, t, WaitRelock, WaitFetch, WaitUnlock, WaitDeliver);
      var s4 := Do(Do(Do(Do(s, Action(t, WaitRelock)), Action(t, WaitFetch)), Action(t, WaitUnlock)), Action(t, WaitDeliver));
      assert s4.pcs == s.pcs[t := Idle];
    }
  }

  /** `checkInterrupts` does it without the lock, and `clearInterrupts` removes exactly its bits. */
  lemma CheckMeaning(s: State, t: nat, bits: Mask)
    requires t in s.pcs && s.pcs[t] == Idle && t in s.pending
    ensures var mask := s.pending[t];
            if mask == {} then Runs(s, t, [CheckFetch], s)
            else Runs(s, t, [CheckFetch, CheckDeliver],
                      State(s.pcs, s.pending[t := {}], s.lock, s.log + [Taken(t, mask)] + [Delivered(t, mask)]))
    ensures Runs(s, t, [Clear(bits)], s.(pending := s.pending[t := s.pending[t] - bits], log := s.log + [Cleared(t, bits)]))
  {
    RunsOne(s, t, Clear(bits));
    if s.pending[t] == {} {
      RunsOne(s, t, CheckFetch);
    } else {
      RunsTwo(s, t, CheckFetch, CheckDeliver);
      var s2 := Do(Do(s, Action(t, CheckFetch)), Action(t, CheckDeliver));
      assert s2.pcs == s.pcs;
    }
  }

  // Mutual exclusion and the condition variable.

  predicate HoldsLock(pc: Pc) {
    pc.SendLocked? || pc.SendPosted? || pc.SendNotified? || pc.WaitLocked? || pc.WaitEmpty? || pc.WaitTaken?
  }

  /** Inside `waitForInterrupt`. */
  predicate Waiting(pc: Pc) {
    pc.WaitLocked? || pc.WaitEmpty? || pc.WaitTaken? || pc.Asleep? || pc.Woken? || pc.WaitDelivering?
  }

  /** A thread asleep and not notified although it has something pending. */
  predicate Stranded(s: State, t: nat) {
    t in s.pcs && t in s.pending && s.pcs[t] == Asleep && s.pending[t] != {}
  }

  ghost predicate OwnerInv(s: State) {
    && (s.lock.Some? ==> s.lock.value in s.pcs)
    && forall t | t in s.pcs :: HoldsLock(s.pcs[t]) <==> s.lock == Some(t)
  }

  /** What each place in the code says about the mailboxes. */
  predicate PlaceOk(pending: map<nat, Mask>, t: nat, pc: Pc) {
    && (Waiting(pc) ==> t in pending)
    && (pc == WaitEmpty ==> t in pending && pending[t] == {})
    && (pc.SendLocked? ==> pc.target in pending)
  }

  ghost predicate PlaceInv(s: State) {
    s.pending.Keys <= s.pcs.Keys && forall t | t in s.pcs :: PlaceOk(s.pending, t, s.pcs[t])
  }

  ghost predicate WakeInv(s: State) {
    OwnerInv(s) && PlaceInv(s) && forall t | Stranded(s, t) :: PosterHoldsLock(s)
  }

  /** The lock is held by a sender that has done its `fetch_or` but not yet its `notify_all`. */
  ghost predicate PosterHoldsLock(s: State) {
    s.lock.Some? && s.lock.value in s.pcs && s.pcs[s.lock.value].SendPosted?
  }

  lemma OwnerInvStep(s: State, a: Action)
    requires OwnerInv(s) && Enabled(s, a)
    ensures OwnerInv(Do(s, a))
  {
    assert HoldsLock(s.pcs[a.thread]) <==> s.lock == Some(a.thread);
  }

  lemma PlaceInvStep(s: State, a: Action)
    requires OwnerInv(s) && PlaceInv(s) && Enabled(s, a)
    ensures PlaceInv(Do(s, a))
  {
    assert PlaceOk(s.pending, a.thread, s.pcs[a.thread]);
    var s' := Do(s, a);
    forall t | t in s'.pcs
      ensures PlaceOk(s'.pending, t, s'.pcs[t])
    {
      assert PlaceOk(s.pending, t, s.pcs[t]);
      assert HoldsLock(s.pcs[t]) <==> s.lock == Some(t);
    }
  }

  lemma StrandedStep(s: State, a: Action, t: nat)
    requires WakeInv(s) && Enabled(s, a) && Stranded(Do(s, a), t)
    ensures PosterHoldsLock(Do(s, a))
  {
    assert PlaceOk(s.pending, t, s.pcs[t]);
    assert HoldsLock(s.pcs[a.thread]) <==> s.lock == Some(a.thread);
    if Stranded(s, t) {
      assert HoldsLock(s.pcs[s.lock.value]);
    }
  }

  lemma WakeInvStep(s: State, a: Action)
    requires WakeInv(s) && Enabled(s, a)
    ensures WakeInv(Do(s, a))
  {
    OwnerInvStep(s, a);
    PlaceInvStep(s, a);
    forall t | Stranded(Do(s, a), t)
      ensures PosterHoldsLock(Do(s, a))
    {
      StrandedStep(s, a, t);
    }
  }

  lemma {:induction false} WakeInvReached(s0: State, actions: seq<Action>, s: State)
    requires Init(s0) && Reaches(s0, actions, s)
    ensures WakeInv(s)
    decreases |actions|
  {
    if actions != [] {
      var n := |actions| - 1;
      var m :| Reaches(s0, actions[..n], m) && Enabled(m, actions[n]) && s == Do(m, actions[n]);
      WakeInvReached(s0, actions[..n], m);
      WakeInvStep(m, actions[n]);
    }
  }

  /**
   * No lost wake-up: whoever sleeps un-notified with something pending is about to be notified, because the lock is
   * held by a sender on its way to `notify_all`. In particular nobody does while the lock is free.
   */
  lemma NoLostWakeUp(s0: State, actions: seq<Action>, s: State, t: nat)
    requires Init(s0) && Reaches(s0, actions, s) && Stranded(s, t)
    ensures s.lock.Some? && s.lock.value in s.pcs && s.pcs[s.lock.value].SendPosted?
    ensures var a := Action(s.lock.value, SendNotify); Enabled(s, a) && Do(s, a).pcs[t] == Woken
  {
    WakeInvReached(s0, actions, s);
  }

  /** The mutex is one: at most one thread is between taking and releasing it. */
  lemma LockIsExclusive(s0: State, actions: seq<Action>, s: State, t: nat, u: nat)
    requires Init(s0) && Reaches(s0, actions, s)
    requires t in s.pcs && u in s.pcs && HoldsLock(s.pcs[t]) && HoldsLock(s.pcs[u])
    ensures t == u
  {
    WakeInvReached(s0, actions, s);
  }

  /** Whoever holds the lock can give it back without waiting for anyone, so nobody waits for it for ever. */
  lemma HolderReleases(s0: State, actions: seq<Action>, s: State) returns (steps: seq<Step>, s': State)
    requires Init(s0) && Reaches(s0, actions, s) && s.lock.Some?
    ensures |steps| <= 3 && Runs(s, s.lock.value, steps, s') && s'.lock == None
  {
    WakeInvReached(s0, actions, s);
    var t := s.lock.value;
    assert HoldsLock(s.pcs[t]) && PlaceOk(s.pending, t, s.pcs[t]);
    match s.pcs[t] {
      case SendLocked(_, _) => steps := [SendPost, SendNotify, SendUnlock]; RunsThree(s, t, SendPost, SendNotify, SendUnlock);
      case SendPosted(_) => steps := [SendNotify, SendUnlock]; RunsTwo(s, t, SendNotify, SendUnlock);
      case SendNotified => steps := [SendUnlock]; RunsOne(s, t, SendUnlock);
      case WaitLocked =>
        var next := if s.pending[t] == {} then WaitSleep else WaitUnlock;
        steps := [WaitFetch, next];
        RunsTwo(s, t, WaitFetch, next);
      case WaitEmpty => steps := [WaitSleep]; RunsOne(s, t, WaitSleep);
      case WaitTaken(_) => steps := [WaitUnlock]; RunsOne(s, t, WaitUnlock);
    }
    s' :| Runs(s, t, steps, s') && s'.lock == None;
  }

  // Conservation of interrupts, told from the actions alone.

  /** The last step that thread `t` took. */
  function LastOf(actions: seq<Action>, t: nat): Option<Step> {
    if actions == [] then None
    else
      var a := actions[|actions| - 1];
      if a.thread == t then Some(a.step) else LastOf(actions[..|actions| - 1], t)
  }

  /** Action `k` is the `fetch_or` of a call that sends `bits` to core `c`. */
  predicate Posts(actions: seq<Action>, k: nat, c: nat, bits: Mask)
    requires k < |actions|
  {
    actions[k].step == SendPost && LastOf(actions[..k], actions[k].thread) == Some(SendLock(c, bits))
  }

  lemma LockedStep(s: State, a: Action, t: nat, c: nat, bits: Mask)
    requires Enabled(s, a) && t in s.pcs
    ensures t in Do(s, a).pcs
    ensures Do(s, a).pcs[t] == SendLocked(c, bits) <==>
            if a.thread == t then a.step == SendLock(c, bits) else s.pcs[t] == SendLocked(c, bits)
  {
  }

  lemma RequestsStep(s: State, a: Action)
    requires Enabled(s, a)
    ensures Requests(Do(s, a).log) == Requests(s.log) +
            if a.step.Clear? then [Cleared(a.thread, a.step.bits)]
            else if a.step == SendPost then [Sent(s.pcs[a.thread].target, s.pcs[a.thread].bits)]
            else []
  {
    LogGrows(s, a);
  }

  lemma SamePcs(s: State, a: Action)
    requires Enabled(s, a)
    ensures Do(s, a).pcs.Keys == s.pcs.Keys
  {
  }

  /** A thread is between its lock and its `fetch_or` exactly if that lock was its last step. */
  lemma {:induction false} LockedByLast(s0: State, actions: seq<Action>, s: State, t: nat, c: nat, bits: Mask)
    requires Init(s0) && Reaches(s0, actions, s) && t in s.pcs
    ensures s.pcs[t] == SendLocked(c, bits) <==> LastOf(actions, t) == Some(SendLock(c, bits))
    decreases |actions|
  {
    if actions != [] {
      var n := |actions| - 1;
      var m :| Reaches(s0, actions[..n], m) && Enabled(m, actions[n]) && s == Do(m, actions[n]);
      hide Do;
      SamePcs(m, actions[n]);
      LockedByLast(s0, actions[..n], m, t, c, bits);
      LockedStep(m, actions[n], t, c, bits);
    }
  }

  /** What `sendInterrupts` and `clearInterrupts` were called with, in the order in which they took effect. */
  function Issued(actions: seq<Action>): seq<Event> {
    if actions == [] then []
    else
      var n := |actions| - 1;
      Issued(actions[..n]) +
      match actions[n].step
      case Clear(bits) => [Cleared(actions[n].thread, bits)]
      case SendPost =>
        (match LastOf(actions[..n], actions[n].thread)
         case Some(SendLock(c, bits)) => [Sent(c, bits)]
         case _ => [])
      case _ => []
  }

  function Requests(log: seq<Event>): seq<Event> {
    if log == [] then []
    else
      var e := log[|log| - 1];
      Requests(log[..|log| - 1]) + if e.Sent? || e.Cleared? then [e] else []
  }

  /** The log holds exactly what the calls asked for: no send is dropped, altered, reordered or made up. */
  lemma {:induction false} RequestsAreIssued(s0: State, actions: seq<Action>, s: State)
    requires Init(s0) && Reaches(s0, actions, s)
    ensures Requests(s.log) == Issued(actions)
    decreases |actions|
  {
    if actions != [] {
      var n := |actions| - 1;
      var m :| Reaches(s0, actions[..n], m) && Enabled(m, actions[n]) && s == Do(m, actions[n]);
      hide Do;
      RequestsAreIssued(s0, actions[..n], m);
      RequestsStep(m, actions[n]);
      if actions[n].step == SendPost {
        var SendLocked(c, bits) := m.pcs[actions[n].thread];
        LockedByLast(s0, actions[..n], m, actions[n].thread, c, bits);
      }
    }
  }

  /** The action passes a mask that holds `x` to the interrupt handler of core `c`. */
  ghost predicate Hands(m: State, a: Action, c: nat, x: nat) {
    && a.thread == c && (a.step == WaitDeliver || a.step == CheckDeliver) && Enabled(m, a)
    && x in m.pcs[c].bits && Do(m, a).log == m.log + [Delivered(c, m.pcs[c].bits)]
  }

  /** Action `j` takes `x` away from core `c` for good: the core clears it, or its handler receives it. */
  ghost predicate Gone(s0: State, actions: seq<Action>, j: nat, c: nat, x: nat)
    requires j < |actions|
  {
    || (actions[j].thread == c && actions[j].step.Clear? && x in actions[j].step.bits)
    || exists m :: Reaches(s0, actions[..j], m) && Hands(m, actions[j], c, x)
  }

  /** `x` is in the mailbox of `c`, or `c` has fetched it and is on its way to its handler. */
  predicate Held(s: State, c: nat, x: nat) {
    (c in s.pending && x in s.pending[c]) || (c in s.pcs && exists mask :: mask in InHand(s.pcs[c]) && x in mask)
  }

  lemma PostHolds(s0: State, actions: seq<Action>, s: State, a: Action, c: nat, bits: Mask, x: nat)
    requires Init(s0) && Reaches(s0, actions, s) && Enabled(s, a) && a.step == SendPost
    requires LastOf(actions, a.thread) == Some(SendLock(c, bits)) && x in bits
    ensures Held(Do(s, a), c, x)
  {
    LockedByLast(s0, actions, s, a.thread, c, bits);
  }

  /** What is held stays held until it is cleared or passed on. */
  lemma HeldStep(s: State, a: Action, c: nat, x: nat)
    requires Enabled(s, a) && Held(s, c, x)
    ensures || Held(Do(s, a), c, x)
            || (a.thread == c && a.step.Clear? && x in a.step.bits)
            || Hands(s, a, c, x)
  {
    var s' := Do(s, a);
    if c in s.pending && x in s.pending[c] {
      if a.thread == c && (a.step == WaitFetch || a.step == CheckFetch) {
        assert s.pending[c] in InHand(s'.pcs[c]);
      }
    } else {
      var mask :| mask in InHand(s.pcs[c]) && x in mask;
      if !Hands(s, a, c, x) {
        assert mask in InHand(s'.pcs[c]);
      }
    }
  }

  /**
   * No interrupt is lost, told without the log: in every run, each bit that a `sendInterrupts` call posts to a core is
   * afterwards still held for that core, or the core has since cleared it, or its handler has since received it.
   */
  lemma {:induction false} PostedIsDelivered(
      s0: State, actions: seq<Action>, s: State, k: nat, c: nat, bits: Mask, x: nat)
    requires Init(s0) && Reaches(s0, actions, s)
    requires k < |actions| && Posts(actions, k, c, bits) && x in bits
    ensures Held(s, c, x) || exists j: nat :: k < j < |actions| && Gone(s0, actions, j, c, x)
    decreases |actions|
  {
    var n := |actions| - 1;
    var m :| Reaches(s0, actions[..n], m) && Enabled(m, actions[n]) && s == Do(m, actions[n]);
    if k == n {
      PostHolds(s0, actions[..n], m, actions[n], c, bits, x);
    } else {
      assert actions[..n][..k] == actions[..k];
      PostedIsDelivered(s0, actions[..n], m, k, c, bits, x);
      if Held(m, c, x) {
        HeldStep(m, actions[n], c, x);
        assert Held(s, c, x) || Gone(s0, actions, n, c, x);
      } else {
        var j: nat :| k < j < n && Gone(s0, actions[..n], j, c, x);
        assert actions[..n][..j] == actions[..j];
        assert Gone(s0, actions, j, c, x);
      }
    }
  }

  // Conservation of interrupts, told from the log.

  /** The mailbox of `c` as the log tells it. */
  function Replay(log: seq<Event>, c: nat): Mask {
    if log == [] then {}
    else
      var before := Replay(log[..|log| - 1], c);
      match log[|log| - 1]
      case Sent(d, bits) => if d == c then before + bits else before
      case Taken(d, bits) => if d == c then before - bits else before
      case Cleared(d, bits) => if d == c then before - bits else before
      case Delivered(_, _) => before
  }

  function TakenBy(log: seq<Event>, c: nat): seq<Mask> {
    if log == [] then []
    else
      var before, e := TakenBy(log[..|log| - 1], c), log[|log| - 1];
      if e.Taken? && e.core == c then before + [e.bits] else before
  }

  function DeliveredTo(log: seq<Event>, c: nat): seq<Mask> {
    if log == [] then []
    else
      var before, e := DeliveredTo(log[..|log| - 1], c), log[|log| - 1];
      if e.Delivered? && e.core == c then before + [e.bits] else before
  }

  /** What a thread has fetched and not yet passed to its handler. */
  function InHand(pc: Pc): seq<Mask> {
    if pc.WaitTaken? || pc.WaitDelivering? || pc.CheckTaken? then [pc.bits] else []
  }

  /** A core fetches everything pending, and only if something is. */
  ghost predicate TakesAll(log: seq<Event>) {
    forall j | 0 <= j < |log| && log[j].Taken? :: log[j].bits == Replay(log[..j], log[j].core) != {}
  }

  ghost predicate MailboxInv(s: State) {
    forall c | c in s.pending :: s.pending[c] == Replay(s.log, c)
  }

  ghost predicate HandInv(s: State) {
    forall t | t in s.pcs :: TakenBy(s.log, t) == DeliveredTo(s.log, t) + InHand(s.pcs[t])
  }

  ghost predicate LedgerInv(s: State) {
    MailboxInv(s) && HandInv(s) && TakesAll(s.log)
  }

  /** What a step adds to the log. */
  lemma LogGrows(s: State, a: Action)
    requires Enabled(s, a)
    ensures Do(s, a).log == s.log || (|Do(s, a).log| == |s.log| + 1 && Do(s, a).log[..|s.log|] == s.log)
  {
  }

  lemma MailboxInvStep(s: State, a: Action)
    requires MailboxInv(s) && Enabled(s, a)
    ensures MailboxInv(Do(s, a))
  {
    LogGrows(s, a);
  }

  lemma HandInvStep(s: State, a: Action)
    requires HandInv(s) && Enabled(s, a)
    ensures HandInv(Do(s, a))
  {
    hide Do, TakenBy, DeliveredTo;
    SamePcs(s, a);
    forall t | t in s.pcs
      ensures TakenBy(Do(s, a).log, t) == DeliveredTo(Do(s, a).log, t) + InHand(Do(s, a).pcs[t])
    {
      assert TakenBy(s.log, t) == DeliveredTo(s.log, t) + InHand(s.pcs[t]);
      HandStep(s, a, t);
    }
  }

  lemma HandStep(s: State, a: Action, t: nat)
    requires Enabled(s, a) && t in s.pcs && TakenBy(s.log, t) == DeliveredTo(s.log, t) + InHand(s.pcs[t])
    ensures TakenBy(Do(s, a).log, t) == DeliveredTo(Do(s, a).log, t) + InHand(Do(s, a).pcs[t])
  {
    LogGrows(s, a);
  }

  lemma TakesAllStep(s: State, a: Action)
    requires MailboxInv(s) && TakesAll(s.log) && Enabled(s, a)
    ensures TakesAll(Do(s, a).log)
  {
    LogGrows(s, a);
    var log := Do(s, a).log;
    forall j | 0 <= j < |log| && log[j].Taken?
      ensures log[j].bits == Replay(log[..j], log[j].core) != {}
    {
      if j < |s.log| { assert log[..j] == s.log[..j]; }
    }
  }

  lemma {:induction false} LedgerReached(s0: State, actions: seq<Action>, s: State)
    requires Init(s0) && Reaches(s0, actions, s)
    ensures LedgerInv(s)
    decreases |actions|
  {
    if actions != [] {
      var n := |actions| - 1;
      var m :| Reaches(s0, actions[..n], m) && Enabled(m, actions[n]) && s == Do(m, actions[n]);
      LedgerReached(s0, actions[..n], m);
      MailboxInvStep(m, actions[n]);
      HandInvStep(m, actions[n]);
      TakesAllStep(m, actions[n]);
    }
  }

  /** The event takes bit `x` out of the mailbox of `c`. */
  predicate Removes(e: Event, c: nat, x: nat) {
    (e.Taken? || e.Cleared?) && e.core == c && x in e.bits
  }

  predicate Sends(e: Event, c: nat, x: nat) {
    e.Sent? && e.core == c && x in e.bits
  }

  /** Bit `x` was sent to `c` by event `i`, and nothing has removed it since. */
  ghost predicate Outstanding(log: seq<Event>, c: nat, x: nat, i: nat) {
    i < |log| && Sends(log[i], c, x) && forall j | i < j < |log| :: !Removes(log[j], c, x)
  }

  lemma OutstandingStep(log: seq<Event>, c: nat, x: nat, i: nat)
    requires i < |log| - 1
    ensures Outstanding(log, c, x, i) <==> Outstanding(log[..|log| - 1], c, x, i) && !Removes(log[|log| - 1], c, x)
  {
    var n := |log| - 1;
    if Outstanding(log[..n], c, x, i) && !Removes(log[n], c, x) {
      forall j | i < j < |log|
        ensures !Removes(log[j], c, x)
      {
        if j < n { assert log[..n][j] == log[j]; }
      }
    }
  }

  /** A bit is in the mailbox exactly if it was sent and nothing has removed it since. */
  lemma {:induction false} ReplayMeaning(log: seq<Event>, c: nat, x: nat)
    ensures x in Replay(log, c) <==> exists i: nat :: Outstanding(log, c, x, i)
    decreases |log|
  {
    if log != [] {
      var n := |log| - 1;
      ReplayMeaning(log[..n], c, x);
      if Sends(log[n], c, x) {
        assert Outstanding(log, c, x, n);
      } else {
        forall i: nat | i < n
          ensures Outstanding(log, c, x, i) <==> Outstanding(log[..n], c, x, i) && !Removes(log[n], c, x)
        {
          OutstandingStep(log, c, x, i);
        }
      }
    }
  }

  /**
   * No interrupt is lost: at any moment of any run, a bit that was sent is still pending, was cleared by its core,
   * or was fetched by its core, and what a core fetches it passes to its handler, mask by mask and in order.
   */
  lemma SentIsAccountedFor(s0: State, actions: seq<Action>, s: State, i: nat, x: nat)
    requires Init(s0) && Reaches(s0, actions, s)
    requires i < |s.log| && s.log[i].Sent? && x in s.log[i].bits
    requires s.log[i].core in s.pending && s.log[i].core in s.pcs
    ensures var c := s.log[i].core;
            && (x in s.pending[c] || exists j: nat :: i < j < |s.log| && Removes(s.log[j], c, x))
            && TakenBy(s.log, c) == DeliveredTo(s.log, c) + InHand(s.pcs[c])
  {
    LedgerReached(s0, actions, s);
    ReplayMeaning(s.log, s.log[i].core, x);
    assert Outstanding(s.log, s.log[i].core, x, i) || exists j: nat :: i < j < |s.log| && Removes(s.log[j], s.log[i].core, x);
  }

  /** No interrupt is made up: whatever a core fetches is not empty and was sent after its last removal. */
  lemma FetchedWasSent(s0: State, actions: seq<Action>, s: State, j: nat, x: nat)
    requires Init(s0) && Reaches(s0, actions, s)
    requires j < |s.log| && s.log[j].Taken?
    ensures s.log[j].bits != {}
    ensures x in s.log[j].bits <==> exists i: nat :: Outstanding(s.log[..j], s.log[j].core, x, i)
  {
    LedgerReached(s0, actions, s);
    ReplayMeaning(s.log[..j], s.log[j].core, x);
  }

  /** `waitForInterrupt` comes back only by passing a nonzero mask to the handler. */
  lemma WaitReturnsByDelivering(s0: State, actions: seq<Action>, s: State, a: Action, t: nat)
    requires Init(s0) && Reaches(s0, actions, s) && Enabled(s, a)
    requires t in s.pcs && Waiting(s.pcs[t]) && !Waiting(Do(s, a).pcs[t])
    ensures exists bits :: bits != {} && Do(s, a).log == s.log + [Delivered(t, bits)]
  {
    LedgerReached(s0, actions, s);
    var bits := s.pcs[t].bits;
    assert Do(s, a).log == s.log + [Delivered(t, bits)];
    InHandIsNotEmpty(s, t);
  }

  lemma InHandIsNotEmpty(s: State, t: nat)
    requires LedgerInv(s) && t in s.pcs && InHand(s.pcs[t]) != []
    ensures s.pcs[t].bits != {}
  {
    var taken := TakenBy(s.log, t);
    assert taken[|taken| - 1] == s.pcs[t].bits;
    TakenFromLog(s.log, t, |taken| - 1);
  }

  lemma {:induction false} TakenFromLog(log: seq<Event>, c: nat, k: nat)
    requires k < |TakenBy(log, c)|
    ensures exists j: nat :: j < |log| && log[j] == Taken(c, TakenBy(log, c)[k])
    decreases |log|
  {
    var n := |log| - 1;
    if k < |TakenBy(log[..n], c)| {
      TakenFromLog(log[..n], c, k);
      var j: nat :| j < n && log[..n][j] == Taken(c, TakenBy(log[..n], c)[k]);
      assert log[j] == Taken(c, TakenBy(log, c)[k]);
    } else {
      assert log[n] == Taken(c, TakenBy(log, c)[k]);
    }
  }
}
