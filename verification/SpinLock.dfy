/**
 * A guest spin lock, taken by
 *   again: LDAXR x, [p];  CBNZ x, again;  MOV y, #1;  STXR s, y, [p];  CBNZ s, again
 * and released by STLR of zero, run by any number of threads on any number of cores.
 */
module SpinLock {
  import opened Words
  import opened Cores
  import opened LittleEndian
  import opened Exclusives

  /** The next thing a thread does. */
  datatype Pc = Enter | Load | Test | Take | Check | Critical

  datatype Thread = Thread(regs: Regs, pc: Pc)
  {
    /** The thread has the lock: its STXR reported success and it has not released it. */
    predicate Holds(s: Reg) {
      pc == Critical || (pc == Check && regs.gpr[s] == 0)
    }
  }

  datatype Program = Program(n: nat, addr: Word64, x: Reg, y: Reg, s: Reg, coreOf: nat -> nat)
  {
    ghost predicate Valid() {
      n in {1, 2, 4, 8} && x < 31 && y < 31 && s < 31
    }
  }

  /** `loader` is the thread that last executed a load exclusive on each core. */
  datatype State = State(cell: nat, excl: map<nat, Exclusive>, threads: map<nat, Thread>, loader: map<nat, nat>)

  ghost predicate WellFormed(p: Program, s: State) {
    && p.Valid() && s.cell in {0, 1}
    && forall t | t in s.threads :: p.coreOf(t) in s.excl
  }

  function After(p: Program, s: State, t: nat, r: Regs, pc: Pc): State {
    s.(threads := s.threads[t := Thread(r, pc)], excl := s.excl[p.coreOf(t) := r.excl])
  }

  /** The next instruction of thread `t`. */
  function Do(p: Program, s: State, t: nat): State
    requires WellFormed(p, s) && t in s.threads
  {
    var r := s.threads[t].regs.(excl := s.excl[p.coreOf(t)]);
    match s.threads[t].pc
    case Enter => After(p, s, t, r, Load)
    case Load => After(p, s, t, LoadExclusive(r, p.x, p.addr, s.cell), Test).(loader := s.loader[p.coreOf(t) := t])
    case Test => if r.gpr[p.x] == 0 then After(p, s, t, r.Set(p.y, 1), Take) else After(p, s, t, r, Load)
    case Take =>
      var (r', ok) := StoreExclusive(r, p.s, p.n, s.cell);
      After(p, s, t, r', Check).(cell := if ok then Low(r.gpr[p.y], p.n) else s.cell)
    case Check => After(p, s, t, r, if r.gpr[p.s] == 0 then Critical else Load)
    case Critical => After(p, s, t, r, Enter).(cell := 0)
  }

  predicate LoadedLast(p: Program, s: State, t: nat) {
    p.coreOf(t) in s.loader && s.loader[p.coreOf(t)] == t
  }

  /** What a thread has read, and what its core remembers of it unless another thread has loaded there since. */
  predicate ThreadOk(p: Program, s: State, t: nat)
    requires t in s.threads && p.coreOf(t) in s.excl
  {
    var th, data := s.threads[t], s.excl[p.coreOf(t)].data0;
    && (th.pc == Test && LoadedLast(p, s, t) ==> data == th.regs.gpr[p.x])
    && (th.pc == Take && LoadedLast(p, s, t) ==> data == 0)
    && (th.pc == Take ==> th.regs.gpr[p.y] == 1)
  }

  ghost predicate Inv(p: Program, s: State) {
    WellFormed(p, s) && forall t | t in s.threads :: ThreadOk(p, s, t)
  }

  ghost predicate Exclusion(p: Program, s: State) {
    forall t, u | t in s.threads && u in s.threads && s.threads[t].Holds(p.s) && s.threads[u].Holds(p.s) :: t == u
  }

  ghost predicate SomeHolder(p: Program, s: State) {
    exists t :: t in s.threads && s.threads[t].Holds(p.s)
  }

  /** At most one thread has the lock, and the lock word says whether one has. */
  ghost predicate Mutex(p: Program, s: State) {
    Exclusion(p, s) && (s.cell == 1 <==> SomeHolder(p, s))
  }

  lemma LowBit(n: nat)
    requires n in {1, 2, 4, 8}
    ensures Low(0, n) == 0 && Low(1, n) == 1
  {
    Pow256Values();
  }

  lemma InvStep(p: Program, s: State, t: nat)
    requires Inv(p, s) && t in s.threads
    ensures Inv(p, Do(p, s, t))
  {
    hide ThreadOk;
    assert ThreadOk(p, s, t);
    OwnStep(p, s, t);
    forall u | u in s.threads && u != t
      ensures p.coreOf(u) in Do(p, s, t).excl && ThreadOk(p, Do(p, s, t), u)
    {
      assert ThreadOk(p, s, u);
      OtherStep(p, s, t, u);
    }
    DoKeepsThreads(p, s, t);
  }

  lemma OwnStep(p: Program, s: State, t: nat)
    requires WellFormed(p, s) && t in s.threads && ThreadOk(p, s, t)
    ensures WellFormed(p, Do(p, s, t)) && t in Do(p, s, t).threads && ThreadOk(p, Do(p, s, t), t)
  {
    LowBit(p.n);
  }

  lemma OtherStep(p: Program, s: State, t: nat, u: nat)
    requires WellFormed(p, s) && t in s.threads && u in s.threads && u != t && ThreadOk(p, s, u)
    ensures u in Do(p, s, t).threads && p.coreOf(u) in Do(p, s, t).excl && ThreadOk(p, Do(p, s, t), u)
  {
  }

  /** The next instruction of `t` is its STXR, and another thread has loaded on its core since its own LDAXR. */
  predicate Disturbed(p: Program, s: State, t: nat) {
    t in s.threads && s.threads[t].pc == Take && !LoadedLast(p, s, t)
  }

  /** `t` is about to take the lock successfully. */
  ghost predicate Takes(p: Program, s: State, t: nat)
    requires Inv(p, s)
  {
    t in s.threads && s.threads[t].pc == Take && Do(p, s, t).threads[t].Holds(p.s)
  }

  lemma DoKeepsThreads(p: Program, s: State, t: nat)
    requires WellFormed(p, s) && t in s.threads
    ensures Do(p, s, t).threads.Keys == s.threads.Keys
  {
  }

  lemma OthersKeep(p: Program, s: State, t: nat, u: nat)
    requires WellFormed(p, s) && t in s.threads && u != t
    ensures u in Do(p, s, t).threads <==> u in s.threads
    ensures u in s.threads ==> Do(p, s, t).threads[u] == s.threads[u]
  {
  }

  /** Taking the lock keeps mutual exclusion exactly if the lock word was 0 just before. */
  lemma TakeIsSafeExactly(p: Program, s: State, t: nat)
    requires Inv(p, s) && Mutex(p, s) && Takes(p, s, t)
    ensures Exclusion(p, Do(p, s, t)) <==> s.cell == 0
    ensures s.cell == 0 ==> Mutex(p, Do(p, s, t))
    ensures !Disturbed(p, s, t) ==> s.cell == 0
  {
    LowBit(p.n);
    assert ThreadOk(p, s, t);
    var s' := Do(p, s, t);
    if s.cell == 1 {
      var u :| u in s.threads && s.threads[u].Holds(p.s);
      OthersKeep(p, s, t, u);
      assert s'.threads[u].Holds(p.s) && s'.threads[t].Holds(p.s);
    } else {
      forall u | u in s'.threads && s'.threads[u].Holds(p.s)
        ensures u == t
      {
        if u != t { OthersKeep(p, s, t, u); }
      }
      assert s'.threads[t].Holds(p.s) && s'.cell == 1;
    }
  }

  /** An undisturbed STXR takes the lock exactly if it is free. */
  lemma TakesExactlyIfFree(p: Program, s: State, t: nat)
    requires Inv(p, s) && t in s.threads && s.threads[t].pc == Take && !Disturbed(p, s, t)
    ensures Takes(p, s, t) <==> s.cell == 0
    ensures Do(p, s, t).cell == 1
  {
    LowBit(p.n);
    assert ThreadOk(p, s, t);
  }

  lemma MutexStep(p: Program, s: State, t: nat)
    requires Inv(p, s) && Mutex(p, s) && t in s.threads && !Disturbed(p, s, t)
    ensures Mutex(p, Do(p, s, t))
  {
    if Takes(p, s, t) {
      TakeIsSafeExactly(p, s, t);
    } else {
      QuietStep(p, s, t);
    }
  }

  /** A step that does not take the lock. */
  lemma QuietStep(p: Program, s: State, t: nat)
    requires Inv(p, s) && Mutex(p, s) && t in s.threads && !Takes(p, s, t)
    ensures Mutex(p, Do(p, s, t))
  {
    var s' := Do(p, s, t);
    forall u | u in s.threads
      ensures u in s'.threads && (s'.threads[u].Holds(p.s) <==> s.threads[u].Holds(p.s) && s.threads[t].pc != Critical)
    {
      if u != t { OthersKeep(p, s, t, u); }
    }
  }

  // Whole runs. A schedule names the thread that executes its next instruction.

  ghost predicate Start(p: Program, s: State) {
    && WellFormed(p, s) && s.cell == 0 && s.loader == map[]
    && forall t | t in s.threads :: s.threads[t].pc == Enter
  }

  ghost predicate Reaches(p: Program, s0: State, schedule: seq<nat>, s: State) {
    if schedule == [] then s == s0
    else
      var n := |schedule| - 1;
      exists m :: Reaches(p, s0, schedule[..n], m) && WellFormed(p, m) && schedule[n] in m.threads && s == Do(p, m, schedule[n])
  }

  lemma {:induction false} InvReached(p: Program, s0: State, schedule: seq<nat>, s: State)
    requires Start(p, s0) && Reaches(p, s0, schedule, s)
    ensures Inv(p, s)
    decreases |schedule|
  {
    if schedule != [] {
      var n := |schedule| - 1;
      var m :| Reaches(p, s0, schedule[..n], m) && WellFormed(p, m) && schedule[n] in m.threads && s == Do(p, m, schedule[n]);
      InvReached(p, s0, schedule[..n], m);
      InvStep(p, m, schedule[n]);
    }
  }

  ghost predicate Undisturbed(p: Program, s0: State, schedule: seq<nat>) {
    forall k, s | 0 <= k < |schedule| && Reaches(p, s0, schedule[..k], s) :: !Disturbed(p, s, schedule[k])
  }

  lemma UndisturbedPrefix(p: Program, s0: State, schedule: seq<nat>)
    requires schedule != [] && Undisturbed(p, s0, schedule)
    ensures Undisturbed(p, s0, schedule[..|schedule| - 1])
  {
    var prefix := schedule[..|schedule| - 1];
    forall k, s | 0 <= k < |prefix| && Reaches(p, s0, prefix[..k], s)
      ensures !Disturbed(p, s, prefix[k])
    {
      assert prefix[..k] == schedule[..k];
    }
  }

  /** Mutual exclusion in every run in which no STXR is disturbed, takes and releases in between notwithstanding. */
  lemma {:induction false} MutualExclusion(p: Program, s0: State, schedule: seq<nat>, s: State)
    requires Start(p, s0) && Reaches(p, s0, schedule, s) && Undisturbed(p, s0, schedule)
    ensures Mutex(p, s)
    decreases |schedule|
  {
    if schedule != [] {
      var n := |schedule| - 1;
      var m :| Reaches(p, s0, schedule[..n], m) && WellFormed(p, m) && schedule[n] in m.threads && s == Do(p, m, schedule[n]);
      UndisturbedPrefix(p, s0, schedule);
      MutualExclusion(p, s0, schedule[..n], m);
      InvReached(p, s0, schedule[..n], m);
      MutexStep(p, m, schedule[n]);
    }
  }

  ghost predicate OneThreadPerCore(p: Program, s: State) {
    forall t, u | t in s.threads && u in s.threads && p.coreOf(t) == p.coreOf(u) :: t == u
  }

  /** A thread between its LDAXR and its STXR is the last one to have loaded on its core. */
  ghost predicate OwnCore(p: Program, s: State) {
    forall t | t in s.threads && s.threads[t].pc in {Test, Take} :: LoadedLast(p, s, t)
  }

  lemma {:induction false} OwnCoreReached(p: Program, s0: State, schedule: seq<nat>, s: State)
    requires Start(p, s0) && OneThreadPerCore(p, s0) && Reaches(p, s0, schedule, s)
    ensures OneThreadPerCore(p, s) && OwnCore(p, s)
    decreases |schedule|
  {
    if schedule != [] {
      var n := |schedule| - 1;
      var m :| Reaches(p, s0, schedule[..n], m) && WellFormed(p, m) && schedule[n] in m.threads && s == Do(p, m, schedule[n]);
      OwnCoreReached(p, s0, schedule[..n], m);
      OwnCoreStep(p, m, schedule[n]);
    }
  }

  lemma OwnCoreStep(p: Program, s: State, t: nat)
    requires WellFormed(p, s) && t in s.threads && OneThreadPerCore(p, s) && OwnCore(p, s)
    ensures OneThreadPerCore(p, Do(p, s, t)) && OwnCore(p, Do(p, s, t))
  {
    var s' := Do(p, s, t);
    DoKeepsThreads(p, s, t);
    forall u | u in s.threads && s'.threads[u].pc in {Test, Take}
      ensures LoadedLast(p, s', u)
    {
      if u != t { OthersKeep(p, s, t, u); }
    }
  }

  /** With one guest thread per core, any number of cores exclude each other in any interleaving whatsoever. */
  lemma MutualExclusionAcrossCores(p: Program, s0: State, schedule: seq<nat>, s: State)
    requires Start(p, s0) && OneThreadPerCore(p, s0) && Reaches(p, s0, schedule, s)
    ensures Mutex(p, s)
  {
    forall k, m | 0 <= k < |schedule| && Reaches(p, s0, schedule[..k], m)
      ensures !Disturbed(p, m, schedule[k])
    {
      OwnCoreReached(p, s0, schedule[..k], m);
    }
    MutualExclusion(p, s0, schedule, s);
  }

  // Threads that share a core.

  /** A 64-bit lock; threads 0 and 2 share core 0, and thread 1 has core 1. */
  const SHARED := Program(8, 0, 0, 1, 2, (t: nat) => if t == 1 then 1 else 0)

  function CoreOf(t: nat): nat {
    SHARED.coreOf(t)
  }

  ghost predicate Run(s0: State, schedule: seq<nat>, s: State) {
    Reaches(SHARED, s0, schedule, s) && Inv(SHARED, s) && s.threads.Keys == {0, 1, 2}
  }

  lemma Extend(s0: State, schedule: seq<nat>, m: State, t: nat) returns (s: State)
    requires Run(s0, schedule, m) && t < 3
    ensures s == Do(SHARED, m, t) && Run(s0, schedule + [t], s)
  {
    hide Do, ThreadOk;
    s := Do(SHARED, m, t);
    assert (schedule + [t])[..|schedule|] == schedule;
    InvStep(SHARED, m, t);
    DoKeepsThreads(SHARED, m, t);
  }

  /** Thread `t` gets as far as its test; its core remembers what it read. */
  lemma ReadLock(s0: State, schedule: seq<nat>, m: State, t: nat) returns (schedule': seq<nat>, s: State)
    requires Run(s0, schedule, m) && t < 3 && m.threads[t].pc == Enter
    ensures Run(s0, schedule', s) && s.cell == m.cell && s.threads == m.threads[t := s.threads[t]]
    ensures s.threads[t].pc == Test && s.threads[t].regs.gpr[0] == m.cell && s.excl[CoreOf(t)].data0 == m.cell
  {
    hide ThreadOk;
    s := Extend(s0, schedule, m, t);
    s := Extend(s0, schedule + [t], s, t);
    schedule' := schedule + [t] + [t];
  }

  lemma PassTest(s0: State, schedule: seq<nat>, m: State, t: nat) returns (schedule': seq<nat>, s: State)
    requires Run(s0, schedule, m) && t < 3 && m.threads[t].pc == Test && m.threads[t].regs.gpr[0] == 0
    ensures Run(s0, schedule', s) && s.cell == m.cell && s.threads == m.threads[t := s.threads[t]]
    ensures s.threads[t].pc == Take && s.excl[CoreOf(t)].data0 == m.excl[CoreOf(t)].data0
  {
    hide ThreadOk;
    s := Extend(s0, schedule, m, t);
    schedule' := schedule + [t];
  }

  lemma TakeLock(s0: State, schedule: seq<nat>, m: State, t: nat) returns (schedule': seq<nat>, s: State)
    requires Run(s0, schedule, m) && t < 3 && m.threads[t].pc == Take && m.excl[CoreOf(t)].data0 == m.cell
    ensures Run(s0, schedule', s) && s.cell == 1 && s.threads == m.threads[t := s.threads[t]]
    ensures s.threads[t].Holds(2)
  {
    LowBit(8);
    assert ThreadOk(SHARED, m, t);
    s := Extend(s0, schedule, m, t);
    schedule' := schedule + [t];
  }

  lemma StartRuns(s0: State)
    requires Start(SHARED, s0) && s0.threads.Keys == {0, 1, 2}
    ensures Run(s0, [], s0)
  {
  }

  /**
   * Thread 0 reads a free lock and is switched out. Thread 1 takes the lock on the other core. Thread 2 reads the
   * taken lock on the core of thread 0, and the STXR of thread 0 then replaces 1 by 1 and reports success.
   */
  lemma SharedCoreBreaksTheLock(r: Regs) returns (s0: State, schedule: seq<nat>, s: State)
    ensures Start(SHARED, s0) && Reaches(SHARED, s0, schedule, s) && s0.threads.Keys == {0, 1, 2}
    ensures 0 in s.threads && 1 in s.threads && s.threads[0].Holds(2) && s.threads[1].Holds(2)
  {
    hide Inv;
    var outside := Thread(r, Enter);
    s0 := State(0, map[0 := r.excl, 1 := r.excl], map[0 := outside, 1 := outside, 2 := outside], map[]);
    s := s0;
    StartRuns(s0);
    schedule, s := ReadLock(s0, [], s, 0);
    schedule, s := PassTest(s0, schedule, s, 0);
    schedule, s := ReadLock(s0, schedule, s, 1);
    schedule, s := PassTest(s0, schedule, s, 1);
    schedule, s := TakeLock(s0, schedule, s, 1);
    schedule, s := ReadLock(s0, schedule, s, 2);
    schedule, s := TakeLock(s0, schedule, s, 0);
  }
}
