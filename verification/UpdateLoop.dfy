/**
 * Atomic update by retry: any number of guest threads run
 *   again: LDXR x, [p];  y := f(x);  STXR s, y, [p];  CBNZ s, again
 * on one cell, in any interleaving, with CLREX anywhere. The remembered value belongs to a core, not to a thread:
 * a context switch swaps the registers of the threads sharing a core but leaves the remembered value alone.
 */
module UpdateLoop {
  import opened Words
  import opened Bits
  import opened Cores
  import opened LittleEndian
  import opened Exclusives

  /** Where a thread is: the next instruction of the loop. `LoadHigh` is between the two reads of a pair load. */
  datatype Pc = Load | LoadHigh(lo: Word32) | Compute | Store | Branch | Done

  /** `seen` is the value the thread's own last load returned. */
  datatype Thread = Thread(regs: Regs, pc: Pc, seen: Word64)

  /** The program: the size of the cell in bytes, or a pair of 32-bit words; its registers; and each thread's `f`. */
  datatype Program = Program(
    pair: bool, n: nat, addr: Word64,
    x: Reg, x2: Reg, y: Reg, y2: Reg, s: Reg,
    f: (nat, Word64) -> Word64,
    coreOf: nat -> nat)
  {
    ghost predicate Valid() {
      && n in {1, 2, 4, 8} && (pair ==> n == 8 && x != x2 && y != y2)
      && x < 31 && x2 < 31 && y < 31 && y2 < 31 && s < 31
    }

    /** `f` as a map from cell values to cell values. */
    function F(t: nat, v: Word64): nat {
      Low(f(t, v), n)
    }

    /** What the loaded registers hold, as one value. */
    function Input(r: Regs): Word64 {
      if pair then r.gpr[x] % 0x1_0000_0000 + 0x1_0000_0000 * (r.gpr[x2] % 0x1_0000_0000) else r.gpr[x]
    }

    function Output(r: Regs, v: Word64): Regs {
      if pair then r.Set(y, v % 0x1_0000_0000).Set(y2, v / 0x1_0000_0000) else r.Set(y, v)
    }

    /** The value a store exclusive writes. */
    function Data(r: Regs): nat {
      Low(if pair then PairData(r.gpr[y], r.gpr[y2]) else r.gpr[y], n)
    }
  }

  /**
   * `done` lists the threads whose STXR has reported success, in order; `loader` is the thread that last executed a
   * load exclusive on each core.
   */
  datatype State = State(cell: nat, excl: map<nat, Exclusive>, threads: map<nat, Thread>, done: seq<nat>, loader: map<nat, nat>)

  datatype Action = Next(thread: nat) | Clrex(core: nat)

  ghost predicate WellFormed(p: Program, s: State) {
    && p.Valid() && s.cell < Pow256(p.n) && s.cell < 0x1_0000_0000_0000_0000
    && forall t | t in s.threads :: p.coreOf(t) in s.excl
  }

  predicate Enabled(s: State, a: Action) {
    match a
    case Next(t) => t in s.threads
    case Clrex(c) => c in s.excl
  }

  /** Thread `t` has run one instruction, which left `r`, and has seen `seen`. */
  function After(p: Program, s: State, t: nat, r: Regs, pc: Pc, seen: Word64): State {
    s.(threads := s.threads[t := Thread(r, pc, seen)], excl := s.excl[p.coreOf(t) := r.excl])
  }

  function Loaded(p: Program, s: State, t: nat, r: Regs): State {
    After(p, s, t, r, Compute, r.excl.data0).(loader := s.loader[p.coreOf(t) := t])
  }

  function Do(p: Program, s: State, a: Action): State
    requires WellFormed(p, s) && Enabled(s, a)
  {
    match a
    case Clrex(c) => s.(excl := s.excl[c := s.excl[c].(access := false)])
    case Next(t) =>
      var seen := s.threads[t].seen;
      var r := s.threads[t].regs.(excl := s.excl[p.coreOf(t)]);
      match s.threads[t].pc
      case Load =>
        if p.pair then After(p, s, t, r, LoadHigh(s.cell % 0x1_0000_0000), seen)
        else Loaded(p, s, t, LoadExclusive(r, p.x, p.addr, s.cell))
      case LoadHigh(lo) => Loaded(p, s, t, LoadPairExclusive(r, p.x, p.x2, p.addr, lo, s.cell / 0x1_0000_0000))
      case Compute => After(p, s, t, p.Output(r, p.f(t, p.Input(r))), Store, seen)
      case Store =>
        var (r', ok) := StoreExclusive(r, p.s, p.n, s.cell);
        var stored := After(p, s, t, r', Branch, seen);
        if ok then stored.(cell := p.Data(r), done := s.done + [t]) else stored
      case Branch => After(p, s, t, r, if r.gpr[p.s] == 0 then Done else Load, seen)
      case Done => After(p, s, t, r, Load, seen)
  }

  lemma LowFits(n: nat, v: nat)
    requires n in {1, 2, 4, 8}
    ensures Low(v, n) < Pow256(n) <= 0x1_0000_0000_0000_0000
    ensures v < Pow256(n) ==> Low(v, n) == v
  {
    Pow256Values();
  }

  lemma DoKeepsWellFormed(p: Program, s: State, a: Action)
    requires WellFormed(p, s) && Enabled(s, a)
    ensures WellFormed(p, Do(p, s, a))
  {
    if a.Next? {
      var r := s.threads[a.thread].regs.(excl := s.excl[p.coreOf(a.thread)]);
      LowFits(p.n, if p.pair then PairData(r.gpr[p.y], r.gpr[p.y2]) else r.gpr[p.y]);
    }
  }

  // The invariant of one thread.

  /** What a thread has computed, it has computed from the value its own load returned. */
  ghost predicate ThreadOk(p: Program, t: nat, th: Thread) {
    && (th.pc.LoadHigh? ==> p.pair)
    && (th.pc == Compute ==> p.Input(th.regs) == th.seen)
    && (th.pc == Store ==> p.Data(th.regs) == p.F(t, th.seen))
  }

  predicate InWindow(th: Thread) {
    th.pc == Compute || th.pc == Store
  }

  /** While nobody else has loaded on its core, the core remembers the value the thread saw. */
  predicate Remembers(n: nat, e: Exclusive, th: Thread) {
    e.data0 == th.seen && th.seen < Pow256(n)
  }

  ghost predicate Remembered(p: Program, s: State, t: nat)
    requires t in s.threads && p.coreOf(t) in s.excl
  {
    InWindow(s.threads[t]) && LoadedLast(p, s, t) ==> Remembers(p.n, s.excl[p.coreOf(t)], s.threads[t])
  }

  predicate LoadedLast(p: Program, s: State, t: nat) {
    p.coreOf(t) in s.loader && s.loader[p.coreOf(t)] == t
  }

  ghost predicate Inv(p: Program, s: State) {
    && WellFormed(p, s)
    && forall t | t in s.threads :: ThreadOk(p, t, s.threads[t]) && Remembered(p, s, t)
  }

  /** Two 32-bit halves put together by the store are the value they came from. */
  lemma PairOutput(p: Program, r: Regs, v: Word64)
    requires p.Valid() && p.pair
    ensures p.Data(p.Output(r, v)) == Low(v, 8)
  {
    var lo, hi := v % 0x1_0000_0000, v / 0x1_0000_0000;
    PairDataLow(lo, hi);
  }

  /** A load leaves the loaded value in the registers, in `seen` and in the core's memory of it. */
  lemma LoadRemembers(p: Program, r: Regs, cell: nat, lo: Word32, hi: Word32)
    requires p.Valid() && cell < Pow256(p.n) && cell < 0x1_0000_0000_0000_0000
    ensures !p.pair ==> var r' := LoadExclusive(r, p.x, p.addr, cell);
                        p.Input(r') == r'.excl.data0 < Pow256(p.n)
    ensures p.pair ==> var r' := LoadPairExclusive(r, p.x, p.x2, p.addr, lo, hi);
                       p.Input(r') == r'.excl.data0 < Pow256(p.n)
  {
    Pow256Values();
  }

  lemma StepKeepsThread(p: Program, s: State, t: nat)
    requires Inv(p, s) && t in s.threads
    ensures var s' := Do(p, s, Next(t)); ThreadOk(p, t, s'.threads[t]) && Remembered(p, s', t)
  {
    var th := s.threads[t];
    var r := th.regs.(excl := s.excl[p.coreOf(t)]);
    assert ThreadOk(p, t, th) && Remembered(p, s, t);
    match th.pc {
      case Load => if !p.pair { LoadRemembers(p, r, s.cell, 0, 0); }
      case LoadHigh(lo) => LoadRemembers(p, r, s.cell, lo, s.cell / 0x1_0000_0000);
      case Compute => if p.pair { PairOutput(p, r, p.f(t, p.Input(r))); }
      case _ =>
    }
  }

  lemma StepKeepsOthers(p: Program, s: State, a: Action, t: nat)
    requires Inv(p, s) && Enabled(s, a) && t in s.threads && a != Next(t)
    ensures var s' := Do(p, s, a); s'.threads[t] == s.threads[t] && p.coreOf(t) in s'.excl && Remembered(p, s', t)
  {
    hide PairData, Low, Pow256;
    assert Remembered(p, s, t);
  }

  lemma InvStep(p: Program, s: State, a: Action)
    requires Inv(p, s) && Enabled(s, a)
    ensures Inv(p, Do(p, s, a))
  {
    hide Do;
    DoKeepsWellFormed(p, s, a);
    var s' := Do(p, s, a);
    DoKeepsThreads(p, s, a);
    forall t | t in s'.threads
      ensures ThreadOk(p, t, s'.threads[t]) && Remembered(p, s', t)
    {
      assert ThreadOk(p, t, s.threads[t]);
      if a == Next(t) {
        StepKeepsThread(p, s, t);
      } else {
        StepKeepsOthers(p, s, a, t);
      }
    }
  }

  lemma DoKeepsThreads(p: Program, s: State, a: Action)
    requires WellFormed(p, s) && Enabled(s, a)
    ensures Do(p, s, a).threads.Keys == s.threads.Keys
  {
  }

  // Whole runs.

  /** `f` applied once for every success, in order. */
  function Fold(p: Program, init: nat, done: seq<nat>): nat
  {
    if done == [] then init
    else
      var v := Fold(p, init, done[..|done| - 1]);
      if v < 0x1_0000_0000_0000_0000 then p.F(done[|done| - 1], v) else 0
  }

  ghost predicate Start(p: Program, s: State) {
    && WellFormed(p, s) && s.done == [] && s.loader == map[]
    && forall t | t in s.threads :: s.threads[t].pc == Load
  }

  ghost predicate Reaches(p: Program, s0: State, actions: seq<Action>, s: State) {
    if actions == [] then s == s0
    else
      var n := |actions| - 1;
      exists m :: Reaches(p, s0, actions[..n], m) && WellFormed(p, m) && Enabled(m, actions[n]) && s == Do(p, m, actions[n])
  }

  lemma {:induction false} InvReached(p: Program, s0: State, actions: seq<Action>, s: State)
    requires Start(p, s0) && Reaches(p, s0, actions, s)
    ensures Inv(p, s)
    decreases |actions|
  {
    if actions != [] {
      var n := |actions| - 1;
      var m :| Reaches(p, s0, actions[..n], m) && WellFormed(p, m) && Enabled(m, actions[n]) && s == Do(p, m, actions[n]);
      InvReached(p, s0, actions[..n], m);
      InvStep(p, m, actions[n]);
    }
  }

  /** The next instruction of `t` is a STXR, and another thread has loaded on its core since its own LDXR. */
  predicate Disturbed(p: Program, s: State, a: Action) {
    a.Next? && a.thread in s.threads && s.threads[a.thread].pc == Store && !LoadedLast(p, s, a.thread)
  }

  /** A STXR that is not disturbed succeeds only on the value its thread saw, and fails without touching memory. */
  lemma StoreStep(p: Program, s: State, t: nat)
    requires Inv(p, s) && t in s.threads && s.threads[t].pc == Store
    ensures var s' := Do(p, s, Next(t));
            var status := s'.threads[t].regs.gpr[p.s];
            && status in {0, 1}
            && (status == 1 ==> s'.cell == s.cell && s'.done == s.done)
            && (status == 0 ==> s'.cell == p.F(t, s.threads[t].seen) && s'.done == s.done + [t])
            && (status == 0 && !Disturbed(p, s, Next(t)) ==> s.threads[t].seen == s.cell)
  {
    assert ThreadOk(p, t, s.threads[t]) && Remembered(p, s, t);
    LowFits(p.n, s.excl[p.coreOf(t)].data0);
  }

  /** An undisturbed STXR succeeds exactly if the cell still holds what the thread saw, and then stores `f` of it. */
  lemma StoreSucceedsExactly(p: Program, s: State, t: nat)
    requires Inv(p, s) && t in s.threads && s.threads[t].pc == Store && !Disturbed(p, s, Next(t))
    ensures var s' := Do(p, s, Next(t));
            && (s'.threads[t].regs.gpr[p.s] == 0 <==> s.threads[t].seen == s.cell)
            && s'.cell == (if s.threads[t].seen == s.cell then p.F(t, s.cell) else s.cell)
            && s'.done == (if s.threads[t].seen == s.cell then s.done + [t] else s.done)
  {
    assert ThreadOk(p, t, s.threads[t]) && Remembered(p, s, t);
    LowFits(p.n, s.excl[p.coreOf(t)].data0);
  }

  /** A load exclusive sees the cell: the register, the thread and the core all have its value. */
  lemma LoadSees(p: Program, s: State, t: nat)
    requires WellFormed(p, s) && t in s.threads && s.threads[t].pc == Load && !p.pair
    ensures var th := Do(p, s, Next(t)).threads[t];
            && th.pc == Compute && th.seen == s.cell && th.regs.gpr[p.x] == s.cell
            && Do(p, s, Next(t)).excl[p.coreOf(t)].data0 == s.cell
  {
  }

  /** So does a pair load, half by half, if the cell has not changed between its two reads. */
  lemma PairLoadSees(p: Program, s: State, m: State, t: nat)
    requires WellFormed(p, s) && t in s.threads && s.threads[t].pc == Load && p.pair
    requires WellFormed(p, m) && t in m.threads && m.threads[t] == Do(p, s, Next(t)).threads[t] && m.cell == s.cell
    ensures var th := Do(p, m, Next(t)).threads[t];
            && th.pc == Compute && th.seen == s.cell
            && th.regs.gpr[p.x] == s.cell % 0x1_0000_0000 && th.regs.gpr[p.x2] == s.cell / 0x1_0000_0000
            && Do(p, m, Next(t)).excl[p.coreOf(t)].data0 == s.cell
  {
  }

  ghost predicate Undisturbed(p: Program, s0: State, actions: seq<Action>) {
    forall k, s | 0 <= k < |actions| && Reaches(p, s0, actions[..k], s) :: !Disturbed(p, s, actions[k])
  }

  /**
   * No lost update: in every run in which no STXR is disturbed, the cell is `f` applied once for each reported
   * success, in the order of the successes, to the initial value.
   */
  lemma {:induction false} NoLostUpdate(p: Program, s0: State, actions: seq<Action>, s: State)
    requires Start(p, s0) && Reaches(p, s0, actions, s) && Undisturbed(p, s0, actions)
    ensures s.cell == Fold(p, s0.cell, s.done)
    decreases |actions|
  {
    if actions != [] {
      var n := |actions| - 1;
      var m :| Reaches(p, s0, actions[..n], m) && WellFormed(p, m) && Enabled(m, actions[n]) && s == Do(p, m, actions[n]);
      UndisturbedPrefix(p, s0, actions);
      NoLostUpdate(p, s0, actions[..n], m);
      InvReached(p, s0, actions[..n], m);
      FoldStep(p, s0.cell, m, actions[n]);
    }
  }

  lemma UndisturbedPrefix(p: Program, s0: State, actions: seq<Action>)
    requires actions != [] && Undisturbed(p, s0, actions)
    ensures Undisturbed(p, s0, actions[..|actions| - 1])
  {
    var prefix := actions[..|actions| - 1];
    forall k, s | 0 <= k < |prefix| && Reaches(p, s0, prefix[..k], s)
      ensures !Disturbed(p, s, prefix[k])
    {
      assert prefix[..k] == actions[..k];
    }
  }

  lemma FoldStep(p: Program, init: nat, s: State, a: Action)
    requires Inv(p, s) && Enabled(s, a) && !Disturbed(p, s, a)
    requires s.cell == Fold(p, init, s.done)
    ensures Do(p, s, a).cell == Fold(p, init, Do(p, s, a).done)
  {
    hide Do, Inv;
    CellFits(p, s);
    if a.Next? && s.threads[a.thread].pc == Store {
      StoreSucceedsExactly(p, s, a.thread);
      assert (s.done + [a.thread])[..|s.done|] == s.done;
    } else {
      OnlyStoresStore(p, s, a);
    }
  }

  lemma CellFits(p: Program, s: State)
    requires Inv(p, s)
    ensures WellFormed(p, s) && s.cell < 0x1_0000_0000_0000_0000
  {
  }

  /** Nothing but an STXR changes the cell. */
  lemma OnlyStoresStore(p: Program, s: State, a: Action)
    requires WellFormed(p, s) && Enabled(s, a) && (a.Next? ==> s.threads[a.thread].pc != Store)
    ensures Do(p, s, a).cell == s.cell && Do(p, s, a).done == s.done
  {
  }

  // When nothing is disturbed.

  /** A thread between its LDXR and its STXR is the last one to have loaded on its core. */
  ghost predicate OwnCore(p: Program, s: State) {
    forall t | t in s.threads && InWindow(s.threads[t]) :: LoadedLast(p, s, t)
  }

  ghost predicate OneThreadPerCore(p: Program, s: State) {
    forall t, u | t in s.threads && u in s.threads && p.coreOf(t) == p.coreOf(u) :: t == u
  }

  lemma OwnCoreStep(p: Program, s: State, a: Action)
    requires WellFormed(p, s) && Enabled(s, a) && OneThreadPerCore(p, s) && OwnCore(p, s)
    ensures OneThreadPerCore(p, Do(p, s, a)) && OwnCore(p, Do(p, s, a))
  {
    DoKeepsThreads(p, s, a);
    forall t | t in s.threads && InWindow(Do(p, s, a).threads[t])
      ensures LoadedLast(p, Do(p, s, a), t)
    {
      if a != Next(t) { assert Do(p, s, a).threads[t] == s.threads[t]; }
    }
  }

  lemma {:induction false} OwnCoreReached(p: Program, s0: State, actions: seq<Action>, s: State)
    requires Start(p, s0) && OneThreadPerCore(p, s0) && Reaches(p, s0, actions, s)
    ensures OneThreadPerCore(p, s) && OwnCore(p, s)
    decreases |actions|
  {
    if actions != [] {
      var n := |actions| - 1;
      var m :| Reaches(p, s0, actions[..n], m) && WellFormed(p, m) && Enabled(m, actions[n]) && s == Do(p, m, actions[n]);
      OwnCoreReached(p, s0, actions[..n], m);
      OwnCoreStep(p, m, actions[n]);
    }
  }

  /** With one guest thread per core, any number of cores lose no update in any interleaving whatsoever. */
  lemma NoLostUpdateAcrossCores(p: Program, s0: State, actions: seq<Action>, s: State)
    requires Start(p, s0) && OneThreadPerCore(p, s0) && Reaches(p, s0, actions, s)
    ensures s.cell == Fold(p, s0.cell, s.done)
  {
    forall k, m | 0 <= k < |actions| && Reaches(p, s0, actions[..k], m)
      ensures !Disturbed(p, m, actions[k])
    {
      OwnCoreReached(p, s0, actions[..k], m);
    }
    NoLostUpdate(p, s0, actions, s);
  }

  // When something is.

  /** A success keeps the account exactly if `f` does not tell the value its thread saw from the value in the cell. */
  lemma SuccessIsUpdateExactly(p: Program, init: nat, s: State, t: nat)
    requires Inv(p, s) && t in s.threads && s.threads[t].pc == Store && s.cell == Fold(p, init, s.done)
    requires Do(p, s, Next(t)).done != s.done
    ensures var s' := Do(p, s, Next(t));
            s'.cell == Fold(p, init, s'.done) <==> p.F(t, s.threads[t].seen) == p.F(t, s.cell)
  {
    StoreStep(p, s, t);
    assert (s.done + [t])[..|s.done|] == s.done;
  }

  lemma Extend(p: Program, s0: State, actions: seq<Action>, m: State, a: Action) returns (s: State)
    requires Reaches(p, s0, actions, m) && WellFormed(p, m) && Enabled(m, a)
    ensures s == Do(p, m, a) && Reaches(p, s0, actions + [a], s) && WellFormed(p, s)
  {
    s := Do(p, m, a);
    assert (actions + [a])[..|actions|] == actions;
    DoKeepsWellFormed(p, m, a);
  }

  /** Every thread increments a 64-bit counter, and all of them share core 0. */
  const INCREMENT := Program(false, 8, 0, 0, 1, 1, 2, 2, (t: nat, v: Word64) => Add64(v, 1), (t: nat) => 0)

  /** A run of `INCREMENT` so far. */
  ghost predicate Run(s0: State, actions: seq<Action>, s: State) {
    Reaches(INCREMENT, s0, actions, s) && WellFormed(INCREMENT, s)
  }

  /** Thread `t` executes its LDXR and its addition. */
  lemma LoadAndAdd(s0: State, actions: seq<Action>, m: State, t: nat) returns (actions': seq<Action>, s: State)
    requires Run(s0, actions, m) && t in m.threads && m.threads[t].pc == Load
    ensures Run(s0, actions', s) && s.cell == m.cell && s.done == m.done && 0 in s.excl && s.excl[0].data0 == m.cell
    ensures t in s.threads && s.threads == m.threads[t := s.threads[t]]
    ensures s.threads[t].pc == Store && s.threads[t].regs.gpr[1] == Add64(m.cell, 1)
  {
    s := Extend(INCREMENT, s0, actions, m, Next(t));
    s := Extend(INCREMENT, s0, actions + [Next(t)], s, Next(t));
    actions' := actions + [Next(t)] + [Next(t)];
  }

  /** Its STXR finds in the cell what its core remembers. */
  lemma StoreSucceeds(s0: State, actions: seq<Action>, m: State, t: nat) returns (actions': seq<Action>, s: State)
    requires Run(s0, actions, m) && t in m.threads && m.threads[t].pc == Store
    requires 0 in m.excl && m.excl[0].data0 == m.cell
    ensures Run(s0, actions', s) && s.cell == m.threads[t].regs.gpr[1] && s.done == m.done + [t]
    ensures t in s.threads && s.threads == m.threads[t := s.threads[t]]
    ensures s.threads[t].pc == Branch && s.threads[t].regs.gpr[2] == 0
  {
    LowFits(8, m.excl[0].data0);
    LowFits(8, m.threads[t].regs.gpr[1]);
    Pow256Values();
    s := Extend(INCREMENT, s0, actions, m, Next(t));
    actions' := actions + [Next(t)];
  }

  /** It leaves the loop and enters it again. */
  lemma StartOver(s0: State, actions: seq<Action>, m: State, t: nat) returns (actions': seq<Action>, s: State)
    requires Run(s0, actions, m) && t in m.threads && m.threads[t].pc == Branch && m.threads[t].regs.gpr[2] == 0
    ensures Run(s0, actions', s) && s.cell == m.cell && s.done == m.done
    ensures t in s.threads && s.threads == m.threads[t := s.threads[t]] && s.threads[t].pc == Load
  {
    s := Extend(INCREMENT, s0, actions, m, Next(t));
    s := Extend(INCREMENT, s0, actions + [Next(t)], s, Next(t));
    actions' := actions + [Next(t)] + [Next(t)];
  }

  /**
   * Two threads increment a counter on one core. Thread 0 is switched out between its LDXR and its STXR; thread 1
   * increments the counter and executes its next LDXR; and the STXR of thread 0 then succeeds on the value that
   * thread 1 saw. Two successes, one increment.
   */
  lemma SharedCoreLosesAnUpdate(r: Regs) returns (s0: State, actions: seq<Action>, s: State)
    ensures Start(INCREMENT, s0) && Reaches(INCREMENT, s0, actions, s)
    ensures s0.cell == 0 && s.done == [1, 0] && s.cell == 1 && Fold(INCREMENT, 0, s.done) == 2
  {
    s0 := State(0, map[0 := r.excl], map[0 := Thread(r, Load, 0), 1 := Thread(r, Load, 0)], [], map[]);
    s := s0;
    assert Run(s0, [], s);
    actions, s := LoadAndAdd(s0, [], s, 0);
    actions, s := LoadAndAdd(s0, actions, s, 1);
    actions, s := StoreSucceeds(s0, actions, s, 1);
    actions, s := StartOver(s0, actions, s, 1);
    actions, s := LoadAndAdd(s0, actions, s, 1);
    actions, s := StoreSucceeds(s0, actions, s, 0);
    FoldOfTwo();
  }

  lemma FoldOfTwo()
    ensures Fold(INCREMENT, 0, [1, 0]) == 2
  {
    Pow256Values();
    assert [1, 0][..1] == [1] && [1][..0] == [];
    LowFits(8, 1);
    LowFits(8, 2);
    assert Fold(INCREMENT, 0, []) == 0;
    assert Fold(INCREMENT, 0, [1]) == 1;
  }
}
