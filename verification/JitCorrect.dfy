/** The JIT against the interpreter: what a block is, what running one does, and what any run through the cache does. */
module JitCorrect {
  import opened Words
  import opened Cores
  import opened Fields
  import opened Conditions
  import opened Branches
  import opened Interpreter
  import opened Jit

  // Block discovery.

  /** The scan stops just after the first branch, or gives up after 3000 words and yields an empty block. */
  lemma {:induction false} BlockLengthFindsFirstBranch<M>(sem: Semantics<M>, mem: M, start: Word64, i: Length)
    requires forall j: nat | j < i :: !IsBranch(WordAt(sem, mem, start, j))
    ensures var n := BlockLength(sem, mem, start, i);
            && (n == 0 <==> forall j: nat | j < 3000 :: !IsBranch(WordAt(sem, mem, start, j)))
            && (n > 0 ==> i < n && IsBranch(WordAt(sem, mem, start, n - 1)))
            && forall j: nat | j < n - 1 :: !IsBranch(WordAt(sem, mem, start, j))
    decreases MAX_FETCHES - i
  {
    if i < MAX_FETCHES {
      if IsBranch(WordAt(sem, mem, start, i)) {
      } else {
        BlockLengthFindsFirstBranch(sem, mem, start, i + 1);
      }
    }
  }

  // Native code against handlers.

  lemma NativeConditionAgrees(f: Flags, cond: Condition)
    ensures NativeCondition(f, cond) == TestCondition(f, cond)
  {
  }

  /**
   * The native BLR writes X30 before it reads its target register, the handler reads first. They part ways
   * exactly for BLR X30, and then only when X30 does not already hold the return address.
   */
  predicate ReadsOwnLink(op: Op, r: Regs) {
    op.Native? && op.id.BLR? && Rn(op.inst) == 30 && r.gpr[30] != Add64(op.addr, 4)
  }

  /** A native branch leaves the registers and the next address that its handler leaves, unless it is such a BLR. */
  lemma NativeMatchesHandler(op: Op, cpu: Cpu)
    requires op.Native? && HasGenerator(op.id)
    requires cpu.pc == op.addr && cpu.nextPC == Add64(op.addr, 4)
    ensures RunNative(op.addr, op.inst, op.id, op.link, cpu).0 == Branch(op.id, op.inst, cpu) <==> !ReadsOwnLink(op, cpu.regs)
  {
    NativeConditionAgrees(cpu.regs.flags, Cond(op.inst));
  }

  // One block.

  /** Equal but for register 31, which the interpreter has cleared and the JIT will clear before it is read. */
  ghost predicate Same<M>(s: State<M>, t: State<M>) {
    s.mem == t.mem && s.cpu.regs.ClearZero() == t.cpu.regs
  }

  /** Compiled code never sees register 31: whatever it holds on entry, the instruction reads zero. */
  lemma IgnoresRegister31<M>(sem: Semantics<M>, op: Op, s: State<M>, w: Word64)
    ensures RunOp(sem, op, s.(cpu := s.cpu.Set(31, w))) == RunOp(sem, op, s)
  {
    assert s.cpu.regs.Set(31, w).ClearZero() == s.cpu.regs.ClearZero();
  }

  /** The addresses of the words from which the cached code was generated. */
  ghost function Text(codes: seq<Code>): set<Word64> {
    set k: nat, i: nat | k < |codes| && i < |codes[k].ops| :: codes[k].ops[i].addr
  }

  ghost predicate SameText<M>(sem: Semantics<M>, text: set<Word64>, mem: M, mem': M) {
    forall a | a in text :: sem.fetch(mem, a) == sem.fetch(mem', a)
  }

  /** No op stores into the words of cached code, and no BLR reads the link it has just written. */
  ghost predicate CleanOps<M>(sem: Semantics<M>, text: set<Word64>, ops: seq<Op>, s: State<M>) {
    ops == [] ||
    var (s', exit) := RunOp(sem, ops[0], s);
    && !ReadsOwnLink(ops[0], s.cpu.regs)
    && SameText(sem, text, s.mem, s'.mem)
    && (exit.Next? ==> CleanOps(sem, text, ops[1..], s'))
  }

  ghost predicate CleanCode<M>(sem: Semantics<M>, codes: seq<Code>, k: nat, s: State<M>)
    requires k < |codes| && Stratified(codes)
    decreases k
  {
    var (s', exit) := RunOps(sem, codes[k].ops, Enter(codes[k], s));
    && CleanOps(sem, Text(codes), codes[k].ops, Enter(codes[k], s))
    && (exit.Jump? ==> assert LinksBelow(codes[k].ops, k); CleanCode(sem, codes, exit.code, s'))
  }

  /** The op at `addr` is what `Emit` makes of the word now in memory there. */
  ghost predicate Current<M>(sem: Semantics<M>, mem: M, addr: int, op: Op) {
    && op.addr == addr
    && op.inst == sem.fetch(mem, op.addr)
    && (op.Native? <==> DecodeBranch(op.inst).Some? && HasGenerator(DecodeBranch(op.inst).value))
    && (op.Native? ==> op.id == DecodeBranch(op.inst).value)
  }

  /** Consecutive current words, the last one a branch and no other. */
  ghost predicate Straight<M>(sem: Semantics<M>, mem: M, addr: int, ops: seq<Op>) {
    forall i | 0 <= i < |ops| ::
      && Current(sem, mem, addr + 4 * i, ops[i])
      && (IsBranch(ops[i].inst) <==> i == |ops| - 1)
  }

  lemma OpMatches<M>(sem: Semantics<M>, op: Op, s: State<M>, t: State<M>)
    requires Current(sem, t.mem, t.cpu.pc, op)
    requires Same(s, t) && !ReadsOwnLink(op, s.cpu.regs)
    ensures var (s', exit) := RunOp(sem, op, s);
            var t' := Advance(sem, t);
            && Same(s', t')
            && t'.cpu.pc == t'.cpu.nextPC == s'.cpu.nextPC
            && s'.cpu.numInsts == s.cpu.numInsts
            && (!IsBranch(op.inst) ==> exit.Next? && t'.cpu.pc == Add64(t.cpu.pc, 4))
            && (exit.Jump? ==> s'.cpu.nextPC == Add64(op.addr, Offset(op.id, op.inst)))
  {
    if op.Native? {
      var cpu := Cpu(t.cpu.regs, op.addr, Add64(op.addr, 4), s.cpu.numInsts);
      NativeMatchesHandler(op, cpu);
    }
  }

  lemma {:induction false} AdvanceByCounts<M>(sem: Semantics<M>, t: State<M>, n: Length)
    ensures AdvanceBy(sem, t, n).cpu.numInsts == Add64(t.cpu.numInsts, n)
    decreases n
  {
    if n > 0 {
      AdvanceByCounts(sem, Advance(sem, t), n - 1);
    }
  }

  lemma {:induction false} StraightTail<M>(sem: Semantics<M>, mem: M, mem': M, text: set<Word64>, addr: int, ops: seq<Op>)
    requires ops != [] && Straight(sem, mem, addr, ops)
    requires forall op | op in ops :: op.addr in text
    requires SameText(sem, text, mem, mem')
    ensures Straight(sem, mem', addr + 4, ops[1..])
  {
    forall i | 0 <= i < |ops| - 1
      ensures Current(sem, mem', addr + 4 + 4 * i, ops[1..][i])
    {
      assert Current(sem, mem, addr + 4 * (i + 1), ops[i + 1]);
      assert ops[i + 1] in ops;
    }
  }

  /** A non-empty block does what the interpreter does in as many steps as the block has words. */
  lemma {:induction false} OpsMatch<M>(sem: Semantics<M>, text: set<Word64>, ops: seq<Op>, s: State<M>, t: State<M>)
    requires Same(s, t) && CleanOps(sem, text, ops, s)
    requires ops != [] && Straight(sem, t.mem, t.cpu.pc, ops)
    requires forall op | op in ops :: op.addr in text
    ensures var (s', exit) := RunOps(sem, ops, s);
            var t' := AdvanceBy(sem, t, |ops|);
            var last := ops[|ops| - 1];
            && Same(s', t')
            && t'.cpu.pc == t'.cpu.nextPC == s'.cpu.nextPC
            && s'.cpu.numInsts == s.cpu.numInsts
            && SameText(sem, text, s.mem, s'.mem)
            && (exit.Jump? ==> last.Native? && last.link == Some(exit.code)
                               && s'.cpu.nextPC == Add64(last.addr, Offset(last.id, last.inst)))
    decreases |ops|
  {
    var op := ops[0];
    assert Current(sem, t.mem, t.cpu.pc + 4 * 0, op) && op in ops;
    OpMatches(sem, op, s, t);
    var (s1, exit) := RunOp(sem, op, s);
    var t1 := Advance(sem, t);
    if |ops| == 1 {
      assert IsBranch(op.inst) && ops[1..] == [];
      assert AdvanceBy(sem, t, 1) == AdvanceBy(sem, t1, 0);
    } else {
      assert !IsBranch(op.inst);
      assert Current(sem, t.mem, t.cpu.pc + 4 * 1, ops[1]);
      StraightTail(sem, t.mem, t1.mem, text, t.cpu.pc, ops);
      OpsMatch(sem, text, ops[1..], s1, t1);
      assert AdvanceBy(sem, t, |ops|) == AdvanceBy(sem, t1, |ops| - 1);
    }
  }

  // Chains of blocks and the cache.

  /**
   * The cache invariant for one piece of code: it is made of the words now in memory, it counts as many
   * instructions as it has ops, and its last op links to nothing but the code of its own target.
   */
  ghost predicate Fresh<M>(sem: Semantics<M>, mem: M, codes: seq<Code>, code: Code) {
    && |code.ops| == code.size
    && code.start + 4 * code.size as int < 0x1_0000_0000_0000_0000
    && Straight(sem, mem, code.start, code.ops)
    && forall op | op in code.ops && op.Native? && op.link.Some? ::
         op.link.value < |codes| && codes[op.link.value].start == Add64(op.addr, Offset(op.id, op.inst))
  }

  ghost predicate FreshCache<M>(sem: Semantics<M>, mem: M, codes: seq<Code>) {
    forall code | code in codes :: Fresh(sem, mem, codes, code)
  }

  lemma FreshStays<M>(sem: Semantics<M>, mem: M, mem': M, codes: seq<Code>)
    requires FreshCache(sem, mem, codes) && SameText(sem, Text(codes), mem, mem')
    ensures FreshCache(sem, mem', codes)
  {
    forall code | code in codes
      ensures Fresh(sem, mem', codes, code)
    {
      assert Fresh(sem, mem, codes, code);
      forall i | 0 <= i < |code.ops|
        ensures Current(sem, mem', code.start + 4 * i, code.ops[i])
      {
        assert Current(sem, mem, code.start + 4 * i, code.ops[i]);
        InText(codes, code, i);
      }
    }
  }

  lemma InText(codes: seq<Code>, code: Code, i: nat)
    requires code in codes && i < |code.ops|
    ensures code.ops[i].addr in Text(codes)
  {
    var k: nat :| k < |codes| && codes[k] == code;
    assert codes[k].ops[i].addr in Text(codes);
  }

  /** One non-empty block, on all registers but 31, the flags, memory, the next address and the instruction count. */
  lemma BlockMatches<M>(sem: Semantics<M>, codes: seq<Code>, code: Code, s: State<M>, t: State<M>)
    requires code in codes && code.size > 0 && FreshCache(sem, s.mem, codes)
    requires CleanOps(sem, Text(codes), code.ops, Enter(code, s))
    requires Same(s, t) && t.cpu.pc == code.start && s.cpu.numInsts == t.cpu.numInsts
    ensures var (s', exit) := RunOps(sem, code.ops, Enter(code, s));
            var t' := AdvanceBy(sem, t, code.size);
            && Same(s', t') && s'.cpu.nextPC == t'.cpu.pc == t'.cpu.nextPC && s'.cpu.numInsts == t'.cpu.numInsts
            && FreshCache(sem, s'.mem, codes)
            && (exit.Jump? ==> exit.code < |codes| && codes[exit.code].start == s'.cpu.nextPC)
  {
    assert Fresh(sem, s.mem, codes, code);
    forall op | op in code.ops
      ensures op.addr in Text(codes)
    {
      var i :| 0 <= i < |code.ops| && code.ops[i] == op;
      InText(codes, code, i);
    }
    OpsMatch(sem, Text(codes), code.ops, Enter(code, s), t);
    AdvanceByCounts(sem, t, code.size);
    FreshStays(sem, s.mem, RunOps(sem, code.ops, Enter(code, s)).0.mem, codes);
    assert code.ops[code.size - 1] in code.ops;
  }

  /** The JIT state `s` as a block ends, and the interpreter state `t` at the same instruction boundary. */
  ghost predicate InStep<M>(s: State<M>, t: State<M>) {
    Same(s, t) && s.cpu.nextPC == t.cpu.pc == t.cpu.nextPC && s.cpu.numInsts == t.cpu.numInsts
  }

  /** A chain of blocks does what the interpreter does in the returned number of steps. */
  lemma {:induction false} CodeMatches<M>(sem: Semantics<M>, codes: seq<Code>, k: nat, s: State<M>, t: State<M>)
    returns (n: nat)
    requires k < |codes| && Stratified(codes) && FreshCache(sem, s.mem, codes)
    requires CleanCode(sem, codes, k, s)
    requires Same(s, t) && t.cpu.pc == codes[k].start && s.cpu.numInsts == t.cpu.numInsts
    requires codes[k].size == 0 ==> InStep(s, t)
    ensures InStep(RunCode(sem, codes, k, s), AdvanceBy(sem, t, n))
    ensures FreshCache(sem, RunCode(sem, codes, k, s).mem, codes)
    ensures n == 0 <==> codes[k].size == 0
    decreases k
  {
    var code := codes[k];
    n := code.size;
    if n == 0 {
      assert Fresh(sem, s.mem, codes, code);
    } else {
      BlockMatches(sem, codes, code, s, t);
      var (s1, exit) := RunOps(sem, code.ops, Enter(code, s));
      var t1 := AdvanceBy(sem, t, n);
      if exit.Jump? {
        assert LinksBelow(code.ops, k);
        var m := CodeMatches(sem, codes, exit.code, s1, t1);
        AdvanceByCompose(sem, t, n, m);
        n := n + m;
      }
    }
  }

  /** The block at `addr` ends below the top of the address space. */
  predicate Fits<M>(sem: Semantics<M>, mem: M, addr: Word64) {
    addr + 4 * BlockLength(sem, mem, addr, 0) as int < 0x1_0000_0000_0000_0000
  }

  lemma CompileIsFresh<M>(sem: Semantics<M>, mem: M, cache: Cache, start: Word64)
    requires ValidCache(cache)
    requires Fits(sem, mem, start)
    ensures Fresh(sem, mem, cache.codes, Compile(sem, mem, cache.blockMap, start))
  {
    BlockLengthFindsFirstBranch(sem, mem, start, 0);
    var ops := Compile(sem, mem, cache.blockMap, start).ops;
    forall i | 0 <= i < |ops|
      ensures Current(sem, mem, start + 4 * i, ops[i]) && (IsBranch(ops[i].inst) <==> i == |ops| - 1)
    {
      assert ops[i] == EmitAt(sem, mem, cache.blockMap, start, i);
    }
    forall op | op in ops && op.Native? && op.link.Some?
      ensures op.link.value < |cache.codes| && cache.codes[op.link.value].start == Add64(op.addr, Offset(op.id, op.inst))
    {
      var i: nat :| i < |ops| && ops[i] == op;
      assert op == EmitAt(sem, mem, cache.blockMap, start, i);
    }
  }

  lemma LookupKeepsFresh<M>(sem: Semantics<M>, mem: M, cache: Cache, addr: Word64)
    requires ValidCache(cache) && FreshCache(sem, mem, cache.codes)
    requires addr in cache.blockMap || Fits(sem, mem, addr)
    ensures FreshCache(sem, mem, Lookup(sem, mem, cache, addr).0.codes)
  {
    if addr !in cache.blockMap {
      CompileIsFresh(sem, mem, cache, addr);
    }
    var codes := Lookup(sem, mem, cache, addr).0.codes;
    forall code | code in codes
      ensures Fresh(sem, mem, codes, code)
    {
      assert Fresh(sem, mem, cache.codes, code);
    }
  }

  // Any run.

  /** The two engines hold the same state, except that the interpreter's register 31 is zero. */
  ghost predicate Agree<M>(s: State<M>, t: State<M>) {
    t == s.(cpu := s.cpu.(regs := s.cpu.regs.ClearZero()))
  }

  /**
   * What a caller has to know about one JIT step: a block compiled now ends below the top of the address space;
   * nothing executed stores into cached code; and a block without a branch is entered only when `nextPC` is not stale.
   */
  ghost predicate CleanStep<M>(sem: Semantics<M>, cache: Cache, s: State<M>)
    requires ValidCache(cache)
  {
    var (cache', k) := Lookup(sem, s.mem, cache, s.cpu.pc);
    && (s.cpu.pc in cache.blockMap || Fits(sem, s.mem, s.cpu.pc))
    && CleanCode(sem, cache'.codes, k, s)
    && (cache'.codes[k].size == 0 ==> s.cpu.nextPC == s.cpu.pc)
  }

  ghost predicate CleanRun<M>(sem: Semantics<M>, cache: Cache, s: State<M>, n: nat)
    requires ValidCache(cache)
    decreases n
  {
    n > 0 ==>
      && CleanRun(sem, cache, s, n - 1)
      && var (cache', s') := JitRun(sem, cache, s, n - 1);
         CleanStep(sem, cache', s')
  }

  /** One `jit::step`, hit or miss, is the returned number of `interpreter::step`s, none only for an empty block. */
  lemma StepMatches<M>(sem: Semantics<M>, cache: Cache, s: State<M>, t: State<M>) returns (n: nat)
    requires ValidCache(cache) && FreshCache(sem, s.mem, cache.codes)
    requires Agree(s, t) && CleanStep(sem, cache, s)
    ensures var (cache', s') := JitStep(sem, cache, s);
            Agree(s', AdvanceBy(sem, t, n)) && FreshCache(sem, s'.mem, cache'.codes) && s'.cpu.pc == s'.cpu.nextPC
    ensures var (cache', k) := Lookup(sem, s.mem, cache, s.cpu.pc);
            n == 0 <==> cache'.codes[k].size == 0
  {
    var (cache', k) := Lookup(sem, s.mem, cache, s.cpu.pc);
    LookupKeepsFresh(sem, s.mem, cache, s.cpu.pc);
    n := CodeMatches(sem, cache'.codes, k, s, t);
  }

  /** After `n` JIT steps and `m` interpreter steps the states agree and every cached block is fresh. */
  ghost predicate RunAgrees<M>(sem: Semantics<M>, cache: Cache, s: State<M>, t: State<M>, n: nat, m: nat)
    requires ValidCache(cache)
  {
    var (cache', s') := JitRun(sem, cache, s, n);
    Agree(s', AdvanceBy(sem, t, m)) && FreshCache(sem, s'.mem, cache'.codes)
  }

  lemma NoSteps<M>(sem: Semantics<M>, cache: Cache, s: State<M>, t: State<M>)
    requires ValidCache(cache) && FreshCache(sem, s.mem, cache.codes) && Agree(s, t)
    ensures RunAgrees(sem, cache, s, t, 0, 0)
  {
  }

  lemma ExtendRun<M>(sem: Semantics<M>, cache: Cache, s: State<M>, t: State<M>, n: nat, m: nat) returns (m': nat)
    requires ValidCache(cache) && CleanRun(sem, cache, s, n + 1)
    requires RunAgrees(sem, cache, s, t, n, m)
    ensures RunAgrees(sem, cache, s, t, n + 1, m + m')
  {
    var (cache', s') := JitRun(sem, cache, s, n);
    m' := StepMatches(sem, cache', s', AdvanceBy(sem, t, m));
    AdvanceByCompose(sem, t, m, m');
  }

  /** Any run of the JIT through its cache ends where some number of interpreter steps ends. */
  lemma {:induction false} RunMatches<M>(sem: Semantics<M>, cache: Cache, s: State<M>, t: State<M>, n: nat)
    returns (m: nat)
    requires ValidCache(cache) && FreshCache(sem, s.mem, cache.codes)
    requires Agree(s, t) && CleanRun(sem, cache, s, n)
    ensures RunAgrees(sem, cache, s, t, n, m)
    decreases n
  {
    hide JitRun, CleanStep, FreshCache;
    m := 0;
    if n == 0 {
      NoSteps(sem, cache, s, t);
    } else {
      m := RunMatches(sem, cache, s, t, n - 1);
      var m' := ExtendRun(sem, cache, s, t, n - 1, m);
      m := m + m';
    }
  }

  /** Fresh code is what compiling the same address from current memory would produce, links aside. */
  lemma FreshIsCompile<M>(sem: Semantics<M>, mem: M, codes: seq<Code>, code: Code, blockMap: map<Word64, nat>)
    requires Fresh(sem, mem, codes, code) && code.size > 0
    ensures var now := Compile(sem, mem, blockMap, code.start);
            && now.size == code.size == |now.ops|
            && forall i | 0 <= i < code.size ::
                 now.ops[i] == if code.ops[i].Native? then code.ops[i].(link := now.ops[i].link) else code.ops[i]
  {
    var start, n := code.start, code.size;
    forall i: nat | i < n
      ensures WordAt(sem, mem, start, i) == code.ops[i].inst && code.ops[i].addr == Add64(start, 4 * i)
    {
      assert Current(sem, mem, start + 4 * i, code.ops[i]);
    }
    BlockLengthFindsFirstBranch(sem, mem, start, 0);
    var now := Compile(sem, mem, blockMap, start);
    assert IsBranch(WordAt(sem, mem, start, n - 1));
    assert now.size == n;
    forall i | 0 <= i < n
      ensures now.ops[i] == if code.ops[i].Native? then code.ops[i].(link := now.ops[i].link) else code.ops[i]
    {
      assert now.ops[i] == EmitAt(sem, mem, blockMap, start, i);
      assert Current(sem, mem, start + 4 * i, code.ops[i]);
    }
  }

  // Where the two engines part ways.

  /** From an empty cache, BLR X30 returns to its own link under the JIT and to the old X30 under the interpreter. */
  lemma BlrX30Diverges<M>(sem: Semantics<M>, s: State<M>)
    requires sem.fetch(s.mem, s.cpu.pc) == 0xD63F_03C0 && s.cpu.pc < 0x1_0000_0000_0000_0000 - 4
    ensures JitStep(sem, Cache(map[], []), s).1.cpu.pc == s.cpu.pc + 4
    ensures Advance(sem, s).cpu.pc == s.cpu.regs.gpr[30]
  {
    assert DecodeBranch(0xD63F_03C0) == Some(BLR) && Rn(0xD63F_03C0) == 30;
    var op := Native(s.cpu.pc, 0xD63F_03C0, BLR, None);
    assert WordAt(sem, s.mem, s.cpu.pc, 0) == 0xD63F_03C0;
    assert BlockLength(sem, s.mem, s.cpu.pc, 0) == 1;
    var code := Compile(sem, s.mem, map[], s.cpu.pc);
    assert code.ops == [EmitAt(sem, s.mem, map[], s.cpu.pc, 0)] == [op];
    assert RunOps(sem, [op], Enter(code, s)) == RunOp(sem, op, Enter(code, s));
  }

  /**
   * With no branch in the next 3000 words the JIT never gets anywhere: each step executes nothing. It stays where
   * it is exactly when `nextPC` equals `PC`, and otherwise jumps to the stale `nextPC`.
   */
  lemma EmptyBlockStep<M>(sem: Semantics<M>, cache: Cache, s: State<M>)
    requires ValidCache(cache) && s.cpu.pc !in cache.blockMap
    requires forall i: nat | i < 3000 :: !IsBranch(WordAt(sem, s.mem, s.cpu.pc, i))
    ensures JitStep(sem, cache, s).1 == s.(cpu := s.cpu.(pc := s.cpu.nextPC))
    ensures JitStep(sem, cache, s).1 == s <==> s.cpu.nextPC == s.cpu.pc
  {
    BlockLengthFindsFirstBranch(sem, s.mem, s.cpu.pc, 0);
    var (cache', k) := Lookup(sem, s.mem, cache, s.cpu.pc);
    assert cache'.codes[k] == Compile(sem, s.mem, cache.blockMap, s.cpu.pc);
    assert cache'.codes[k].ops == [];
  }

  lemma {:induction false} EmptyBlockStaysPut<M>(sem: Semantics<M>, cache: Cache, s: State<M>, n: nat)
    requires ValidCache(cache) && s.cpu.pc in cache.blockMap && s.cpu.nextPC == s.cpu.pc
    requires var code := cache.codes[cache.blockMap[s.cpu.pc]]; code.size == 0 && code.ops == []
    ensures JitRun(sem, cache, s, n) == (cache, s)
    decreases n
  {
    if n > 0 {
      EmptyBlockStaysPut(sem, cache, s, n - 1);
      assert Enter(cache.codes[cache.blockMap[s.cpu.pc]], s) == s;
    }
  }
}
