/**
 * The JIT: block discovery, code generation, block linking, the block cache and block execution.
 * Host code is an index into `codes`, the list of everything generated so far. A branch back into the code
 * cache is a jump to such an index.
 */
module Jit {
  import opened Words
  import opened Bits
  import opened Cores
  import opened Fields
  import opened Conditions
  import opened Branches
  import opened Interpreter

  const MAX_FETCHES: nat := 3000

  /** A number of words that one scan can cover. */
  type Length = n: nat | n <= 3000

  /** The emitted code of one instruction, with the address and bits burnt in at generation time. */
  datatype Op =
    | Fallback(addr: Word64, inst: Word32)
    | Native(addr: Word64, inst: Word32, id: BranchId, link: Option<nat>)

  /** One generated block. `size` is the constant added to `numInsts` on entry. */
  datatype Code = Code(start: Word64, size: Length, ops: seq<Op>)

  /** How control leaves an op: to the op below it, to `gBlockFinale`, or to another block's code. */
  datatype Exit = Next | Finale | Jump(code: nat)

  datatype Cache = Cache(blockMap: map<Word64, nat>, codes: seq<Code>)

  // Block discovery.

  function WordAt<M>(sem: Semantics<M>, mem: M, start: Word64, i: Length): Word32 {
    sem.fetch(mem, Add64(start, 4 * i))
  }

  /** The number of words in the block at `start`, having seen `i` words that are not branches. */
  function BlockLength<M>(sem: Semantics<M>, mem: M, start: Word64, i: Length): (n: Length)
    ensures n == 0 || i < n
    decreases MAX_FETCHES - i, start
  {
    if i == MAX_FETCHES then 0
    else if IsBranch(WordAt(sem, mem, start, i)) then i + 1
    else BlockLength(sem, mem, start, i + 1)
  }

  // Code generation.

  predicate HasGenerator(id: BranchId) {
    id in {B_cond, BR, BLR, RET, B, BL}
  }

  /** `insertEndOfBlock` looks the target up in the cache as it is while the block is generated. */
  function LinkOf(blockMap: map<Word64, nat>, addr: Word64, inst: Word32, id: BranchId): Option<nat> {
    var target := Add64(addr, Offset(id, inst));
    if id in {B_cond, B, BL} && target in blockMap then Some(blockMap[target]) else None
  }

  function Emit(blockMap: map<Word64, nat>, addr: Word64, inst: Word32): Op {
    match DecodeBranch(inst)
    case Some(id) =>
      if HasGenerator(id) then Native(addr, inst, id, LinkOf(blockMap, addr, inst, id)) else Fallback(addr, inst)
    case None => Fallback(addr, inst)
  }

  function EmitAt<M>(sem: Semantics<M>, mem: M, blockMap: map<Word64, nat>, start: Word64, i: Length): Op {
    Emit(blockMap, Add64(start, 4 * i), WordAt(sem, mem, start, i))
  }

  function EmitFirst<M>(sem: Semantics<M>, mem: M, blockMap: map<Word64, nat>, start: Word64, n: Length): (ops: seq<Op>)
    ensures |ops| == n
    ensures forall i | 0 <= i < n :: ops[i] == EmitAt(sem, mem, blockMap, start, i)
  {
    if n == 0 then [] else EmitFirst(sem, mem, blockMap, start, n - 1) + [EmitAt(sem, mem, blockMap, start, n - 1)]
  }

  /** A fresh compile. The loop over addresses runs only when the block does not wrap around the address space. */
  function Compile<M>(sem: Semantics<M>, mem: M, blockMap: map<Word64, nat>, start: Word64): Code {
    var n := BlockLength(sem, mem, start, 0);
    Code(start, n,
         if start + 4 * n < 0x1_0000_0000_0000_0000
         then EmitFirst(sem, mem, blockMap, start, n)
         else [])
  }

  // Execution of generated code.

  /** The flag test of `insertTestCondition`, which computes some conditions differently from `testCondition`. */
  predicate NativeCondition(f: Flags, cond: Condition) {
    match cond
    case EQ => f.z
    case NE => !f.z
    case CS => f.c
    case CC => !f.c
    case MI => f.n
    case PL => !f.n
    case VS => f.v
    case VC => !f.v
    case HI => !f.z && f.c
    case LS => !f.c || f.z
    case GE => f.v == f.n
    case LT => !(f.v == f.n)
    case GT => !(!(f.v == f.n) || f.z)
    case LE => !(f.v == f.n) || f.z
    case AL => true
    case A2 => true
  }

  function EndOfBlock(link: Option<nat>): Exit {
    match link
    case Some(k) => Jump(k)
    case None => Finale
  }

  /** The native branch generators. `PC` is left stale: only `nextPC` is written. */
  function RunNative(addr: Word64, inst: Word32, id: BranchId, link: Option<nat>, cpu: Cpu): (r: (Cpu, Exit))
    ensures r.1.Jump? ==> link == Some(r.1.code)
  {
    var target := Add64(addr, Offset(id, inst));
    match id
    case B_cond =>
      if NativeCondition(cpu.regs.flags, Cond(inst)) then (cpu.(nextPC := target), EndOfBlock(link))
      else (cpu.(nextPC := Add64(addr, 4)), Next)
    case BLR =>
      var linked := cpu.Set(30, Add64(addr, 4));
      (linked.(nextPC := linked.regs.gpr[Rn(inst)]), Finale)
    case B => (cpu.(nextPC := target), EndOfBlock(link))
    case BL => (cpu.Set(30, Add64(addr, 4)).(nextPC := target), EndOfBlock(link))
    case _ => (cpu.(nextPC := cpu.regs.gpr[Rn(inst)]), Finale)
  }

  /** One op: register 31 is zeroed first, then either the handler is called or the native branch runs. */
  function RunOp<M>(sem: Semantics<M>, op: Op, s: State<M>): (r: (State<M>, Exit))
    ensures r.1.Jump? ==> op.Native? && op.link == Some(r.1.code)
  {
    var cpu := s.cpu.(regs := s.cpu.regs.ClearZero());
    match op
    case Fallback(addr, inst) =>
      (Execute(sem, inst, s.(cpu := cpu.(pc := addr, nextPC := Add64(addr, 4)))), Next)
    case Native(addr, inst, id, link) =>
      var (cpu', exit) := RunNative(addr, inst, id, link, cpu);
      (s.(cpu := cpu'), exit)
  }

  ghost predicate LinksBelow(ops: seq<Op>, k: nat) {
    forall op | op in ops && op.Native? && op.link.Some? :: op.link.value < k
  }

  function RunOps<M>(sem: Semantics<M>, ops: seq<Op>, s: State<M>): (r: (State<M>, Exit))
    ensures r.1.Jump? ==> forall k: nat :: LinksBelow(ops, k) ==> r.1.code < k
  {
    if ops == [] then (s, Next)
    else
      var (s', exit) := RunOp(sem, ops[0], s);
      if exit.Next? then
        assert forall k: nat :: LinksBelow(ops, k) ==> LinksBelow(ops[1..], k);
        RunOps(sem, ops[1..], s')
      else (s', exit)
  }

  /** Links only point to code generated earlier, so a chain of blocks always comes to an end. */
  ghost predicate Stratified(codes: seq<Code>) {
    forall k | 0 <= k < |codes| :: LinksBelow(codes[k].ops, k)
  }

  function Enter<M>(code: Code, s: State<M>): State<M> {
    s.(cpu := s.cpu.(numInsts := Add64(s.cpu.numInsts, code.size)))
  }

  /** `executeCode`: the block at index `k` and every block it is chained into. */
  function RunCode<M>(sem: Semantics<M>, codes: seq<Code>, k: nat, s: State<M>): State<M>
    requires k < |codes| && Stratified(codes)
    decreases k
  {
    var (s', exit) := RunOps(sem, codes[k].ops, Enter(codes[k], s));
    match exit
    case Jump(j) => assert LinksBelow(codes[k].ops, k); RunCode(sem, codes, j, s')
    case _ => s'
  }

  // The cache.

  ghost predicate ValidCache(cache: Cache) {
    && Stratified(cache.codes)
    && forall a | a in cache.blockMap ::
         cache.blockMap[a] < |cache.codes| && cache.codes[cache.blockMap[a]].start == a
  }

  /** `get`: the cache and the code index for `addr`, compiling on a miss. */
  function Lookup<M>(sem: Semantics<M>, mem: M, cache: Cache, addr: Word64): (r: (Cache, nat))
    requires ValidCache(cache)
    ensures ValidCache(r.0) && r.1 < |r.0.codes| && r.0.codes[r.1].start == addr
  {
    if addr in cache.blockMap then (cache, cache.blockMap[addr])
    else
      var k := |cache.codes|;
      (Cache(cache.blockMap[addr := k], cache.codes + [Compile(sem, mem, cache.blockMap, addr)]), k)
  }

  /** A block is compiled once: whatever happens to memory, looking an address up again finds the same code. */
  lemma CompiledOnce<M>(sem: Semantics<M>, mem: M, mem': M, cache: Cache, addr: Word64, other: Word64)
    requires ValidCache(cache)
    ensures var (cache', k) := Lookup(sem, mem, cache, addr);
            && Lookup(sem, mem', cache', addr) == (cache', k)
            && (other in cache.blockMap ==> Lookup(sem, mem', cache', other) == (cache', cache.blockMap[other]))
            && cache.codes <= cache'.codes && |cache'.codes| <= |cache.codes| + 1
  {
  }

  /** A taken B, BL or B.cond whose target was cached when it was compiled goes straight on to that code. */
  lemma LinksToCachedTarget<M>(sem: Semantics<M>, blockMap: map<Word64, nat>, addr: Word64, inst: Word32, s: State<M>)
    requires DecodeBranch(inst).Some? && DecodeBranch(inst).value in {B, BL, B_cond}
    requires DecodeBranch(inst) == Some(B_cond) ==> NativeCondition(s.cpu.regs.flags, Cond(inst))
    ensures var (s', exit) := RunOp(sem, Emit(blockMap, addr, inst), s);
            exit == if s'.cpu.nextPC in blockMap then Jump(blockMap[s'.cpu.nextPC]) else Finale
  {
  }

  /** `jit::step`. */
  function JitStep<M>(sem: Semantics<M>, cache: Cache, s: State<M>): (r: (Cache, State<M>))
    requires ValidCache(cache)
    ensures ValidCache(r.0)
  {
    var (cache', k) := Lookup(sem, s.mem, cache, s.cpu.pc);
    var s' := RunCode(sem, cache'.codes, k, s);
    (cache', s'.(cpu := s'.cpu.(pc := s'.cpu.nextPC)))
  }

  function JitRun<M>(sem: Semantics<M>, cache: Cache, s: State<M>, n: nat): (r: (Cache, State<M>))
    requires ValidCache(cache)
    ensures ValidCache(r.0)
    decreases n
  {
    if n == 0 then (cache, s)
    else
      var (cache', s') := JitRun(sem, cache, s, n - 1);
      JitStep(sem, cache', s')
  }

  class JitBlock {
    const start: Word64
    var end: Word64

    constructor (start: Word64)
      ensures this.start == start && end == start
    {
      this.start, end := start, start;
    }
  }

  class Engine<M> {
    const sem: Semantics<M>
    var blockMap: map<Word64, nat>
    var codes: seq<Code>

    constructor (sem: Semantics<M>)
      ensures this.sem == sem && View() == Cache(map[], []) && ValidCache(View())
    {
      this.sem, blockMap, codes := sem, map[], [];
    }

    function View(): Cache
      reads this
    {
      Cache(blockMap, codes)
    }

    /** Scans forward to the first branch, looking at no more than 3000 words. */
    method FindBlockEnd(mem: M, block: JitBlock) returns (ghost fetches: nat)
      requires block.end == block.start
      modifies block
      ensures var n := BlockLength(sem, mem, block.start, 0);
              && block.end == Add64(block.start, 4 * n)
              && fetches == if n == 0 then 3000 else n
    {
      var currentAddr := block.start;
      fetches := 0;
      var more := true;
      while more
        invariant fetches <= MAX_FETCHES
        invariant currentAddr == Add64(block.start, 4 * fetches)
        invariant more ==> fetches < MAX_FETCHES && block.end == block.start
        invariant more ==> BlockLength(sem, mem, block.start, 0) == BlockLength(sem, mem, block.start, fetches)
        invariant !more ==> var n := BlockLength(sem, mem, block.start, 0);
                            && block.end == Add64(block.start, 4 * n)
                            && fetches == if n == 0 then 3000 else n
        decreases more, MAX_FETCHES - fetches
      {
        var bits := sem.fetch(mem, currentAddr);
        var nextAddr := Add64(currentAddr, 4);
        if IsBranch(bits) {
          block.end := nextAddr;
        }
        currentAddr := nextAddr;
        fetches := fetches + 1;
        more := block.end == block.start && Sub64(currentAddr, block.start) / 4 < MAX_FETCHES;
      }
    }

    method Generate(mem: M, block: JitBlock) returns (code: Code)
      requires block.end == Add64(block.start, 4 * BlockLength(sem, mem, block.start, 0))
      ensures code == Compile(sem, mem, blockMap, block.start)
    {
      ghost var n: int := BlockLength(sem, mem, block.start, 0);
      ghost var fits := block.start + 4 * n < 0x1_0000_0000_0000_0000;
      var size := Sub64(block.end, block.start) / 4;
      var addr: int := block.start;
      var ops := [];
      while addr < block.end
        invariant addr == block.start + 4 * |ops|
        invariant if fits then |ops| <= n else ops == []
        invariant ops == EmitFirst(sem, mem, blockMap, block.start, |ops|)
      {
        var bits := sem.fetch(mem, addr);
        ops := ops + [Emit(blockMap, addr, bits)];
        addr := addr + 4;
      }
      code := Code(block.start, size, ops);
    }

    method Get(mem: M, addr: Word64) returns (func: nat)
      requires ValidCache(View())
      modifies this
      ensures (View(), func) == Lookup(sem, mem, old(View()), addr)
    {
      if addr in blockMap {
        func := blockMap[addr];
      } else {
        var block := new JitBlock(addr);
        var _ := FindBlockEnd(mem, block);
        var code := Generate(mem, block);
        func := |codes|;
        codes := codes + [code];
        blockMap := blockMap[addr := func];
      }
    }

    method ExecuteNative(core: Core, addr: Word64, inst: Word32, id: BranchId, link: Option<nat>) returns (exit: Exit)
      requires core.Valid()
      modifies core`nextPC, core.gpr
      ensures (core.View(), exit) == RunNative(addr, inst, id, link, old(core.View()))
    {
      var target := Add64(addr, Offset(id, inst));
      exit := Finale;
      match id
      case B_cond =>
        if NativeCondition(core.flags, Cond(inst)) {
          core.nextPC := target;
          exit := EndOfBlock(link);
        } else {
          core.nextPC := Add64(addr, 4);
          exit := Next;
        }
      case BLR =>
        core.gpr[30] := Add64(addr, 4);
        core.nextPC := core.gpr[Rn(inst)];
      case B =>
        core.nextPC := target;
        exit := EndOfBlock(link);
      case BL =>
        core.gpr[30] := Add64(addr, 4);
        core.nextPC := target;
        exit := EndOfBlock(link);
      case _ =>
        core.nextPC := core.gpr[Rn(inst)];
    }

    method ExecuteOps(m: Machine<M>, ops: seq<Op>) returns (exit: Exit)
      requires m.Valid()
      modifies m, m.core, m.core.gpr
      ensures m.Valid() && m.core.gpr == old(m.core.gpr)
      ensures (m.View(), exit) == RunOps(sem, ops, old(m.View()))
    {
      var i := 0;
      exit := Next;
      while exit.Next? && i < |ops|
        invariant 0 <= i <= |ops|
        invariant m.Valid() && m.core.gpr == old(m.core.gpr)
        invariant RunOps(sem, ops, old(m.View())) ==
                  if exit.Next? then RunOps(sem, ops[i..], m.View()) else (m.View(), exit)
        decreases |ops| - i
      {
        ghost var before := m.View();
        var op := ops[i];
        m.core.gpr[31] := 0;
        match op {
          case Fallback(addr, inst) =>
            m.core.pc := addr;
            m.core.nextPC := Add64(addr, 4);
            m.Dispatch(sem, inst);
          case Native(addr, inst, id, link) =>
            exit := ExecuteNative(m.core, addr, inst, id, link);
        }
        assert (m.View(), exit) == RunOp(sem, ops[i..][0], before);
        assert ops[i..][1..] == ops[i + 1..];
        i := i + 1;
      }
    }

    method ExecuteCode(m: Machine<M>, func: nat)
      requires ValidCache(View()) && func < |codes|
      requires m.Valid()
      modifies m, m.core, m.core.gpr
      ensures m.Valid() && m.core.gpr == old(m.core.gpr)
      ensures m.View() == RunCode(sem, codes, func, old(m.View()))
    {
      var k: nat := func;
      var running := true;
      while running
        invariant k < |codes|
        invariant m.Valid() && m.core.gpr == old(m.core.gpr)
        invariant RunCode(sem, codes, func, old(m.View())) ==
                  if running then RunCode(sem, codes, k, m.View()) else m.View()
        decreases running, k
      {
        m.core.numInsts := Add64(m.core.numInsts, codes[k].size);
        var exit := ExecuteOps(m, codes[k].ops);
        if exit.Jump? {
          assert LinksBelow(codes[k].ops, k);
          k := exit.code;
        } else {
          running := false;
        }
      }
    }

    method Step(m: Machine<M>)
      requires ValidCache(View()) && m.Valid()
      modifies this, m, m.core, m.core.gpr
      ensures m.Valid() && m.core.gpr == old(m.core.gpr)
      ensures (View(), m.View()) == JitStep(sem, old(View()), old(m.View()))
    {
      var func := Get(m.mem, m.core.pc);
      ExecuteCode(m, func);
      m.core.pc := m.core.nextPC;
    }
  }
}
