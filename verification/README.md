# A verified model of the emulator core

The emulator runs AArch64 guest code on several cores, either with an interpreter or with a just-in-time compiler, over
paged guest memory. This project models the parts of it where a mistake would be hard to see, and proves:

* **Execution** (`Cores`, `Fields`, `Conditions`, `Branches`, `Interpreter`, `Jit`, `JitCorrect`). Block discovery, code
  generation, chaining of blocks, the block cache and block execution are methods that mutate the cache and the core,
  proved against functions; the functions are then proved to agree with repeated interpreter steps, for any run, any mix
  of cache hits and misses, and any memory. All that is assumed of each step is `CleanStep`: no executed store changes
  a cached word, no block wraps around the top of the address space, an empty block is entered with `nextPC` equal to
  `PC`, and no BLR X30 is executed with an X30 other than its return address.
* **Memory** (`LittleEndian`, `GuestPages`, `GuestBytes`, `HostMemory`, `Memory`). The page allocator, whose free list is
  threaded through the free pages themselves, the page table, translation, the region copies and the atomic store work
  in place on one host byte array, and refine a map from guest page number to 4096 bytes.
* **Concurrency** (`Interrupts`, `Exclusives`, `UpdateLoop`, `SpinLock`). Interrupt delivery and the load/store
  exclusive handlers are transition systems over any number of threads and cores, with a log or an account of
  successes as history.
* **Integer instructions** (`Words`, `Bits`, `Shifts`, `AddSub`, `DataProcessing`, `Limbs`, `Multiply`, `Divide`,
  `ReverseBits`, `Bitfields`). The handlers are methods on the core, proved against integer arithmetic or a bit-by-bit
  definition. Words are bounded integers and every wrap-around is written out.

## Where the code does not do what it is for

Each of these is kept as the code has it, with a lemma that shows it and, where there is one, the exact condition.

* The native BLR writes X30 before it reads its target, so BLR X30 returns to its own link (`NativeMatchesHandler`,
  `BlrX30Diverges`).
* With no branch in the next 3000 words the JIT compiles an empty block and makes no progress, or jumps to a stale
  `nextPC` (`EmptyBlockStep`, `EmptyBlockStaysPut`).
* `allocatePage` out of memory and `freePage` of an unmapped page return with the allocator lock held (`Allocate` and
  `Release` set `locked`).
* The value that a load exclusive remembers belongs to the core and survives a context switch
  (switch-emu/src/hle/kernel/thread.cpp:101-149). Two guest threads on one core can therefore lose an update or both
  hold a lock (`SharedCoreLosesAnUpdate`, `SharedCoreBreaksTheLock`). The positive theorems hold in every run in which
  no STXR executes after another thread's load exclusive on the same core, hence always with one guest thread per core.
* The 32-bit pair store exclusive does not mask its first register (`PairDataExact`).
* The 32-bit shifted-register forms shift the whole register (`UnmaskedShiftExact`).
* SBFM looks for the sign one position too low, and BFM in its extract form clears too much (`SignedMoveExact`,
  `InsertExact`).

## Model

| member | source | states |
|---|---|---|
| Fields.FieldsOfParts | libcpu/inc/instruction.h:21-56 | taking a word apart gives the fields it was put together from |
| Branches.DecodeMeaning | libcpu/src/decode/decode.cpp:13-135 | the words of each branch with an immediate, by their fixed bits |
| Branches.DecodeRegMeaning | libcpu/src/decode/decode.cpp:13-135 | the words of BR, BLR, RET, ERET and DRPS, likewise |
| Branches.IsBranchMeaning | libcpu/src/meta/meta.cpp:5-20 | exactly which words end a block |
| Branches.CondBranch | libcpu/src/interpreter/Branch.cpp:13-20 | the handler's whole effect on the core is `Branch` |
| Branches.UncondBranchReg | libcpu/src/interpreter/Branch.cpp:22-30 | the target is read before X30 is written |
| Branches.UncondBranchImm | libcpu/src/interpreter/Branch.cpp:40-49 | as above for the PC-relative forms |
| Branches.CompareBranch | libcpu/src/interpreter/Branch.cpp:59-76 | compare and branch, at both widths and polarities |
| Branches.TestBitBranch | libcpu/src/interpreter/Branch.cpp:94-109 | TBZ and TBNZ on any of the 64 bits |
| Branches.ExecuteBranch | libcpu/src/interpreter/Branch.cpp:119-134 | the handler table; nothing but `nextPC` and the registers changes |
| Branches.ImmediateMeaning | libcpu/src/interpreter/Branch.cpp:40-49 | B and BL go to PC + 4s modulo 2^64, where the low 26 bits encode s in two's complement; BL links |
| Branches.CondMeaning | libcpu/src/interpreter/Branch.cpp:13-20 | B.cond likewise with 19 bits, iff the condition holds |
| Branches.CompareMeaning | libcpu/src/interpreter/Branch.cpp:59-76 | CBZ branches iff the operand at its width is zero, CBNZ iff not, and where to |
| Branches.TestBitMeaning | libcpu/src/interpreter/Branch.cpp:94-109 | TBZ branches iff the selected bit is clear, TBNZ iff set, and where to |
| Branches.RegisterMeaning | libcpu/src/interpreter/Branch.cpp:22-30 | BR, RET and BLR go to the old value of the register |
| Interpreter.Machine.Dispatch | libcpu/src/interpreter/interpreter.cpp:52 | a fetched word acts as its handler |
| Interpreter.Machine.Step | libcpu/src/interpreter/interpreter.cpp:45-63 | one step is `Advance`: register 31 cleared last, PC moved, one instruction counted |
| Interpreter.AdvanceMeaning | libcpu/src/interpreter/interpreter.cpp:45-63 | register 31 is zero after a step, the count goes up by one, a non-branch moves PC on by 4 |
| Interpreter.AdvanceBranches | libcpu/src/interpreter/interpreter.cpp:45-63 | a step on B or BL, forward or backward, from the bits of the word |
| Interpreter.AdvanceByCompose | libcpu/src/interpreter/interpreter.cpp:45-63 | runs of steps compose |
| Jit.JitBlock.constructor | libcpu/src/jit/jit.h:440-447 | a new block is empty: `end == start` |
| Jit.Engine.FindBlockEnd | libcpu/src/jit/jit.cpp:202-221 | ends after at most 3000 fetches with the block `BlockLength` describes; the exact number of fetches |
| JitCorrect.BlockLengthFindsFirstBranch | libcpu/src/jit/jit.cpp:202-221 | the block ends just after the first branch and holds no earlier one; it is empty iff 3000 words hold none |
| Jit.Engine.Generate | libcpu/src/jit/jit.cpp:119-200 | produces exactly a fresh compile, also for the block that wraps around |
| JitCorrect.NativeConditionAgrees | libcpu/src/jit/jit.h:347-431 | the native condition test is `testCondition` for all flags and codes |
| Jit.Engine.ExecuteNative | libcpu/src/jit/jitBranch.cpp:28-88 | native branch code and where control goes next |
| Jit.LinksToCachedTarget | libcpu/src/jit/jitBranch.cpp:12-26 | a taken direct branch continues in the code cached for its target when it was compiled, if there was any |
| JitCorrect.NativeMatchesHandler | libcpu/src/jit/jitBranch.cpp:50-60 | native branch equals its handler iff it is not BLR X30 with a different X30 |
| Jit.Engine.Get | libcpu/src/jit/jit.cpp:223-243 | hit returns the cached code, miss compiles and caches; the cache stays valid |
| Jit.CompiledOnce | libcpu/src/jit/jit.cpp:223-243 | an address looked up again finds the same code whatever happened to memory, and no other entry changes |
| Jit.Engine.ExecuteOps | libcpu/src/jit/jit.cpp:140-191 | the loop over the emitted code of one block |
| Jit.Engine.ExecuteCode | libcpu/src/jit/jit.cpp:253-255 | a chain of blocks, which always ends because links point to older code |
| Jit.Engine.Step | libcpu/src/jit/jit.cpp:245-251 | one JIT step on cache and machine |
| JitCorrect.OpMatches | libcpu/src/jit/jit.cpp:32-51 | one emitted instruction against one interpreter step, counting aside |
| JitCorrect.IgnoresRegister31 | libcpu/src/jit/jit.cpp:156 | an emitted instruction does the same whatever register 31 held |
| JitCorrect.AdvanceByCounts | libcpu/src/interpreter/interpreter.cpp:62 | n interpreter steps count n instructions modulo 2^64 |
| JitCorrect.OpsMatch | libcpu/src/jit/jit.cpp:140-187 | a straight run of n emitted instructions against n interpreter steps |
| JitCorrect.BlockMatches | libcpu/src/jit/jit.cpp:133-191 | a block of n words equals n interpreter steps on registers but 31, flags, memory, PC and `numInsts` |
| JitCorrect.CodeMatches | libcpu/src/jit/jitBranch.cpp:12-26 | the same for a chain of blocks of any length |
| JitCorrect.CompileIsFresh | libcpu/src/jit/jit.cpp:119-200 | compiled code is made of the words in memory and its links lead to the code of their targets |
| JitCorrect.LookupKeepsFresh | libcpu/src/jit/jit.cpp:223-243 | a lookup keeps every cached block fresh |
| JitCorrect.FreshStays | libcpu/src/jit/jit.cpp:223-243 | blocks stay fresh while the words they were made of do |
| JitCorrect.FreshIsCompile | libcpu/src/jit/jit.cpp:223-243 | a fresh non-empty block equals a fresh compile of current memory, links aside |
| JitCorrect.StepMatches | libcpu/src/jit/jit.cpp:245-251 | one JIT step is some number of interpreter steps, zero iff the block is empty |
| JitCorrect.RunMatches | libcpu/src/jit/jit.cpp:223-251 | any run of the JIT ends in a state the interpreter reaches too, equal but for register 31, with a fresh cache |
| JitCorrect.BlrX30Diverges | libcpu/src/jit/jitBranch.cpp:50-60 | the concrete word on which the two engines part |
| JitCorrect.EmptyBlockStep | libcpu/src/jit/jit.cpp:202-251 | a step on an empty block only sets PC to `nextPC`, which is no move iff they are equal |
| JitCorrect.EmptyBlockStaysPut | libcpu/src/jit/jit.cpp:245-251 | and then no number of steps gets anywhere |
| LittleEndian.DecodeEncode | libcpu/inc/mem.h:83-90 | a scalar stored as bytes reads back |
| LittleEndian.DecodeConcat | libcpu/inc/mem.h:60-69 | a scalar is made of the scalars in its parts |
| LittleEndian.DecodeSingle | libcpu/inc/mem.h:60-69 | a single byte is its own value |
| GuestPages.AllocateKeepsPartition | libcpu/src/mem.cpp:86-112 | mapped and free host pages still partition host memory, none shared |
| GuestPages.ReleaseKeepsPartition | libcpu/src/mem.cpp:114-132 | likewise after a release |
| GuestPages.InitialPartition | libcpu/src/mem.cpp:60-66 | likewise at the start |
| GuestPages.RunKeepsPartition | libcpu/src/mem.cpp:86-144 | likewise after any sequence of allocate, free, protect and write |
| GuestPages.PagesAreConserved | libcpu/src/mem.cpp:86-132 | mapped plus free pages is the number given to `init` |
| GuestPages.OthersUntouched | libcpu/src/mem.cpp:86-144 | no operation changes the frame, contents or permission of another guest page |
| GuestPages.ApplyMeaning | libcpu/src/mem.cpp:86-144 | what each operation of a run does to a mapped page |
| GuestPages.AllocateMeaning | libcpu/src/mem.cpp:86-112 | success iff the number is below 2^26 and the page is mapped or one is free; new pages zero in every byte and without permission, mapped ones unchanged, failure maps nothing and sets the lock |
| GuestPages.ReallocatedPageIsZero | libcpu/src/mem.cpp:86-132 | free then allocate gives the same host page, zero again |
| GuestPages.ProtectMeaning | libcpu/src/mem.cpp:134-144 | the permission given is the permission set, for that page only |
| GuestPages.ProtectRegionMeaning | libcpu/src/mem.cpp:161-165 | likewise for exactly the mapped pages of the region |
| GuestPages.AllocateRegionMeaning | libcpu/src/mem.cpp:146-153 | regions with pages already mapped: those unchanged, the others zero, failure exactly at a page that cannot be had |
| GuestPages.ReleaseUndoesAllocate | libcpu/src/mem.cpp:86-132 | allocate then free restores the state, free list order included |
| GuestPages.RegionTakesFreePages | libcpu/src/mem.cpp:146-153 | a region succeeds iff enough pages are free; otherwise exactly a prefix is mapped and the lock is held |
| GuestPages.RegionIsContiguous | libcpu/src/mem.cpp:146-153 | with an ascending free list the region lands on consecutive host pages |
| GuestPages.AscendingUntilFree | libcpu/src/mem.cpp:62-66 | the free list is ascending until the first free |
| GuestPages.ReleaseRegionFrames | libcpu/src/mem.cpp:155-159 | freeing part of a region unmaps exactly those pages |
| HostMemory.InitRepresents | libcpu/src/mem.cpp:60-66 | the linked pages represent the empty map with every page free |
| HostMemory.AllocateRefines | libcpu/src/mem.cpp:98-109 | popping a page, zeroing it and setting the entry refines the abstract allocation |
| HostMemory.ReleaseRefines | libcpu/src/mem.cpp:121-129 | writing the link into the freed page alters no mapped byte and no other link |
| HostMemory.ProtectRefines | libcpu/src/mem.cpp:134-144 | permission changes refine |
| HostMemory.StoreRefines | libcpu/inc/mem.h:83-90 | a store inside a mapped page changes that page only and leaves the list intact |
| HostMemory.PushList | libcpu/src/mem.cpp:128-129 | the intrusive list after a push |
| HostMemory.PopList | libcpu/src/mem.cpp:103-104 | the intrusive list after a pop |
| HostMemory.StraddlingRead | libcpu/src/mem.cpp:231-245 | a host read that runs past a page end reads exactly the bytes of the following guest pages when their frames are consecutive |
| Memory.GuestMemory.Init | libcpu/src/mem.cpp:41-78 | the state after `init` |
| Memory.GuestMemory.LinkAll | libcpu/src/mem.cpp:62-66 | every page links to the next and the last to nothing |
| Memory.GuestMemory.AllocatePage | libcpu/src/mem.cpp:86-112 | result, new state and lock; a new page is zero, a mapped one unchanged |
| Memory.GuestMemory.FreePage | libcpu/src/mem.cpp:114-132 | new state and lock |
| Memory.GuestMemory.ProtectPage | libcpu/src/mem.cpp:134-144 | new permissions, nothing else |
| Memory.GuestMemory.AllocateRegion | libcpu/src/mem.cpp:146-153 | stops at the first failure |
| Memory.GuestMemory.FreeRegion | libcpu/src/mem.cpp:155-159 | for regions without an unmapped page, which would leave the lock held for the next iteration |
| Memory.GuestMemory.ProtectRegion | libcpu/src/mem.cpp:161-165 | protects every mapped page of the region |
| Memory.GuestMemory.Translate | libcpu/src/mem.cpp:231-245 | the host address of a guest address, or nothing iff it is unmapped |
| Memory.GuestMemory.WriteRegion | libcpu/src/mem.cpp:167-180 | the mixed page and byte loop is the byte-by-byte copy |
| Memory.GuestMemory.ReadRegion | libcpu/src/mem.cpp:182-195 | likewise for reading |
| Memory.GuestMemory.Read | libcpu/inc/mem.h:60-69 | a scalar load, within a page or across consecutive frames |
| Memory.NewPageReadsZero | libcpu/src/mem.cpp:106 | every scalar read from a newly mapped page is 0 |
| Memory.GuestMemory.WriteAtomic | libcpu/inc/mem.h:92-97 | succeeds iff the cell holds the expected value, and writes only then |
| GuestBytes.PutBytesAt | libcpu/src/mem.cpp:167-180 | the byte copy changes exactly the bytes of the range |
| GuestBytes.PutPage | libcpu/src/mem.cpp:169-174 | copying a page at once is 4096 steps of the byte copy |
| GuestBytes.GetPage | libcpu/src/mem.cpp:184-189 | likewise for reading |
| GuestBytes.ReadBack | libcpu/src/mem.cpp:167-195 | reading what was written returns it |
| GuestBytes.WriteBack | libcpu/src/mem.cpp:167-195 | writing back what was read changes nothing |
| GuestBytes.DisjointWritesCommute | libcpu/src/mem.cpp:167-180 | writes to disjoint ranges commute |
| Interrupts.WakeInvReached | libcpu/src/cpu.cpp:188-256 | the lock, place and wake-up invariants hold in every reachable state |
| Interrupts.NoLostWakeUp | libcpu/src/cpu.cpp:188-256 | a sleeper with something pending implies a sender between `fetch_or` and `notify_all` holds the lock, and will wake it |
| Interrupts.LockIsExclusive | libcpu/src/cpu.cpp:190 | at most one thread is inside the lock |
| Interrupts.SendMeaning | libcpu/src/cpu.cpp:188-193 | uninterrupted, a send adds its bits to its target's mailbox, wakes every sleeper and releases the lock |
| Interrupts.WaitMeaning | libcpu/src/cpu.cpp:243-256 | uninterrupted, a wait delivers everything pending, or sleeps iff nothing is |
| Interrupts.WokenMeaning | libcpu/src/cpu.cpp:246-255 | a woken waiter does the same |
| Interrupts.CheckMeaning | libcpu/src/cpu.cpp:232-241 | a check delivers everything pending; a clear removes exactly its bits |
| Interrupts.HolderReleases | libcpu/src/cpu.cpp:188-256 | in every reachable state the lock holder can release it in at most three steps of its own |
| Interrupts.RequestsAreIssued | libcpu/src/cpu.cpp:188-234 | the sends and clears on record are exactly those called, with their masks and in order |
| Interrupts.PostedIsDelivered | libcpu/src/cpu.cpp:188-256 | from the action sequence: each bit a send posts is still held for its core, or later cleared by it, or later passed to its handler |
| Interrupts.LedgerReached | libcpu/src/cpu.cpp:188-256 | mailboxes equal the replayed log, and fetched masks are delivered in order |
| Interrupts.ReplayMeaning | libcpu/src/cpu.cpp:191 | a bit is pending iff it was sent and not removed since |
| Interrupts.SentIsAccountedFor | libcpu/src/cpu.cpp:188-256 | every bit the log records as sent is pending, cleared, or fetched and passed to the handler in order |
| Interrupts.FetchedWasSent | libcpu/src/cpu.cpp:236-252 | a fetched mask is nonzero and holds exactly the bits sent since their last removal |
| Interrupts.WaitReturnsByDelivering | libcpu/src/cpu.cpp:243-256 | waiting ends only by passing a nonzero mask to the handler |
| Exclusives.LoadRegExclusive | libcpu/src/interpreter/LoadStore.cpp:303-380 | the value read goes to the register and is remembered |
| Exclusives.LoadExclusiveMeaning | libcpu/src/interpreter/LoadStore.cpp:364-379 | register, remembered value and address, from the bits of the word; nothing else changes |
| Exclusives.StoreRegExclusive | libcpu/src/interpreter/LoadStore.cpp:29-96 | status and memory: stored iff the cell equals the remembered value |
| Exclusives.StoreExclusiveMeaning | libcpu/src/interpreter/LoadStore.cpp:68-70 | status 0 iff the cell is the remembered value truncated to 1, 2, 4 or 8 bytes |
| Exclusives.StoredMeaning | libcpu/inc/mem.h:92-97 | after success the cell is the truncated operand; no other byte changes, and none on failure |
| Exclusives.LoadPairRegExclusive | libcpu/src/interpreter/LoadStore.cpp:834-909 | both halves loaded and remembered as one value |
| Exclusives.LoadPairMeaning | libcpu/src/interpreter/LoadStore.cpp:874-884 | Rt holds the lower word (if Rt is not Rt2), Rt2 the upper, and both are remembered as the eight-byte value |
| Exclusives.StorePairRegExclusive | libcpu/src/interpreter/LoadStore.cpp:658-704 | stored iff the eight bytes equal the remembered value |
| Exclusives.PairDataExact | libcpu/src/interpreter/LoadStore.cpp:696 | the combined value is the pair of low halves iff no high bit of the first register is missing from the second |
| Exclusives.ScalarHalves | libcpu/src/interpreter/LoadStore.cpp:874-884 | an eight-byte value is its two four-byte halves |
| Exclusives.ScalarRoundTrip | libcpu/inc/mem.h:92-97 | a stored scalar is the scalar read |
| UpdateLoop.InvReached | libcpu/src/interpreter/LoadStore.cpp:364-379 | what each thread holds and each core remembers, in every reachable state |
| UpdateLoop.StoreStep | libcpu/src/interpreter/LoadStore.cpp:68-73 | status 1 leaves memory unchanged, status 0 stores `f` of the value seen, which is the current one unless disturbed |
| UpdateLoop.StoreSucceedsExactly | libcpu/src/interpreter/LoadStore.cpp:68-73 | an undisturbed STXR succeeds iff the cell still holds what was seen, at every size and for pairs |
| UpdateLoop.LoadSees | libcpu/src/interpreter/LoadStore.cpp:327-379 | a load sees the cell: register, thread and core agree on its value |
| UpdateLoop.PairLoadSees | libcpu/src/interpreter/LoadStore.cpp:874-884 | so does a pair load, half by half, if the cell did not change between its reads |
| UpdateLoop.NoLostUpdate | libcpu/src/interpreter/LoadStore.cpp:68-73 | the cell is `f` applied once per success, for scalars of every size and 32-bit pairs |
| UpdateLoop.NoLostUpdateAcrossCores | libcpu/src/interpreter/LoadStore.cpp:68-73 | unconditionally so with one guest thread per core |
| UpdateLoop.SuccessIsUpdateExactly | libcpu/src/interpreter/LoadStore.cpp:68-73 | a success keeps the account iff `f` of the value seen is `f` of the current one |
| UpdateLoop.SharedCoreLosesAnUpdate | switch-emu/src/hle/kernel/thread.cpp:101-149 | a concrete run of two threads on one core: two successes, one increment |
| SpinLock.TakeIsSafeExactly | libcpu/src/interpreter/LoadStore.cpp:68-73 | a successful take keeps mutual exclusion iff the lock word was 0 |
| SpinLock.TakesExactlyIfFree | libcpu/src/interpreter/LoadStore.cpp:68-73 | an undisturbed STXR takes the lock iff it is free |
| SpinLock.MutualExclusion | libcpu/src/interpreter/LoadStore.cpp:68-73 | at most one holder in every state of an undisturbed run, and the lock word says whether there is one |
| SpinLock.MutualExclusionAcrossCores | libcpu/src/interpreter/LoadStore.cpp:68-73 | unconditionally so with one guest thread per core |
| SpinLock.SharedCoreBreaksTheLock | switch-emu/src/hle/kernel/thread.cpp:101-149 | a concrete run with two holders |
| AddSub.AddWithCarryMeaning | libcpu/inc/instutils.h:112-135 | result and all four flags against integer addition, at both widths |
| AddSub.SubtractSetsConditions | libcpu/inc/instutils.h:9-65 | after a flag-setting subtraction every condition code is the comparison it names |
| AddSub.ConditionCodes | libcpu/inc/instutils.h:9-65 | the comparison that each of the sixteen code values is after a subtraction |
| DataProcessing.ApplyMeaning | libcpu/inc/instutils.h:112-135 | every additive form in plain integers: result modulo 2^width, and flags iff it sets them |
| DataProcessing.AddSubImm | libcpu/src/interpreter/DataProcessingImm.cpp:13-34 | registers, stack pointer and flags after the handler |
| DataProcessing.AddSubImmMeaning | libcpu/src/interpreter/DataProcessingImm.cpp:13-34 | destination or stack pointer holds source plus or minus immediate modulo 2^width; every other register stays |
| DataProcessing.CompareImmediate | libcpu/src/interpreter/DataProcessingImm.cpp:13-34 | SUBS with an immediate sets the codes to the signed and unsigned comparison with it |
| DataProcessing.AddSubShiftedReg | libcpu/src/interpreter/DataProcessingReg.cpp:106-124 | the handler on every word the decoder accepts |
| DataProcessing.AddSubCarry | libcpu/src/interpreter/DataProcessingReg.cpp:265-281 | the handler, carry in included |
| DataProcessing.ShiftVariable | libcpu/src/interpreter/DataProcessingReg.cpp:523-542 | every result bit is its source bit, the amount taken modulo the width |
| DataProcessing.ShiftFieldMeaning | common/inc/types.h:105-110 | the shift that each two-bit field value selects, bit by bit |
| Shifts.ShiftMeaning | libcpu/inc/instutils.h:67-91 | `shift` bit by bit, for operands that fit the width |
| Shifts.UnmaskedShiftExact | libcpu/src/interpreter/DataProcessingReg.cpp:112 | shifting the whole register in a 32-bit form is right iff the bits that come down do no harm, for all four shifts |
| Shifts.SignExtendValue | common/inc/bitutils.h:46-49 | sign extension keeps the signed value |
| Limbs.AddChain | libcpu/src/interpreter/DataProcessingReg.cpp:265-281 | ADDS then ADCS over n limbs is the exact sum with C as the carry out |
| Limbs.SubtractChain | libcpu/src/interpreter/DataProcessingReg.cpp:265-281 | SUBS then SBCS is the difference modulo 2^(64 n), and C iff there is no borrow |
| Limbs.SubtractUndoesAdd | libcpu/src/interpreter/DataProcessingReg.cpp:265-281 | subtracting what was added restores the number |
| Multiply.PartialProducts | libcpu/src/interpreter/DataProcessingReg.cpp:666-680 | no partial product or sum wraps, and together they are the upper half |
| Multiply.PartialHighExact | libcpu/src/interpreter/DataProcessingReg.cpp:666-680 | the computed upper half is floor(a*b / 2^64) |
| Multiply.SignedFromUnsigned | libcpu/src/interpreter/DataProcessingReg.cpp:683-690 | two conditional subtractions give the floor of the signed product over 2^64, modulo 2^64 |
| Multiply.MulHigh | libcpu/src/interpreter/DataProcessingReg.cpp:660-693 | UMULH and SMULH against the integer product |
| Divide.Multiply | libcpu/src/interpreter/DataProcessingReg.cpp:576-590 | MADD and MSUB modulo 2^width |
| Divide.MultiplyAddMeaning | libcpu/src/interpreter/DataProcessingReg.cpp:576-590 | MADD and MSUB at both widths in plain integers |
| Divide.UnsignedDivide | libcpu/src/interpreter/DataProcessingReg.cpp:449-471 | the integer quotient, 0 for a zero divisor |
| Divide.SignedDivide | libcpu/src/interpreter/DataProcessingReg.cpp:481-513 | the quotient rounded toward zero, wrapped to the width |
| Divide.TruncatingDivLeaves | libcpu/src/interpreter/DataProcessingReg.cpp:504 | what the host division leaves is smaller than the divisor and has the sign of the dividend |
| Divide.DivideThenMultiplySubtract | libcpu/src/interpreter/DataProcessingReg.cpp:481-590 | SDIV then MSUB is the truncated remainder, with both edge cases, at both widths |
| Divide.UnsignedDivideThenMultiplySubtract | libcpu/src/interpreter/DataProcessingReg.cpp:449-590 | UDIV then MSUB is the unsigned remainder |
| ReverseBits.BitOfMasks | libcpu/src/interpreter/DataProcessingReg.cpp:319-328 | the twelve mask constants select alternate groups of bits |
| ReverseBits.BitExchange | libcpu/src/interpreter/DataProcessingReg.cpp:319-328 | each line of the network swaps neighbouring groups |
| ReverseBits.ExchangeMirrors | libcpu/src/interpreter/DataProcessingReg.cpp:319-328 | each line doubles the size of the mirrored groups |
| ReverseBits.Reverse64Or32 | libcpu/src/interpreter/DataProcessingReg.cpp:315-332 | the network computes the reversed word at both widths |
| ReverseBits.BitReverse | libcpu/src/interpreter/DataProcessingReg.cpp:315-332 | bit i of the reversed word is bit W-1-i |
| ReverseBits.ReverseTwice | libcpu/src/interpreter/DataProcessingReg.cpp:315-332 | reversal is its own inverse |
| ReverseBits.CountLeadingClear | libcpu/src/interpreter/DataProcessingReg.cpp:401-415 | the loop counts the clear bits above the highest set one |
| ReverseBits.LeadingClearIsLogarithm | libcpu/src/interpreter/DataProcessingReg.cpp:401-415 | the count against the powers of two around the number |
| ReverseBits.ReverseThenCount | libcpu/src/interpreter/DataProcessingReg.cpp:315-415 | RBIT then CLZ is the index of the lowest set bit, or the width for zero |
| Bitfields.DecodeBitfield | libcpu/src/decode/decodeDPImm.cpp:150-199 | every accepted word has its positions within the width |
| Bitfields.DecodeBitfieldMeaning | libcpu/src/decode/decodeDPImm.cpp:150-199 | which words are accepted, and their kind, width and positions, from the bits |
| Bitfields.BitfieldMove | libcpu/src/interpreter/DataProcessingImm.cpp:185-232 | the handler on every accepted word |
| Bitfields.BitField | libcpu/src/interpreter/DataProcessingImm.cpp:187-209 | the moved field, bit by bit |
| Bitfields.UnsignedMoveExact | libcpu/src/interpreter/DataProcessingImm.cpp:185-232 | UBFM matches its definition for every encoding and operand |
| Bitfields.InsertExact | libcpu/src/interpreter/DataProcessingImm.cpp:219-225 | BFM matches iff it is an insert or the top `immr` bits of Rd are clear |
| Bitfields.SignedMoveExact | libcpu/src/interpreter/DataProcessingImm.cpp:211-218 | SBFM matches iff the sign is clear, the field reaches the top, or the bit below the sign is set too |
| Bitfields.SignIsLost | libcpu/src/interpreter/DataProcessingImm.cpp:216 | SXTB of 0x80 and ASR #1 of 2^63 are two inputs on which it does not |
| Bitfields.BitInserted | libcpu/src/interpreter/DataProcessingImm.cpp:219-225 | BFI replaces exactly the target field |
| Bitfields.InsertThenExtract | libcpu/src/interpreter/DataProcessingImm.cpp:185-232 | extracting the inserted field returns the low bits of the source |
| Bitfields.InsertKeepsOtherFields | libcpu/src/interpreter/DataProcessingImm.cpp:185-232 | every disjoint field is unchanged |

## Left out

- Semantics: every handler that is not a branch is a parameter of the execution part, a function from word, PC, registers and memory to registers and memory. Only the branch handlers write `nextPC` and only `step` writes `PC` and `numInsts`, which no handler reads; a supervisor call that switches threads is outside this.
- Native generators other than the branches: each is represented by its handler, as it is when no generator is registered. Host registers and their eviction, the entry trampoline, the counters in `gFallbacks` and the verification hooks have no model.
- Memory in the execution part: an arbitrary type with a total `fetch`; faults on fetch and self-modifying code are excluded by it and by `CleanStep`.
- JitCorrect.FreshIsCompile: for non-empty blocks only. An empty block stays cached although later stores may have put a branch in range.
- Jit.Engine: one thread uses the cache; the cache is shared by cores without a lock in the source.
- Exceptional exits: the infinite-loop warning, breakpoints in `resume` and in `mem::read` and `mem::write`, and single stepping.
- Memory.GuestMemory.Init: the block that the platform returns is taken as given, non-null and of at most 2^32 pages (the loop index has 32 bits); its contents are arbitrary. The three error returns, `fini` and a second `init` are left out.
- Memory.GuestMemory.Translate: returns `None` where the source calls the fault handler and then dereferences whatever that leaves.
- Memory.GuestMemory.WriteRegion and ReadRegion: lengths below 2^32, because the source counts with 32 bits, over mapped pages.
- Memory.GuestMemory.FreeRegion: requires pages that are mapped or out of range; at an unmapped page the source keeps the lock and blocks on it at the next page.
- Concurrent allocation: the allocator methods are whole critical sections. `isValid` and `getPermission` are single reads.
- `zeroMem`: its slow path stores an `int`, up to three bytes past the range and past a page end; it has no model.
- Interrupts: a mask is a set of bit numbers, and the handler runs as a thread outside these functions. The mutex and the condition variable are as the C++ standard defines them, spurious wake-ups included; fairness, hence that a waiter eventually wakes, is not modelled.
- Exclusives: sequential consistency, so fences and acquire or release ordering have no effect; accesses within one page. The 64-bit pair exclusives depend on a compiler intrinsic. CLREX is a no-op because STXR never looks at the exclusive flag or address.
- UpdateLoop and SpinLock: the handlers' register effects are those of `Exclusives`; the loop around them is a guest program with one location. In `UpdateLoop` the guest function `f` is arbitrary.
- Bitfields.BitfieldMove: a shift by 64 (`immr` 0) or by 2^64 - 1 (sign test at final position 0) is undefined in C++; the parameter `wraps` covers hosts that reduce the amount and hosts that shift everything out, and every theorem holds for both.
- DataProcessing.AddSubShiftedReg: says what is added, shift of the unmasked register included; when that is the architectural operand is `Shifts.UnmaskedShiftExact`.
- Extended-register additions, logical instructions and their immediates, conditional compare and select, multiply long, EXTR, ADR, move wide, CLS, REV, REV16 and REV32: easy or settled by a table of cases.
- Other loads and stores, floating point, SIMD, system registers, the disassembler, the encoder, `decode` beyond the branches and the bitfields.
