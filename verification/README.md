# Quanta in Dafny

Quanta is a RISC-V emulator (RV32 and RV64) whose fast paths must not be distinguishable from a plain
interpreter. It carries its own IEEE 754 arithmetic, virtual memory with a TLB, a basic-block JIT, SMP
harts, a decoded-instruction cache, an LRU cache model, a debugger that runs backwards and a small
TCP-terminating NAT. This project models those parts and proves what they are for:

* **Floating point** (`Words`, `Wide`, `Rounding`, `SoftFloat`, `FloatOps`, `FloatConvert`,
  `FloatCompare`, `FloatLaws`, over `Powers` and `Ieee754`). Every operation returns the exact real
  result rounded once, with exactly the flags of sections 4.3 and 7 of IEEE 754-2019. The
  specification is over real numbers (`Ieee754.CorrectlyRounded`); `FloatLaws` shows that it
  determines the result and that the result is the best representable one. Binary32 and binary64 are
  one proof.
* **JIT against interpreter** (`Rv`, `RvWords`, `RvFrame`, `Machine`, `Hart`, `Jit`, `JitInsn`, `JitStep`,
  `JitBlock`, `JitRun`, `JitTranslate`, then `JitLaws`, `JitPc`, `JitFresh`, `JitFetch`, `JitSim`,
  `JitTurn`, `JitTable`, `JitEngine`, `JitPaged`). Host code is a tree of abstract host operations. Each
  translated instruction, each block with its three exits, each turn of the dispatcher with its block
  table, and the whole run loop are tied to the interpreter. What the table holds is what the
  translation loop collected from memory; that it stays true of memory is an invariant, kept by every
  step of a guest that observes the FENCE.I contract. The theorems are instantiated with memory under
  the page-table walk (`JitPaged.RunPaged`).
* **TLB against page walk** (`Mmu`), **decode cache against fresh fetch** (`DecodeCache`): invisible on
  every run that keeps the SFENCE.VMA and FENCE.I contracts.
* **SMP** (`LrSc`, `RunLoop`, `Privilege`): reservations, the scheduler's termination and splitting
  law, and who can raise privilege, over every interleaving.
* **NAT flow** (`TcpNat`, `Checksum`): both byte streams are conserved; RFC 9293 section 3.4, RFC 1071.
* **LRU cache** (`Lru`, `Cache`): time stamps refine the recency list; inclusion and miss counts.
* **Reverse execution** (`GdbReverse`): checkpoints and replay land exactly on the history.

State that the emulator updates in place is a class, and its methods are proved against functions on
the state; theorems over whole runs are lemmas about those functions.

## What is assumed

* 64-bit counters (`mtime`, `instret`, `tick`, generations) do not wrap; memory allocation succeeds.
* Instruction decoding, RVC expansion, the M and bit-manipulation results and memory contents are given
  functions (`Rv.Ext`, `Rv.Env`, `JitTranslate.CodeMemory`): both engines call the same code for them.
* `Machine` has a platform attached. Device lines are given; only the clock moves inside a block. What a
  device does with an access, and the instructions outside the integer core, are given functions.
* Of memory the JIT theorems rely on `JitLaws.Laws`, which is proved of the page-table walk over RAM in
  `JitPaged.PagedLaws`. Page-table cells are not fetched as code there.
* Of the guest they rely on `JitLaws.Obeys`, a condition on the interpreter's run alone: no instruction is
  fetched from a halfword stored to since the last FENCE.I; a store to the page tables does not remap
  the page it was fetched from; and on RV32 the trap vectors do not straddle 2 GiB
  (`JitPc.TrapEntryStored`).

## Where the code does not do what one would expect

* A block that stops at a device access after k > 0 instructions has already translated the address,
  so an accessed or dirty bit may be set one step early. `JitRun.BlockExitExact` says exactly when the
  machines agree at that point, and `JitPaged.ProbeCanShow` gives page tables under which they do not. It
  never becomes visible: the block was admitted under the interrupt horizon and the step limit, so no
  interrupt is taken before the access (`JitRun.RefusedProceeds`) and the call goes on
  (`JitTurn.TurnCorrect`), and the next step makes the machines equal (`JitTurn.Reconverges`). Every call
  returns in the interpreter's machine (`JitEngine.ContinueJit`), whatever lines the host has raised
  before it (`JitEngine.ResumeWithLines`). Both admission tests are needed: a line raised in between would
  keep the machines related exactly if it interrupts nothing there (`JitEngine.LinesExactly`,
  `JitEngine.InterruptShows`), and `JitPaged.LineWouldShow` is a machine it would interrupt. The comment in
  `jit.h` speaks of leaving after the access; the code leaves before it, and the model follows the code.
* `break_reservation` voids only the first word a store touches. `LrSc.StoreSafeExactly`: a store keeps
  every reservation sound if and only if it stays within one aligned word.
* A decode-cache hit does not translate the second half of an instruction again:
  `DecodeCache.StraddleShows`. `DecodeCache.HitExact` says exactly when a hit is right.
* 32-bit sequence numbers confuse segments exactly 2^32 bytes apart: `TcpNat.SequenceAlias`, and `TcpNat.AliasAt` for an instance.
* On RV32 a vectored interrupt entry is not sign-extended into the pc. `JitPc.TrapEntryEscapes` gives a
  handler table just below 2 GiB whose timer entry leaves the stored form, `JitPc.TrapEntryStored` says
  exactly which entries do, and `JitPc.StepKeeps` that nothing else does.
* The bytes per set of a cache are computed in 32 bits. `Cache.GeometryExactly`: from 2^32 bytes per set
  on, and only then, `cache_init` takes a remainder by zero; `Cache.GeometryDivides` is such a geometry.
* After going backwards the unsigned distance to the last checkpoint wraps in `stub_step`, so one extra
  checkpoint is taken (`GdbReverse.DueBehind`); `GdbReverse.DueExactly` says when one is due.

## Model

| member | source | states |
|---|---|---|
| Words.ClzCorrect | src/softfloat.c:30-40 | leading-zero count: shifting by it puts the top set bit at bit 63 |
| Words.MsbCorrect | src/softfloat.c:41-42 | the index of the top set bit brackets the 128-bit value between powers of two |
| Words.GetBitCorrect | src/softfloat.c:44-49 | bit i of the two-word value |
| Words.Cmp128Correct | src/softfloat.c:50-54 | three-way comparison of the values |
| Words.Add128Correct | src/softfloat.c:55-60 | sum modulo 2^128 with the carry between words |
| Words.Sub128Correct | src/softfloat.c:61-67 | difference modulo 2^128 with the borrow |
| Words.Shl128Correct | src/softfloat.c:68-73 | left shift modulo 2^128 for every count |
| Words.Shr128Correct | src/softfloat.c:74-90 | right shift, and sticky exactly when a one was shifted out |
| Words.Mul64Correct | src/softfloat.c:91-100 | the exact 128-bit product |
| Words.Udiv128by64 | src/softfloat.c:101-112 | exact quotient and remainder whenever the high word is below the divisor |
| Words.Isqrt128 | src/softfloat.c:113-128 | floor of the square root, and remainder flag exactly for non-squares |
| Wide.Msb256 | src/softfloat.c:265-268 | index of the top set bit of a 256-bit value |
| Wide.Cmp256 | src/softfloat.c:269-272 | three-way comparison |
| Wide.Add256 | src/softfloat.c:273-281 | sum modulo 2^256 by carry propagation |
| Wide.Sub256 | src/softfloat.c:282-290 | exact difference when the first is no smaller |
| Wide.Shl128To256 | src/softfloat.c:291-301 | left shift of a 128-bit value into 256 bits |
| Wide.Shr256Jam | src/softfloat.c:302-316 | right shift with the lost bits reported exactly |
| Rounding.JamAgrees | src/softfloat.c:130-134 | shifting with jam keeps every comparison the rounding step makes |
| Rounding.RoundedSigCorrect | src/softfloat.c:198-232 | increment, shift and ties-to-even compute the mathematical rounding in all five modes |
| Rounding.RoundPackCorrect | src/softfloat.c:198-232 | normal, subnormal and overflow results and the OF, UF (after rounding) and NX flags are those of one correct rounding |
| Rounding.TinyTest | src/softfloat.c:198-232 | the code's tininess test is tininess after rounding |
| SoftFloat.RoundMagCorrect | src/softfloat.c:236-254 | any magnitude with a sticky tail below half an ulp is rounded once, correctly, with its flags |
| SoftFloat.AlignWindow | src/softfloat.c:322-361 | the 256-bit window holds the smaller operand up to a sticky bit for every exponent gap |
| SoftFloat.WindowSum | src/softfloat.c:322-361 | the signed window sum, with borrow-one-and-sticky, describes the exact sum; a zero difference with a tail is impossible |
| SoftFloat.AddCore | src/softfloat.c:322-361 | the exact signed sum of two scaled significands, rounded once |
| FloatOps.Classified | src/softfloat.c:165-196 | unpacking classifies NaN, infinity, zero and finite as the format does |
| FloatOps.UnpackFinite | src/softfloat.c:165-196 | significand and exponent of an unpacked number denote its value |
| FloatOps.FpAdd | src/softfloat.c:366-391 | addition and subtraction: correctly rounded, signed zeros, infinities, NaNs and flags |
| FloatOps.FpMul | src/softfloat.c:393-407 | multiplication likewise |
| FloatOps.NormalisedCorrect | src/softfloat.c:413-418 | normalising an operand keeps its value and fills its significand |
| FloatOps.FpDiv | src/softfloat.c:419-441 | division likewise, with division by zero; the quotient keeps enough bits for the sticky bit |
| FloatOps.FpSqrt | src/softfloat.c:443-458 | the real square root rounded once, invalid for negatives |
| FloatOps.FpMulAdd | src/softfloat.c:460-484 | fused multiply-add rounds once |
| FloatLaws.RoundingUnique | src/softfloat.c:198-254 | the rounding specification has exactly one answer |
| FloatLaws.RoundedIsBest | src/softfloat.c:198-254 | no finite pattern is nearer (or, in a directed mode, tighter on its side) than the result |
| FloatLaws.MagnitudeInjective | src/softfloat.c:165-196 | different finite patterns denote different magnitudes |
| FloatCompare.FcmpCorrect | src/softfloat.c:490-506 | on patterns that are not NaNs: the order of the points they denote on the extended line, -0 equal to +0 |
| FloatCompare.RelationsCorrect | src/softfloat.c:508-537 | eq, lt and le are that order, false for NaNs; eq raises NV only for signalling NaNs, lt and le for any |
| FloatCompare.MinMaxCorrect | src/softfloat.c:539-557 | the operand nobody is beyond, the signed zero the direction asks for, a number in preference to a NaN |
| FloatConvert.ToIntMagCorrect | src/softfloat.c:611-636 | the magnitude rounded to an integer, overflow and inexact exactly when they are |
| FloatConvert.FpToIntCorrect | src/softfloat.c:638-663 | the rounded integer clamped to range; NV exactly for NaN, infinity and out of range, NX exactly when in range and inexact |
| FloatConvert.IntToFpCorrect | src/softfloat.c:674-677 | zero gives +0 silently, every other integer is rounded once |
| FloatConvert.RoundTrip32 | src/softfloat.c:686-689 | every 32-bit integer survives the trip through binary64 in every mode, with no flags |
| FloatConvert.WidenExact | src/softfloat.c:594-600 | every binary32 number is kept exactly and silently, infinities keep their sign, NaNs become the quiet NaN |
| FloatConvert.NarrowCorrect | src/softfloat.c:601-607 | binary64 to binary32 rounds once; zeros, infinities and NaNs likewise |
| FloatConvert.WidenNarrow | src/softfloat.c:594-607 | widening then narrowing gives every pattern but a NaN back, in every mode, with no flags |
| RvWords.SextLogic | src/jit.c:347-351 | bitwise logic on sign-extended registers stays sign-extended, so no re-extension is needed |
| RvWords.ShiftOfLow | src/jit.c:352-357 | a 32-bit left shift is the low half of the wide one |
| RvWords.ClearBitZero | src/jit.c:522 | masking with ~1 clears bit zero and nothing else |
| Jit.HostShiftCorrect | src/jit.c:352-364 | the host shift with its count masked by width, re-extended, is the architectural shift |
| JitInsn.InlineOpImmIsBase | src/jit.c:326-371 | the inlined OP-IMM encodings are never bit-manipulation ones, and funct6 tells SRAI from SRLI |
| JitInsn.OpImmInline | src/jit.c:329-366 | every inlined OP-IMM leaves the register the interpreter writes, on RV32 and RV64 |
| JitInsn.OpInline | src/jit.c:375-401 | every inlined OP likewise |
| JitInsn.OpImm32Inline | src/jit.c:405-422 | the inlined word immediates likewise |
| JitInsn.Op32Inline | src/jit.c:426-443 | the inlined word operations likewise |
| JitStep.HelperMemIsExecMem | src/jit.c:150-161 | the memory helper is the interpreter's access, except that it refuses devices after probing |
| JitStep.AluCallAgrees | src/jit.c:296-302 | an ALU helper call: falls through on retirement, leaves with k + 1 steps on a trap |
| JitStep.MemCallAgrees | src/jit.c:305-317 | a memory helper call and its three exits |
| JitStep.ContAgrees | src/jit.c:449-478 | every straight-line instruction the translator accepts agrees with cpu_step's execution |
| JitStep.BranchAgrees | src/jit.c:480-503 | compare and conditional move choose the interpreter's next pc, reserved conditions fall through |
| JitStep.JalAgrees | src/jit.c:505-515 | link and target of JAL |
| JitStep.JalrAgrees | src/jit.c:517-532 | target of JALR read before the link is written, bit zero cleared |
| JitStep.TermAgrees | src/jit.c:480-532 | every block-ending control transfer ends with the interpreter's hart |
| JitBlock.BlockCorrect | src/jit.c:562-624 | running a block's host code executes its instructions one by one: same hart at every exit, return value the steps consumed |
| JitTranslate.Translate | src/jit.c:562-624 | the collected block is straight-line, holds what memory holds, stays in its page, and could not be longer |
| JitTranslate.BlockUnique | src/jit.c:562-624 | those properties determine the block |
| JitFresh.StepChanges | src/cpu.c:1494-1666 | a step of the interpreter changes no halfword outside those its store meets |
| JitTable.TranslatedOk | src/jit.c:562-624 | what has just been translated lies in its page and is true of memory, whatever was stored to before |
| JitTable.TableStep | src/cpu.c:1633-1637 | every step but FENCE.I keeps every table entry true of memory wherever it has not been stored to |
| JitFetch.BlockFetches | src/jit.c:639-659 | a table block of a guest within its contract is what the interpreter fetches until it leaves the block |
| JitTable.Table.Flush | src/jit.c:123-127 | a generation bump makes every entry stale and empties the arena |
| JitTable.Table.Commit | src/jit.c:610-623 | a new translation is entered; an arena too full for it forgets all others |
| JitTable.Table.BlockAt | src/jit.c:639-654 | a hit is the block made for this physical address and pc since the last flush; a miss is the one block memory holds now |
| JitRun.HorizonSound | src/cpu.c:1713-1746 | before the horizon no boundary takes an interrupt, by any of the three timer routes |
| JitRun.HorizonTight | src/cpu.c:1713-1746 | at a bounded horizon one is taken, unless an armed relay is overridden by Sstc |
| JitRun.BlockRounds | src/quanta.c:536-546 | a block's instructions are as many uninterrupted tick-and-step rounds, none halting before the last |
| JitRun.ExitState | src/jit.c:304-317 | host and interpreter agree at a block's exit exactly when the refused access was probed without effect |
| JitRun.BlockExitExact | src/jit.c:626-659 | the machine after a block equals the interpreter's if and only if that holds |
| JitPaged.ProbeCanShow | src/jit.c:150-161 | two instructions under Sv39 page tables where it does not |
| JitRun.RefusedProceeds | src/cpu.c:1713-1746 | a block that refuses an access stops inside its horizon: no interrupt is taken before the access is made |
| JitTurn.Reconverges | src/jit.c:150-161 | the interpreter's next step from there makes the machines equal again |
| JitPc.TrapEntryStored | src/cpu.c:888-891 | on RV32 exactly the vectored entries across 2 GiB from their base leave the stored form of the pc |
| JitPc.TrapEntryEscapes | src/cpu.c:888-891 | a vector and an interrupt for which this happens |
| JitPc.StepKeeps | src/cpu.c:1494-1666 | every step keeps registers in stored form and, with vectors below or above 2 GiB, the pc |
| JitTurn.TurnCorrect | src/quanta.c:536-546 | one turn of the JIT loop, block or fallback, keeps the relation to the interpreter, which takes the steps reported; with the limit used up the machines are equal |
| JitEngine.JitRunBlock | src/jit.c:626-660 | the dispatcher with its table: runs what the table has for the pc and leaves the table true of memory |
| JitEngine.SimMeans | src/jit.c:150-161 | related machines differ in memory marks at most, hold the same code, and are equal once halted |
| JitEngine.RunInterpreter | src/quanta.c:548-554 | the interpreter loop runs to the limit or the first halt |
| JitEngine.ContinueJit | src/quanta.c:526-547 | a call with the table of earlier ones ends in the interpreter's machine after its number of steps, with the table true of memory |
| JitEngine.ResumeWithLines | src/device.h:243-256 | so it does after the host has changed the external interrupt lines between calls |
| JitEngine.LinesExactly | src/device.h:243-256 | a change in the middle of a call would keep the relation exactly if the machines were equal or nothing is interrupted |
| JitEngine.InterruptShows | src/jit.c:626-635 | and an interrupt there would leave them equal exactly if they were |
| JitPaged.LineWouldShow | src/jit.c:626-635 | a machine and a raised line for which it would not |
| JitEngine.RunJit | src/quanta.c:526-547 | the JIT loop from an empty table stops after the interpreter's number of steps, in the interpreter's machine |
| JitEngine.RunLengthUnique | src/quanta.c:526-559 | the number of steps of a run is determined by its start and limit |
| JitPaged.PagedLaws | src/mmu.c:103-196 | memory under the page-table walk meets everything the JIT relies on |
| JitPaged.SimMarks | src/jit.c:150-161 | on that memory related machines have the same RAM, and page tables equal but for accessed and dirty bits set |
| JitPaged.RunPaged | src/quanta.c:526-547 | the run theorem for that memory, page tables included |
| Machine.SyncAbsorbs | src/cpu.c:919-931 | refreshing the pending bits early makes no difference to a later refresh |
| Machine.StepsRespectEquiv | src/cpu.c:1478-1500 | machines equal up to that refresh stay so over any number of rounds |
| Hart.FirstIsTaken | src/cpu.c:940-961 | the scan of the priority table takes the interrupt of the fixed order |
| Hart.Cpu.EnterTrap | src/cpu.c:864-893 | trap entry in place is the state function |
| Hart.Cpu.RaiseTrap | src/cpu.c:903-913 | delegation, the missing handler and the entry |
| Hart.Cpu.Refresh | src/cpu.c:980-1008 | the two timer relays and the device lines together are the refresh function |
| Hart.Cpu.TakeInterrupt | src/cpu.c:940-961 | delivers exactly the interrupt the state function names |
| Hart.Cpu.PreStep | src/cpu.c:1478-1492 | the step prologue in place is the state function |
| Hart.Cpu.FetchInst | src/cpu.c:1506-1548 | translation and reads of both halves in place, or the trap, are the fetch function |
| Hart.Cpu.ExecuteAlu | src/cpu.c:1678-1688 | result register or illegal-instruction trap in place |
| Hart.Cpu.ExecuteMem | src/cpu.c:661-703 | loads and stores in place with page and access faults; a device is left translated and untouched |
| Hart.Cpu.Commit | src/cpu.c:1656-1665 | retirement, or the trap of an odd target |
| Hart.Cpu.Execute | src/cpu.c:1549-1666 | opcode dispatch and tail on the fields leave the hart the execution function names |
| Hart.Cpu.Step | src/cpu.c:1494-1666 | a step in place is the state function, up to what a device or another instruction group is handed |
| Mmu.DescendExtends | src/mmu.c:152-168 | accessed and dirty bits never steer a walk, also for superpages and self-referencing tables |
| Mmu.HitIsWalk | src/mmu.c:138-150 | a hit answers as the walk it replaces, and that walk would have written nothing |
| Mmu.FillAgrees | src/mmu.c:170-195 | what a miss caches agrees with the page tables it leaves |
| Mmu.CachedIsPlain | src/mmu.c:103-196 | with a coherent TLB a translation gives the walk's answer and memory, and the TLB stays coherent |
| Mmu.TlbInvisible | src/mmu.c:103-201 | over every run with mode changes, satp writes and fenced edits, results and memory are those of a machine with no TLB |
| Mmu.PlainIdempotent | src/mmu.c:103-196 | translating again gives the same page and changes nothing more |
| Mmu.PlainExtends | src/mmu.c:152-195 | accessed and dirty bits change no translation, nor leave one more bit to set |
| Mmu.PlainSamePage | src/mmu.c:103-196 | addresses of one page translate alike but for the offset |
| Mmu.HartMmu.FindLeaf | src/mmu.c:152-168 | the level-by-level loop finds the leaf of the walk |
| Mmu.HartMmu.Translate | src/mmu.c:103-196 | the method equals the uncached translation and keeps the TLB coherent |
| Mmu.HartMmu.Flush | src/mmu.c:198-201 | every entry invalid, hence coherent with any page tables |
| Mmu.HartMmu.SetSatp | src/cpu.c:797-803 | an unsupported scheme is dropped, any other write flushes |
| DecodeCache.FlushRetires | src/decodecache.h:71-73 | one generation bump retires every slot |
| DecodeCache.HitExact | src/cpu.c:1512-1515 | a hit is right if and only if memory still holds the instruction, its upper half where it is mapped now |
| DecodeCache.CachedStep | src/cpu.c:1510-1548 | a fetch within the contract gives what a fresh fetch gives, and is remembered |
| DecodeCache.StoreKeeps | src/decodecache.h:24-31 | a store leaves every remembered instruction it does not meet in memory |
| DecodeCache.CacheInvisible | src/cpu.c:1510-1548 | over every run of fetches, stores, device changes and FENCE.I in which no stored-to instruction is refetched unfenced, results and memory are those of the uncached machine |
| DecodeCache.RunInvisible | src/cpu.c:1510-1548 | in particular from an empty cache |
| DecodeCache.EventsInvisible | src/decodecache.h:24-31 | and so for any memory when the list of events alone shows no unfenced refetch after a store or a remapping |
| DecodeCache.StraddleShows | src/cpu.c:1510-1515 | a page-straddling instruction whose second page is remapped is fetched stale |
| DecodeCache.Decoder.FetchInsn | src/cpu.c:1510-1548 | the in-place lookup and fill, always; within the contract it gives what memory holds |
| DecodeCache.Decoder.FlushAll | src/decodecache.h:71-73 | after a flush nothing hits |
| LrSc.StepKeepsReserved | src/cpu.c:1102-1123 | every word-sized step keeps "a valid reservation means an unchanged word" |
| LrSc.RunKeepsReserved | src/cpu.c:1080-1168 | so does every interleaving |
| LrSc.StoreSafeExactly | src/cpu.c:107-118 | a store keeps it in every state if and only if it stays within one aligned word |
| LrSc.CounterExact | src/cpu.c:1102-1168 | a counter bumped by LR/SC and AMOs equals its start plus the successful ones: no update is lost |
| LrSc.Machine.BreakReservation | src/cpu.c:107-118 | the sweep over all harts |
| LrSc.Machine.LoadReserve | src/cpu.c:1102-1110 | LR in place |
| LrSc.Machine.StoreCond | src/cpu.c:1112-1123 | SC in place, zero exactly on success |
| LrSc.Machine.AmoWord | src/cpu.c:1124-1168 | the nine word AMOs in place: combined word written, reservations of it voided, old word returned sign-extended |
| LrSc.AmosCommute | src/cpu.c:1149-1161 | two AMOs of one kind leave the same word in either order, swap excepted |
| LrSc.Machine.StoreBytes | src/cpu.c:686-703 | a store of any width voids the reservations of the first word it touches, then writes |
| RunLoop.FaultSurfaces | src/quanta.c:150-165 | an abnormal hart is reported ahead of a clean exit, the first of them |
| RunLoop.PollReports | src/quanta.c:150-165 | the power-off code, else reason and exit code of one hart once all have stopped, clean only if all were |
| RunLoop.IdleSlot | src/quanta.c:548-554 | a stopped hart's slot brings the next running hart closer |
| RunLoop.RunForBounded | src/quanta.c:526-559 | a run executes at most its limit, and fewer only if the machine halts |
| RunLoop.RunForSplits | src/quanta.c:526-559 | running a and then b steps is running a + b |
| RunLoop.Quanta.PollHalt | src/quanta.c:150-165 | the poll loop gives that report |
| RunLoop.Quanta.Step | src/quanta.c:515-524 | one scheduler slot |
| RunLoop.Quanta.RunSteps | src/quanta.c:526-559 | the run loop terminates and equals the run function; zero stands for the default limit |
| Privilege.EnterTrapSafe | src/cpu.c:864-893 | trap entry never lowers privilege, lands on the vector and saves pc and cause in its own mode's registers |
| Privilege.MachineTrapReturns | src/cpu.c:1401-1412 | MRET after a trap restores pc, privilege and the interrupt enable |
| Privilege.SupervisorTrapReturns | src/cpu.c:1417-1428 | SRET likewise, leaving the machine-mode set-up alone |
| Privilege.CsrStoreProtects | src/cpu.c:1026-1064 | a permitted CSR write below machine mode cannot reach the machine-mode trap registers |
| Privilege.IntegerProtects | src/cpu.c:1549-1666 | no instruction of the integer core raises privilege but by trapping, or touches the machine-mode set-up |
| Privilege.StepProtected | src/cpu.c:1494-1666 | so for every step of the interpreter |
| Privilege.StepsProtect | src/cpu.c:1494-1666 | and over any run of it that stays below machine mode |
| Privilege.SystemProtects | src/cpu.c:1401-1470 | CSR, return and environment-call instructions, atomics, floating point and devices keep the promise |
| Privilege.SystemRunProtects | src/cpu.c:1494-1666 | hence every run of the whole interpreter does, with nothing assumed of them |
| Privilege.HartStepProtects | src/sbi.c:116-175 | every step of every hart, firmware hart starts included: privilege rises only into a handler |
| Privilege.RunProtects | src/cpu.c:778-808 | over any run, a hart that stays below machine mode leaves mtvec, mepc, mcause, mtval, medeleg, mideleg and menvcfg as they were |
| TcpNat.TakeData | src/netstack.c:519-531 | an in-order segment extends the accepted prefix of the guest's stream by what fits |
| TcpNat.TakeFin | src/netstack.c:536-542 | the guest's FIN is taken exactly at the end of its stream |
| TcpNat.SequenceAlias | src/netstack.c:519 | what equality of 32-bit sequence numbers decides at any distance |
| TcpNat.AliasAt | src/netstack.c:519 | a segment 2^32 bytes ahead that passes for the next one with other data |
| TcpNat.Acknowledge | src/netstack.c:513-515 | an acknowledgement inside the window moves the boundary, whatever its 32-bit value |
| TcpNat.InFlight | src/netstack.c:432 | what is in flight is the unwrapped difference, never above 65536 |
| TcpNat.SegmentCarriesStream | src/netstack.c:429-441 | every segment sent carries the host's stream at the offset its sequence number names |
| TcpNat.FinAtEnd | src/netstack.c:442-448 | one FIN, after every byte of the stream |
| TcpNat.NatFlow.constructor | src/netstack.c:493-506 | the state after the guest's SYN |
| TcpNat.NatFlow.DrainG2h | src/netstack.c:455-469 | bytes taken by the host followed by the buffer stay the accepted prefix; shutdown at most once, only when drained |
| TcpNat.NatFlow.FlushH2g | src/netstack.c:429-449 | sends up to the window and the segment size, then the FIN |
| TcpNat.NatFlow.MaybeClose | src/netstack.c:472-475 | orderly close if and only if both sides are done and both buffers empty; then both streams were delivered whole |
| TcpNat.NatFlow.TakeAck | src/netstack.c:512-517 | window, acknowledgement and completion of the handshake |
| TcpNat.NatFlow.TakeSegment | src/netstack.c:519-534 | takes exactly the bytes that are next and fit, and acknowledges |
| TcpNat.NatFlow.HandleTcp | src/netstack.c:477-546 | a guest segment in any order, with gaps and duplicates, keeps both streams conserved; nothing is sent beyond the guest's window |
| TcpNat.NatFlow.HostConnected | src/netstack.c:585-591 | the SYN-ACK carries the initial sequence number |
| TcpNat.NatFlow.HostRecv | src/netstack.c:593-607 | host bytes within the offered room are kept and sent as the window allows, never beyond it |
| TcpNat.NatFlow.HostClosed | src/netstack.c:609-616 | the FIN follows once everything is sent, within the window |
| TcpNat.NatFlow.HostReset | src/netstack.c:618-624 | the guest is reset unless it has had the FIN |
| TcpNat.NatFlow.HostWritable | src/netstack.c:626-633 | drains, and announces a window that has opened |
| Checksum.Fold | src/netstack.c:109 | the folding loop is the one's-complement sum |
| Checksum.InetCsum | src/netstack.c:104-111 | the complement of the one's-complement sum of the big-endian words |
| Checksum.ChecksumVerifies | src/netstack.c:104-111 | stored in its zeroed field, the checksum makes the receiver's sum all ones |
| Checksum.OneWordDetected | src/netstack.c:104-111 | exactly which changes of one word the receiver cannot see |
| Lru.StackByRecency | src/cache.c:69-106 | the recency list is ordered by last use |
| Lru.StackDistinct | src/cache.c:69-106 | it lists the tags of the trace, each once |
| Lru.Inclusion | src/cache.c:69-106 | what fewer ways hold, more ways hold |
| Cache.HitKeeps | src/cache.c:81-88 | stamping a hit keeps ways and recency list in step |
| Cache.VictimIsLast | src/cache.c:90-102 | the oldest stamp in a full set is the least recently used tag |
| Cache.EvictKeeps | src/cache.c:90-105 | replacing it keeps them in step |
| Cache.BlockNamed | src/cache.c:77-78 | set index and tag agree exactly for addresses in the same block |
| Cache.MoreWaysMissLess | src/cache.c:69-106 | on any trace, more ways never miss more |
| Cache.LruCache.Holds | src/cache.c:69-106 | a set holds exactly the most recently used tags mapped to it |
| Cache.LruCache.Access | src/cache.c:69-106 | an access keeps that, and hits + misses = loads + stores = tick |
| Cache.CompareCaches | src/cache.c:69-106 | of two caches after the same trace, the one with more ways holds more and has missed no more |
| Cache.GeometryExactly | src/cache.c:23-47 | the geometries accepted, and those that reach a remainder by zero |
| Cache.GeometryDivides | src/cache.c:35-36 | a geometry that reaches it |
| Cache.CacheInit | src/cache.c:23-61 | the cache an accepted geometry gives, sets * ways * block = size |
| GdbReverse.AtCompose | src/gdbstub.c:299-314 | replaying from any point of the history stays on it |
| GdbReverse.GdbStub.RawStep | src/gdbstub.c:258-264 | a step moves one along the history, a halted machine does not move |
| GdbReverse.GdbStub.AddCheckpoint | src/gdbstub.c:271-287 | the start is never evicted, the oldest other checkpoint is |
| GdbReverse.GdbStub.StubStep | src/gdbstub.c:291-297 | checkpoints at the interval once reversing is in use, and only then |
| GdbReverse.DueExactly | src/gdbstub.c:291-297 | the 64-bit distance test is due after the interval or behind the last checkpoint, and only then |
| GdbReverse.DueBehind | src/gdbstub.c:291-297 | a step behind the last checkpoint, far inside the interval, at which one is due |
| GdbReverse.GdbStub.GotoStep | src/gdbstub.c:303-314 | reaches exactly the requested state, whatever checkpoints were added or evicted |
| GdbReverse.GdbStub.ReverseStep | src/gdbstub.c:382-386 | one step back, or stays at the start |
| GdbReverse.GdbStub.ReverseContinue | src/gdbstub.c:391-404 | the last breakpoint strictly before here, else the start |
| GdbReverse.GdbStub.Continue | src/gdbstub.c:356-369 | passes no breakpoint, and stops at one, at a halt, or when interrupted |

## Left out

- x86 encodings, the code buffer's overflow latch and the executable mapping: host operations are abstract.
- The emission and the host operations are functions on values, not updates of the hart in place; `Hart.Cpu` does the interpreter's step in place. Aliasing between harts is not modelled there.
- Hart.Cpu.RaiseTrap: without a handler an environment call halts the hart here; the syscall and firmware services of the built-in environment are not modelled.
- Hart.Cpu.ExecuteAlu: the results of the M and bit-manipulation extensions are given functions.
- JitEngine.RunJit: one hart; stores by DMA and by other harts into code are not part of the run.
- JitPaged.PagedLaws: page-table cells are kept beside RAM, so code fetched from a page table is not modelled; what a store makes of a page-table entry and what a load reads of one are given functions of the tables.
- JitTable.Table.BlockAt: the length of the host code of a block is given.
- `mem->fault` and the cache observer inside a step: they do not outlive the step.
- Privilege.HartStepProtects: the resume address of a non-retentive suspend is not claimed, because `exec_system` adds four to it.
- Privilege.CsrStoreProtects: registers are written by field; the raw bit layout of mstatus, mie and the rest is not modelled.
- LrSc.RunKeepsReserved: LR.D and SC.D are not modelled; a doubleword reservation is compared by its first word only.
- LrSc.Machine.AmoWord: the doubleword forms are not modelled.
- TcpNat.NatFlow.DrainG2h: what the host socket accepts is left open (any amount, or an error).
- GdbReverse.GdbStub.AddCheckpoint: a snapshot that cannot be allocated is not modelled.
- Classify, sign injection, FP register boxing and the FP instructions around the library.
- PLIC and CLINT register files, UART, virtio, device tree, ELF loading, syscalls, snapshot files, pipeline overlay.
- ARP, ICMP, DHCP and UDP handling, frame assembly and the table of flows.
- The GDB packet protocol, register and memory writes from the debugger.
- Command line, sockets, terminal handling.
