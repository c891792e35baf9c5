# HydIR: verified model of the native x86-64 frontend

HydIR lifts small pieces of x86-64 code to LLVM-style SSA and reports what functions may do to global
memory. This project models its central algorithms in Dafny and proves what they promise, for every
input, every path and every run:

- **The scalar lifter** (`CfgRecovery`, `Ownership`, `StackProof`, `FlagUse`, `GenKill`,
  `DefiniteAssignment`, `ScalarRecovery`, `Emit`, `Compile`, `Lift`). A worklist recovers the reachable
  control flow, a stack proof tracks RSP and RBP, frame instructions are erased, a must-initialised
  dataflow finds the fields available at each instruction, and each instruction becomes one block with a
  phi for every available field. The headline result is compiler correctness: the machine (`Machine`,
  `Memory`, `Runs`) and the emitted program (`Ssa`) run in lock step from every caller's state, take the
  same branches and return the same RAX with the caller's stack restored (`LockStep`, `LiftCorrect`,
  `Simulation`, `Agreement`, `StackSoundness`, `StackDiscipline`); the program is well-formed SSA (`PhiForms`).
- **The laws under it** (`InstructionLaws`, `SsaLaws`, `FieldLaws`, `FlowLaws`, `StackLaws`, `StandardFrame`). What
  each instruction of the machine and each emitted operation does, said bit by bit and modulo the width; that an
  instruction defines what its execution writes and reads what its form depends on; that successors are where the
  machine can go; and which instructions the stack proof accepts, said of RSP, RBP and addresses on the machine,
  up to exactly which standard frames have a proof.
- **The gap in it, made exact** (`SavedRbpSlots`, `RunReads`, `RedZone`). See below.
- **The straight-line lifter** (`LinearLift`), with its agreement with the scalar lifter.
- **Decision regions** (`DecisionRegion`).
- **The effect analysis** (`Discovery`, `Components`, `EffectSummaries`, `EffectRuns`, `PointerTable`):
  recursive descent with an interval index, strongly connected components, propagation of global effects
  over the call graph, and what a summary without unknown effects promises about interprocedural runs.
- **The disassembler** (`RecursiveDescent`, `Disassembly`): descent recovers exactly what is reached from its seeds,
  breadth first, and instructions and gaps partition each section, exactly when its seeds are harmless.
- **Path merging in the Triton bridge** (`PathMerge`, `PathTree`): the work list finds the paths of a recursion
  over the tree of branches, it succeeds on clean trees, and the merged if-then-else is the function's value.

`Words` holds machine-word arithmetic, `Paths` paths and reachability in a graph, `Fields` the 26 scalar
fields, `Semantics` the instruction subset with its register and flag effects, `Decode` the decoder's view.

## How the code is represented

- Decoding and classification are a table with one entry per byte offset: invalid, not in the subset, or an
  instruction with its length and branch target. Flow control follows from the instruction.
- Machine words are integers below 2^64 with wrap-around written out; memory is bytes over wrapped
  addresses, so no assumption keeps frames away from address zero or 2^64.
- Flags are the four of the Intel SDM, Vol. 1 section 3.4.3.1; the stack rules are those of section 3.2.2 of
  the System V AMD64 psABI, red zone included. Nothing else writes below RSP (no signal handlers there).
- Bit masks over fields, registers and flags are sets. Ordered maps and sets are iterated in an arbitrary
  order, so the results hold for the source's ascending order too.
- LLVM text is an abstract syntax tree; evaluating anything unassigned or of the wrong type is `Undef`.
- `internal` errors of the source are kept where they occur and proved impossible (a missing slot or
  instruction in `AssignSlots`, a missing successor in `Analyze`).
- A memory operand of the effect analysis accesses its displacement moved by its base register and, for BT and
  its kin, by the element a bit-offset register selects, wrapped at its address width, plus its segment's base;
  these registers and bases are arbitrary.
- Long invariants are folded behind `Unfold` or `Open`, so that only the proofs that need them open them.

## Where the code does not do what it promises

**Red-zone slots under the saved RBP.** The stack proof checks each access against the window open at that
access, and `SaveFramePointer` defines no slot. Code may store to `[rsp-8]`, push RBP over it, pop, and read
the slot back: it is accepted, the machine reads the caller's RBP, and the emitted program reads the old
value. `RedZone.NoProgramLiftsRedZone` gives such code and shows that no program over the six arguments, however
many steps it takes, returns the machine's RAX to every caller. The exact condition comes in two forms. Path by path (`SavedRbpSlots.ReadsAgreeExactly`):
all reads of all paths agree for all callers if and only if no path reads a slot that a push of RBP overwrote
since its last definition (`SlotsClean`). Run by run (`RunReads.RunsAgreeExactly`): machine and program agree
on all runs of all callers if and only if no run comes to such a read, for two callers that differ only in
RBP reach a run's first one together. `SavedRbpSlots.ClearSlotsAreClean` is the simple sufficient test: RBP
is never saved, or no slot overlaps the word below the entry RSP.

**Seeds below their section.** The disassembler maps a seed address below its section to offset zero but
records the instruction under the seed's own address. `Disassembly.DisassembleSection` shows that the section
is partitioned among instructions and gaps if and only if every such seed's first instruction is refused
(`Harmless`); otherwise a record lies outside the section, whose first byte is in no instruction recorded in
the section and in no gap.
`Disassembly.Disassemble` lifts the same equivalence to all sections: the highest one with a harmful seed
never gets its first byte back. `Disassembly.SeedBelowSectionHarms` gives a concrete seed.

**Bases, segments and bit offsets.** The effect analysis takes an operand to be at the instruction's
RIP-relative target if it has no index and that displacement; it looks neither at a base register, nor at the
segment, nor at a bit offset in a register. `mov eax, fs:[rip+d]` reads at the FS base plus that address
(`EffectRuns.FsLoadEscapes`); `pop qword ptr [rip+d]` with target zero reads the stack, at displacement zero
from RSP (`EffectRuns.PopEscapes`). Both have no unknown effects and list the read elsewhere.
`EffectRuns.PathsAreAsReportedExactly` gives the exact condition: with no unknown effects, every load and store on
every path and in every context is where its operand is reported if and only if no reachable operand that makes one
has a segment override, a base register or a register bit offset (`Fixed`). `EffectRuns.PathsAreListedExactly` does
the same for loads and stores at any listed address inside its region (`Settled`): besides fixed operands only those
may be reachable whose whole range is listed, a bit string from end to end or, for a base in a 32-bit address, the low
4 GiB. An access that reads and writes makes both events (`EffectRuns.IncrementListsBoth`), and nothing is listed that
no operand loads or stores (`EffectRuns.ListedIsMade`).

## Model

| member | source | states |
|---|---|---|
| Ownership.Claim | crates/hydir-backend/src/cfg.rs:358-365 | claiming an instruction's bytes succeeds exactly when all are free, and then changes exactly those |
| CfgRecovery.Enqueue | crates/hydir-backend/src/cfg.rs:413-423 | successors inside the code wait, others must be declared exits, or it fails |
| CfgRecovery.Visit | crates/hydir-backend/src/cfg.rs:347-396 | one address yields a node exactly when it decodes, its bytes are free and no rejection applies; otherwise the error names which |
| CfgRecovery.Recover | crates/hydir-backend/src/cfg.rs:329-435 | succeeds if and only if everything reachable is admissible and overlaps nothing else reachable; the nodes are then exactly the reachable addresses, whatever the worklist order |
| FlowLaws.SuccessorsAreWhereItGoes | crates/hydir-backend/src/cfg.rs:397-408 | away from calls the successors are exactly the addresses the machine can go to |
| FlowLaws.RejectedExactly | crates/hydir-backend/src/cfg.rs:366-385 | with the stack proof exactly the instructions outside the machine, calls aside, and LEAs whose address depends on RSP or RBP are refused |
| FlowLaws.AdmissibleExactly | crates/hydir-backend/src/cfg.rs:343-423 | what recovery asks of one instruction: it decodes, is not refused, calls a listed callee if there is a list, and its target and fall-through are inside or declared exits |
| FlowLaws.ProofFollowsSuccessors | crates/hydir-backend/src/stack.rs:229-247 | the stack proof follows the same edges as recovery, and calls only where it is told to |
| FlowLaws.FrameOpsMovePointers | crates/hydir-backend/src/cfg.rs:224-234 | of the machine's instructions exactly the frame instructions, but for adjustments by zero, and the return can move RSP or RBP |
| CfgRecovery.Refuse | crates/hydir-backend/src/cfg.rs:347-396 | a reachable instruction that is inadmissible or whose bytes are taken rules recovery out |
| StackProof.InsertSlot | crates/hydir-backend/src/stack.rs:155-155 | inserting keeps the slots ordered and adds exactly the one slot |
| StackProof.IndexOf | crates/hydir-backend/src/cfg.rs:458-461 | the search finds a slot exactly when it is listed, at its position |
| StackProof.Step | crates/hydir-backend/src/stack.rs:99-247 | one instruction succeeds exactly when it is accepted, its bytes are free and its slot fits; it then yields the next state, the grown slots and the successors, and claims its bytes; otherwise the error names what is wrong; acceptance is StackLaws.AcceptedExactly |
| StackProof.Visit | crates/hydir-backend/src/stack.rs:87-247 | a visit keeps the worklist invariant, or no proof exists |
| StackProof.AnalyzeStack | crates/hydir-backend/src/stack.rs:67-257 | succeeds if and only if every path from the entry is accepted, joins agree, no instructions overlap, at most eight slots are pairwise disjoint and a return is reached; the evidence is then exact |
| StackProof.AllArrived | crates/hydir-backend/src/stack.rs:93-98 | with nothing pending, the recorded frame states are all that any path arrives with |
| ScalarRecovery.AssignSlots | crates/hydir-backend/src/cfg.rs:457-466 | each access gets the index of its slot; fails only if a slot or instruction is missing |
| ScalarRecovery.RecoverScalar | crates/hydir-backend/src/cfg.rs:436-478 | succeeds if and only if recovery, the stack proof and the flag check do; every access node then carries its own slot's index and no other node carries one; the error tells which of the three failed, and internal errors never occur |
| ScalarRecovery.ArrivesReached | crates/hydir-backend/src/cfg.rs:452-456 | where the stack proof arrives, recovery arrived |
| ScalarRecovery.ReachedArrives | crates/hydir-backend/src/cfg.rs:452-456 | wherever recovery arrives, the stack proof arrives with an accepted state, so slot lookups cannot fail |
| ScalarRecovery.NoStack | crates/hydir-backend/src/cfg.rs:436-451 | code that never touches the stack meets the stack discipline without the proof being run |
| FlagUse.RejectStackFlagUses | crates/hydir-backend/src/cfg.rs:236-261 | succeeds if and only if every path stays in the graph and none has a stack adjustment at one position and a conditional branch at a later one with no flag-writing instruction between them; an error comes with the path that ends at its address |
| FlagUse.LiveByPosition | crates/hydir-backend/src/cfg.rs:249-257 | the liveness the check tracks holds at a path's end exactly when some adjustment on the path is the last flag write before it |
| FlagUse.SafeByLiveness | crates/hydir-backend/src/cfg.rs:236-261 | tracking liveness decides the question about path positions |
| FlagUse.PathOfPair | crates/hydir-backend/src/cfg.rs:238-257 | every explored pair of address and liveness comes from a path with that liveness |
| FlagUse.PairOfPath | crates/hydir-backend/src/cfg.rs:238-257 | every path's end and liveness is explored |
| GenKill.MeetPredecessors | crates/hydir-backend/src/cfg.rs:1154-1160 | the meet over the listed predecessors, cut to the inputs at the entry |
| GenKill.Revisit | crates/hydir-backend/src/cfg.rs:1153-1167 | re-evaluating a node keeps the invariant and either loses facts for good or leaves its equations satisfied |
| GenKill.Sweep | crates/hydir-backend/src/cfg.rs:1152-1167 | a pass either makes progress or every node is stable |
| GenKill.Solve | crates/hydir-backend/src/cfg.rs:1148-1171 | the descending loop terminates at the meet over all paths |
| GenKill.SolutionIsMeetOverPaths | crates/hydir-backend/src/cfg.rs:1148-1171 | a stable solution reached from the top is the meet over all paths |
| DefiniteAssignment.AddEdges | crates/hydir-backend/src/cfg.rs:1141-1146 | each successor gets one more entry per edge, and fails only if one is no node |
| DefiniteAssignment.BuildPredecessors | crates/hydir-backend/src/cfg.rs:1138-1147 | predecessors are listed once per edge, duplicates included |
| DefiniteAssignment.Analyze | crates/hydir-backend/src/cfg.rs:1137-1189 | succeeds if and only if on every path each read is of an argument register, or of a field defined at an earlier position, that no call at a later position clobbers; what is available is then the meet over all paths; an error names an instruction some path reaches without a field it reads |
| DefiniteAssignment.AvailableIsHeld | crates/hydir-backend/src/cfg.rs:1153-1167 | along a path exactly the fields defined, or passed as arguments, and not clobbered since are available |
| DefiniteAssignment.CallKeepsCalleeSaved | crates/hydir-backend/src/cfg.rs:307-326 | across a call RAX is defined and exactly callee-saved registers and stack slots stay available |
| Machine.ConditionAfterCompare | crates/hydir-backend/src/cfg.rs:1389-1433 | after a comparison each condition is the corresponding signed or unsigned order of the operands, at either width |
| InstructionLaws.ConditionAfterSum | crates/hydir-backend/src/cfg.rs:1389-1433 | after an addition the signed conditions compare the exact sum with zero, and the unsigned ones test the carry |
| InstructionLaws.ConditionAfterLogic | crates/hydir-backend/src/cfg.rs:1389-1433 | after a logical operation carry and overflow are clear and every condition compares the result with zero |
| InstructionLaws.AluComputes | crates/hydir-backend/src/cfg.rs:1525-1594 | at either width sums and differences are exact or off by one modulus, and bit k of AND, OR and XOR is the operation on bit k of the operands |
| InstructionLaws.AluSetsFlags | crates/hydir-backend/src/cfg.rs:1229-1387 | zero, sign, carry or borrow, and overflow as a result sign the operands' signs rule out |
| InstructionLaws.ComputesOnce | crates/hydir-backend/src/cfg.rs:1525-1594 | the arithmetic law leaves one result |
| InstructionLaws.MachineObeysLaws | crates/hydir-backend/src/cfg.rs:1435-1701 | every modelled instruction writes the registers, flags and bytes of memory the laws say and no others, and control goes where they say; the machine has none of the others |
| SsaLaws.BinaryMeans | crates/hydir-backend/src/cfg.rs:1525-1594 | emitted sums, differences and products are modulo 2^64, and bit k of and, or and xor is the operation on bit k |
| SsaLaws.CompareMeans | crates/hydir-backend/src/cfg.rs:1319-1387 | emitted comparisons are equality and the unsigned and two's-complement orders |
| SsaLaws.ConversionMeans | crates/hydir-backend/src/cfg.rs:1220-1227 | truncation keeps the low half and extension puts zeros above it |
| SsaLaws.ExitMeans | crates/hydir-backend/src/cfg.rs:1642-1701 | a conditional exit takes its first arm exactly when its bit is set, and a return yields its word |
| Emit.EmittedFlagsAreExact | crates/hydir-backend/src/cfg.rs:1319-1387 | the emitted sign and order tests are exact signed overflow and unsigned carry or borrow |
| Emit.MaskedAlu | crates/hydir-backend/src/cfg.rs:1541-1564 | 64-bit arithmetic on masked operands, masked again, is the machine's 32-bit arithmetic, whose laws are InstructionLaws.AluComputes |
| Words.MaskIsMod | crates/hydir-backend/src/cfg.rs:1220-1222 | masking with 2^k - 1 keeps exactly the low k bits |
| Words.EmittedMasks | crates/hydir-backend/src/cfg.rs:1220-1227 | the two emitted masks compute the low half and bit 31 |
| Emit.Emitter.Mask32 | crates/hydir-backend/src/cfg.rs:1220-1222 | appends code whose value, in every environment, is the low half of its operand |
| Emit.Emitter.Sign32 | crates/hydir-backend/src/cfg.rs:1224-1227 | appends code whose value is bit 31 of a masked operand |
| Emit.Emitter.EmitFlags | crates/hydir-backend/src/cfg.rs:1319-1387 | the four flag outputs are those of the 64-bit operation, in every environment |
| Emit.Emitter.EmitFlags32 | crates/hydir-backend/src/cfg.rs:1229-1317 | the four flag outputs are those of the 32-bit operation on masked operands |
| Emit.Emitter.ConditionName | crates/hydir-backend/src/cfg.rs:1389-1433 | the named value is the condition's truth over the incoming flags it reads |
| Emit.Emitter.EmitLea | crates/hydir-backend/src/cfg.rs:1495-1524 | the emitted sum is the effective address modulo 2^64 |
| Emit.Emitter.EmitArithmetic | crates/hydir-backend/src/cfg.rs:1525-1641 | arithmetic and comparison blocks define their result and flags as the machine does, whose laws are InstructionLaws.MachineObeysLaws |
| Emit.Emitter.EmitNode | crates/hydir-backend/src/cfg.rs:1435-1701 | a block computes its instruction's outputs and exit in every environment, writes only its own names and assigns none twice |
| Compile.BuildPhi | crates/hydir-backend/src/cfg.rs:1745-1766 | a phi has the argument at the entry and one entry per incoming edge |
| Compile.EmitProgram | crates/hydir-backend/src/cfg.rs:1731-1775 | every node has a block with phis for exactly its available fields |
| Compile.PhiTakesEdge | crates/hydir-backend/src/cfg.rs:1758-1766 | entered from a predecessor, a phi takes the value that predecessor holds, duplicate edges included |
| Compile.PhiTakesArgument | crates/hydir-backend/src/cfg.rs:1746-1757 | at the entry a phi takes the argument of its register |
| PhiForms.OutputsAssigned | crates/hydir-backend/src/cfg.rs:1435-1701 | a block assigns the output of every field its node defines |
| PhiForms.PhisWellFormed | crates/hydir-backend/src/cfg.rs:1741-1773 | each phi has as many arguments per predecessor as there are edges, each naming a value that predecessor assigns, plus the argument exactly for inputs at the entry |
| PhiForms.AssignedInOnePlace | crates/hydir-backend/src/cfg.rs:1191-1218 | static single assignment: every name of a lifted program is assigned in one place only |
| StackSoundness.StepKeepsFrame | crates/hydir-backend/src/stack.rs:113-228 | an accepted instruction keeps the pointers at their recorded offsets, the saved RBP in its word and the caller's memory unchanged |
| StackLaws.TransferExactly | crates/hydir-backend/src/stack.rs:115-217 | an instruction is accepted exactly when, on the machine, a push of RBP is at the entry RSP, a pop or LEAVE at the saved word, RBP is set only while saved and RSP restored only from a known RBP, an adjustment of 0 to 4096 lands within 4096 bytes below the entry RSP, a local's bytes lie in the open window, red zone included, and a call is aligned |
| StackLaws.SlotExactly | crates/hydir-backend/src/stack.rs:116-146 | the slot of an accepted access is its width at the machine's own distance from the entry RSP |
| StackLaws.TransferKnows | crates/hydir-backend/src/stack.rs:155-211 | after an accepted instruction the machine agrees with the new frame state, and whether RBP is saved and known follows from pushes, moves and pops alone |
| StackLaws.AcceptedExactly | crates/hydir-backend/src/stack.rs:113-247 | acceptance with control flow: calls only where they are followed, returns only with RSP at its entry value and RBP restored |
| StackLaws.ClashExactly | crates/hydir-backend/src/stack.rs:147-154 | two slots clash exactly when they differ and share a byte |
| StackLaws.SlotsAscend | crates/hydir-backend/src/stack.rs:155-155 | slots are listed from the lowest offset up, the narrower first |
| StandardFrame.StandardFrameProvable | crates/hydir-backend/src/stack.rs:67-257 | push rbp; mov rbp,rsp; sub rsp,n; body; leave; ret has a stack proof if and only if n is 0 to 4088 and the body's locals are in the window, at most eight and without clash |
| StackSoundness.OperandIsSlot | crates/hydir-backend/src/stack.rs:116-146 | an accepted stack operand addresses its slot, below the return address and any saved RBP |
| LiftCorrect.PathFrame | crates/hydir-backend/src/stack.rs:67-257 | stack discipline: along every path the machine agrees with the frame state the proof arrives with |
| StackDiscipline.RunsKeepDiscipline | crates/hydir-backend/src/stack.rs:67-257 | on every run of accepted call-free code from every caller, RSP and a known RBP sit at their recorded offsets, the saved RBP and everything from the return address up stay intact, and a return leaves RSP eight above its entry value |
| StackSoundness.CallsAreAligned | crates/hydir-backend/src/stack.rs:212-216 | with calls allowed, the machine's RSP is 16-byte aligned wherever it agrees with the proof at a call, given the ABI's alignment at entry |
| FieldLaws.DefinesExactly | crates/hydir-backend/src/cfg.rs:181-187 | a node defines exactly the register, flags and slot its execution writes, and erased instructions define nothing |
| FieldLaws.ReadsExactly | crates/hydir-semantics/src/lib.rs:269-463 | a node reads exactly the registers, flags and slot the execution of instructions of its form depends on, besides a register compared with itself and RAX at a return |
| FieldLaws.ConditionReadsExactly | crates/hydir-semantics/src/lib.rs:435-444 | a condition reads exactly the flags its truth depends on |
| FieldLaws.FlagWritesExactly | crates/hydir-semantics/src/lib.rs:269-463 | arithmetic and stack adjustments write all four flags, and nothing else writes any |
| FieldLaws.CallReads | crates/hydir-backend/src/cfg.rs:285-288 | a direct call reads the six integer argument registers |
| Agreement.ScalarEffect | crates/hydir-backend/src/cfg.rs:273-304 | on the machine a scalar instruction changes exactly the fields it defines, to what it computes |
| Agreement.FrameEffect | crates/hydir-backend/src/cfg.rs:224-234 | an erased frame instruction changes no field but the flags it clobbers and slots under the saved RBP |
| Agreement.ExecReads | crates/hydir-backend/src/cfg.rs:189-199 | an instruction's outcome depends only on the fields it reads |
| Simulation.NodeStep | crates/hydir-backend/src/cfg.rs:1731-1775 | crossing one edge keeps every available, untainted field equal to the machine's |
| LiftCorrect.PathTracks | crates/hydir-backend/src/cfg.rs:1721-1787 | along every path whose reads are clean, every available field has the machine's value unless an erased instruction overwrote it since |
| LiftCorrect.TaintIsLive | crates/hydir-backend/src/cfg.rs:236-261 | registers are never tainted, and a tainted flag is one a stack adjustment left behind |
| LiftCorrect.CleanEverywhere | crates/hydir-backend/src/cfg.rs:236-261 | after the flag check, and with clean slots, no path reads a tainted field |
| LockStep.LiftIsCorrect | crates/hydir-backend/src/cfg.rs:1721-1787 | lift correctness: after any number of steps both stand at the end of the same path with equal available fields, or both have returned the same RAX with RSP eight above its entry value, RBP restored and the caller's memory intact |
| LockStep.ReturnTogether | crates/hydir-backend/src/stack.rs:220-226 | at a return both leave with the machine's RAX and the stack discipline kept |
| Lift.LiftCfg | crates/hydir-backend/src/cfg.rs:1707-1787 | accepts exactly the liftable code, what it emits is a lift of it, and the error tells a bad size from refused recovery and uninitialised reads |
| Lift.OnlyNodes | crates/hydir-backend/src/cfg.rs:436-470 | the code alone settles the nodes and slot indices |
| Lift.LiftedCodeRunsAlike | crates/hydir-backend/src/cfg.rs:1721-1787 | every run of accepted, slot-safe code from every caller agrees with its program |
| SavedRbpSlots.TaintedSlotHoldsRbp | crates/hydir-backend/src/stack.rs:162-170 | a tainted slot holds bytes of the caller's RBP |
| SavedRbpSlots.ReadsAgreeExactly | crates/hydir-backend/src/stack.rs:128-146 | all reads on all paths agree for all callers if and only if no path reads a slot overwritten by a push of RBP |
| RunReads.RunsAgreeExactly | crates/hydir-backend/src/stack.rs:128-146 | machine and program agree at every step of every run of every caller if and only if no run reads a slot its own push of RBP overwrote |
| SavedRbpSlots.ClearSlotsAreClean | crates/hydir-backend/src/stack.rs:128-146 | code that never saves RBP, or has no slot under the saved word, has clean slots |
| RedZone.RedZoneLiftable | crates/hydir-backend/src/cfg.rs:1721-1787 | the concrete red-zone code is accepted |
| RedZone.NoProgramLiftsRedZone | crates/hydir-backend/src/cfg.rs:181-187 | for that code every program over the six arguments, after any number of steps, fails to return the machine's RAX to some caller |
| LinearLift.LiftLinear | crates/hydir-backend/src/lib.rs:391-493 | accepts exactly straight modelled code that reads only defined registers, up to a final RET; the lift returns the machine's RAX for all arguments |
| LinearLift.LinearLiftableExactly | crates/hydir-backend/src/lib.rs:391-493 | acceptance by positions: register moves, LEA, ADD and SUB of a register and NOP one behind the other up to a RET that ends the code, each register used being modelled and holding an argument or an earlier result |
| LinearLift.EmitLea | crates/hydir-backend/src/lib.rs:521-562 | the emitted address is the machine's, trivial scale and displacement skipped |
| LinearLift.EmitBinary | crates/hydir-backend/src/lib.rs:514-519 | the new value is the operation on its operands and no older value changes |
| LinearLift.ReadRegister | crates/hydir-backend/src/lib.rs:495-512 | reads exactly the five modelled registers that have a value |
| LinearLift.LinearStep | crates/hydir-backend/src/lib.rs:427-482 | after each instruction the named values are the machine's registers |
| LinearLift.LiftersAgree | crates/hydir-backend/src/lib.rs:391-493 | on code both lifters accept they return the same value |
| DecisionRegion.FindBranch | crates/hydir-backend/src/cfg.rs:996-1011 | succeeds if and only if there is exactly one conditional branch among NOPs |
| DecisionRegion.BindOutputs | crates/hydir-backend/src/cfg.rs:1042-1064 | every output is bound to the first identical input, or it fails |
| DecisionRegion.ValidateDecision | crates/hydir-core/src/lib.rs:1944-2068 | the closing validation succeeds exactly for two exits, at most 256 locations each way, names distinct but for case, and one-bit or one-byte flag inputs |
| DecisionRegion.NamesFlag | crates/hydir-backend/src/cfg.rs:1018-1041 | an input stands for a flag exactly when its name is the flag's letter and F, in any case |
| DecisionRegion.LiftDecision | crates/hydir-backend/src/cfg.rs:978-1082 | accepts exactly the regions with one conditional branch among NOPs that leaves to the two declared exits, with flags and outputs imported and a valid inventory; every run stays in the region, changes nothing, and leaves by the true exit exactly when the condition holds of the entry flags; the branch is the highest instruction; every flag read is imported |
| Discovery.Overlaps | crates/hydir-analysis/src/lib.rs:497-501 | the nearest-predecessor and range probe sees exactly the overlaps with all decoded instructions |
| Discovery.AddOperand | crates/hydir-analysis/src/lib.rs:513-580 | one memory operand adds its reference as read if its access may load and as written if it may store, or makes the effects unknown; its address is the instruction's RIP-relative target exactly when it has no index and that displacement, whatever its base |
| Discovery.Follow | crates/hydir-analysis/src/lib.rs:581-647 | queues exactly the successors and records callees, dead ends and unknown transfers |
| Discovery.AnalyzeFunction | crates/hydir-analysis/src/lib.rs:460-650 | complete if and only if everything reachable decodes, can be followed and overlaps nothing; facts come only from reachable instructions and, when complete, list all they do |
| Components.Visit | crates/hydir-analysis/src/lib.rs:653-662 | a depth-first visit keeps the finishing-order invariant and finishes only what it reaches |
| Components.Assign | crates/hydir-analysis/src/lib.rs:663-671 | collects under one number only functions that reach the start, and all their callers |
| Components.NumberComponent | crates/hydir-analysis/src/lib.rs:684-690 | collecting callers of the next unnumbered function numbers exactly its component |
| Components.ComponentIds | crates/hydir-analysis/src/lib.rs:652-692 | two functions share a number if and only if each reaches the other, a call between components goes to a larger number, and numbers have no gaps |
| EffectSummaries.JoinCallees | crates/hydir-analysis/src/lib.rs:378-385 | a summary joined with exactly those of its callees |
| EffectSummaries.Sweep | crates/hydir-analysis/src/lib.rs:376-395 | an in-place pass adds only caused effects and either adds one or leaves all summaries stable |
| EffectSummaries.Propagate | crates/hydir-analysis/src/lib.rs:371-399 | the loop terminates with each summary listing exactly the direct effects of all reachable functions |
| EffectSummaries.ComponentsShareSummaries | crates/hydir-analysis/src/lib.rs:371-399 | mutually recursive functions have identical summaries |
| EffectSummaries.AnalyzeInputs | crates/hydir-analysis/src/lib.rs:360-399 | direct facts, summaries and component numbers are all exact |
| EffectRuns.MoveStaysInside | crates/hydir-analysis/src/lib.rs:581-647 | with no unknown effects control stays at recovered instructions of reachable functions, tail jumps and recursion included |
| EffectRuns.OverrideEscapes | crates/hydir-analysis/src/lib.rs:526-534 | an operand with a segment override misses every listed address for some segment base |
| EffectRuns.BaseEscapes | crates/hydir-analysis/src/lib.rs:526-534 | an operand with a 64-bit base register misses every listed address for some value of it |
| EffectRuns.AlwaysListedExactly | crates/hydir-analysis/src/lib.rs:526-570 | a reported operand that loads or stores does so at listed addresses in every context if and only if it has no override, a base only in a 32-bit address with the low 4 GiB listed, and a bit offset only over a fully listed bit string |
| EffectRuns.PathsAreListedExactly | crates/hydir-analysis/src/lib.rs:360-399 | effect soundness over events: with no unknown effects every load on every path and in every context is at an address listed as read, and every store at one listed as written, inside its region, if and only if every operand that makes one is settled |
| EffectRuns.PathsAreAsReportedExactly | crates/hydir-analysis/src/lib.rs:526-560 | with no unknown effects all loads and stores on all paths are where their operands are reported, and listed there, if and only if no operand that makes one has a segment override, a base register or a register bit offset |
| EffectRuns.ListedIsMade | crates/hydir-analysis/src/lib.rs:513-580 | every address listed as read is loaded, and every one listed as written stored, by some reachable operand in some context |
| EffectRuns.TaintsExactly | crates/hydir-analysis/src/lib.rs:509-647 | an instruction makes the effects unknown exactly when it is privileged, has an operand not wholly in a known region, or lets the machine go where the analysis does not follow |
| EffectRuns.CalleesAreEntered | crates/hydir-analysis/src/lib.rs:597-622 | a callee is the function whose entry a near CALL, or a jump out of the own function, transfers to |
| EffectRuns.RunsAreListedExactly | crates/hydir-analysis/src/lib.rs:360-399 | every interprocedural run stays among reachable functions, and the loads and stores an operand it meets may make are listed in every context exactly when the operand is settled |
| EffectRuns.FsLoadEscapes | crates/hydir-analysis/src/lib.rs:526-534 | a load through FS has no unknown effects, one listed read, and reads elsewhere |
| EffectRuns.IncrementListsBoth | crates/hydir-analysis/src/lib.rs:562-579 | a read-modify-write of a global loads and stores it, and the summary lists it as read and as written |
| EffectRuns.PopEscapes | crates/hydir-analysis/src/lib.rs:526-534 | a POP to a RIP-relative address that is zero has no unknown effects, lists its stack read at address zero, and reads at RSP |
| PointerTable.PointsExactly | crates/hydir-analysis/src/lib.rs:48-70 | a slot points into the function exactly when it can be read and holds the address of one of its bytes, the first included, that is executable |
| PointerTable.RecoverTargets | crates/hydir-analysis/src/lib.rs:29-76 | the distinct targets of the longest prefix of slots pointing into the function, in order of first appearance |
| Disassembly.AppendGap | crates/hydir-backend/src/disasm.rs:211-235 | the gaps cover exactly the old bytes and the new ones, stay apart, and none continues the one before it |
| Disassembly.RecoverSeed | crates/hydir-backend/src/disasm.rs:237-338 | from a seed inside its section the new records, all flagged as recovered, are reached by fall-through and direct targets; every such follower in the extent is recorded, does not decode, crosses the extent or overlaps an occupied byte, the first and last noted as gaps; addresses are tried breadth first; a seed inside its section keeps the bitmap equal to the union of disjoint instruction extents; a seed below it changes nothing if its first instruction is refused, and in an untouched section otherwise is recorded below the section while the first byte is taken without a record |
| RecursiveDescent.TracksStep | crates/hydir-backend/src/disasm.rs:253-337 | one address off the queue keeps the account of what was found, what waits and what was refused |
| RecursiveDescent.FollowsEnd | crates/hydir-backend/src/disasm.rs:250-337 | an empty queue means descent is complete, breadth first |
| Disassembly.LinearSweep | crates/hydir-backend/src/disasm.rs:421-480 | afterwards every byte is in exactly one of an instruction or a sweep gap, and each gap's reason is right |
| Disassembly.DisassembleSection | crates/hydir-backend/src/disasm.rs:407-480 | the section is partitioned among its recorded instructions and sweep gaps if and only if every seed is harmless; a harmful seed is recorded outside the section and leaves its first byte in neither; it fails only if records and bytes exceed the limit; with harmless seeds a record counts as recovered exactly when descent from a seed finds it |
| Disassembly.SeedBelowSectionHarms | crates/hydir-backend/src/disasm.rs:247-256 | a seed one byte below a one-byte section is recorded outside it and leaves the section unpartitioned |
| Disassembly.Disassemble | crates/hydir-backend/src/disasm.rs:403-480 | with sections apart, all of them are partitioned at the end if and only if every seed is harmless, gaps merged across borders included; it fails only if the sections hold more bytes than the instruction limit; with harmless seeds the recovered records of every section are exactly what descent from its seeds finds |
| PathMerge.AddBranches | scripts/triton_bridge.py:932-945 | succeeds if and only if every target is in the symbol and unvisited; each outcome then becomes a path with its condition added |
| PathMerge.Advance | scripts/triton_bridge.py:907-947 | succeeds exactly where the instruction can go on, and otherwise says why; its continuations then split the inputs of its path without loss or overlap |
| PathMerge.CanAdvanceExactly | scripts/triton_bridge.py:896-947 | a path goes on exactly when its instruction leads somewhere and every place it leads to is in the symbol and, fall-through aside, new to the path |
| PathMerge.Explore | scripts/triton_bridge.py:860-950 | the work list terminates and yields exactly the paths of the recursion over the tree of branches, failing exactly where that meets a revisit, a limit, an instruction that cannot go on or an undecided solver, or finds no return; every input satisfies exactly one recorded path and returns its value |
| PathTree.ExplorationSucceeds | scripts/triton_bridge.py:860-950 | success implies a clean tree, where no path revisits an address, leaves the symbol, stops where it cannot go on, exceeds the instruction limit or is left undecided, with 1 to 64 feasible returns; a clean tree with at most 64 returns in all succeeds if and only if one is feasible |
| PathMerge.MergePaths | scripts/triton_bridge.py:681-687 | the nested conditional evaluates to the first satisfied path's value, the last path being the default |
| PathMerge.MergeSymbol | scripts/triton_bridge.py:846-963 | succeeds exactly when the exploration does; with a right solver every input then returns exactly what the merged value says, and every recorded example satisfies its path |
| PathMerge.ReturnsOnce | scripts/triton_bridge.py:658-660 | an input returns at most one value |

## Left out

- ELF parsing, hashing, JSON reports, provenance text, warnings and error messages: inputs and outputs are values.
- Instruction decoding and `classify`: foreign tables; a decoder is a table of its results.
- Emission of `CallDirect` and helper stitching in `lift_symbol`: lift correctness is for the call-free entry `lift_cfg`; recovery, the stack proof and the dataflow are modelled with calls allowed as well.
- `region_contract`, `lift_physical_region`, `operation_for` and the region validators: one-to-one translation and bookkeeping.
- Mapped-memory, `SaveRegister` and `RestoreRegister` instructions in the machine: scalar recovery refuses them.
- `lift_linear`'s refusal of prefixes, segments, ENDBR64 and operands on NOP or RET: a parameter says which encodings it takes.
- Call-site, reference-site and unresolved-target lists, instruction counts and names in the effect analysis.
- Which accesses an instruction makes, and their base, index, displacement, size, segment and bit offset, come from the decoder; overrides whose base is always zero in 64-bit mode count as none. Accesses the decoder does not report are not part of this model.
- The RegionSpec's own validation (digests, byte length, alignment residues): decision regions take a validated one.
- Returns that do not go back to their call, in the effect analysis: excluded by the stated System V contract, as in the source's own assumption text.
- Function address lists, call candidates and entry probes of the disassembler.
- Sections whose byte range wraps past 2^64: a section is required to have an address for every byte.
- Triton's engine, the console evaluator and snapshot replay: symbolic state is a function of the two inputs, each conditional's outcomes are exhaustive and exclusive, and the solver is an oracle.
