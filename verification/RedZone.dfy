/**
 Accepted code that no program over the six arguments can lift: a red-zone slot is stored, RBP is
 pushed over it and popped, and the slot is read back, so RAX is the caller's RBP.
 */
module RedZone {
  import opened Wrappers
  import opened Words
  import opened Memory
  import opened Semantics
  import opened Machine
  import opened Decode
  import opened CfgRecovery
  import opened Fields
  import opened FlagUse
  import opened GenKill
  import opened DefiniteAssignment
  import opened ScalarRecovery
  import opened Ssa
  import opened Runs
  import opened Paths
  import opened LiftCorrect
  import opened Lift
  import StackProof

  const A: nat := 0x1000

  /** mov [rsp-8], rdi; push rbp; pop rbp; mov rax, [rsp-8]; ret. Offsets inside instructions are never decoded. */
  const RED_ZONE: Code := Code(A, [
    Instruction(StoreStack64(RSP, -8, RDI), 5, 0), Invalid, Invalid, Invalid, Invalid,
    Instruction(SaveFramePointer, 1, 0),
    Instruction(RestoreFramePointer, 1, 0),
    Instruction(LoadStack64(RAX, RSP, -8), 5, 0), Invalid, Invalid, Invalid, Invalid,
    Instruction(Ret, 1, 0)])

  const ADDRESSES: set<nat> := {A, A + 5, A + 6, A + 7, A + 12}

  const SLOT := StackProof.StackSlot(-8, 8)

  const RED_NODES: Nodes := map[
    A := Node(StoreStack64(RSP, -8, RDI), [A + 5], None, Some(0)),
    A + 5 := Node(SaveFramePointer, [A + 6], None, None),
    A + 6 := Node(RestoreFramePointer, [A + 7], None, None),
    A + 7 := Node(LoadStack64(RAX, RSP, -8), [A + 12], None, Some(0)),
    A + 12 := Node(Ret, [], None, None)]

  /** The frame state of each instruction. */
  function FrameAt(ip: nat): StackProof.FrameState {
    if ip == A + 6 then StackProof.FrameState(-8, None, true) else StackProof.ENTRY_FRAME
  }

  /** What is certainly initialised at each instruction. */
  function HeldAt(ip: nat): set<Field> {
    if ip == A then {RegisterField(RDI)}
    else if ip == A + 12 then {RegisterField(RAX)}
    else {SlotField(0)}
  }

  lemma Instructions(ip: nat)
    requires ip in ADDRESSES
    ensures RED_ZONE.Decodes(ip) && RED_ZONE.OpAt(ip) == RED_NODES[ip].op
    ensures Admissible(RED_ZONE, Scalar(CALL_FREE), ip) &&
            SuccessorsOf(RED_ZONE, Scalar(CALL_FREE), ip) == RED_NODES[ip].successors
    ensures RED_NODES[ip] == NodeAt(RED_ZONE, Scalar(CALL_FREE), ip).(slot := RED_NODES[ip].slot)
    ensures forall s :: s in RED_NODES[ip].successors ==> s in ADDRESSES && RED_ZONE.Contains(s)
  {
  }

  lemma ReachesExactly()
    ensures forall ip :: Reached(RED_ZONE, Scalar(CALL_FREE), ip) <==> ip in ADDRESSES
  {
    var edges := Edges(RED_ZONE, Scalar(CALL_FREE));
    forall ip | ip in ADDRESSES
      ensures edges(ip) <= ADDRESSES
    {
      Instructions(ip);
    }
    forall ip | Reached(RED_ZONE, Scalar(CALL_FREE), ip)
      ensures ip in ADDRESSES
    {
      ClosedHoldsReachable(edges, ADDRESSES, A, ip);
    }
    AddressesReached();
  }

  lemma EdgeTaken(ip: nat, next: nat)
    requires ip in ADDRESSES && RED_NODES[ip].successors == [next] && Reached(RED_ZONE, Scalar(CALL_FREE), ip)
    ensures Reached(RED_ZONE, Scalar(CALL_FREE), next)
  {
    Instructions(ip);
    assert next in RED_NODES[ip].successors;
    ReachStep(Edges(RED_ZONE, Scalar(CALL_FREE)), A, ip, next);
  }

  lemma AddressesReached()
    ensures forall ip :: ip in ADDRESSES ==> Reached(RED_ZONE, Scalar(CALL_FREE), ip)
  {
    ReachSelf(Edges(RED_ZONE, Scalar(CALL_FREE)), A);
    EdgeTaken(A, A + 5);
    EdgeTaken(A + 5, A + 6);
    EdgeTaken(A + 6, A + 7);
    EdgeTaken(A + 7, A + 12);
  }

  lemma Disjoint(ip: nat, other: nat)
    requires ip in ADDRESSES && other in ADDRESSES && ip != other
    ensures !RED_ZONE.Overlap(ip, other)
  {
  }

  lemma FramesArrive(ip: nat, s: StackProof.FrameState)
    requires StackProof.Arrives(RED_ZONE, false, ip, s)
    ensures ip in ADDRESSES && s == FrameAt(ip)
  {
    var edges := StackProof.FrameEdges(RED_ZONE, false);
    var pairs := set x | x in ADDRESSES :: (x, FrameAt(x));
    forall w | w in pairs
      ensures edges(w) <= pairs
    {
      FrameMoves(w.0);
    }
    assert (A, FrameAt(A)) in pairs;
    ClosedHoldsReachable(edges, pairs, (A, StackProof.ENTRY_FRAME), (ip, s));
  }

  lemma FrameMoves(ip: nat)
    requires ip in ADDRESSES
    ensures StackProof.Accepted(RED_ZONE, false, ip, FrameAt(ip))
    ensures forall n :: n in StackProof.SuccessorsAfter(RED_ZONE, false, ip, FrameAt(ip)) ==>
              n in ADDRESSES && StackProof.StateAfter(RED_ZONE, false, ip, FrameAt(ip)) == FrameAt(n)
    ensures StackProof.SuccessorsAfter(RED_ZONE, false, ip, FrameAt(ip)) == RED_NODES[ip].successors
    ensures StackProof.Accesses(RED_ZONE, ip) ==> StackProof.SlotAt(RED_ZONE, false, ip, FrameAt(ip)) == SLOT
    ensures StackProof.Accesses(RED_ZONE, ip) <==> RED_NODES[ip].slot.Some?
  {
    Instructions(ip);
  }

  lemma FrameTaken(ip: nat, next: nat)
    requires ip in ADDRESSES && RED_NODES[ip].successors == [next] &&
             StackProof.Arrives(RED_ZONE, false, ip, FrameAt(ip))
    ensures StackProof.Arrives(RED_ZONE, false, next, FrameAt(next))
  {
    FrameMoves(ip);
    assert next in StackProof.SuccessorsAfter(RED_ZONE, false, ip, FrameAt(ip));
    ReachStep(StackProof.FrameEdges(RED_ZONE, false), (A, StackProof.ENTRY_FRAME), (ip, FrameAt(ip)),
      (next, FrameAt(next)));
  }

  lemma AllArrive(ip: nat)
    requires ip in ADDRESSES
    ensures StackProof.Arrives(RED_ZONE, false, ip, FrameAt(ip))
  {
    ReachSelf(StackProof.FrameEdges(RED_ZONE, false), (A, StackProof.ENTRY_FRAME));
    FrameTaken(A, A + 5);
    FrameTaken(A + 5, A + 6);
    FrameTaken(A + 6, A + 7);
    FrameTaken(A + 7, A + 12);
  }

  lemma OneSlot()
    ensures StackProof.SlotsExact(RED_ZONE, false, [SLOT])
  {
    AllArrive(A);
    FrameMoves(A);
    assert StackProof.SlotUsed(RED_ZONE, false, SLOT);
    forall slot | StackProof.SlotUsed(RED_ZONE, false, slot)
      ensures slot == SLOT
    {
      var ip, s :| StackProof.Arrives(RED_ZONE, false, ip, s) && StackProof.Accepted(RED_ZONE, false, ip, s) &&
                   StackProof.Accesses(RED_ZONE, ip) && StackProof.SlotAt(RED_ZONE, false, ip, s) == slot;
      FramesArrive(ip, s);
      FrameMoves(ip);
    }
  }

  lemma Provable()
    ensures StackProof.Provable(RED_ZONE, false) && FramesSound(RED_ZONE, false)
  {
    forall ip, s | StackProof.Arrives(RED_ZONE, false, ip, s)
      ensures ip in ADDRESSES && s == FrameAt(ip) && StackProof.Accepted(RED_ZONE, false, ip, s)
    {
      FramesArrive(ip, s);
      FrameMoves(ip);
    }
    forall ip, other | ip in ADDRESSES && other in ADDRESSES && ip != other
      ensures !RED_ZONE.Overlap(ip, other)
    {
      Disjoint(ip, other);
    }
    OneSlot();
    AllArrive(A + 12);
    Instructions(A + 12);
  }

  lemma NoBranches(nodes: Nodes, entry: nat)
    requires ClosedGraph(nodes, entry) && forall ip :: ip in nodes ==> !nodes[ip].op.Jcc?
    ensures FlagSafe(nodes, entry)
  {
    SafeByLiveness(nodes, entry);
    forall p: seq<nat> | FlowPath(nodes, entry, p)
      ensures Last(p) in nodes && !nodes[Last(p)].op.Jcc?
    {
      PathInNodes(nodes, entry, p);
    }
  }

  lemma Recovers()
    ensures Recoverable(RED_ZONE, Scalar(CALL_FREE))
    ensures NodesExact(RED_ZONE, Scalar(CALL_FREE), RED_NODES)
  {
    ReachesExactly();
    forall ip | ip in ADDRESSES
      ensures Admissible(RED_ZONE, Scalar(CALL_FREE), ip)
      ensures RED_NODES[ip] == NodeAt(RED_ZONE, Scalar(CALL_FREE), ip).(slot := RED_NODES[ip].slot)
    {
      Instructions(ip);
    }
    forall ip, other | ip in ADDRESSES && other in ADDRESSES && ip != other
      ensures !RED_ZONE.Overlap(ip, other)
    {
      Disjoint(ip, other);
    }
    assert forall ip :: ip in RED_NODES <==> ip in ADDRESSES;
  }

  lemma ClosureSafe(nodes: Nodes)
    requires NodesExact(RED_ZONE, Scalar(CALL_FREE), nodes)
    ensures FlagSafe(nodes, A)
  {
    ReachesExactly();
    GraphClosed(RED_ZONE, Scalar(CALL_FREE), nodes);
    forall ip | ip in nodes
      ensures !nodes[ip].op.Jcc?
    {
      NoBranchAt(nodes, ip);
    }
    NoBranches(nodes, A);
  }

  lemma NoBranchAt(nodes: Nodes, ip: nat)
    requires NodesExact(RED_ZONE, Scalar(CALL_FREE), nodes) && ip in nodes && ip in ADDRESSES
    ensures !nodes[ip].op.Jcc?
  {
    Instructions(ip);
  }

  lemma Accepted()
    ensures Accepts(RED_ZONE, CALL_FREE)
  {
    Recovers();
    Provable();
    forall nodes: Nodes | ExactClosure(RED_ZONE, Scalar(CALL_FREE), nodes)
      ensures FlagSafe(nodes, A)
    {
      ClosureSafe(nodes);
    }
  }

  lemma Bundle(code: Code, nodes: Nodes, slots: seq<StackProof.StackSlot>)
    requires NodesExact(code, Scalar(CALL_FREE), nodes) && FramesSound(code, false)
    requires SlotsAssigned(code, false, nodes, slots) && FlagSafe(nodes, code.address)
    ensures ScalarRecovered(code, CALL_FREE, nodes)
  {
  }

  lemma RecoversNodes()
    ensures ScalarRecovered(RED_ZONE, CALL_FREE, RED_NODES)
  {
    Recovers();
    Provable();
    ClosureSafe(RED_NODES);
    SlotsPlaced();
    Bundle(RED_ZONE, RED_NODES, [SLOT]);
  }

  lemma SlotsPlaced()
    ensures SlotsAssigned(RED_ZONE, false, RED_NODES, [SLOT])
  {
    OneSlot();
    forall ip, s | ip in RED_NODES && StackProof.Arrives(RED_ZONE, false, ip, s) &&
                   StackProof.Accepted(RED_ZONE, false, ip, s) && StackProof.Accesses(RED_ZONE, ip)
      ensures RED_NODES[ip].slot == Some(0) && StackProof.SlotAt(RED_ZONE, false, ip, s) == SLOT
    {
      FramesArrive(ip, s);
      FrameMoves(ip);
    }
  }

  /** Where each instruction leaves the initialised fields. */
  lemma HeldFlows(ip: nat, next: nat, available: set<Field>)
    requires ip in RED_NODES && next in RED_NODES[ip].successors && HeldAt(ip) <= available
    ensures next in RED_NODES && HeldAt(next) <= (available - Kills(RED_NODES[ip])) + Defs(RED_NODES[ip])
  {
    if ip == A {
      assert SlotField(0) in Defs(RED_NODES[ip]);
    } else if ip == A + 7 {
      assert RAX in EffectsOf(RED_NODES[ip].op).writeRegisters;
      assert RegisterField(RAX) in Defs(RED_NODES[ip]);
    } else {
      assert ip == A + 5 || ip == A + 6;
    }
  }

  lemma {:induction false} Initialised(p: seq<nat>)
    requires FlowPath(RED_NODES, A, p)
    ensures Last(p) in RED_NODES && HeldAt(Last(p)) <= AvailableAlong(Initialization(RED_NODES, A), p)
    decreases |p|
  {
    var q := Initialization(RED_NODES, A);
    if |p| == 1 {
      assert RDI in ARGUMENTS by {
        assert ARGUMENTS[0] == RDI;
      }
    } else {
      PathFront(NodeEdges(RED_NODES), A, p);
      Initialised(Front(p));
      HeldFlows(Last(Front(p)), Last(p), AvailableAlong(q, Front(p)));
    }
  }

  lemma ReadsHeld(ip: nat)
    requires ip in RED_NODES
    ensures Reads(RED_NODES[ip]) <= HeldAt(ip)
  {
  }

  lemma ReadsInOrder()
    ensures ReadsInitialized(RED_NODES, A)
  {
    var q := Initialization(RED_NODES, A);
    InitializedIsHeld(RED_NODES, A);
    forall ip, f | ip in RED_NODES && f in Reads(RED_NODES[ip])
      ensures !MissingAt(q, ip, f)
    {
      ReadsHeld(ip);
      forall p: seq<nat> | PathFrom(q.succ, q.entry, p) && Last(p) == ip
        ensures f in AvailableAlong(q, p)
      {
        Initialised(p);
      }
    }
  }

  // ----- what the machine does -----

  function FrameOf(rbp: Word): State {
    State(A, map[RSP := 0x7000, RBP := rbp], Flags(false, false, false, false), map[])
  }

  lemma Steps(m: State)
    requires m.rip in ADDRESSES
    ensures MachineStep(RED_ZONE, m) ==
            if m.rip == A + 12 then Returned(Effect(Ret, m).(rip := Load(m.mem, Get(m.regs, RSP), WORD_BYTES)))
            else Next(Effect(RED_NODES[m.rip].op, m).(rip := RED_NODES[m.rip].successors[0]))
  {
    Instructions(m.rip);
  }

  lemma ReturnsRbp(rbp: Word)
    ensures MachineRun(RED_ZONE, FrameOf(rbp), 5).Returned?
    ensures Get(MachineRun(RED_ZONE, FrameOf(rbp), 5).state.regs, RAX) == rbp
  {
    var m0 := FrameOf(rbp);
    Steps(m0);
    var m1 := MachineStep(RED_ZONE, m0).state;
    OneMore(m0, 0, m0);
    assert m1.rip == A + 5 && m1.regs == m0.regs;
    PushesRbp(m0, m1, rbp);
  }

  lemma PushesRbp(m0: State, m1: State, rbp: Word)
    requires MachineRun(RED_ZONE, m0, 1) == Next(m1) && m1.rip == A + 5
    requires Get(m1.regs, RSP) == 0x7000 && Get(m1.regs, RBP) == rbp
    ensures MachineRun(RED_ZONE, m0, 5).Returned? && Get(MachineRun(RED_ZONE, m0, 5).state.regs, RAX) == rbp
  {
    Steps(m1);
    var m2 := MachineStep(RED_ZONE, m1).state;
    OneMore(m0, 1, m1);
    assert Load(m2.mem, 0x6FF8, WORD_BYTES) == rbp by {
      Pow256Facts();
      LoadStored(m1.mem, 0x6FF8, WORD_BYTES, rbp);
    }
    PopsRbp(m0, m2, rbp);
  }

  lemma PopsRbp(m0: State, m2: State, rbp: Word)
    requires MachineRun(RED_ZONE, m0, 2) == Next(m2) && m2.rip == A + 6
    requires Get(m2.regs, RSP) == 0x6FF8 && Load(m2.mem, 0x6FF8, WORD_BYTES) == rbp
    ensures MachineRun(RED_ZONE, m0, 5).Returned? && Get(MachineRun(RED_ZONE, m0, 5).state.regs, RAX) == rbp
  {
    Steps(m2);
    OneMore(m0, 2, m2);
    var m3 := MachineStep(RED_ZONE, m2).state;
    assert m3.rip == A + 7 && Get(m3.regs, RSP) == 0x7000 && m3.mem == m2.mem;
    LoadsRbp(m0, m3, rbp);
  }

  lemma OneMore(m0: State, steps: nat, m: State)
    requires MachineRun(RED_ZONE, m0, steps) == Next(m)
    ensures MachineRun(RED_ZONE, m0, steps + 1) == MachineStep(RED_ZONE, m)
  {
  }

  lemma LoadsRbp(m0: State, m3: State, rbp: Word)
    requires MachineRun(RED_ZONE, m0, 3) == Next(m3) && m3.rip == A + 7
    requires Get(m3.regs, RSP) == 0x7000 && Load(m3.mem, 0x6FF8, WORD_BYTES) == rbp
    ensures MachineRun(RED_ZONE, m0, 5).Returned? && Get(MachineRun(RED_ZONE, m0, 5).state.regs, RAX) == rbp
  {
    Steps(m3);
    var m4 := MachineStep(RED_ZONE, m3).state;
    OneMore(m0, 3, m3);
    assert m4.rip == A + 12 && Get(m4.regs, RAX) == rbp;
    Steps(m4);
    OneMore(m0, 4, m4);
  }

  lemma RedZoneLiftable()
    ensures Liftable(RED_ZONE)
  {
    Accepted();
    RecoversNodes();
    ReadsInOrder();
  }

  lemma {:induction false} FinishedStays(prog: Program, arguments: seq<Word>, v: Val, n: nat, more: nat)
    requires SsaRun(prog, arguments, n) == Finished(v)
    ensures SsaRun(prog, arguments, n + more) == Finished(v)
    decreases more
  {
    if more > 0 {
      FinishedStays(prog, arguments, v, n, more - 1);
    }
  }

  /** A program returns at most one value, whatever its number of steps. */
  lemma FinishedOnce(prog: Program, arguments: seq<Word>, v: Val, n: nat, w: Val, k: nat)
    requires SsaRun(prog, arguments, n) == Finished(v) && SsaRun(prog, arguments, k) == Finished(w)
    ensures v == w
  {
    FinishedStays(prog, arguments, v, n, k);
    FinishedStays(prog, arguments, w, k, n);
  }

  /** The lifter accepts this code, and for some caller a program over the arguments never returns the machine's RAX. */
  lemma NoProgramLiftsRedZone(prog: Program)
    ensures Liftable(RED_ZONE)
    ensures exists rbp: Word ::
              MachineRun(RED_ZONE, FrameOf(rbp), 5).Returned? &&
              NeverReturns(prog, Arguments(FrameOf(rbp)), Get(MachineRun(RED_ZONE, FrameOf(rbp), 5).state.regs, RAX))
  {
    RedZoneLiftable();
    var zero, one := FrameOf(0), FrameOf(1);
    assert Arguments(zero) == Arguments(one);
    ReturnsRbp(0);
    ReturnsRbp(1);
    if !NeverReturns(prog, Arguments(zero), 0) && !NeverReturns(prog, Arguments(one), 1) {
      var n: nat :| SsaRun(prog, Arguments(zero), n) == Finished(I64(0));
      var k: nat :| SsaRun(prog, Arguments(one), k) == Finished(I64(1));
      FinishedOnce(prog, Arguments(zero), I64(0), n, I64(1), k);
    }
  }

  ghost predicate NeverReturns(prog: Program, arguments: seq<Word>, v: Word) {
    forall n: nat :: SsaRun(prog, arguments, n) != Finished(I64(v))
  }
}
