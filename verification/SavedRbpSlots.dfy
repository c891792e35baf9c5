/**
 The one gap of the lift, made exact. The stack proof checks each access against the window open at
 that access, and pushing RBP defines no slot, so a slot written in the red zone under the saved-RBP
 word is overwritten behind the lifted program's back. Reads agree on every path if and only if no
 path reads such a slot again before defining it.
 */
module SavedRbpSlots {
  import opened Wrappers
  import opened Words
  import opened Memory
  import opened Semantics
  import opened Machine
  import opened Decode
  import opened CfgRecovery
  import opened Fields
  import opened DefiniteAssignment
  import opened ScalarRecovery
  import opened StackSoundness
  import opened Agreement
  import opened Simulation
  import opened Ssa
  import opened Emit
  import opened Compile
  import opened Paths
  import opened LiftCorrect
  import StackProof

  /** Along p, the last node's reads give the lifted program the machine's values. */
  ghost predicate ReadsAgree(code: Code, nodes: Nodes, slots: seq<StackProof.StackSlot>, prog: Program, m0: State,
                             p: seq<nat>) {
    |p| > 0 && (forall ip :: ip in p ==> ip in prog.blocks) && Last(p) in nodes &&
    forall f :: f in Reads(nodes[Last(p)]) ==>
      Look(EnvAlong(prog, Arguments(m0), p), In(f, Last(p))) ==
        FieldOf(MachineAlong(code, m0, p), Get(m0.regs, RSP), slots, f)
  }

  /** A condition on the code alone that rules the gap out. */
  predicate NoSlotUnderSavedRbp(nodes: Nodes, slots: seq<StackProof.StackSlot>) {
    (exists ip | ip in nodes :: nodes[ip].op.SaveFramePointer?) ==>
      forall i | 0 <= i < |slots| :: !UnderSavedRbp(slots[i])
  }

  lemma {:induction false} NothingTaintsSlots(nodes: Nodes, slots: seq<StackProof.StackSlot>, p: seq<nat>, i: nat)
    requires |p| > 0 && NoSlotUnderSavedRbp(nodes, slots)
    ensures SlotField(i) !in TaintAlong(nodes, slots, p)
    decreases |p|
  {
    if |p| > 1 {
      NothingTaintsSlots(nodes, slots, Front(p), i);
    }
  }

  lemma ClearSlotsAreClean(nodes: Nodes, slots: seq<StackProof.StackSlot>, entry: nat)
    requires NoSlotUnderSavedRbp(nodes, slots)
    ensures SlotsClean(nodes, slots, entry)
  {
    forall p: seq<nat>, i: nat | FlowPath(nodes, entry, p)
      ensures SlotField(i) !in TaintAlong(nodes, slots, p)
    {
      NothingTaintsSlots(nodes, slots, p, i);
    }
  }

  // ----- what a tainted slot holds -----

  /** The slot's bytes inside the saved-RBP word are those of the caller's RBP. */
  ghost predicate HoldsRbpBytes(mem: Mem, e: int, slot: StackProof.StackSlot, rbp: Word) {
    forall x :: slot.offset <= x < slot.offset + slot.width && -8 <= x ==> RbpByte(mem, e, x, rbp)
  }

  ghost predicate RbpByte(mem: Mem, e: int, x: int, rbp: Word)
    requires -8 <= x
  {
    At(mem, e + x) == ByteOf(rbp, x + 8)
  }

  lemma PushTaints(mem: Mem, e: int, slot: StackProof.StackSlot, rbp: Word)
    requires slot.offset + slot.width <= 0
    ensures HoldsRbpBytes(Store(mem, e - 8, WORD_BYTES, rbp), e, slot, rbp)
  {
    var pushed := Store(mem, e - 8, WORD_BYTES, rbp);
    forall x | slot.offset <= x < slot.offset + slot.width && -8 <= x
      ensures RbpByte(pushed, e, x, rbp)
    {
      StoreByte(mem, e - 8, WORD_BYTES, rbp, e + x);
    }
  }

  /** Stores to other slots do not disturb it. */
  lemma StoreKeepsTaint(x: Outcome, node: Node, before: Mem, after: Mem, e: int, slots: seq<StackProof.StackSlot>,
                        i: nat, rbp: Word)
    requires SlotsValid(slots) && i < |slots| && StoresOwnSlot(node, x, before, after, e, slots)
    requires HoldsRbpBytes(before, e, slots[i], rbp) && (WritesSlot(node.op) ==> node.slot != Some(i))
    ensures HoldsRbpBytes(after, e, slots[i], rbp)
  {
    if WritesSlot(node.op) {
      var own := slots[node.slot.value];
      forall b | slots[i].offset <= b < slots[i].offset + slots[i].width && -8 <= b
        ensures RbpByte(after, e, b, rbp)
      {
        assert RbpByte(before, e, b, rbp);
        StoreElsewhere(before, e, own.offset, own.width, x.memory.value, b);
      }
    }
  }

  lemma StepTaints(node: Node, m0: State, m: State, s: StackProof.FrameState, slots: seq<StackProof.StackSlot>,
                   taint: set<Field>, i: nat)
    requires FrameHolds(m0, m, s) && SlotsValid(slots) && OwnSlot(node, s, slots) &&
             StackProof.Transfer(node.op, s, false).Some?
    requires Emittable(node) && !node.op.Ret? && SlotField(i) in TaintAfter(node, slots, taint)
    requires SlotField(i) in taint ==>
               i < |slots| && UnderSavedRbp(slots[i]) &&
                 HoldsRbpBytes(m.mem, Get(m0.regs, RSP), slots[i], Get(m0.regs, RBP))
    ensures i < |slots| && UnderSavedRbp(slots[i])
    ensures HoldsRbpBytes(Effect(node.op, m).mem, Get(m0.regs, RSP), slots[i], Get(m0.regs, RBP))
  {
    if node.op.SaveFramePointer? {
      PushedAtEntry(m0, m, s);
      PushTaints(m.mem, Get(m0.regs, RSP), slots[i], Get(m0.regs, RBP));
    } else if !IsFrameOp(node.op) {
      ScalarMemory(node, m0, m, s, slots);
      SlotDefs(node, i);
      StoreKeepsTaint(Exec(node.op, m.regs, OperandValue(node.op, m)), node, m.mem, Effect(node.op, m).mem,
                      Get(m0.regs, RSP), slots, i, Get(m0.regs, RBP));
    }
  }

  /** What the path lemmas need of a lift. */
  ghost predicate SlotsKnown(code: Code, nodes: Nodes, slots: seq<StackProof.StackSlot>) {
    && NodesExact(code, Scalar(CALL_FREE), nodes) && FramesSound(code, false) && AllEmittable(nodes)
    && SlotsAssigned(code, false, nodes, slots) && SlotsValid(slots) && ClosedGraph(nodes, code.address)
  }

  lemma {:induction false} TaintedSlotHoldsRbp(code: Code, nodes: Nodes, slots: seq<StackProof.StackSlot>, m0: State,
                                               p: seq<nat>, i: nat)
    requires SlotsKnown(code, nodes, slots) && FlowPath(nodes, code.address, p) &&
             SlotField(i) in TaintAlong(nodes, slots, p)
    ensures i < |slots| && UnderSavedRbp(slots[i])
    ensures HoldsRbpBytes(MachineAlong(code, m0, p).mem, Get(m0.regs, RSP), slots[i], Get(m0.regs, RBP))
    decreases |p|
  {
    if |p| > 1 {
      PathFront(NodeEdges(nodes), code.address, p);
      var previous, taint := Last(Front(p)), TaintAlong(nodes, slots, Front(p));
      PathInNodes(nodes, code.address, Front(p));
      if SlotField(i) in taint {
        TaintedSlotHoldsRbp(code, nodes, slots, m0, Front(p), i);
      }
      var s := PathFrame(code, nodes, m0, Front(p));
      NodeOwnsSlot(code, nodes, slots, previous, s);
      StepTaints(nodes[previous], m0, MachineAlong(code, m0, Front(p)), s, slots, taint, i);
    }
  }

  // ----- two callers no program can tell apart -----

  /** The caller m0 but for RBP. */
  function WithRbp(m0: State, rbp: Word): State {
    m0.(regs := m0.regs[RBP := rbp])
  }

  lemma {:induction false} OnesByte(n: nat, k: nat)
    requires k < n
    ensures ByteOf(Pow256(n) - 1, k) == 255
  {
    assert (256 * Pow256(n - 1) - 1) / 256 == Pow256(n - 1) - 1;
    if k > 0 {
      OnesByte(n - 1, k - 1);
    }
  }

  lemma {:induction false} ZeroByte(k: nat)
    ensures ByteOf(0, k) == 0
  {
    if k > 0 {
      ZeroByte(k - 1);
    }
  }

  lemma RbpShows(mem: Mem, other: Mem, e: int, slot: StackProof.StackSlot)
    requires UnderSavedRbp(slot) && slot.offset + slot.width <= 0 && slot.width > 0
    requires HoldsRbpBytes(mem, e, slot, 0) && HoldsRbpBytes(other, e, slot, TWO64 - 1)
    ensures Load(mem, e + slot.offset, slot.width) != Load(other, e + slot.offset, slot.width)
  {
    var x := slot.offset + slot.width - 1;
    assert RbpByte(mem, e, x, 0) && RbpByte(other, e, x, TWO64 - 1);
    ByteOfLoad(mem, e + slot.offset, slot.width, e + x);
    ByteOfLoad(other, e + slot.offset, slot.width, e + x);
    ZeroByte(x + 8);
    Pow256Facts();
    OnesByte(8, x + 8);
  }

  lemma CallersAlike(m0: State, rbp: Word)
    ensures Arguments(WithRbp(m0, rbp)) == Arguments(m0) && Get(WithRbp(m0, rbp).regs, RSP) == Get(m0.regs, RSP)
    ensures Get(WithRbp(m0, rbp).regs, RBP) == rbp
  {
  }

  /** Along any path a tainted slot differs between two callers with different RBP. */
  lemma TaintedFieldsDiffer(code: Code, nodes: Nodes, slots: seq<StackProof.StackSlot>, m0: State, p: seq<nat>, i: nat)
    requires SlotsKnown(code, nodes, slots) && FlowPath(nodes, code.address, p) &&
             SlotField(i) in TaintAlong(nodes, slots, p)
    ensures FieldOf(MachineAlong(code, WithRbp(m0, 0), p), Get(m0.regs, RSP), slots, SlotField(i)) !=
            FieldOf(MachineAlong(code, WithRbp(m0, TWO64 - 1), p), Get(m0.regs, RSP), slots, SlotField(i))
  {
    var zero, ones := WithRbp(m0, 0), WithRbp(m0, TWO64 - 1);
    CallersAlike(m0, 0);
    CallersAlike(m0, TWO64 - 1);
    TaintedSlotHoldsRbp(code, nodes, slots, zero, p, i);
    TaintedSlotHoldsRbp(code, nodes, slots, ones, p, i);
    assert slots[i].offset + slots[i].width <= 0 && (slots[i].width == 4 || slots[i].width == 8) by {
      assert slots[i] in slots;
      SlotWidth(code, slots[i]);
    }
    FieldShowsRbp(MachineAlong(code, zero, p), MachineAlong(code, ones, p), Get(m0.regs, RSP), slots, i);
  }

  lemma FieldShowsRbp(a: State, b: State, e: Word, slots: seq<StackProof.StackSlot>, i: nat)
    requires i < |slots| && UnderSavedRbp(slots[i]) && slots[i].offset + slots[i].width <= 0
    requires slots[i].width == 4 || slots[i].width == 8
    requires HoldsRbpBytes(a.mem, e, slots[i], 0) && HoldsRbpBytes(b.mem, e, slots[i], TWO64 - 1)
    ensures FieldOf(a, e, slots, SlotField(i)) != FieldOf(b, e, slots, SlotField(i))
  {
    RbpShows(a.mem, b.mem, e, slots[i]);
    FieldIsLoad(a, e, slots, i);
    FieldIsLoad(b, e, slots, i);
  }

  lemma FieldIsLoad(m: State, e: Word, slots: seq<StackProof.StackSlot>, i: nat)
    requires i < |slots| && (slots[i].width == 4 || slots[i].width == 8)
    ensures FieldOf(m, e, slots, SlotField(i)) == I64(Load(m.mem, e + slots[i].offset, slots[i].width))
  {
    LoadFits(m.mem, e + slots[i].offset, slots[i].width);
  }

  /** A tainted read cannot be right for both callers. */
  lemma TaintedReadDisagrees(code: Code, nodes: Nodes, slots: seq<StackProof.StackSlot>, prog: Program, m0: State,
                             p: seq<nat>, i: nat)
    requires SlotsKnown(code, nodes, slots) && FlowPath(nodes, code.address, p) &&
             SlotField(i) in TaintAlong(nodes, slots, p)
    requires Last(p) in nodes && SlotField(i) in Reads(nodes[Last(p)])
    ensures !ReadsAgree(code, nodes, slots, prog, WithRbp(m0, 0), p) ||
            !ReadsAgree(code, nodes, slots, prog, WithRbp(m0, TWO64 - 1), p)
  {
    CallersAlike(m0, 0);
    CallersAlike(m0, TWO64 - 1);
    TaintedFieldsDiffer(code, nodes, slots, m0, p, i);
    DifferentFields(code, nodes, slots, prog, WithRbp(m0, 0), WithRbp(m0, TWO64 - 1), p, SlotField(i));
  }

  lemma DifferentFields(code: Code, nodes: Nodes, slots: seq<StackProof.StackSlot>, prog: Program, m0: State, m1: State,
                        p: seq<nat>, f: Field)
    requires |p| > 0 && Last(p) in nodes && f in Reads(nodes[Last(p)]) && Arguments(m0) == Arguments(m1)
    requires FieldOf(MachineAlong(code, m0, p), Get(m0.regs, RSP), slots, f) != FieldOf(MachineAlong(code, m1, p),
             Get(m1.regs, RSP), slots, f)
    ensures !ReadsAgree(code, nodes, slots, prog, m0, p) || !ReadsAgree(code, nodes, slots, prog, m1, p)
  {
  }

  lemma SlotWidth(code: Code, slot: StackProof.StackSlot)
    requires StackProof.SlotUsed(code, false, slot)
    ensures slot.width == 4 || slot.width == 8
  {
  }

  lemma CleanReadsAgree(code: Code, nodes: Nodes, slots: seq<StackProof.StackSlot>, flow: Flow, prog: Program,
                        m0: State, p: seq<nat>)
    requires Lifted(code, nodes, slots, flow, prog) && SlotsClean(nodes, slots, code.address) &&
             FlowPath(nodes, code.address, p)
    ensures ReadsAgree(code, nodes, slots, prog, m0, p)
  {
    LiftedBlocks(code, nodes, slots, flow, prog);
    assert Unfold(true);
    CleanPath(nodes, slots, code.address, p);
    PathTracks(code, nodes, slots, flow, prog, m0, p);
    assert Last(p) in p;
  }

  lemma KnownSlots(code: Code, nodes: Nodes, slots: seq<StackProof.StackSlot>, flow: Flow, prog: Program)
    requires Lifted(code, nodes, slots, flow, prog)
    ensures SlotsKnown(code, nodes, slots)
  {
    assert Unfold(true);
    SlotsAreValid(code, slots);
    LiftedGraph(code, nodes);
  }

  /** Every read along every path from every caller agrees, exactly when no read is tainted. */
  lemma ReadsAgreeExactly(code: Code, nodes: Nodes, slots: seq<StackProof.StackSlot>, flow: Flow, prog: Program)
    requires Lifted(code, nodes, slots, flow, prog)
    ensures SlotsClean(nodes, slots, code.address) <==>
            forall m0: State, p: seq<nat> :: FlowPath(nodes, code.address, p) ==>
              ReadsAgree(code, nodes, slots, prog, m0, p)
  {
    if SlotsClean(nodes, slots, code.address) {
      forall m0: State, p: seq<nat> | FlowPath(nodes, code.address, p)
        ensures ReadsAgree(code, nodes, slots, prog, m0, p)
      {
        CleanReadsAgree(code, nodes, slots, flow, prog, m0, p);
      }
    } else {
      var p: seq<nat> :| FlowPath(nodes, code.address, p) && !SlotsCleanAt(nodes, slots, p);
      var i: nat :| SlotField(i) in Reads(nodes[Last(p)]) && SlotField(i) in TaintAlong(nodes, slots, p);
      KnownSlots(code, nodes, slots, flow, prog);
      TaintedReadDisagrees(code, nodes, slots, prog, State(0, map[], Flags(false, false, false, false), map[]), p, i);
    }
  }
}
