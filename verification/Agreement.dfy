/**
 How one instruction acts on the scalar fields: the machine's effect on registers, flags and slot
 memory against what the instruction defines.
 */
module Agreement {
  import opened Wrappers
  import opened Words
  import opened Memory
  import opened Semantics
  import opened Machine
  import opened CfgRecovery
  import opened Fields
  import opened Ssa
  import opened Emit
  import opened StackProof
  import opened StackSoundness

  function WordOf(v: nat): Val { if v < TWO64 then I64(v) else Undef }

  /** The machine's value of a field; a slot is its bytes, little endian, at its offset from the entry RSP. */
  function FieldOf(m: State, entryRsp: int, slots: seq<StackSlot>, f: Field): Val {
    match f
    case RegisterField(r) => I64(Get(m.regs, r))
    case FlagField(flag) => I1(FlagBit(m.flags, flag))
    case SlotField(i) =>
      if i < |slots| then WordOf(Load(m.mem, entryRsp + slots[i].offset, slots[i].width)) else Undef
  }

  /** Slots lie in the frame or its red zone and do not share bytes. */
  ghost predicate SlotsValid(slots: seq<StackSlot>) {
    && (forall i :: 0 <= i < |slots| ==> -4224 <= slots[i].offset && slots[i].offset + slots[i].width <= 0)
    && (forall i, j :: 0 <= i < j < |slots| ==>
          slots[i].offset + slots[i].width <= slots[j].offset || slots[j].offset + slots[j].width <= slots[i].offset)
  }

  /** The slot shares bytes with the saved-RBP word. */
  predicate UnderSavedRbp(slot: StackSlot) { slot.offset + slot.width > -8 }

  /** Fields an erased instruction changes on the machine without the lifted program knowing. */
  function Clobbers(op: Op, slots: seq<StackSlot>): set<Field> {
    if op.AdjustStack? then FlagFields(ALL_FLAGS)
    else if op.SaveFramePointer? then set i: nat | i < |slots| && UnderSavedRbp(slots[i]) :: SlotField(i)
    else {}
  }

  /** The node's own slot is the one its operand names in frame state s. */
  ghost predicate OwnSlot(node: Node, s: FrameState, slots: seq<StackSlot>) {
    StackAccess(node.op).Some? ==>
      && SlotFor(s, StackAccess(node.op).value, false).Some?
      && node.slot.Some? && node.slot.value < |slots|
      && slots[node.slot.value] == SlotFor(s, StackAccess(node.op).value, false).value
  }

  // ----- what a definition holds afterwards -----

  lemma RegisterDefined(node: Node, m: State, r: Gpr)
    requires Modelled(node.op) && !IsFrameOp(node.op) && !node.op.Ret?
    ensures var x := Exec(node.op, m.regs, OperandValue(node.op, m));
            if RegisterField(r) in Defs(node) then x.register == Some((r, Get(Effect(node.op, m).regs, r)))
            else Get(Effect(node.op, m).regs, r) == Get(m.regs, r)
  {
  }

  lemma FlagsDefined(node: Node, m: State, flag: Flag)
    requires Modelled(node.op) && !IsFrameOp(node.op) && !node.op.Ret?
    ensures var x := Exec(node.op, m.regs, OperandValue(node.op, m));
            if FlagField(flag) in Defs(node) then x.flags == Some(Effect(node.op, m).flags)
            else Effect(node.op, m).flags == m.flags
  {
  }

  /** A store to one slot reads back there and nowhere else. */
  lemma SlotStore(mem: Mem, e: int, slots: seq<StackSlot>, own: nat, v: nat, i: nat)
    requires SlotsValid(slots) && own < |slots| && i < |slots| && v < Pow256(slots[own].width)
    ensures var stored := Store(mem, e + slots[own].offset, slots[own].width, v);
            Load(stored, e + slots[i].offset, slots[i].width) ==
            if i == own then v else Load(mem, e + slots[i].offset, slots[i].width)
  {
    var offset, width := slots[own].offset, slots[own].width;
    if i == own {
      LoadStored(mem, e + offset, width, v);
    } else {
      LoadElsewhere(mem, e, offset, width, v, slots[i].offset, slots[i].width);
    }
  }

  /** Pushing RBP leaves slots clear of the saved word alone. */
  lemma SlotUnderPush(mem: Mem, e: int, slots: seq<StackSlot>, v: nat, i: nat)
    requires SlotsValid(slots) && i < |slots| && !UnderSavedRbp(slots[i])
    ensures Load(Store(mem, e - 8, WORD_BYTES, v), e + slots[i].offset, slots[i].width) ==
            Load(mem, e + slots[i].offset, slots[i].width)
  {
    LoadElsewhere(mem, e, -8, WORD_BYTES, v, slots[i].offset, slots[i].width);
  }

  /** Memory after a scalar instruction with outcome x: its own slot stored, or nothing. */
  ghost predicate StoresOwnSlot(node: Node, x: Outcome, before: Mem, after: Mem, e: int, slots: seq<StackSlot>) {
    if WritesSlot(node.op) then
      && x.memory.Some? && node.slot.Some? && node.slot.value < |slots|
      && x.memory.value < Pow256(slots[node.slot.value].width)
      && after == Store(before, e + slots[node.slot.value].offset, slots[node.slot.value].width, x.memory.value)
    else after == before
  }

  lemma ScalarMemory(node: Node, m0: State, m: State, s: FrameState, slots: seq<StackSlot>)
    requires Modelled(node.op) && !IsFrameOp(node.op) && !node.op.Ret?
    requires FrameHolds(m0, m, s) && OwnSlot(node, s, slots)
    ensures StoresOwnSlot(node, Exec(node.op, m.regs, OperandValue(node.op, m)), m.mem, Effect(node.op, m).mem,
            Get(m0.regs, RSP), slots)
  {
    EffectMemory(node.op, m);
    if WritesSlot(node.op) {
      OwnStore(node, m0, m, s, slots, Exec(node.op, m.regs, OperandValue(node.op, m)).memory.value);
      StoredFits(node.op, m);
    }
  }

  /** A store through the operand is a store to the node's slot. */
  lemma OwnStore(node: Node, m0: State, m: State, s: FrameState, slots: seq<StackSlot>, v: nat)
    requires FrameHolds(m0, m, s) && OwnSlot(node, s, slots) && StackAccess(node.op).Some?
    ensures var a, own := StackAccess(node.op).value, slots[node.slot.value];
            && own.width == a.width
            && Store(m.mem, OperandAddress(a, m.regs), a.width, v) ==
              Store(m.mem, Get(m0.regs, RSP) + own.offset, own.width, v)
  {
    var a, own := StackAccess(node.op).value, slots[node.slot.value];
    OperandIsSlot(m0, m, s, a);
    StoreCongruent(m.mem, OperandAddress(a, m.regs), Get(m0.regs, RSP) + own.offset, a.width, v);
  }

  lemma EffectMemory(op: Op, m: State)
    requires Modelled(op) && !IsFrameOp(op) && !op.Ret?
    ensures WritesSlot(op) ==> StackAccess(op).Some? && Exec(op, m.regs, OperandValue(op, m)).memory.Some?
    ensures Effect(op, m).mem ==
            if WritesSlot(op) then
              Store(m.mem, OperandAddress(StackAccess(op).value, m.regs), StackAccess(op).value.width,
                    Exec(op, m.regs, OperandValue(op, m)).memory.value)
            else m.mem
  {
  }

  lemma SlotFieldOf(m: State, e: int, slots: seq<StackSlot>, i: nat)
    requires i < |slots|
    ensures FieldOf(m, e, slots, SlotField(i)) == WordOf(Load(m.mem, e + slots[i].offset, slots[i].width))
  {
  }

  lemma StoredSlot(x: Outcome, before: Mem, after: Mem, e: int, slots: seq<StackSlot>, own: nat, i: nat)
    requires SlotsValid(slots) && i < |slots| && own < |slots|
    requires x.memory.Some? && x.memory.value < Pow256(slots[own].width)
    requires after == Store(before, e + slots[own].offset, slots[own].width, x.memory.value)
    ensures Load(after, e + slots[i].offset, slots[i].width) ==
            if i == own then x.memory.value else Load(before, e + slots[i].offset, slots[i].width)
  {
    SlotStore(before, e, slots, own, x.memory.value, i);
  }

  /** What a scalar instruction with outcome x leaves in a slot. */
  lemma SlotEffect(node: Node, x: Outcome, before: Mem, after: Mem, e: int, slots: seq<StackSlot>, i: nat)
    requires Modelled(node.op) && !IsFrameOp(node.op)
    requires SlotsValid(slots) && i < |slots| && StoresOwnSlot(node, x, before, after, e, slots)
    ensures WordOf(Load(after, e + slots[i].offset, slots[i].width)) ==
            if SlotField(i) in Defs(node) then OutcomeValue(x, SlotField(i))
            else WordOf(Load(before, e + slots[i].offset, slots[i].width))
  {
    SlotDefs(node, i);
    if WritesSlot(node.op) {
      StoredSlot(x, before, after, e, slots, node.slot.value, i);
    }
  }

  lemma SlotDefs(node: Node, i: nat)
    requires Modelled(node.op) && !IsFrameOp(node.op) && (WritesSlot(node.op) ==> node.slot.Some?)
    ensures SlotField(i) in Defs(node) <==> WritesSlot(node.op) && node.slot == Some(i)
  {
  }

  lemma StoredFits(op: Op, m: State)
    requires WritesSlot(op)
    ensures Exec(op, m.regs, OperandValue(op, m)).memory.Some?
    ensures Exec(op, m.regs, OperandValue(op, m)).memory.value < Pow256(StackAccess(op).value.width)
  {
    Pow256Facts();
  }

  lemma ScalarSlot(node: Node, m0: State, m: State, s: FrameState, slots: seq<StackSlot>, i: nat)
    requires Modelled(node.op) && !IsFrameOp(node.op) && !node.op.Ret?
    requires FrameHolds(m0, m, s) && SlotsValid(slots) && OwnSlot(node, s, slots) && i < |slots|
    ensures FieldOf(Effect(node.op, m), Get(m0.regs, RSP), slots, SlotField(i)) ==
            if SlotField(i) in Defs(node) then OutcomeValue(Exec(node.op, m.regs, OperandValue(node.op, m)),
              SlotField(i))
            else FieldOf(m, Get(m0.regs, RSP), slots, SlotField(i))
  {
    var e: int, x, after := Get(m0.regs, RSP), Exec(node.op, m.regs, OperandValue(node.op, m)), Effect(node.op, m);
    assert StoresOwnSlot(node, x, m.mem, after.mem, e, slots) by {
      ScalarMemory(node, m0, m, s, slots);
    }
    SlotEffect(node, x, m.mem, after.mem, e, slots, i);
    SlotFieldOf(m, e, slots, i);
    SlotFieldOf(after, e, slots, i);
  }

  /** A scalar instruction: defined fields hold what it computes, the others keep their value. */
  lemma ScalarEffect(node: Node, m0: State, m: State, s: FrameState, slots: seq<StackSlot>, f: Field)
    requires Modelled(node.op) && !IsFrameOp(node.op) && !node.op.Ret?
    requires FrameHolds(m0, m, s) && SlotsValid(slots) && OwnSlot(node, s, slots)
    requires f.SlotField? ==> f.index < |slots|
    ensures var e := Get(m0.regs, RSP);
            FieldOf(Effect(node.op, m), e, slots, f) ==
            if f in Defs(node) then OutcomeValue(Exec(node.op, m.regs, OperandValue(node.op, m)), f)
              else FieldOf(m, e, slots, f)
  {
    match f {
      case RegisterField(r) => RegisterDefined(node, m, r);
      case FlagField(flag) => FlagsDefined(node, m, flag);
      case SlotField(i) => ScalarSlot(node, m0, m, s, slots, i);
    }
  }

  /** The push of RBP at the entry RSP changes no register field, flag or clear slot. */
  lemma PushEffect(m: State, slots: seq<StackSlot>, f: Field)
    requires SlotsValid(slots) && (f.SlotField? ==> f.index < |slots|) && f !in Clobbers(SaveFramePointer, slots)
    ensures var e := Get(m.regs, RSP);
            FieldOf(Effect(SaveFramePointer, m), e, slots, f) == FieldOf(m, e, slots, f)
  {
    if f.SlotField? {
      PushedSlot(m, slots, f.index);
    }
  }

  lemma PushedSlot(m: State, slots: seq<StackSlot>, i: nat)
    requires SlotsValid(slots) && i < |slots| && SlotField(i) !in Clobbers(SaveFramePointer, slots)
    ensures FieldOf(Effect(SaveFramePointer, m), Get(m.regs, RSP), slots, SlotField(i)) ==
            FieldOf(m, Get(m.regs, RSP), slots, SlotField(i))
  {
    var after := Effect(SaveFramePointer, m);
    assert after.mem == Store(m.mem, Get(m.regs, RSP) - 8, WORD_BYTES, Get(m.regs, RBP));
    SlotUnderPush(m.mem, Get(m.regs, RSP), slots, Get(m.regs, RBP), i);
    SlotFieldOf(m, Get(m.regs, RSP), slots, i);
    SlotFieldOf(after, Get(m.regs, RSP), slots, i);
  }

  /** An erased instruction defines nothing and changes only what it clobbers. */
  lemma FrameEffect(node: Node, m0: State, m: State, s: FrameState, slots: seq<StackSlot>, f: Field)
    requires IsFrameOp(node.op) && FrameHolds(m0, m, s) && SlotsValid(slots)
    requires Transfer(node.op, s, false).Some?
    requires (f.SlotField? ==> f.index < |slots|) && f !in Clobbers(node.op, slots)
    ensures Defs(node) == {}
    ensures FieldOf(Effect(node.op, m), Get(m0.regs, RSP), slots, f) == FieldOf(m, Get(m0.regs, RSP), slots, f)
  {
    if node.op.SaveFramePointer? {
      SaveEffect(m0, m, s, slots, f);
    } else {
      OtherFrameEffect(node.op, m, Get(m0.regs, RSP), slots, f);
    }
  }

  lemma SaveEffect(m0: State, m: State, s: FrameState, slots: seq<StackSlot>, f: Field)
    requires FrameHolds(m0, m, s) && SlotsValid(slots) && Transfer(SaveFramePointer, s, false).Some?
    requires (f.SlotField? ==> f.index < |slots|) && f !in Clobbers(SaveFramePointer, slots)
    ensures FieldOf(Effect(SaveFramePointer, m), Get(m0.regs, RSP), slots, f) == FieldOf(m, Get(m0.regs, RSP), slots, f)
  {
    assert Get(m.regs, RSP) == Get(m0.regs, RSP) by {
      PushedAtEntry(m0, m, s);
    }
    PushEffect(m, slots, f);
  }

  lemma OtherFrameEffect(op: Op, m: State, e: int, slots: seq<StackSlot>, f: Field)
    requires IsFrameOp(op) && !op.SaveFramePointer? && f !in Clobbers(op, slots)
    ensures FieldOf(Effect(op, m), e, slots, f) == FieldOf(m, e, slots, f)
  {
  }

  // ----- equal inputs give equal outcomes -----

  /** The outcome depends on the registers the effects name and, for readers, the stack operand. */
  lemma ExecReads(op: Op, regs: Regs, other: Regs, operand: Word, otherOperand: Word)
    requires Modelled(op) && !IsFrameOp(op) && !RejectedWithStackProof(op)
    requires forall r :: r in EffectsOf(op).readRegisters && r != RSP && r != RBP ==> Get(regs, r) == Get(other, r)
    requires ReadsSlot(op) ==> operand == otherOperand
    ensures Exec(op, regs, operand) == Exec(op, other, otherOperand)
  {
  }
}
