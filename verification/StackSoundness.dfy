/**
 What a stack proof means on the machine: RSP and a known RBP sit at their recorded offsets, the
 caller's RBP survives in its register or its saved word, and nothing at or above the entry RSP changes.
 */
module StackSoundness {
  import opened Wrappers
  import opened Words
  import opened Memory
  import opened Semantics
  import opened Machine
  import opened Decode
  import opened StackProof

  /** Every recorded offset stays in the bounded frame. */
  predicate InFrame(s: FrameState) {
    && -4096 <= s.rsp <= 0
    && (s.rbp.Some? ==> -4096 <= s.rbp.value <= 0)
  }

  /** Byte x, as an offset from the entry RSP, lies outside the frame and its red zone. */
  predicate OutsideFrame(x: int) { 0 <= x < TWO63 }

  /** The pointers sit where the frame state says, relative to the entry RSP. */
  ghost predicate PointersHold(entryRsp: int, callerRbp: Word, rsp: Word, rbp: Word, s: FrameState) {
    && rsp == Wrap(entryRsp + s.rsp)
    && (s.rbp.Some? ==> rbp == Wrap(entryRsp + s.rbp.value))
    && (!s.savedRbp ==> s.rbp.None? && rbp == callerRbp)
  }

  /** The saved RBP is in its word, and the caller's memory is as it was. */
  ghost predicate MemoryHolds(entryRsp: int, callerRbp: Word, original: Mem, mem: Mem, saved: bool) {
    && (saved ==> Load(mem, entryRsp - 8, WORD_BYTES) == callerRbp)
    && (forall x :: OutsideFrame(x) ==> At(mem, entryRsp + x) == At(original, entryRsp + x))
  }

  /** Machine state m, run from m0, agrees with frame state s. */
  ghost predicate FrameHolds(m0: State, m: State, s: FrameState) {
    && InFrame(s)
    && PointersHold(Get(m0.regs, RSP), Get(m0.regs, RBP), Get(m.regs, RSP), Get(m.regs, RBP), s)
    && MemoryHolds(Get(m0.regs, RSP), Get(m0.regs, RBP), m0.mem, m.mem, s.savedRbp)
  }

  lemma EntryFrameHolds(m0: State)
    ensures FrameHolds(m0, m0, ENTRY_FRAME)
  {
  }

  /** The stack operand's address is the slot's offset from the entry RSP. */
  lemma OperandIsSlot(m0: State, m: State, s: FrameState, a: StackOperand)
    requires FrameHolds(m0, m, s) && SlotFor(s, a, false).Some? && a.width <= 8
    ensures var slot, e := SlotFor(s, a, false).value, Get(m0.regs, RSP);
            && Wrap(OperandAddress(a, m.regs)) == Wrap(e + slot.offset)
            && slot.width == a.width
            && -4224 <= slot.offset && slot.offset + slot.width <= (if s.savedRbp then -8 else 0)
  {
    var base := if a.base == RSP then s.rsp else s.rbp.value;
    WrapAdd(Get(m0.regs, RSP) + base, a.displacement);
  }

  /** Bytes written below the entry RSP do not touch the caller's memory. */
  lemma CallerUntouched(e: int, mem: Mem, offset: int, n: nat, v: nat, x: int)
    requires -8192 <= offset && offset + n <= 0 && OutsideFrame(x)
    ensures At(Store(mem, e + offset, n, v), e + x) == At(mem, e + x)
  {
    StoreElsewhere(mem, e, offset, n, v, x);
  }

  /** A store wholly below the saved RBP leaves that word alone. */
  lemma SavedRbpUntouched(e: int, mem: Mem, offset: int, n: nat, v: nat)
    requires -8192 <= offset && offset + n <= -8
    ensures Load(Store(mem, e + offset, n, v), e - 8, WORD_BYTES) == Load(mem, e - 8, WORD_BYTES)
  {
    LoadElsewhere(mem, e, offset, n, v, -8, WORD_BYTES);
  }

  /** A stack-local store keeps everything the frame state promises. */
  lemma StoreKeepsFrame(m0: State, m: State, s: FrameState, offset: int, n: nat, v: nat)
    requires FrameHolds(m0, m, s)
    requires -8192 <= offset && offset + n <= (if s.savedRbp then -8 else 0)
    ensures FrameHolds(m0, m.(mem := Store(m.mem, Get(m0.regs, RSP) + offset, n, v)), s)
  {
    var e: int := Get(m0.regs, RSP);
    forall x | OutsideFrame(x)
      ensures At(Store(m.mem, e + offset, n, v), e + x) == At(m0.mem, e + x)
    {
      CallerUntouched(e, m.mem, offset, n, v, x);
    }
    if s.savedRbp {
      SavedRbpUntouched(e, m.mem, offset, n, v);
    }
  }

  /** Pushing the caller's RBP saves it. */
  lemma SaveMemory(e: int, callerRbp: Word, original: Mem, mem: Mem)
    requires MemoryHolds(e, callerRbp, original, mem, false)
    ensures MemoryHolds(e, callerRbp, original, Store(mem, e - 8, WORD_BYTES, callerRbp), true)
  {
    var pushed := Store(mem, e - 8, WORD_BYTES, callerRbp);
    assert Load(pushed, e - 8, WORD_BYTES) == callerRbp by {
      Pow256Facts();
      LoadStored(mem, e - 8, WORD_BYTES, callerRbp);
    }
    forall x | OutsideFrame(x)
      ensures At(pushed, e + x) == At(original, e + x)
    {
      CallerUntouched(e, mem, -8, WORD_BYTES, callerRbp, x);
    }
  }

  /** RBP is pushed at the entry RSP. */
  lemma PushedAtEntry(m0: State, m: State, s: FrameState)
    requires FrameHolds(m0, m, s) && s.rsp == 0
    ensures Get(m.regs, RSP) == Get(m0.regs, RSP)
  {
    WrapSmall(Get(m0.regs, RSP));
  }

  lemma SaveKeepsFrame(m0: State, m: State, s: FrameState)
    requires FrameHolds(m0, m, s) && Transfer(SaveFramePointer, s, false).Some?
    ensures FrameHolds(m0, Effect(SaveFramePointer, m), Transfer(SaveFramePointer, s, false).value)
  {
    var e: Word, rbp, after := Get(m0.regs, RSP), Get(m0.regs, RBP), Effect(SaveFramePointer, m);
    assert Get(m.regs, RSP) == e && Get(m.regs, RBP) == rbp by {
      PushedAtEntry(m0, m, s);
    }
    SavedPointers(m, e, rbp);
    assert MemoryHolds(e, rbp, m0.mem, after.mem, true) by {
      SaveMemory(e, rbp, m0.mem, m.mem);
    }
    FrameParts(m0, after, s.(rsp := -8, savedRbp := true));
  }

  lemma SavedPointers(m: State, e: Word, rbp: Word)
    requires Get(m.regs, RSP) == e && Get(m.regs, RBP) == rbp
    ensures Get(Effect(SaveFramePointer, m).regs, RSP) == Wrap(e - 8) &&
            Get(Effect(SaveFramePointer, m).regs, RBP) == rbp
    ensures Effect(SaveFramePointer, m).mem == Store(m.mem, e - 8, WORD_BYTES, rbp)
  {
  }

  lemma FrameParts(m0: State, m: State, s: FrameState)
    requires InFrame(s)
    requires PointersHold(Get(m0.regs, RSP), Get(m0.regs, RBP), Get(m.regs, RSP), Get(m.regs, RBP), s)
    requires MemoryHolds(Get(m0.regs, RSP), Get(m0.regs, RBP), m0.mem, m.mem, s.savedRbp)
    ensures FrameHolds(m0, m, s)
  {
  }

  /** Popping the saved RBP through its wrapped address restores both pointers. */
  lemma PopRestores(e: Word, callerRbp: Word, original: Mem, mem: Mem)
    requires MemoryHolds(e, callerRbp, original, mem, true)
    ensures PointersHold(e, callerRbp, Wrap(Wrap(e - 8) + 8), Wrap(Load(mem, Wrap(e - 8), WORD_BYTES)), ENTRY_FRAME)
  {
    WrapAdd(e - 8, 0);
    LoadSameAddress(mem, Wrap(e - 8), e - 8, WORD_BYTES);
    WrapAdd(e - 8, 8);
    WrapSmall(callerRbp);
  }

  lemma PopKeepsFrame(m0: State, m: State, s: FrameState, at: Word)
    requires FrameHolds(m0, m, s) && s.savedRbp && at == Wrap(Get(m0.regs, RSP) - 8)
    ensures FrameHolds(m0, PopRbp(m, at), ENTRY_FRAME)
  {
    PopRestores(Get(m0.regs, RSP), Get(m0.regs, RBP), m0.mem, m.mem);
  }

  lemma AdjustedPointer(kind: AddOrSub, base: int, amount: Int64)
    ensures AluValue(W64, kind, Wrap(base), Wrap(amount)) == Wrap(Adjusted(kind, base, amount))
  {
    if kind == Add {
      WrapAdd(Wrap(base), amount);
      WrapAdd(base, amount);
    } else {
      WrapSub(Wrap(base), amount);
      WrapAdd(base, 0 - amount);
    }
  }

  lemma AdjustKeepsFrame(m0: State, m: State, s: FrameState, kind: AddOrSub, amount: Int64)
    requires FrameHolds(m0, m, s) && Transfer(AdjustStack(kind, amount), s, false).Some?
    ensures FrameHolds(m0, Effect(AdjustStack(kind, amount), m), Transfer(AdjustStack(kind, amount), s, false).value)
  {
    var after, s' := Effect(AdjustStack(kind, amount), m), s.(rsp := Adjusted(kind, s.rsp, amount));
    AdjustedState(s, kind, amount);
    AdjustedRegisters(m, kind, amount);
    AdjustedPointers(Get(m0.regs, RSP), Get(m0.regs, RBP), Get(m.regs, RSP), Get(m.regs, RBP), s, kind, amount);
    FrameParts(m0, after, s');
  }

  function Adjusted(kind: AddOrSub, rsp: int, amount: int): int {
    if kind == Sub then rsp - amount else rsp + amount
  }

  lemma AdjustedState(s: FrameState, kind: AddOrSub, amount: Int64)
    requires InFrame(s) && Transfer(AdjustStack(kind, amount), s, false).Some?
    ensures var s' := s.(rsp := Adjusted(kind, s.rsp, amount));
            Transfer(AdjustStack(kind, amount), s, false) == Some(s') && InFrame(s')
  {
  }

  lemma AdjustedRegisters(m: State, kind: AddOrSub, amount: Int64)
    ensures var after := Effect(AdjustStack(kind, amount), m);
            && after.mem == m.mem && Get(after.regs, RBP) == Get(m.regs, RBP)
            && Get(after.regs, RSP) == AluValue(W64, kind, Get(m.regs, RSP), Wrap(amount))
  {
  }

  lemma AdjustedPointers(e: int, callerRbp: Word, rsp: Word, rbp: Word, s: FrameState, kind: AddOrSub, amount: Int64)
    requires PointersHold(e, callerRbp, rsp, rbp, s)
    ensures PointersHold(e, callerRbp, AluValue(W64, kind, rsp, Wrap(amount)), rbp,
                         s.(rsp := Adjusted(kind, s.rsp, amount)))
  {
    AdjustedPointer(kind, e + s.rsp, amount);
    assert Adjusted(kind, e + s.rsp, amount) == e + Adjusted(kind, s.rsp, amount);
  }

  lemma MoveKeepsFrame(m0: State, m: State, s: FrameState, op: Op)
    requires op.SetFramePointer? || op.RestoreStackPointerFromFrame?
    requires FrameHolds(m0, m, s) && Transfer(op, s, false).Some?
    ensures FrameHolds(m0, Effect(op, m), Transfer(op, s, false).value)
  {
  }

  /** One accepted instruction keeps the machine in step with the proof. */
  lemma StepKeepsFrame(m0: State, m: State, s: FrameState, op: Op)
    requires FrameHolds(m0, m, s) && Transfer(op, s, false).Some? && Modelled(op) && !op.Ret?
    ensures FrameHolds(m0, Effect(op, m), Transfer(op, s, false).value)
  {
    if op.SaveFramePointer? {
      SaveKeepsFrame(m0, m, s);
    } else if op.RestoreFramePointer? {
      PopKeepsFrame(m0, m, s, Get(m.regs, RSP));
    } else if op.LeaveFrame? {
      PopKeepsFrame(m0, m, s, Get(m.regs, RBP));
    } else if op.AdjustStack? {
      AdjustKeepsFrame(m0, m, s, op.direction, op.amount);
    } else if IsFrameOp(op) {
      MoveKeepsFrame(m0, m, s, op);
    } else {
      ScalarKeepsFrame(m0, m, s, op);
    }
  }

  lemma ScalarKeepsFrame(m0: State, m: State, s: FrameState, op: Op)
    requires FrameHolds(m0, m, s) && Transfer(op, s, false).Some? && Modelled(op) && !op.Ret? && !IsFrameOp(op)
    ensures FrameHolds(m0, Effect(op, m), Transfer(op, s, false).value)
  {
    var after := Effect(op, m);
    PointersUntouched(op, m);
    if StackAccess(op).Some? && Exec(op, m.regs, OperandValue(op, m)).memory.Some? {
      ScalarStore(m0, m, s, op);
    }
    FrameParts(m0, after, s);
  }

  /** Scalar instructions have general-purpose destinations. */
  lemma PointersUntouched(op: Op, m: State)
    requires Modelled(op) && !op.Ret? && !IsFrameOp(op)
    ensures Get(Effect(op, m).regs, RSP) == Get(m.regs, RSP) && Get(Effect(op, m).regs, RBP) == Get(m.regs, RBP)
    ensures StackAccess(op).None? || Exec(op, m.regs, OperandValue(op, m)).memory.None? ==> Effect(op, m).mem == m.mem
  {
  }

  lemma ScalarStore(m0: State, m: State, s: FrameState, op: Op)
    requires FrameHolds(m0, m, s) && Transfer(op, s, false).Some? && Modelled(op) && !op.Ret? && !IsFrameOp(op)
    requires StackAccess(op).Some? && Exec(op, m.regs, OperandValue(op, m)).memory.Some?
    ensures MemoryHolds(Get(m0.regs, RSP), Get(m0.regs, RBP), m0.mem, Effect(op, m).mem, s.savedRbp)
  {
    var a, v := StackAccess(op).value, Exec(op, m.regs, OperandValue(op, m)).memory.value;
    StoredOperand(op, s, m);
    OperandStore(m0, m, s, a, v);
  }

  lemma StoredOperand(op: Op, s: FrameState, m: State)
    requires Transfer(op, s, false).Some? && Modelled(op) && !op.Ret? && !IsFrameOp(op)
    requires StackAccess(op).Some? && Exec(op, m.regs, OperandValue(op, m)).memory.Some?
    ensures SlotFor(s, StackAccess(op).value, false).Some?
    ensures Effect(op, m).mem == Store(m.mem, OperandAddress(StackAccess(op).value, m.regs),
            StackAccess(op).value.width,
                                       Exec(op, m.regs, OperandValue(op, m)).memory.value)
  {
  }

  /** A store through an accepted operand. */
  lemma OperandStore(m0: State, m: State, s: FrameState, a: StackOperand, v: nat)
    requires FrameHolds(m0, m, s) && SlotFor(s, a, false).Some?
    ensures MemoryHolds(Get(m0.regs, RSP), Get(m0.regs, RBP), m0.mem,
            Store(m.mem, OperandAddress(a, m.regs), a.width, v), s.savedRbp)
  {
    var e: Word, offset := Get(m0.regs, RSP), SlotFor(s, a, false).value.offset;
    OperandIsSlot(m0, m, s, a);
    StoreCongruent(m.mem, OperandAddress(a, m.regs), e + offset, a.width, v);
    KeepsMemory(m0, m, s, offset, a.width, v);
  }

  lemma KeepsMemory(m0: State, m: State, s: FrameState, offset: int, n: nat, v: nat)
    requires FrameHolds(m0, m, s) && -8192 <= offset && offset + n <= (if s.savedRbp then -8 else 0)
    ensures MemoryHolds(Get(m0.regs, RSP), Get(m0.regs, RBP), m0.mem, Store(m.mem, Get(m0.regs, RSP) + offset, n, v),
            s.savedRbp)
  {
    StoreKeepsFrame(m0, m, s, offset, n, v);
  }

  /** The machine's RSP is 16-byte aligned at every call a proof reaches, given the ABI's alignment at entry. */
  lemma CallsAreAligned(code: Code, m0: State, m: State, s: FrameState)
    requires Provable(code, true) && Arrives(code, true, m.rip, s) && code.Decodes(m.rip) &&
             code.OpAt(m.rip).CallDirect?
    requires FrameHolds(m0, m, s) && Get(m0.regs, RSP) % 16 == 8
    ensures Get(m.regs, RSP) % 16 == 0
  {
    assert Accepted(code, true, m.rip, s);
    WrapKeepsAlignment(Get(m0.regs, RSP) + s.rsp);
  }

  lemma WrapKeepsAlignment(x: int)
    ensures Wrap(x) % 16 == x % 16
  {
    var w, quotient := Wrap(x), x / TWO64;
    SameResidue(x, w, 0x1000_0000_0000_0000 * quotient);
  }

  lemma SameResidue(x: int, w: int, k: int)
    requires x == 16 * k + w
    ensures x % 16 == w % 16
  {
    assert x == 16 * (k + w / 16) + w % 16;
  }
}
