/**
 Which instructions the stack proof accepts, said about the machine: in a machine state that agrees
 with the frame state, by where RSP, RBP and the accessed bytes lie relative to the entry RSP. The
 rules are those of section 3.2.2 of the System V AMD64 psABI, red zone included.
 */
module StackLaws {
  import opened Wrappers
  import opened Words
  import opened Memory
  import opened Semantics
  import opened Machine
  import opened Decode
  import opened StackProof
  import opened StackSoundness

  /** How far above the entry RSP an address lies, as a two's-complement distance. */
  function Above(address: int, entry: Word): int {
    var d := (address - entry) % TWO64;
    if d < TWO63 then d else d - TWO64
  }

  /** The bytes lie below the entry RSP and any saved RBP, and not below RSP and its red zone. */
  predicate Opens(m0: State, m: State, s: FrameState, calls: bool, base: FrameBase, displacement: int, width: nat) {
    var entry := Get(m0.regs, RSP);
    var at := Above(Get(m.regs, base) + displacement, entry);
    && (base == RBP ==> s.rbp.Some?)
    && Above(Get(m.regs, RSP), entry) - (if calls then 0 else 128) <= at
    && at + width <= (if s.savedRbp then -8 else 0)
  }

  /** The stack rules for one instruction, on the machine; of s only whether RBP is saved and known counts. */
  predicate Obeys(op: Op, m0: State, m: State, s: FrameState, calls: bool) {
    var entry, rsp, rbp := Get(m0.regs, RSP), Get(m.regs, RSP), Get(m.regs, RBP);
    match op
    case SaveFramePointer => !s.savedRbp && rsp == entry
    case RestoreFramePointer => s.savedRbp && rsp == (entry - 8) % TWO64
    case SetFramePointer => s.savedRbp
    case RestoreStackPointerFromFrame => s.rbp.Some?
    case AdjustStack(_, amount) =>
      0 <= amount <= 4096 && -4096 <= Above(Get(Effect(op, m).regs, RSP), entry) <= 0
    case LeaveFrame => s.rbp.Some? && rbp == (entry - 8) % TWO64
    case CallDirect(_) => calls ==> (rsp - entry) % 16 == 8
    case LoadStack64(_, b, d) => Opens(m0, m, s, calls, b, d, 8)
    case LoadStack32(_, b, d) => Opens(m0, m, s, calls, b, d, 4)
    case StoreStack64(b, d, _) => Opens(m0, m, s, calls, b, d, 8)
    case StoreStack32(b, d, _) => Opens(m0, m, s, calls, b, d, 4)
    case AluStack32(_, b, d, _) => Opens(m0, m, s, calls, b, d, 4)
    case CmpRegStack32(_, b, d) => Opens(m0, m, s, calls, b, d, 4)
    case CmpStack32(b, d, _) => Opens(m0, m, s, calls, b, d, 4)
    case _ => true
  }

  /** The caller's RBP is saved from a push of RBP to the instruction that pops it. */
  predicate SavedAfter(op: Op, saved: bool) {
    op.SaveFramePointer? || (saved && !op.RestoreFramePointer? && !op.LeaveFrame?)
  }

  /** RBP is known from being set to RSP to the instruction that pops it. */
  predicate KnownAfter(op: Op, known: bool) {
    op.SetFramePointer? || (known && !op.RestoreFramePointer? && !op.LeaveFrame?)
  }

  lemma AboveOffset(entry: Word, x: int)
    requires -TWO63 <= x < TWO63
    ensures Above(entry + x, entry) == x
  {
  }

  lemma AboveWraps(address: int, entry: Word)
    ensures Above(Wrap(address), entry) == Above(address, entry)
  {
    WrapSub(0 - entry, 0 - address);
  }

  /** The recorded offsets are the distances of the machine's pointers. */
  lemma PointersAbove(m0: State, m: State, s: FrameState)
    requires FrameHolds(m0, m, s)
    ensures Above(Get(m.regs, RSP), Get(m0.regs, RSP)) == s.rsp
    ensures s.rbp.Some? ==> Above(Get(m.regs, RBP), Get(m0.regs, RSP)) == s.rbp.value
  {
    var e := Get(m0.regs, RSP);
    AboveWraps(e + s.rsp, e);
    AboveOffset(e, s.rsp);
    if s.rbp.Some? {
      AboveWraps(e + s.rbp.value, e);
      AboveOffset(e, s.rbp.value);
    }
  }

  predicate BaseKnown(s: FrameState, base: FrameBase) { base == RBP ==> s.rbp.Some? }

  function BaseOffset(s: FrameState, base: FrameBase): int
    requires BaseKnown(s, base)
  {
    if base == RSP then s.rsp else s.rbp.value
  }

  /** A displacement of 64 bits reaches any distance; one below -2^63 wraps to the far end. */
  lemma OperandAbove(m0: State, m: State, s: FrameState, base: FrameBase, displacement: Int64)
    requires FrameHolds(m0, m, s) && BaseKnown(s, base)
    ensures var offset := BaseOffset(s, base) + displacement;
            Above(Get(m.regs, base) + displacement, Get(m0.regs, RSP)) ==
            if offset >= -TWO63 then offset else offset + TWO64
  {
    var e: Word, offset := Get(m0.regs, RSP), BaseOffset(s, base) + displacement;
    assert Get(m.regs, base) == Wrap(e + BaseOffset(s, base));
    SameWord(Get(m.regs, base) + displacement, e + offset, e) by {
      WrapAdd(e + BaseOffset(s, base), displacement);
    }
    FarOffset(e, offset);
  }

  lemma SameWord(x: int, y: int, entry: Word)
    requires Wrap(x) == Wrap(y)
    ensures Above(x, entry) == Above(y, entry)
  {
    AboveWraps(x, entry);
    AboveWraps(y, entry);
  }

  lemma FarOffset(e: Word, x: int)
    requires -TWO64 <= x < TWO63
    ensures Above(e + x, e) == if x >= -TWO63 then x else x + TWO64
  {
    if x >= -TWO63 {
      AboveOffset(e, x);
    } else {
      AboveOffset(e, x + TWO64);
      SameWord(e + x, e + x + TWO64, e) by {
        WrapPeriod(e + x);
      }
    }
  }

  lemma WrapPeriod(x: int)
    ensures Wrap(x + TWO64) == Wrap(x)
  {
  }

  /** The slot of an access: accepted exactly when its bytes lie in the open window, at the machine's own distance. */
  lemma SlotExactly(m0: State, m: State, s: FrameState, a: StackOperand, calls: bool)
    requires FrameHolds(m0, m, s)
    ensures SlotFor(s, a, calls) ==
            if Opens(m0, m, s, calls, a.base, a.displacement, a.width)
            then Some(StackSlot(Above(Get(m.regs, a.base) + a.displacement, Get(m0.regs, RSP)), a.width))
            else None
  {
    if BaseKnown(s, a.base) {
      OperandAbove(m0, m, s, a.base, a.displacement);
      PointersAbove(m0, m, s);
      SlotAtOffset(s, a, calls, Above(Get(m.regs, a.base) + a.displacement, Get(m0.regs, RSP)));
      OpensFromDistances(m0, m, s, a, calls);
    }
  }

  lemma OpensFromDistances(m0: State, m: State, s: FrameState, a: StackOperand, calls: bool)
    requires BaseKnown(s, a.base) && Above(Get(m.regs, RSP), Get(m0.regs, RSP)) == s.rsp
    ensures var at := Above(Get(m.regs, a.base) + a.displacement, Get(m0.regs, RSP));
            Opens(m0, m, s, calls, a.base, a.displacement, a.width) <==>
            s.rsp - (if calls then 0 else 128) <= at && at + a.width <= (if s.savedRbp then -8 else 0)
  {
  }

  lemma SlotAtOffset(s: FrameState, a: StackOperand, calls: bool, at: int)
    requires InFrame(s) && BaseKnown(s, a.base)
    requires var offset := BaseOffset(s, a.base) + a.displacement;
             at == if offset >= -TWO63 then offset else offset + TWO64
    ensures SlotFor(s, a, calls) ==
            if s.rsp - (if calls then 0 else 128) <= at && at + a.width <= (if s.savedRbp then -8 else 0)
            then Some(StackSlot(at, a.width)) else None
  {
  }

  /** The distance of RSP after an adjustment that stays within bounds. */
  lemma AdjustedAbove(m0: State, m: State, s: FrameState, kind: AddOrSub, amount: Int64)
    requires FrameHolds(m0, m, s) && 0 <= amount <= 4096
    ensures Above(Get(Effect(AdjustStack(kind, amount), m).regs, RSP), Get(m0.regs, RSP)) ==
            Adjusted(kind, s.rsp, amount)
  {
    var e: Word, x := Get(m0.regs, RSP), Adjusted(kind, s.rsp, amount);
    AdjustedRegisters(m, kind, amount);
    AdjustedPointer(kind, e + s.rsp, amount);
    assert Adjusted(kind, e + s.rsp, amount) == e + x;
    AboveWraps(e + x, e);
    AboveOffset(e, x);
  }

  /** RSP, or a known RBP, is at a recorded offset exactly when the machine's register is at that address. */
  lemma PointsAt(entry: Word, x: int, y: int)
    requires -8192 <= x <= 8192 && -8192 <= y <= 8192
    ensures Wrap(entry + x) == (entry + y) % TWO64 <==> x == y
  {
    if Wrap(entry + x) == Wrap(entry + y) {
      WrapInjective(entry, x, y);
    }
  }

  lemma CallAlignment(m0: State, m: State, s: FrameState)
    requires FrameHolds(m0, m, s)
    ensures (Get(m.regs, RSP) - Get(m0.regs, RSP)) % 16 == s.rsp % 16
  {
    var e, rsp: int := Get(m0.regs, RSP), Get(m.regs, RSP);
    var q := (e + s.rsp) / TWO64;
    SameResidue(s.rsp, rsp - e, 0x1000_0000_0000_0000 * q);
  }

  lemma PushPopExactly(m0: State, m: State, s: FrameState, op: Op, calls: bool)
    requires FrameHolds(m0, m, s) && (op.SaveFramePointer? || op.RestoreFramePointer?)
    ensures Transfer(op, s, calls).Some? <==> Obeys(op, m0, m, s, calls)
  {
    var e: Word := Get(m0.regs, RSP);
    assert Get(m.regs, RSP) == Wrap(e + s.rsp);
    PointsAt(e, s.rsp, 0);
    PointsAt(e, s.rsp, -8);
    WrapSmall(e);
  }

  lemma LeaveExactly(m0: State, m: State, s: FrameState, calls: bool)
    requires FrameHolds(m0, m, s)
    ensures Transfer(LeaveFrame, s, calls).Some? <==> Obeys(LeaveFrame, m0, m, s, calls)
  {
    if s.rbp.Some? {
      assert Get(m.regs, RBP) == Wrap(Get(m0.regs, RSP) + s.rbp.value);
      PointsAt(Get(m0.regs, RSP), s.rbp.value, -8);
    }
  }

  lemma FrameOpExactly(m0: State, m: State, s: FrameState, op: Op, calls: bool)
    requires FrameHolds(m0, m, s) && IsFrameOp(op) && !op.AdjustStack?
    ensures Transfer(op, s, calls).Some? <==> Obeys(op, m0, m, s, calls)
  {
    if op.SaveFramePointer? || op.RestoreFramePointer? {
      PushPopExactly(m0, m, s, op, calls);
    } else if op.LeaveFrame? {
      LeaveExactly(m0, m, s, calls);
    }
  }

  lemma AdjustExactly(m0: State, m: State, s: FrameState, op: Op, calls: bool)
    requires FrameHolds(m0, m, s) && op.AdjustStack?
    ensures Transfer(op, s, calls).Some? <==> Obeys(op, m0, m, s, calls)
  {
    if 0 <= op.amount <= 4096 {
      AdjustedAbove(m0, m, s, op.direction, op.amount);
    }
  }

  lemma AccessExactly(m0: State, m: State, s: FrameState, op: Op, calls: bool)
    requires FrameHolds(m0, m, s) && StackAccess(op).Some?
    ensures Transfer(op, s, calls).Some? <==> Obeys(op, m0, m, s, calls)
  {
    var a := StackAccess(op).value;
    SlotExactly(m0, m, s, a, calls);
    AccessTransfer(op, s, calls);
    assert Obeys(op, m0, m, s, calls) <==> Opens(m0, m, s, calls, a.base, a.displacement, a.width);
  }

  lemma AccessTransfer(op: Op, s: FrameState, calls: bool)
    requires StackAccess(op).Some?
    ensures Transfer(op, s, calls).Some? <==> SlotFor(s, StackAccess(op).value, calls).Some?
  {
  }

  /** An instruction is accepted exactly when the machine obeys the stack rules there. */
  lemma TransferExactly(m0: State, m: State, s: FrameState, op: Op, calls: bool)
    requires FrameHolds(m0, m, s)
    ensures Transfer(op, s, calls).Some? <==> Obeys(op, m0, m, s, calls)
  {
    if op.AdjustStack? {
      AdjustExactly(m0, m, s, op, calls);
    } else if IsFrameOp(op) {
      FrameOpExactly(m0, m, s, op, calls);
    } else if op.CallDirect? {
      CallAlignment(m0, m, s);
    } else if StackAccess(op).Some? {
      AccessExactly(m0, m, s, op, calls);
    }
  }

  /** What is known after an accepted instruction: where the pointers are, and whether RBP is saved and known. */
  lemma TransferKnows(m0: State, m: State, s: FrameState, op: Op, calls: bool)
    requires FrameHolds(m0, m, s) && Transfer(op, s, calls).Some?
    ensures var after := Transfer(op, s, calls).value;
            && after.savedRbp == SavedAfter(op, s.savedRbp)
            && after.rbp.Some? == KnownAfter(op, s.rbp.Some?)
            && (Modelled(op) && !op.Ret? ==> FrameHolds(m0, Effect(op, m), after))
            && (!IsFrameOp(op) ==> after == s)
  {
    CallsOnlyNarrow(op, s, calls);
    KnowsNext(op, s, calls);
    if Modelled(op) && !op.Ret? {
      StepKeepsFrame(m0, m, s, op);
    }
  }

  lemma KnowsNext(op: Op, s: FrameState, calls: bool)
    requires Transfer(op, s, calls).Some?
    ensures var after := Transfer(op, s, calls).value;
            && after.savedRbp == SavedAfter(op, s.savedRbp)
            && after.rbp.Some? == KnownAfter(op, s.rbp.Some?)
            && (!IsFrameOp(op) ==> after == s)
  {
  }

  /** Following calls only closes the red zone and adds the alignment rule. */
  lemma CallsOnlyNarrow(op: Op, s: FrameState, calls: bool)
    requires InFrame(s) && Transfer(op, s, calls).Some?
    ensures Transfer(op, s, false) == Transfer(op, s, calls)
  {
  }

  /** Acceptance of the instruction at RIP, control flow and returns included. */
  lemma AcceptedExactly(code: Code, calls: bool, m0: State, m: State, s: FrameState)
    requires FrameHolds(m0, m, s)
    ensures Accepted(code, calls, m.rip, s) <==>
              && code.Decodes(m.rip)
              && Obeys(code.OpAt(m.rip), m0, m, s, calls)
              && (code.OpAt(m.rip).CallDirect? ==> calls)
              && (code.OpAt(m.rip).Ret? ==> !s.savedRbp && Get(m.regs, RSP) == Get(m0.regs, RSP))
  {
    if code.Decodes(m.rip) {
      TransferExactly(m0, m, s, code.OpAt(m.rip), calls);
      PointsAt(Get(m0.regs, RSP), s.rsp, 0);
      WrapSmall(Get(m0.regs, RSP));
    }
  }

  // ----- slots -----

  predicate InSlot(slot: StackSlot, x: int) { slot.offset <= x < slot.offset + slot.width }

  /** Slots clash when they differ and share a byte. */
  lemma ClashExactly(a: StackSlot, b: StackSlot)
    requires a.width > 0 && b.width > 0
    ensures Clash(a, b) <==> a != b && exists x :: InSlot(a, x) && InSlot(b, x)
  {
    if Clash(a, b) {
      var x := if a.offset < b.offset then b.offset else a.offset;
      assert InSlot(a, x) && InSlot(b, x);
    }
  }

  /** Slots are listed once each, from the lowest offset up, the narrower first at one offset. */
  lemma SlotsAscend(slots: seq<StackSlot>)
    ensures Ordered(slots) <==> forall i, j :: 0 <= i < j < |slots| ==>
              slots[i].offset <= slots[j].offset &&
              (slots[i].offset == slots[j].offset ==> slots[i].width < slots[j].width)
  {
    if Ordered(slots) {
      forall i, j | 0 <= i < j < |slots|
        ensures slots[i].offset <= slots[j].offset
        ensures slots[i].offset == slots[j].offset ==> slots[i].width < slots[j].width
      {
        assert Before(slots[i], slots[j]);
      }
    }
  }
}
