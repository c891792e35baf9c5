/**
 What recovery's tables mean: successors are where the machine can go next, and an instruction is
 refused for the stack proof exactly when the machine has none of it or its address needs RSP or RBP.
 */
module FlowLaws {
  import opened Wrappers
  import opened Words
  import opened Semantics
  import opened Machine
  import opened Decode
  import opened CfgRecovery
  import opened ScalarRecovery
  import opened Runs
  import opened InstructionLaws
  import StackProof
  import StackSoundness

  // ----- successors -----

  /** The machine at ip can go to s next. */
  ghost predicate GoesTo(code: Code, ip: nat, s: nat) {
    exists m: State :: m.rip == ip && MachineStep(code, m).Next? && MachineStep(code, m).state.rip == s
  }

  /** Flags that make the condition hold, or fail. */
  function FlagsFor(c: Condition, holds: bool): Flags {
    match c
    case E => Flags(holds, false, false, false)
    case Ne => Flags(!holds, false, false, false)
    case S => Flags(false, holds, false, false)
    case Ns => Flags(false, !holds, false, false)
    case O => Flags(false, false, holds, false)
    case No => Flags(false, false, !holds, false)
    case B => Flags(false, false, false, holds)
    case Ae => Flags(false, false, false, !holds)
    case Be => Flags(false, false, false, holds)
    case A => Flags(false, false, false, !holds)
    case L => Flags(false, holds, false, false)
    case Ge => Flags(false, !holds, false, false)
    case Le => Flags(false, holds, false, false)
    case G => Flags(false, !holds, false, false)
  }

  lemma ConditionGoesBothWays(c: Condition, holds: bool)
    ensures Holds(c, FlagsFor(c, holds)) == holds
  {
  }

  /** Away from calls the successors are exactly the addresses the machine can go to. */
  lemma SuccessorsAreWhereItGoes(code: Code, opt: Options, ip: nat, s: nat)
    requires code.Decodes(ip) && !Outside(code.OpAt(ip))
    ensures s in SuccessorsOf(code, opt, ip) <==> GoesTo(code, ip, s)
  {
    var op := code.OpAt(ip);
    if s in SuccessorsOf(code, opt, ip) {
      var taken := op.Jcc? && s == code.At(ip).target;
      var flags := if op.Jcc? then FlagsFor(op.condition, taken) else Flags(false, false, false, false);
      var m := State(ip, map[], flags, map[]);
      if op.Jcc? {
        ConditionGoesBothWays(op.condition, taken);
      }
      StepShape(code, m);
      assert m.rip == ip && MachineStep(code, m).Next? && MachineStep(code, m).state.rip == s;
    }
    if GoesTo(code, ip, s) {
      var m: State :| m.rip == ip && MachineStep(code, m).Next? && MachineStep(code, m).state.rip == s;
      StepShape(code, m);
    }
  }

  /** A call goes on behind itself unless it is declared not to return. */
  lemma CallSuccessors(code: Code, opt: Options, ip: nat)
    requires code.Decodes(ip) && code.OpAt(ip).CallDirect?
    ensures SuccessorsOf(code, opt, ip) ==
            if opt.terminalCallSites.Some? && ip in opt.terminalCallSites.value then []
            else [ip + code.At(ip).length]
  {
  }

  /** The stack proof follows the same edges, and calls only where it is told to. */
  lemma ProofFollowsSuccessors(code: Code, opt: Options, ip: nat, calls: bool)
    requires code.Decodes(ip) && !TerminalCall(opt, ip)
    ensures StackProof.FlowSuccessors(code, ip, calls) ==
            if code.OpAt(ip).CallDirect? && !calls then None else Some(SuccessorsOf(code, opt, ip))
  {
  }

  // ----- admission -----

  predicate Inside(code: Code, opt: Options, ip: nat) {
    code.address <= ip < code.address + |code.table| || (opt.boundaryExits.Some? && ip in opt.boundaryExits.value)
  }

  /** Two register files that differ in RSP and RBP only. */
  ghost predicate SameButPointers(regs: Regs, other: Regs) {
    forall r: Register :: r != RSP && r != RBP ==> Get(regs, r) == Get(other, r)
  }

  /** Some change of RSP or RBP alone changes what the instruction computes. */
  ghost predicate NeedsPointers(op: Op) {
    exists regs: Regs, other: Regs :: SameButPointers(regs, other) && Exec(op, regs, 0) != Exec(op, other, 0)
  }

  lemma LeaNeedsPointers(op: Op)
    requires op.Lea?
    ensures NeedsPointers(op) <==> FrameRegister(op.leaBase) || FrameRegister(op.index)
  {
    if FrameRegister(op.leaBase) || FrameRegister(op.index) {
      var r := if FrameRegister(op.leaBase) then op.leaBase.value else op.index.value;
      var regs: Regs, other: Regs := map[], map[r := 1];
      assert SameButPointers(regs, other);
      LeaMoves(op, r);
      assert Exec(op, regs, 0) != Exec(op, other, 0);
    }
  }

  /** The address moves with a register it is made from. */
  lemma LeaMoves(op: Op, r: Register)
    requires op.Lea? && (op.leaBase == Some(r) || op.index == Some(r))
    ensures Exec(op, map[], 0) != Exec(op, map[r := 1], 0)
  {
    var d: int := op.displacement;
    var moved := (if op.leaBase == Some(r) then 1 else 0) + (if op.index == Some(r) then op.scale else 0);
    var none: Regs, one: Regs := map[], map[r := 1];
    assert OptionalRegister(none, op.leaBase) == 0 && OptionalRegister(none, op.index) == 0;
    assert OptionalRegister(one, op.leaBase) == if op.leaBase == Some(r) then 1 else 0;
    assert OptionalRegister(one, op.index) == if op.index == Some(r) then 1 else 0;
    assert LeaAddress(0, 0, op.scale, d) == Wrap(d);
    assert OptionalRegister(one, op.leaBase) + OptionalRegister(one, op.index) * op.scale + d == d + moved;
    if Wrap(d) == Wrap(d + moved) {
      WrapInjective(d, 0, moved);
    }
  }

  /** The stack proof's refusals: instructions the machine has none of, calls aside, and addresses from RSP or RBP. */
  lemma RejectedExactly(op: Op)
    ensures RejectedWithStackProof(op) <==>
            (Outside(op) && !op.CallDirect?) || (op.Lea? && NeedsPointers(op))
  {
    if op.Lea? {
      LeaNeedsPointers(op);
    }
  }

  predicate Follows(code: Code, opt: Options, ip: nat, s: nat)
    requires code.Decodes(ip)
  {
    var op := code.OpAt(ip);
    || ((op.Jmp? || op.Jcc?) && s == code.At(ip).target)
    || (!op.Jmp? && !op.Ret? && !(op.CallDirect? && TerminalCall(opt, ip)) && s == ip + code.At(ip).length)
  }

  lemma SuccessorSet(code: Code, opt: Options, ip: nat, s: nat)
    requires code.Decodes(ip)
    ensures s in SuccessorsOf(code, opt, ip) <==> Follows(code, opt, ip, s)
  {
  }

  /** What recovery asks of one instruction, written out. */
  lemma AdmissibleExactly(code: Code, opt: Options, ip: nat)
    ensures Admissible(code, opt, ip) <==>
              && code.Decodes(ip)
              && var op, next, target := code.OpAt(ip), ip + code.At(ip).length, code.At(ip).target;
              && (opt.proveStack ==> !(Outside(op) && !op.CallDirect?) && !(op.Lea? && NeedsPointers(op)))
              && (op.CallDirect? && opt.allowedCalls.Some? ==> op.callee in opt.allowedCalls.value)
              && (op.Jmp? || op.Jcc? ==> Inside(code, opt, target))
              && (!op.Jmp? && !op.Ret? && !(op.CallDirect? && TerminalCall(opt, ip)) ==> Inside(code, opt, next))
  {
    if code.Decodes(ip) {
      RejectedExactly(code.OpAt(ip));
      forall s
        ensures s in SuccessorsOf(code, opt, ip) <==> Follows(code, opt, ip, s)
        ensures Inside(code, opt, s) <==> code.Contains(s) || DeclaredExit(opt, s)
      {
        SuccessorSet(code, opt, ip, s);
      }
      assert Follows(code, opt, ip, code.At(ip).target) || !(code.OpAt(ip).Jmp? || code.OpAt(ip).Jcc?);
      assert Follows(code, opt, ip, code.NextIp(ip)) || code.OpAt(ip).Jmp? || code.OpAt(ip).Ret? ||
             (code.OpAt(ip).CallDirect? && TerminalCall(opt, ip));
    }
  }

  /** Calls are followed unless the list of allowed callees is there and empty. */
  lemma FollowsCallsExactly(allowedCalls: Option<set<nat>>)
    ensures FollowsCalls(allowedCalls) <==> allowedCalls.None? || exists callee :: callee in allowedCalls.value
  {
    if allowedCalls.Some? && allowedCalls.value != {} {
      var callee :| callee in allowedCalls.value;
    }
  }

  /** The scalar lifter runs the stack proof for the frame instructions, stack-local accesses and calls. */
  lemma StackRelatedExactly(op: Op)
    ensures StackRelated(op) <==>
            match op
            case SaveFramePointer => true
            case RestoreFramePointer => true
            case SetFramePointer => true
            case RestoreStackPointerFromFrame => true
            case AdjustStack(_, _) => true
            case LeaveFrame => true
            case LoadStack64(_, _, _) => true
            case LoadStack32(_, _, _) => true
            case StoreStack64(_, _, _) => true
            case StoreStack32(_, _, _) => true
            case AluStack32(_, _, _, _) => true
            case CmpRegStack32(_, _, _) => true
            case CmpStack32(_, _, _) => true
            case CallDirect(_) => true
            case _ => false
  {
  }

  /** Of the machine's instructions, those that can move RSP or RBP are the frame instructions and the return. */
  lemma FrameOpsMovePointers(op: Op)
    requires !Outside(op)
    ensures (exists m: State :: PointersMove(op, m)) <==>
            (IsFrameOp(op) && !(op.AdjustStack? && op.amount == 0)) || op.Ret?
  {
    if (IsFrameOp(op) && !(op.AdjustStack? && op.amount == 0)) || op.Ret? {
      var m := State(0, map[RSP := 16, RBP := 32], Flags(false, false, false, false), map[]);
      FrameOpMoves(op, m);
    } else {
      forall m: State
        ensures !PointersMove(op, m)
      {
        PointersStay(op, m);
      }
    }
  }

  predicate PointersMove(op: Op, m: State) {
    Get(Effect(op, m).regs, RSP) != Get(m.regs, RSP) || Get(Effect(op, m).regs, RBP) != Get(m.regs, RBP)
  }

  lemma FrameOpMoves(op: Op, m: State)
    requires (IsFrameOp(op) && !(op.AdjustStack? && op.amount == 0)) || op.Ret?
    requires Get(m.regs, RSP) == 16 && Get(m.regs, RBP) == 32
    ensures PointersMove(op, m)
  {
    if op.AdjustStack? {
      AdjustedElsewhere(op.direction, 16, op.amount);
      StackSoundness.AdjustedRegisters(m, op.direction, op.amount);
    }
  }

  lemma AdjustedElsewhere(kind: AddOrSub, rsp: Word, amount: Int64)
    requires amount != 0
    ensures AluValue(W64, kind, rsp, Wrap(amount)) != rsp
  {
    WrapSmall(rsp);
    StackSoundness.AdjustedPointer(kind, rsp, amount);
    if kind == Sub {
      DistinctWords(rsp, rsp - amount);
    } else {
      DistinctWords(rsp, rsp + amount);
    }
  }

  lemma DistinctWords(x: int, y: int)
    requires x != y && -TWO63 <= x - y <= TWO63
    ensures Wrap(x) != Wrap(y)
  {
  }

  lemma PointersStay(op: Op, m: State)
    requires !Outside(op) && !op.Ret? && (IsFrameOp(op) ==> op.AdjustStack? && op.amount == 0)
    ensures !PointersMove(op, m)
  {
    if op.AdjustStack? {
      StackSoundness.AdjustedPointer(op.direction, Get(m.regs, RSP), 0);
      WrapSmall(Get(m.regs, RSP));
    } else {
      StackSoundness.PointersUntouched(op, m);
    }
  }
}
