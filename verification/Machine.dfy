/**
 The x86-64 machine the lifted code is compared with: registers, the four arithmetic flags and
 byte memory, with flag results as the Intel SDM (volume 1 section 3.4.3.1, volume 2 appendix B) defines them.
 */
module Machine {
  import opened Wrappers
  import opened Words
  import opened Memory
  import opened Semantics

  // ----- arithmetic -----

  datatype Width = W32 | W64

  function Modulus(w: Width): int { if w == W32 then TWO32 else TWO64 }

  function Half(w: Width): int { if w == W32 then TWO31 else TWO63 }

  /** The two's-complement reading of an operand. */
  function Signed(w: Width, v: int): int {
    if v >= Half(w) then v - Modulus(w) else v
  }

  predicate FitsSigned(w: Width, x: int) { -Half(w) <= x < Half(w) }

  function BitOpOf(kind: Alu): BitOp
    requires kind.And? || kind.Or? || kind.Xor?
  {
    match kind
    case And => BitAnd
    case Or => BitOr
    case Xor => BitXor
  }

  function AluValue(w: Width, kind: Alu, a: nat, b: nat): (r: Word)
    ensures r < Modulus(w)
  {
    match kind
    case Add => (a + b) % Modulus(w)
    case Sub => (a - b) % Modulus(w)
    case _ =>
      Pow2Facts();
      Bitwise(BitOpOf(kind), if w == W32 then 32 else 64, a, b)
  }

  datatype Flags = Flags(zf: bool, sf: bool, of: bool, cf: bool)

  /** Zero, sign, signed overflow and unsigned carry or borrow of an ALU operation. */
  function AluFlags(w: Width, kind: Alu, a: nat, b: nat): Flags {
    var r := AluValue(w, kind, a, b);
    var exact := Signed(w, a) + (if kind == Add then Signed(w, b) else -Signed(w, b));
    Flags(
      r == 0,
      r >= Half(w),
      (kind == Add || kind == Sub) && !FitsSigned(w, exact),
      if kind == Add then a + b >= Modulus(w) else kind == Sub && a < b)
  }

  predicate Holds(c: Condition, f: Flags) {
    match c
    case E => f.zf
    case Ne => !f.zf
    case S => f.sf
    case Ns => !f.sf
    case O => f.of
    case No => !f.of
    case B => f.cf
    case Ae => !f.cf
    case Be => f.cf || f.zf
    case A => !f.cf && !f.zf
    case L => f.sf != f.of
    case Ge => f.sf == f.of
    case Le => f.zf || f.sf != f.of
    case G => !f.zf && f.sf == f.of
  }

  /** After a comparison the order conditions are the unsigned and signed orders of the operands. */
  lemma ConditionAfterCompare(w: Width, a: nat, b: nat, c: Condition)
    requires a < Modulus(w) && b < Modulus(w)
    ensures Holds(c, AluFlags(w, Sub, a, b)) <==>
            match c
            case E => a == b
            case Ne => a != b
            case B => a < b
            case Ae => a >= b
            case Be => a <= b
            case A => a > b
            case L => Signed(w, a) < Signed(w, b)
            case Ge => Signed(w, a) >= Signed(w, b)
            case Le => Signed(w, a) <= Signed(w, b)
            case G => Signed(w, a) > Signed(w, b)
            case S => Signed(w, AluValue(w, Sub, a, b)) < 0
            case Ns => Signed(w, AluValue(w, Sub, a, b)) >= 0
            case O => Signed(w, a) - Signed(w, b) != Signed(w, AluValue(w, Sub, a, b))
            case No => Signed(w, a) - Signed(w, b) == Signed(w, AluValue(w, Sub, a, b))
  {
    assert AluValue(w, Sub, a, b) == if a >= b then a - b else a - b + Modulus(w);
  }

  // ----- scalar execution -----

  type Regs = map<Register, Word>

  function Get(regs: Regs, r: Register): Word {
    if r in regs then regs[r] else 0
  }

  function Operand64(regs: Regs, v: Value): Word {
    match v
    case RegisterValue(r) => Get(regs, r)
    case Immediate(i) => Wrap(i)
  }

  function Operand32(regs: Regs, v: Value32): Word {
    match v
    case Register32(r) => Low32(Get(regs, r))
    case Immediate32(i) => i
  }

  function OptionalRegister(regs: Regs, r: Option<Register>): Word {
    match r
    case Some(register) => Get(regs, register)
    case None => 0
  }

  function LeaAddress(base: Word, index: Word, scale: Scale, displacement: Int64): Word {
    Wrap(base + index * scale + displacement)
  }

  /** What a scalar instruction writes: a register, the flags, its stack operand. */
  datatype Outcome = Outcome(register: Option<(Gpr, Word)>, flags: Option<Flags>, memory: Option<Word>)

  /** `operand` is the value of the stack operand, when there is one. */
  function Exec(op: Op, regs: Regs, operand: Word): Outcome {
    match op
    case Mov(dst, src) => Outcome(Some((dst, Operand64(regs, src))), None, None)
    case Mov32(dst, src) => Outcome(Some((dst, Operand32(regs, src))), None, None)
    case LoadStack64(dst, _, _) => Outcome(Some((dst, operand)), None, None)
    case LoadStack32(dst, _, _) => Outcome(Some((dst, Low32(operand))), None, None)
    case StoreStack64(_, _, src) => Outcome(None, None, Some(Get(regs, src)))
    case StoreStack32(_, _, src) => Outcome(None, None, Some(Operand32(regs, src)))
    case Lea(dst, base, index, scale, displacement) =>
      Outcome(Some((dst, LeaAddress(OptionalRegister(regs, base), OptionalRegister(regs, index), scale, displacement))),
        None, None)
    case Alu(kind, dst, src) =>
      var a, b := Get(regs, dst), Operand64(regs, src);
      Outcome(Some((dst, AluValue(W64, kind, a, b))), Some(AluFlags(W64, kind, a, b)), None)
    case Alu32(kind, dst, src) =>
      var a, b := Low32(Get(regs, dst)), Operand32(regs, src);
      Outcome(Some((dst, AluValue(W32, kind, a, b))), Some(AluFlags(W32, kind, a, b)), None)
    case AluStack32(kind, _, _, src) =>
      var a, b := Low32(operand), Operand32(regs, src);
      Outcome(None, Some(AluFlags(W32, kind, a, b)), Some(AluValue(W32, kind, a, b)))
    case Cmp(lhs, rhs) =>
      Outcome(None, Some(AluFlags(W64, Sub, Get(regs, lhs), Operand64(regs, rhs))), None)
    case Cmp32(lhs, rhs) =>
      Outcome(None, Some(AluFlags(W32, Sub, Low32(Get(regs, lhs)), Operand32(regs, rhs))), None)
    case CmpRegStack32(lhs, _, _) =>
      Outcome(None, Some(AluFlags(W32, Sub, Low32(Get(regs, lhs)), Low32(operand))), None)
    case CmpStack32(_, _, rhs) =>
      Outcome(None, Some(AluFlags(W32, Sub, Low32(operand), Operand32(regs, rhs))), None)
    case Test(lhs, rhs) =>
      Outcome(None, Some(AluFlags(W64, And, Get(regs, lhs), Operand64(regs, rhs))), None)
    case _ => Outcome(None, None, None)
  }

  // ----- machine state -----

  datatype State = State(rip: nat, regs: Regs, flags: Flags, mem: Mem)

  /** Address of the stack operand, before wrapping. */
  function OperandAddress(a: StackOperand, regs: Regs): int {
    Get(regs, a.base) + a.displacement
  }

  lemma LoadFits(mem: Mem, a: int, n: AccessWidth)
    ensures Load(mem, a, n) < TWO64
  {
    LoadBound(mem, a, n);
    Pow256Facts();
  }

  function OperandValue(op: Op, m: State): Word {
    match StackAccess(op)
    case Some(a) =>
      LoadFits(m.mem, OperandAddress(a, m.regs), a.width);
      Load(m.mem, OperandAddress(a, m.regs), a.width)
    case None => 0
  }

  function WriteOutcome(op: Op, m: State, x: Outcome): State {
    State(
      m.rip,
      if x.register.Some? then m.regs[x.register.value.0 := x.register.value.1] else m.regs,
      if x.flags.Some? then x.flags.value else m.flags,
      match (StackAccess(op), x.memory)
      case (Some(a), Some(v)) => Store(m.mem, OperandAddress(a, m.regs), a.width, v)
      case _ => m.mem)
  }

  /** Loads RBP from the given address and leaves RSP just above it. */
  function PopRbp(m: State, at: Word): State {
    m.(regs := m.regs[RSP := Wrap(at + 8)][RBP := Wrap(Load(m.mem, at, WORD_BYTES))])
  }

  /** The data effect of an instruction, the instruction pointer aside; a near return pops it separately. */
  function Effect(op: Op, m: State): State {
    var rsp, rbp := Get(m.regs, RSP), Get(m.regs, RBP);
    match op
    case SaveFramePointer =>
      m.(regs := m.regs[RSP := Wrap(rsp - 8)], mem := Store(m.mem, rsp - 8, WORD_BYTES, rbp))
    case RestoreFramePointer => PopRbp(m, rsp)
    case SetFramePointer => m.(regs := m.regs[RBP := rsp])
    case RestoreStackPointerFromFrame => m.(regs := m.regs[RSP := rbp])
    case AdjustStack(kind, amount) =>
      m.(regs := m.regs[RSP := AluValue(W64, kind, rsp, Wrap(amount))],
         flags := AluFlags(W64, kind, rsp, Wrap(amount)))
    case LeaveFrame => PopRbp(m, rbp)
    case Ret => m.(regs := m.regs[RSP := Wrap(rsp + 8)])
    case _ => WriteOutcome(op, m, Exec(op, m.regs, OperandValue(op, m)))
  }

  /** Instructions outside this machine: recovery never admits them. */
  predicate Modelled(op: Op) {
    !(op.LoadMemory64? || op.LoadMemory32? || op.StoreMemory64? || op.StoreMemory32? || op.AluRegMemory64? ||
      op.SaveRegister? || op.RestoreRegister? || op.CallDirect?)
  }

  datatype StepResult = Next(state: State) | Returned(state: State) | Stuck
}
