/**
 The typed instruction subset (crates/hydir-semantics) and its register and flag effects.
 Effect bit masks are modelled as sets.
 */
module Semantics {
  import opened Wrappers

  datatype Register =
    | RAX | RBX | RDI | RSI | RDX | RCX | R8 | R9 | R10 | R11 | R12 | R13 | R14 | R15 | RSP | RBP

  /** The operand registers the classifier lets through. */
  type Gpr = r: Register | r != RSP && r != RBP witness RAX

  type FrameBase = r: Register | r == RSP || r == RBP witness RSP

  type Int64 = x: int | -0x8000_0000_0000_0000 <= x < 0x8000_0000_0000_0000
  type UInt32 = x: int | 0 <= x < 0x1_0000_0000

  datatype Flag = ZF | SF | OF | CF

  datatype Value = RegisterValue(register: Gpr) | Immediate(value: Int64)

  datatype Value32 = Register32(register: Gpr) | Immediate32(value: UInt32)

  datatype Segment = FS | GS

  type Scale = s: nat | s == 1 || s == 2 || s == 4 || s == 8 witness 1

  datatype MemoryAddress = MemoryAddress(
    segment: Option<Segment>, base: Option<Register>, index: Option<Register>,
    scale: Scale, displacement: Int64, absolute: Option<nat>)

  datatype Alu = Add | Sub | And | Or | Xor

  type AddOrSub = k: Alu | k == Add || k == Sub witness Add

  datatype Condition = E | Ne | G | Ge | L | Le | A | Ae | B | Be | S | Ns | O | No

  datatype Op =
    | Mov(dst: Gpr, src: Value)
    | Mov32(dst: Gpr, src32: Value32)
    | LoadStack64(dst: Gpr, base: FrameBase, displacement: Int64)
    | LoadStack32(dst: Gpr, base: FrameBase, displacement: Int64)
    | StoreStack64(base: FrameBase, displacement: Int64, source: Gpr)
    | StoreStack32(base: FrameBase, displacement: Int64, src32: Value32)
    | LoadMemory64(dst: Gpr, address: MemoryAddress)
    | LoadMemory32(dst: Gpr, address: MemoryAddress)
    | StoreMemory64(address: MemoryAddress, source: Gpr)
    | StoreMemory32(address: MemoryAddress, src32: Value32)
    | Lea(dst: Gpr, leaBase: Option<Register>, index: Option<Register>, scale: Scale, displacement: Int64)
    | Alu(kind: Alu, dst: Gpr, src: Value)
    | Alu32(kind: Alu, dst: Gpr, src32: Value32)
    | AluStack32(kind: Alu, base: FrameBase, displacement: Int64, src32: Value32)
    | AluRegMemory64(kind: Alu, dst: Gpr, address: MemoryAddress)
    | Cmp(lhs: Gpr, rhs: Value)
    | Cmp32(lhs: Gpr, rhs32: Value32)
    | CmpRegStack32(lhs: Gpr, base: FrameBase, displacement: Int64)
    | CmpStack32(base: FrameBase, displacement: Int64, rhs32: Value32)
    | Test(lhs: Gpr, rhs: Value)
    | SaveRegister(register: Gpr)
    | RestoreRegister(register: Gpr)
    | SaveFramePointer
    | RestoreFramePointer
    | SetFramePointer
    | RestoreStackPointerFromFrame
    | AdjustStack(direction: AddOrSub, amount: Int64)
    | LeaveFrame
    | Jcc(condition: Condition)
    | Jmp
    | CallDirect(callee: nat)
    | Ret
    | Nop

  /** Bytes of a stack-local access. */
  type AccessWidth = w: nat | w == 4 || w == 8 witness 8

  /** Base, displacement and width in bytes of a stack-local operand. */
  datatype StackOperand = StackOperand(base: FrameBase, displacement: Int64, width: AccessWidth)

  function StackAccess(op: Op): Option<StackOperand> {
    match op
    case LoadStack64(_, b, d) => Some(StackOperand(b, d, 8))
    case StoreStack64(b, d, _) => Some(StackOperand(b, d, 8))
    case LoadStack32(_, b, d) => Some(StackOperand(b, d, 4))
    case StoreStack32(b, d, _) => Some(StackOperand(b, d, 4))
    case AluStack32(_, b, d, _) => Some(StackOperand(b, d, 4))
    case CmpRegStack32(_, b, d) => Some(StackOperand(b, d, 4))
    case CmpStack32(b, d, _) => Some(StackOperand(b, d, 4))
    case _ => None
  }

  predicate IsFrameOp(op: Op) {
    op.SaveFramePointer? || op.RestoreFramePointer? || op.SetFramePointer? ||
    op.RestoreStackPointerFromFrame? || op.AdjustStack? || op.LeaveFrame?
  }

  // ----- effects -----

  const ALL_FLAGS: set<Flag> := {ZF, SF, OF, CF}

  datatype Effects = Effects(
    readRegisters: set<Register>, writeRegisters: set<Register>,
    readFlags: set<Flag>, writeFlags: set<Flag>)

  function ValueReads(v: Value): set<Register> {
    match v
    case RegisterValue(r) => {r}
    case Immediate(_) => {}
  }

  function Value32Reads(v: Value32): set<Register> {
    match v
    case Register32(r) => {r}
    case Immediate32(_) => {}
  }

  function OptionalReads(r: Option<Register>): set<Register> {
    match r
    case Some(register) => {register}
    case None => {}
  }

  function AddressReads(a: MemoryAddress): set<Register> {
    OptionalReads(a.base) + OptionalReads(a.index)
  }

  function ConditionReads(c: Condition): set<Flag> {
    match c
    case E => {ZF}
    case Ne => {ZF}
    case S => {SF}
    case Ns => {SF}
    case O => {OF}
    case No => {OF}
    case B => {CF}
    case Ae => {CF}
    case Be => {CF, ZF}
    case A => {CF, ZF}
    case L => {SF, OF}
    case Ge => {SF, OF}
    case Le => {ZF, SF, OF}
    case G => {ZF, SF, OF}
  }

  function EffectsOf(op: Op): Effects {
    match op
    case Mov(dst, src) => Effects(ValueReads(src), {dst}, {}, {})
    case Mov32(dst, src) => Effects(Value32Reads(src), {dst}, {}, {})
    case LoadStack64(dst, base, _) => Effects({base}, {dst}, {}, {})
    case LoadStack32(dst, base, _) => Effects({base}, {dst}, {}, {})
    case StoreStack64(base, _, src) => Effects({src, base}, {}, {}, {})
    case StoreStack32(base, _, src) => Effects(Value32Reads(src) + {base}, {}, {}, {})
    case LoadMemory64(dst, address) => Effects(AddressReads(address), {dst}, {}, {})
    case LoadMemory32(dst, address) => Effects(AddressReads(address), {dst}, {}, {})
    case StoreMemory64(address, src) => Effects(AddressReads(address) + {src}, {}, {}, {})
    case StoreMemory32(address, src) => Effects(AddressReads(address) + Value32Reads(src), {}, {}, {})
    case Lea(dst, base, index, _, _) => Effects(OptionalReads(base) + OptionalReads(index), {dst}, {}, {})
    case Alu(_, dst, src) => Effects({dst} + ValueReads(src), {dst}, {}, ALL_FLAGS)
    case Alu32(_, dst, src) => Effects({dst} + Value32Reads(src), {dst}, {}, ALL_FLAGS)
    case AluStack32(_, base, _, src) => Effects(Value32Reads(src) + {base}, {}, {}, ALL_FLAGS)
    case AluRegMemory64(_, dst, address) => Effects({dst} + AddressReads(address), {dst}, {}, ALL_FLAGS)
    case Cmp(lhs, rhs) => Effects({lhs} + ValueReads(rhs), {}, {}, ALL_FLAGS)
    case Test(lhs, rhs) => Effects({lhs} + ValueReads(rhs), {}, {}, ALL_FLAGS)
    case Cmp32(lhs, rhs) => Effects({lhs} + Value32Reads(rhs), {}, {}, ALL_FLAGS)
    case CmpRegStack32(lhs, base, _) => Effects({lhs, base}, {}, {}, ALL_FLAGS)
    case CmpStack32(base, _, rhs) => Effects(Value32Reads(rhs) + {base}, {}, {}, ALL_FLAGS)
    case SaveRegister(r) => Effects({RSP, r}, {RSP}, {}, {})
    case RestoreRegister(r) => Effects({RSP}, {RSP, r}, {}, {})
    case SaveFramePointer => Effects({RSP, RBP}, {RSP}, {}, {})
    case RestoreFramePointer => Effects({RSP}, {RSP, RBP}, {}, {})
    case SetFramePointer => Effects({RSP}, {RBP}, {}, {})
    case RestoreStackPointerFromFrame => Effects({RBP}, {RSP}, {}, {})
    case AdjustStack(_, _) => Effects({RSP}, {RSP}, {}, ALL_FLAGS)
    case LeaveFrame => Effects({RBP}, {RSP, RBP}, {}, {})
    case Jcc(c) => Effects({}, {}, ConditionReads(c), {})
    case Jmp => Effects({}, {}, {}, {})
    case CallDirect(_) => Effects({RSP}, {RSP}, {}, {})
    case Ret => Effects({RSP}, {RSP}, {}, {})
    case Nop => Effects({}, {}, {}, {})
  }
}
