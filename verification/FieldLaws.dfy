/**
 What an instruction's reads and definitions mean: it defines what its execution writes, and reads
 exactly what the execution of instructions of its form depends on.
 */
module FieldLaws {
  import opened Wrappers
  import opened Words
  import opened Semantics
  import opened Machine
  import opened CfgRecovery
  import opened Fields
  import opened InstructionLaws
  import FlowLaws

  // ----- forms -----

  function ValueShape(v: Value): Value { if v.Immediate? then Immediate(0) else v }

  function Value32Shape(v: Value32): Value32 { if v.Immediate32? then Immediate32(0) else v }

  /** An instruction's form and registers, its operation, constants and scale forgotten. */
  function Shape(op: Op): Op {
    match op
    case Mov(dst, src) => Mov(dst, ValueShape(src))
    case Mov32(dst, src) => Mov32(dst, Value32Shape(src))
    case LoadStack64(dst, b, _) => LoadStack64(dst, b, 0)
    case LoadStack32(dst, b, _) => LoadStack32(dst, b, 0)
    case StoreStack64(b, _, src) => StoreStack64(b, 0, src)
    case StoreStack32(b, _, src) => StoreStack32(b, 0, Value32Shape(src))
    case Lea(dst, b, i, _, _) => Lea(dst, b, i, 1, 0)
    case Alu(_, dst, src) => Alu(Add, dst, ValueShape(src))
    case Alu32(_, dst, src) => Alu32(Add, dst, Value32Shape(src))
    case AluStack32(_, b, _, src) => AluStack32(Add, b, 0, Value32Shape(src))
    case Cmp(lhs, rhs) => Cmp(lhs, ValueShape(rhs))
    case Cmp32(lhs, rhs) => Cmp32(lhs, Value32Shape(rhs))
    case CmpRegStack32(lhs, b, _) => CmpRegStack32(lhs, b, 0)
    case CmpStack32(b, _, rhs) => CmpStack32(b, 0, Value32Shape(rhs))
    case Test(lhs, rhs) => Test(lhs, ValueShape(rhs))
    case _ => op
  }

  /** The instructions with data effects on registers, flags or their stack operand; the rest are erased. */
  predicate Computing(op: Op) {
    !Outside(op) && !IsFrameOp(op) && !op.Ret?
  }

  ghost predicate DifferAt(regs: Regs, other: Regs, r: Register) {
    forall x: Register :: x != r ==> Get(regs, x) == Get(other, x)
  }

  /** Some instruction of this form has an outcome that changes with r alone. */
  ghost predicate DependsOn(op: Op, r: Register) {
    exists like: Op, regs: Regs, other: Regs, operand: Word ::
      Shape(like) == Shape(op) && DifferAt(regs, other, r) && Exec(like, regs, operand) != Exec(like, other, operand)
  }

  /** A comparison of a register with itself has one outcome, and reads the register all the same. */
  predicate ComparesWithItself(op: Op, r: Gpr) {
    op == Cmp(r, RegisterValue(r)) || op == Cmp32(r, Register32(r))
  }

  // ----- definitions -----

  lemma RegisterDefined(op: Op, regs: Regs, operand: Word, r: Gpr)
    requires Computing(op)
    ensures RegisterField(r) in OpDefs(op) <==>
              Exec(op, regs, operand).register.Some? && Exec(op, regs, operand).register.value.0 == r
  {
  }

  lemma FlagDefined(op: Op, regs: Regs, operand: Word, flag: Flag)
    requires Computing(op)
    ensures FlagField(flag) in OpDefs(op) <==> Exec(op, regs, operand).flags.Some?
  {
    assert FlagField(flag) in OpDefs(op) <==> flag in EffectsOf(op).writeFlags;
    WritesFlags(op, regs, operand);
    assert flag in ALL_FLAGS by {
      match flag case ZF => case SF => case OF => case CF =>
    }
  }

  lemma WritesFlags(op: Op, regs: Regs, operand: Word)
    requires Computing(op)
    ensures EffectsOf(op).writeFlags == if Exec(op, regs, operand).flags.Some? then ALL_FLAGS else {}
  {
  }

  lemma SlotDefined(op: Op, regs: Regs, operand: Word)
    requires Computing(op)
    ensures WritesSlot(op) <==> Exec(op, regs, operand).memory.Some?
  {
  }

  /** A node defines the register, the flags and the slot its execution writes; erased instructions define nothing. */
  lemma DefinesExactly(node: Node, regs: Regs, operand: Word, f: Field)
    requires !Outside(node.op)
    ensures f in Defs(node) <==>
            && Computing(node.op)
            && var x := Exec(node.op, regs, operand);
               match f
               case RegisterField(r) => x.register.Some? && x.register.value.0 == r
               case FlagField(_) => x.flags.Some?
               case SlotField(i) => x.memory.Some? && node.slot == Some(i)
  {
    if Computing(node.op) {
      match f
      case RegisterField(r) => RegisterDefined(node.op, regs, operand, r);
      case FlagField(flag) => FlagDefined(node.op, regs, operand, flag);
      case SlotField(_) => SlotDefined(node.op, regs, operand);
    }
  }

  // ----- register reads -----

  predicate Arithmetic(op: Op) {
    op.Alu? || op.Alu32? || op.AluStack32? || op.Cmp? || op.Cmp32? || op.CmpRegStack32? || op.CmpStack32? || op.Test?
  }

  lemma SameShapeReads(op: Op, like: Op)
    requires Shape(like) == Shape(op)
    ensures EffectsOf(like).readRegisters == EffectsOf(op).readRegisters
  {
    if op.Alu? || op.Cmp? || op.Test? {
      WideShapeReads(op, like);
    } else if Arithmetic(op) {
      NarrowShapeReads(op, like);
    }
  }

  lemma WideShapeReads(op: Op, like: Op)
    requires Shape(like) == Shape(op) && (op.Alu? || op.Cmp? || op.Test?)
    ensures EffectsOf(like).readRegisters == EffectsOf(op).readRegisters
  {
  }

  lemma NarrowShapeReads(op: Op, like: Op)
    requires Shape(like) == Shape(op) && Arithmetic(op) && !(op.Alu? || op.Cmp? || op.Test?)
    ensures EffectsOf(like).readRegisters == EffectsOf(op).readRegisters
  {
  }

  lemma Unused64(v: Value, regs: Regs, other: Regs, r: Register)
    requires DifferAt(regs, other, r) && r !in ValueReads(v)
    ensures Operand64(regs, v) == Operand64(other, v)
  {
  }

  lemma Unused32(v: Value32, regs: Regs, other: Regs, r: Register)
    requires DifferAt(regs, other, r) && r !in Value32Reads(v)
    ensures Operand32(regs, v) == Operand32(other, v)
  {
  }

  lemma WideUnused(op: Op, regs: Regs, other: Regs, operand: Word, r: Register)
    requires DifferAt(regs, other, r) && r !in EffectsOf(op).readRegisters && (op.Alu? || op.Cmp? || op.Test?)
    ensures Exec(op, regs, operand) == Exec(op, other, operand)
  {
    Unused64(if op.Alu? then op.src else op.rhs, regs, other, r);
  }

  lemma NarrowUnused(op: Op, regs: Regs, other: Regs, operand: Word, r: Register)
    requires DifferAt(regs, other, r) && r !in EffectsOf(op).readRegisters && (op.Alu32? || op.Cmp32?)
    ensures Exec(op, regs, operand) == Exec(op, other, operand)
  {
    Unused32(if op.Alu32? then op.src32 else op.rhs32, regs, other, r);
  }

  lemma StackUnused(op: Op, regs: Regs, other: Regs, operand: Word, r: Register)
    requires DifferAt(regs, other, r) && r !in EffectsOf(op).readRegisters
    requires op.AluStack32? || op.CmpRegStack32? || op.CmpStack32?
    ensures Exec(op, regs, operand) == Exec(op, other, operand)
  {
    if !op.CmpRegStack32? {
      Unused32(if op.AluStack32? then op.src32 else op.rhs32, regs, other, r);
    }
  }

  /** What is not read does not matter. */
  lemma UnreadUnused(op: Op, regs: Regs, other: Regs, operand: Word, r: Register)
    requires DifferAt(regs, other, r) && r !in EffectsOf(op).readRegisters
    ensures Exec(op, regs, operand) == Exec(op, other, operand)
  {
    if op.Alu? || op.Cmp? || op.Test? {
      WideUnused(op, regs, other, operand, r);
    } else if op.Alu32? || op.Cmp32? {
      NarrowUnused(op, regs, other, operand, r);
    } else if Arithmetic(op) {
      StackUnused(op, regs, other, operand, r);
    }
  }

  function Ones(r: Register): Regs { map[r := 1] }

  /** The register at one instead of zero changes the outcome. */
  predicate Changes(like: Op, r: Register) {
    Exec(like, map[], 0) != Exec(like, Ones(r), 0)
  }

  lemma ShapeTwice(op: Op)
    ensures Shape(Shape(op)) == Shape(op)
  {
  }

  lemma MovedReads(op: Op, r: Gpr)
    requires op.Mov? || op.Mov32? || op.StoreStack64? || op.StoreStack32?
    requires r in EffectsOf(op).readRegisters
    ensures Changes(op, r)
  {
  }

  lemma SmallSums(w: Width, a: nat, b: nat)
    requires a <= 1 && b <= 1
    ensures AluValue(w, Add, a, b) == a + b
    ensures AluFlags(w, Sub, a, b).zf <==> a == b
  {
    ModOnce(a - b, Modulus(w));
  }

  /** A register reads as one where it is r and as zero elsewhere. */
  lemma Reading(r: Gpr, x: Gpr)
    ensures Get(map[], x) == 0 && Low32(Get(map[], x)) == 0
    ensures Get(Ones(r), x) == Low32(Get(Ones(r), x)) == if x == r then 1 else 0
  {
  }

  lemma Reading64(r: Gpr, v: Value)
    requires v.Immediate? ==> v.value == 0
    ensures Operand64(map[], v) == 0
    ensures Operand64(Ones(r), v) == if v == RegisterValue(r) then 1 else 0
  {
  }

  lemma Reading32(r: Gpr, v: Value32)
    requires v.Immediate32? ==> v.value == 0
    ensures Operand32(map[], v) == 0
    ensures Operand32(Ones(r), v) == if v == Register32(r) then 1 else 0
  {
    if v.Register32? {
      Reading(r, v.register);
    }
  }

  lemma SumReads(dst: Gpr, src: Value, r: Gpr)
    requires r == dst || src == RegisterValue(r)
    ensures Changes(Alu(Add, dst, ValueShape(src)), r)
  {
    var like, v := Alu(Add, dst, ValueShape(src)), ValueShape(src);
    Reading(r, dst);
    Reading64(r, v);
    SmallSums(W64, Get(map[], dst), Operand64(map[], v));
    SmallSums(W64, Get(Ones(r), dst), Operand64(Ones(r), v));
    assert Exec(like, map[], 0).register.value.1 == 0;
    assert Exec(like, Ones(r), 0).register.value.1 >= 1;
  }

  lemma Sum32Reads(dst: Gpr, src: Value32, r: Gpr)
    requires r == dst || src == Register32(r)
    ensures Changes(Alu32(Add, dst, Value32Shape(src)), r)
  {
    var like, v := Alu32(Add, dst, Value32Shape(src)), Value32Shape(src);
    Reading(r, dst);
    Reading32(r, v);
    SmallSums(W32, Low32(Get(map[], dst)), Operand32(map[], v));
    SmallSums(W32, Low32(Get(Ones(r), dst)), Operand32(Ones(r), v));
    assert Exec(like, map[], 0).register.value.1 == 0;
    assert Exec(like, Ones(r), 0).register.value.1 >= 1;
  }

  lemma StackSumReads(b: FrameBase, r: Gpr)
    ensures Changes(AluStack32(Add, b, 0, Register32(r)), r)
  {
    Reading(r, r);
    SmallSums(W32, 0, 0);
    SmallSums(W32, 0, 1);
  }

  lemma DifferenceReads(lhs: Gpr, rhs: Value, r: Gpr)
    requires (r == lhs) != (rhs == RegisterValue(r))
    ensures Changes(Cmp(lhs, ValueShape(rhs)), r)
  {
    var like, v := Cmp(lhs, ValueShape(rhs)), ValueShape(rhs);
    Reading(r, lhs);
    Reading64(r, v);
    SmallSums(W64, Get(map[], lhs), Operand64(map[], v));
    SmallSums(W64, Get(Ones(r), lhs), Operand64(Ones(r), v));
    assert Exec(like, map[], 0).flags.value.zf;
    assert !Exec(like, Ones(r), 0).flags.value.zf;
  }

  lemma Difference32Reads(lhs: Gpr, rhs: Value32, r: Gpr)
    requires (r == lhs) != (rhs == Register32(r))
    ensures Changes(Cmp32(lhs, Value32Shape(rhs)), r)
  {
    var like, v := Cmp32(lhs, Value32Shape(rhs)), Value32Shape(rhs);
    Reading(r, lhs);
    Reading32(r, v);
    SmallSums(W32, Low32(Get(map[], lhs)), Operand32(map[], v));
    SmallSums(W32, Low32(Get(Ones(r), lhs)), Operand32(Ones(r), v));
    assert Exec(like, map[], 0).flags.value.zf;
    assert !Exec(like, Ones(r), 0).flags.value.zf;
  }

  lemma StackDifferenceReads(b: FrameBase, r: Gpr)
    ensures Changes(CmpRegStack32(r, b, 0), r)
    ensures Changes(CmpStack32(b, 0, Register32(r)), r)
  {
    Reading(r, r);
    SmallSums(W32, 0, 0);
    SmallSums(W32, 0, 1);
    SmallSums(W32, 1, 0);
  }

  lemma OneBit()
    ensures AluFlags(W64, And, 1, 1).zf == false && AluFlags(W64, And, 0, 1).zf && AluFlags(W64, And, 1, 0).zf
    ensures AluFlags(W64, And, 0, 0).zf
  {
    Pow2Facts();
    MaskIsMod(64, 1, 1);
    MaskIsMod(64, 1, 0);
    AndZero(64, 1);
    AndZero(64, 0);
  }

  lemma TestOutcome(lhs: Gpr, rhs: Value, regs: Regs)
    ensures Exec(Test(lhs, rhs), regs, 0) ==
            Outcome(None, Some(AluFlags(W64, And, Get(regs, lhs), Operand64(regs, rhs))), None)
  {
  }

  /** TEST sees a register through ones in the other operand. */
  lemma TestReads(lhs: Gpr, rhs: Value, r: Gpr)
    requires r == lhs || rhs == RegisterValue(r)
    ensures DependsOn(Test(lhs, rhs), r)
  {
    var right := if rhs.Immediate? then Immediate(1) else rhs;
    var q := if r != lhs then lhs else if rhs.RegisterValue? then rhs.register else r;
    var regs: Regs, other: Regs := if q == r then map[] else map[q := 1], map[q := 1, r := 1];
    assert DifferAt(regs, other, r);
    TestOutcome(lhs, right, regs);
    TestOutcome(lhs, right, other);
    assert Get(other, lhs) == 1 && Operand64(other, right) == 1;
    assert Get(regs, lhs) <= 1 && Operand64(regs, right) <= 1 && (Get(regs, lhs) == 0 || Operand64(regs, right) == 0);
    OneBit();
    assert Exec(Test(lhs, right), regs, 0) != Exec(Test(lhs, right), other, 0);
    assert Shape(Test(lhs, right)) == Shape(Test(lhs, rhs));
  }

  lemma WitnessDepends(op: Op, like: Op, r: Register)
    requires Shape(like) == Shape(op) && Changes(like, r)
    ensures DependsOn(op, r)
  {
    assert DifferAt(map[], Ones(r), r);
  }

  lemma LeaReads(op: Op, r: Register)
    requires op.Lea? && r in EffectsOf(op).readRegisters
    ensures DependsOn(op, r)
  {
    FlowLaws.LeaMoves(op, r);
    WitnessDepends(op, op, r);
  }

  /** What is read matters to some instruction of the form. */
  lemma ReadMatters(op: Op, r: Gpr)
    requires Computing(op) && r in EffectsOf(op).readRegisters && !ComparesWithItself(op, r)
    ensures DependsOn(op, r)
  {
    if op.Test? {
      TestReads(op.lhs, op.rhs, r);
    } else if op.Lea? {
      LeaReads(op, r);
    } else if Arithmetic(op) {
      OperandMatters(op, r);
    } else {
      MovedReads(op, r);
      WitnessDepends(op, op, r);
    }
  }

  lemma OperandMatters(op: Op, r: Gpr)
    requires Arithmetic(op) && !op.Test? && r in EffectsOf(op).readRegisters && !ComparesWithItself(op, r)
    ensures DependsOn(op, r)
  {
    ShapeTwice(op);
    ShapeChanges(op, r);
    WitnessDepends(op, Shape(op), r);
  }

  lemma ShapeChanges(op: Op, r: Gpr)
    requires Arithmetic(op) && !op.Test? && r in EffectsOf(op).readRegisters && !ComparesWithItself(op, r)
    ensures Changes(Shape(op), r)
  {
    match op
    case Alu(_, dst, src) => SumReads(dst, src, r);
    case Alu32(_, dst, src) => Sum32Reads(dst, src, r);
    case AluStack32(_, b, _, _) => StackSumReads(b, r);
    case Cmp(lhs, rhs) => DifferenceReads(lhs, rhs, r);
    case Cmp32(lhs, rhs) => Difference32Reads(lhs, rhs, r);
    case CmpRegStack32(_, b, _) => StackDifferenceReads(b, r);
    case CmpStack32(b, _, _) => StackDifferenceReads(b, r);
  }

  lemma UnreadIndependent(op: Op, r: Register)
    requires r !in EffectsOf(op).readRegisters
    ensures !DependsOn(op, r)
  {
    forall like: Op, regs: Regs, other: Regs, operand: Word | Shape(like) == Shape(op) && DifferAt(regs, other, r)
      ensures Exec(like, regs, operand) == Exec(like, other, operand)
    {
      SameShapeReads(op, like);
      UnreadUnused(like, regs, other, operand, r);
    }
  }

  lemma ComparedIsRead(op: Op, r: Gpr)
    requires ComparesWithItself(op, r)
    ensures r in EffectsOf(op).readRegisters
  {
  }

  lemma ReadField(op: Op, r: Gpr)
    requires Computing(op)
    ensures RegisterField(r) in OpReads(op) <==> r in EffectsOf(op).readRegisters
  {
  }

  /** An instruction reads exactly the registers its form depends on, and what it compares with itself. */
  lemma RegisterReadsExactly(op: Op, r: Gpr)
    requires Computing(op)
    ensures RegisterField(r) in OpReads(op) <==> DependsOn(op, r) || ComparesWithItself(op, r)
  {
    ReadField(op, r);
    if r !in EffectsOf(op).readRegisters {
      UnreadIndependent(op, r);
      if ComparesWithItself(op, r) {
        ComparedIsRead(op, r);
      }
    } else if !ComparesWithItself(op, r) {
      ReadMatters(op, r);
    }
  }

  // ----- flag and slot reads -----

  function FlagOf(f: Flags, flag: Flag): bool {
    match flag
    case ZF => f.zf
    case SF => f.sf
    case OF => f.of
    case CF => f.cf
  }

  ghost predicate DifferAtFlag(f: Flags, g: Flags, flag: Flag) {
    forall x: Flag :: x != flag ==> FlagOf(f, x) == FlagOf(g, x)
  }

  /** The condition's truth changes with this flag alone. */
  ghost predicate ConditionDepends(c: Condition, flag: Flag) {
    exists f: Flags, g: Flags :: DifferAtFlag(f, g, flag) && Holds(c, f) != Holds(c, g)
  }

  function Flip(f: Flags, flag: Flag): Flags {
    match flag
    case ZF => f.(zf := !f.zf)
    case SF => f.(sf := !f.sf)
    case OF => f.(of := !f.of)
    case CF => f.(cf := !f.cf)
  }

  lemma ConditionReadsExactly(c: Condition, flag: Flag)
    ensures flag in ConditionReads(c) <==> ConditionDepends(c, flag)
  {
    if flag in ConditionReads(c) {
      var clear := Flags(false, false, false, false);
      assert DifferAtFlag(clear, Flip(clear, flag), flag);
      assert Holds(c, clear) != Holds(c, Flip(clear, flag));
    } else {
      forall f: Flags, g: Flags | DifferAtFlag(f, g, flag)
        ensures Holds(c, f) == Holds(c, g)
      {
        assert forall x: Flag :: x in ConditionReads(c) ==> FlagOf(f, x) == FlagOf(g, x);
        HoldsByReads(c, f, g);
      }
    }
  }

  lemma HoldsByReads(c: Condition, f: Flags, g: Flags)
    requires forall x: Flag :: x in ConditionReads(c) ==> FlagOf(f, x) == FlagOf(g, x)
    ensures Holds(c, f) == Holds(c, g)
  {
    assert ZF in ConditionReads(c) ==> f.zf == g.zf;
    assert SF in ConditionReads(c) ==> f.sf == g.sf;
    assert OF in ConditionReads(c) ==> f.of == g.of;
    assert CF in ConditionReads(c) ==> f.cf == g.cf;
  }

  /** Flags are read by branches alone, those their condition depends on. */
  lemma FlagReadsExactly(op: Op, flag: Flag)
    ensures FlagField(flag) in OpReads(op) <==> op.Jcc? && ConditionDepends(op.condition, flag)
  {
    if op.Jcc? {
      ConditionReadsExactly(op.condition, flag);
      assert FlagField(flag) in OpReads(op) <==> flag in ConditionReads(op.condition);
    }
  }

  /** Some instruction of this form has an outcome that changes with the value of its stack operand. */
  ghost predicate DependsOnOperand(op: Op) {
    exists like: Op, regs: Regs, a: Word, b: Word ::
      Shape(like) == Shape(op) && Exec(like, regs, a) != Exec(like, regs, b)
  }

  lemma OperandChanges(op: Op)
    requires ReadsSlot(op)
    ensures Exec(Shape(op), map[], 0) != Exec(Shape(op), map[], 1)
  {
    Reading(RAX, RAX);
    SmallSums(W32, 0, 0);
    SmallSums(W32, 0, 1);
    SmallSums(W32, 1, 0);
    match op
    case AluStack32(_, _, _, src) => Reading32(RAX, Value32Shape(src));
    case CmpStack32(_, _, rhs) => Reading32(RAX, Value32Shape(rhs));
    case CmpRegStack32(lhs, _, _) => Reading(RAX, lhs);
    case _ =>
  }

  lemma OperandIgnored(op: Op, regs: Regs, a: Word, b: Word)
    requires !ReadsSlot(op)
    ensures Exec(op, regs, a) == Exec(op, regs, b)
  {
  }

  lemma SlotReadsExactly(op: Op)
    requires Computing(op)
    ensures ReadsSlot(op) <==> DependsOnOperand(op)
  {
    if ReadsSlot(op) {
      ShapeTwice(op);
      OperandChanges(op);
    } else {
      forall like: Op, regs: Regs, a: Word, b: Word | Shape(like) == Shape(op)
        ensures Exec(like, regs, a) == Exec(like, regs, b)
      {
        assert !ReadsSlot(like);
        OperandIgnored(like, regs, a, b);
      }
    }
  }

  // ----- nodes -----

  /** What a node reads: the registers, flags and slot its outcome or branch depends on, and RAX at a return. */
  lemma ReadsExactly(node: Node, f: Field)
    requires !Outside(node.op)
    ensures f in Reads(node) <==>
            match f
            case RegisterField(r) =>
              || (Computing(node.op) && (DependsOn(node.op, r) || ComparesWithItself(node.op, r)))
              || (node.op.Ret? && r == RAX)
            case FlagField(flag) => node.op.Jcc? && ConditionDepends(node.op.condition, flag)
            case SlotField(i) => Computing(node.op) && DependsOnOperand(node.op) && node.slot == Some(i)
  {
    match f
    case RegisterField(r) =>
      if Computing(node.op) {
        RegisterReadsExactly(node.op, r);
      }
    case FlagField(flag) => FlagReadsExactly(node.op, flag);
    case SlotField(_) =>
      if Computing(node.op) {
        SlotReadsExactly(node.op);
      }
  }

  /** A direct call reads the six integer argument registers of the System V AMD64 ABI. */
  lemma CallReads(node: Node, f: Field)
    requires node.op.CallDirect?
    ensures f in Reads(node) <==> f.RegisterField? && f.register in {RDI, RSI, RDX, RCX, R8, R9}
  {
    if f in Reads(node) {
      var r :| r in ARGUMENTS && f == RegisterField(r);
    }
    if f.RegisterField? && f.register in {RDI, RSI, RDX, RCX, R8, R9} {
      assert f.register in ARGUMENTS;
    }
  }

  /** Flags are written by arithmetic and stack adjustments, all four at once. */
  lemma FlagWritesExactly(op: Op, regs: Regs, operand: Word)
    ensures EffectsOf(op).writeFlags ==
            if (Computing(op) && Exec(op, regs, operand).flags.Some?) || op.AdjustStack? || op.AluRegMemory64?
            then {ZF, SF, OF, CF} else {}
  {
    if Computing(op) {
      WritesFlags(op, regs, operand);
    }
  }
}
