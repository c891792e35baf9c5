/**
 Emission of one block per instruction (`emit_node`, `emit_flags`, `emit_flags32`, `condition_name`).
 Every contract says what the emitted code computes in any environment.
 */
module Emit {
  import opened Wrappers
  import opened Words
  import opened Semantics
  import opened Machine
  import opened Fields
  import opened Ssa
  import opened CfgRecovery

  /** The value of a 64-bit operand, zero if it has none. */
  function Num(env: Env, o: Operand): Word {
    if Operand64Of(env, o).I64? then Operand64Of(env, o).word else 0
  }

  predicate Is64(env: Env, o: Operand) { Operand64Of(env, o).I64? }

  predicate Is1(env: Env, o: Operand) { Operand1Of(env, o).I1? }

  function Truth(env: Env, o: Operand): bool {
    Is1(env, o) && Operand1Of(env, o).bit
  }

  /** Every name but temporaries from `from` on keeps its value. */
  ghost predicate OnlyTemps(ip: nat, from: nat, before: Env, after: Env) {
    forall n: Name {:trigger Look(after, n)} :: !(n.Temp? && n.ip == ip && n.index >= from) ==>
      Look(after, n) == Look(before, n)
  }

  /** Nor do the flag outputs. */
  ghost predicate OnlyTempsAndFlags(ip: nat, from: nat, before: Env, after: Env) {
    forall n: Name {:trigger Look(after, n)} ::
      !(n.Temp? && n.ip == ip && n.index >= from) && !(n.Out? && n.ip == ip && n.field.FlagField?)
      ==> Look(after, n) == Look(before, n)
  }

  ghost predicate OnlyTempsAndFlag(ip: nat, from: nat, flag: Flag, before: Env, after: Env) {
    forall n: Name {:trigger Look(after, n)} ::
      !(n.Temp? && n.ip == ip && n.index >= from) && n != Out(FlagField(flag), ip)
      ==> Look(after, n) == Look(before, n)
  }

  /** Exactly one name gets a new value. */
  ghost predicate Binds(name: Name, v: Val, before: Env, after: Env) {
    forall n: Name {:trigger Look(after, n)} :: Look(after, n) == if n == name then v else Look(before, n)
  }

  /** An operand that later temporaries and flag outputs of this block cannot change. */
  predicate Settled(ip: nat, next: nat, o: Operand) {
    o.Ref? ==> !(o.name.Temp? && o.name.ip == ip && o.name.index >= next) &&
               !(o.name.Out? && o.name.ip == ip && o.name.field.FlagField?)
  }

  function FlagBit(f: Flags, flag: Flag): bool {
    match flag
    case ZF => f.zf
    case SF => f.sf
    case OF => f.of
    case CF => f.cf
  }

  /** The incoming flags of a block, and which of them are defined. */
  function FlagsView(env: Env, ip: nat): Flags {
    Flags(Look(env, In(FlagField(ZF), ip)) == I1(true), Look(env, In(FlagField(SF), ip)) == I1(true),
          Look(env, In(FlagField(OF), ip)) == I1(true), Look(env, In(FlagField(CF), ip)) == I1(true))
  }

  function TypedFlags(env: Env, ip: nat): set<Flag> {
    set f | f in ALL_FLAGS && Look(env, In(FlagField(f), ip)).I1?
  }

  ghost predicate FlagsOut(ip: nat, env: Env, f: Flags) {
    forall flag :: Look(env, Out(FlagField(flag), ip)) == I1(FlagBit(f, flag))
  }

  /** Overflow and carry as the emitted code tests them: on sign bits and the wrapped result. */
  function EmittedFlags(w: Width, kind: Option<Alu>, a: Word, b: Word, r: Word): Flags {
    Flags(r == 0, r >= Half(w),
          match kind
          case Some(Add) => ((a >= Half(w)) == (b >= Half(w))) && ((a >= Half(w)) != (r >= Half(w)))
          case Some(Sub) => ((a >= Half(w)) != (b >= Half(w))) && ((a >= Half(w)) != (r >= Half(w)))
          case _ => false,
          match kind
          case Some(Add) => r < a
          case Some(Sub) => a < b
          case _ => false)
  }

  /** Those tests are signed overflow and unsigned carry or borrow. */
  lemma EmittedFlagsAreExact(w: Width, kind: Option<Alu>, a: Word, b: Word)
    requires a < Modulus(w) && b < Modulus(w)
    ensures var k := if kind.Some? then kind.value else And;
            EmittedFlags(w, kind, a, b, AluValue(w, k, a, b)) == AluFlags(w, k, a, b)
  {
    if kind == Some(Add) {
      SumFlags(Modulus(w), Half(w), a, b);
    } else if kind == Some(Sub) {
      DifferenceFlags(Modulus(w), Half(w), a, b);
    }
  }

  lemma SumFlags(m: int, h: int, a: int, b: int)
    requires m == 2 * h && 0 <= a < m && 0 <= b < m
    ensures (a + b) % m == if a + b < m then a + b else a + b - m
  {
    if a + b < m {
      DivModUnique(a + b, m, 0, a + b);
    } else {
      DivModUnique(a + b, m, 1, a + b - m);
    }
  }

  lemma DifferenceFlags(m: int, h: int, a: int, b: int)
    requires m == 2 * h && 0 <= a < m && 0 <= b < m
    ensures (a - b) % m == if a >= b then a - b else a - b + m
  {
    if a >= b {
      DivModUnique(a - b, m, 0, a - b);
    } else {
      var q := (a - b) / m;
      assert a - b == q * m + (a - b) % m;
      assert q == -1;
    }
  }

  /** The flag outputs are those of the operation, given its operands and result. */
  ghost predicate FlagsEmitted(ip: nat, w: Width, kind: Option<Alu>, before: Env, after: Env, lhs: Operand,
                               rhs: Operand, result: Operand) {
    var k := if kind.Some? then kind.value else And;
    var a, b := Num(before, lhs), Num(before, rhs);
    && Is64(before, lhs) && Is64(before, rhs) && Is64(before, result)
    && a < Modulus(w) && b < Modulus(w) && Num(before, result) == AluValue(w, k, a, b)
    ==> FlagsOut(ip, after, AluFlags(w, k, a, b))
  }

  /** The flag outputs follow the emitted tests. */
  ghost predicate FlagsTested(ip: nat, w: Width, kind: Option<Alu>, before: Env, after: Env, lhs: Operand, rhs: Operand,
                              result: Operand) {
    var a, b, r := Num(before, lhs), Num(before, rhs), Num(before, result);
    Is64(before, lhs) && Is64(before, rhs) && Is64(before, result) && a < Modulus(w) && b < Modulus(w) && r < Modulus(w)
    ==> FlagsOut(ip, after, EmittedFlags(w, kind, a, b, r))
  }

  ghost predicate ZeroAndSign(ip: nat, w: Width, before: Env, after: Env, result: Operand) {
    var r := Num(before, result);
    Is64(before, result) && r < Modulus(w)
    ==> Look(after, Out(FlagField(ZF), ip)) == I1(r == 0) && Look(after, Out(FlagField(SF), ip)) == I1(r >= Half(w))
  }

  ghost predicate OverflowTested(ip: nat, w: Width, kind: Alu, before: Env, after: Env, lhs: Operand, rhs: Operand) {
    var a, b, sign := Num(before, lhs), Num(before, rhs), Look(before, Out(FlagField(SF), ip));
    Is64(before, lhs) && Is64(before, rhs) && a < Modulus(w) && b < Modulus(w) && sign.I1?
    ==> Look(after, Out(FlagField(OF), ip)) ==
        I1((((a >= Half(w)) == (b >= Half(w))) == (kind == Add)) && (a >= Half(w)) != sign.bit)
  }

  /** t, in the later environment, is bit 31 of a 32-bit operand. */
  ghost predicate SignTested(before: Env, o: Operand, after: Env, t: Operand) {
    Is64(before, o) && Num(before, o) < TWO32 ==> Operand1Of(after, t) == I1(Num(before, o) >= TWO31)
  }

  ghost predicate Differ(before: Env, x: Operand, y: Operand, after: Env, t: Operand) {
    var a, b := Operand1Of(before, x), Operand1Of(before, y);
    a.I1? && b.I1? ==> Operand1Of(after, t) == I1(a.bit != b.bit)
  }

  ghost predicate OverflowOfSigns(ip: nat, kind: Alu, before: Env, after: Env, lhs: Operand, rhs: Operand,
                                  result: Operand) {
    var a, b, r := Operand1Of(before, lhs), Operand1Of(before, rhs), Operand1Of(before, result);
    a.I1? && b.I1? && r.I1? ==>
      Look(after, Out(FlagField(OF), ip)) == I1(((a.bit == b.bit) == (kind == Add)) && a.bit != r.bit)
  }

  lemma Overflow32(ip: nat, from: nat, kind: Alu, before: Env, signs: Env, overflow: Env, lhs: Operand, rhs: Operand,
                   result: Operand, lhsNegative: Operand, rhsNegative: Operand, resultNegative: Operand)
    requires Settled(ip, from, lhs) && Settled(ip, from, rhs) && Settled(ip, from, result)
    requires OnlyTempsAndFlags(ip, from, before, signs) && ZeroAndSign(ip, W32, before, signs, result)
    requires SignTested(before, lhs, signs, lhsNegative) && SignTested(before, rhs, signs, rhsNegative)
    requires SignTested(before, result, signs, resultNegative)
    requires OverflowOfSigns(ip, kind, signs, overflow, lhsNegative, rhsNegative, resultNegative)
    requires Is64(before, result) && Num(before, result) < TWO32
    ensures OverflowTested(ip, W32, kind, signs, overflow, lhs, rhs)
  {
    Steady(ip, from, before, signs, lhs);
    Steady(ip, from, before, signs, rhs);
  }

  /** Three sign tests in turn; later temporaries leave earlier ones alone. */
  lemma SignsInTurn(ip: nat, from: nat, before: Env, one: Env, two: Env, after: Env, lhs: Operand, rhs: Operand,
                    result: Operand)
    requires Settled(ip, from, lhs) && Settled(ip, from, rhs) && Settled(ip, from, result)
    requires OnlyTemps(ip, from, before, one) && SignTested(before, lhs, one, Ref(Temp(ip, from + 1)))
    requires OnlyTemps(ip, from + 2, one, two) && SignTested(one, rhs, two, Ref(Temp(ip, from + 3)))
    requires OnlyTemps(ip, from + 4, two, after) && SignTested(two, result, after, Ref(Temp(ip, from + 5)))
    ensures SignTested(before, lhs, after, Ref(Temp(ip, from + 1)))
    ensures SignTested(before, rhs, after, Ref(Temp(ip, from + 3)))
    ensures SignTested(before, result, after, Ref(Temp(ip, from + 5)))
  {
    Steady(ip, from, before, one, rhs);
    Steady(ip, from, before, two, result);
  }

  lemma TestedIsEmitted(ip: nat, w: Width, kind: Option<Alu>, before: Env, after: Env, lhs: Operand, rhs: Operand,
                        result: Operand)
    requires FlagsTested(ip, w, kind, before, after, lhs, rhs, result)
    ensures FlagsEmitted(ip, w, kind, before, after, lhs, rhs, result)
  {
    if Num(before, lhs) < Modulus(w) && Num(before, rhs) < Modulus(w) {
      EmittedFlagsAreExact(w, kind, Num(before, lhs), Num(before, rhs));
    }
  }

  lemma OverflowSteps(ip: nat, i: nat, kind: Alu, signs: Env, compared: Env, both: Env, after: Env)
    requires kind == Add || kind == Sub
    requires Binds(Temp(ip, i + 2), Eval(signs,
             Compare(if kind == Add then EqI else NeI, I1Type, Ref(Temp(ip, i)), Ref(Temp(ip, i + 1)))),
                   signs, compared)
    requires Binds(Temp(ip, i + 3), Eval(compared, Compare(NeI, I1Type, Ref(Temp(ip, i)), Ref(Out(FlagField(SF), ip)))),
             compared, both)
    requires Binds(Out(FlagField(OF), ip), Eval(both, Binary(AndI, I1Type, Ref(Temp(ip, i + 2)), Ref(Temp(ip, i + 3)))),
             both, after)
    ensures var a, b, s := Look(signs, Temp(ip, i)), Look(signs, Temp(ip, i + 1)), Look(signs, Out(FlagField(SF), ip));
            a.I1? && b.I1? && s.I1? ==>
              Look(after, Out(FlagField(OF), ip)) == I1(((a.bit == b.bit) == (kind == Add)) && a.bit != s.bit)
  {
  }

  function CarryTest(kind: Alu, lhs: Operand, rhs: Operand, result: Operand): Rhs {
    if kind == Add then Compare(UltI, I64Type, result, lhs) else Compare(UltI, I64Type, lhs, rhs)
  }

  ghost predicate CarryTested(ip: nat, kind: Alu, before: Env, after: Env, lhs: Operand, rhs: Operand, result: Operand)
  {
    var carry := Eval(before, CarryTest(kind, lhs, rhs, result));
    carry.I1? ==> Look(after, Out(FlagField(CF), ip)) == carry
  }

  /** The pieces of an addition's or subtraction's flags, put together. */
  lemma AddOrSubFlags(ip: nat, from: nat, w: Width, kind: Alu, before: Env, signs: Env, overflow: Env, after: Env,
                      lhs: Operand, rhs: Operand, result: Operand)
    requires (kind == Add || kind == Sub) && Settled(ip, from, lhs) && Settled(ip, from, rhs) &&
             Settled(ip, from, result)
    requires OnlyTempsAndFlags(ip, from, before, signs) && ZeroAndSign(ip, w, before, signs, result)
    requires OnlyTempsAndFlag(ip, from, OF, signs, overflow) && OverflowTested(ip, w, kind, signs, overflow, lhs, rhs)
    requires OnlyTempsAndFlag(ip, from, CF, overflow, after) && CarryTested(ip, kind, overflow, after, lhs, rhs, result)
    ensures FlagsEmitted(ip, w, Some(kind), before, after, lhs, rhs, result)
  {
    AddOrSubTests(ip, from, w, kind, before, signs, overflow, after, lhs, rhs, result);
    TestedIsEmitted(ip, w, Some(kind), before, after, lhs, rhs, result);
  }

  lemma AddOrSubTests(ip: nat, from: nat, w: Width, kind: Alu, before: Env, signs: Env, overflow: Env, after: Env,
                      lhs: Operand, rhs: Operand, result: Operand)
    requires (kind == Add || kind == Sub) && Settled(ip, from, lhs) && Settled(ip, from, rhs) &&
             Settled(ip, from, result)
    requires OnlyTempsAndFlags(ip, from, before, signs) && ZeroAndSign(ip, w, before, signs, result)
    requires OnlyTempsAndFlag(ip, from, OF, signs, overflow) && OverflowTested(ip, w, kind, signs, overflow, lhs, rhs)
    requires OnlyTempsAndFlag(ip, from, CF, overflow, after) && CarryTested(ip, kind, overflow, after, lhs, rhs, result)
    ensures FlagsTested(ip, w, Some(kind), before, after, lhs, rhs, result)
  {
    Steady(ip, from, before, signs, lhs);
    Steady(ip, from, before, signs, rhs);
    Steady(ip, from, before, overflow, lhs);
    Steady(ip, from, before, overflow, rhs);
    Steady(ip, from, before, overflow, result);
    var a, b, r := Num(before, lhs), Num(before, rhs), Num(before, result);
    if Is64(before, lhs) && Is64(before, rhs) && Is64(before, result) && r < Modulus(w) {
      assert Eval(overflow, CarryTest(kind, lhs, rhs, result)) == I1(if kind == Add then r < a else a < b);
      assert Look(after, Out(FlagField(ZF), ip)) == I1(r == 0);
      assert Look(after, Out(FlagField(SF), ip)) == I1(r >= Half(w));
    }
  }

  lemma Steady(ip: nat, from: nat, before: Env, after: Env, o: Operand)
    requires Settled(ip, from, o) && OnlyTempsAndFlags(ip, from, before, after)
    ensures Operand64Of(after, o) == Operand64Of(before, o)
  {
  }

  // ----- what a whole node must compute -----

  /** Every given field has an incoming value of its type. */
  ghost predicate Typed(env: Env, ip: nat, fields: set<Field>) {
    forall f :: f in fields ==> if f.FlagField? then Look(env, In(f, ip)).I1? else Look(env, In(f, ip)).I64?
  }

  function InputOf(r: Gpr, ip: nat): Operand { Ref(In(RegisterField(r), ip)) }

  /** The incoming registers of a block. */
  function RegsView(env: Env, ip: nat): Regs {
    map r | r in GPRS && Is64(env, InputOf(r, ip)) :: Num(env, InputOf(r, ip))
  }

  function SlotView(env: Env, ip: nat, node: Node): Word {
    match node.slot
    case Some(i) => Num(env, Ref(In(SlotField(i), ip)))
    case None => 0
  }

  function OutcomeValue(x: Outcome, f: Field): Val {
    match f
    case RegisterField(_) => if x.register.Some? then I64(x.register.value.1) else Undef
    case FlagField(flag) => if x.flags.Some? then I1(FlagBit(x.flags.value, flag)) else Undef
    case SlotField(_) => if x.memory.Some? then I64(x.memory.value) else Undef
  }

  /** Given its inputs, the block defines what the instruction writes. */
  ghost predicate Computes(ip: nat, node: Node, before: Env, after: Env) {
    Typed(before, ip, Reads(node)) ==>
      var x := Exec(node.op, RegsView(before, ip), SlotView(before, ip, node));
      forall f :: f in Defs(node) ==> Look(after, Out(f, ip)) == OutcomeValue(x, f)
  }

  /** A block writes its own outputs and temporaries only. */
  ghost predicate KeepsOthers(ip: nat, before: Env, after: Env) {
    forall n: Name {:trigger Look(after, n)} :: n.In? || n.ip != ip ==> Look(after, n) == Look(before, n)
  }

  function ValueName(v: Value, ip: nat): Operand {
    match v
    case RegisterValue(r) => InputOf(r, ip)
    case Immediate(i) => Const(i)
  }

  function Value32Name(v: Value32, ip: nat): Operand {
    match v
    case Register32(r) => InputOf(r, ip)
    case Immediate32(i) => Const(i)
  }

  lemma RegisterInput(env: Env, ip: nat, fields: set<Field>, r: Gpr)
    requires Typed(env, ip, fields) && RegisterField(r) in fields
    ensures Is64(env, InputOf(r, ip)) && Num(env, InputOf(r, ip)) == Get(RegsView(env, ip), r)
  {
  }

  lemma ValueInput(env: Env, ip: nat, fields: set<Field>, v: Value)
    requires Typed(env, ip, fields) && RegisterFields(ValueReads(v)) <= fields
    ensures Is64(env, ValueName(v, ip)) && Num(env, ValueName(v, ip)) == Operand64(RegsView(env, ip), v)
  {
    if v.RegisterValue? {
      assert RegisterField(v.register) in RegisterFields(ValueReads(v));
    }
  }

  lemma Value32Input(env: Env, ip: nat, fields: set<Field>, v: Value32)
    requires Typed(env, ip, fields) && RegisterFields(Value32Reads(v)) <= fields
    ensures Is64(env, Value32Name(v, ip)) && Low32(Num(env, Value32Name(v, ip))) == Operand32(RegsView(env, ip), v)
  {
    if v.Register32? {
      assert RegisterField(v.register) in RegisterFields(Value32Reads(v));
      RegisterInput(env, ip, fields, v.register);
    }
  }

  lemma WrapWord(w: Word)
    ensures Wrap(0) == 0 && Wrap(0 + w) == w
  {
  }

  function BinaryOf(kind: Alu): BinOp {
    match kind
    case Add => AddI
    case Sub => SubI
    case And => AndI
    case Or => OrI
    case Xor => XorI
  }

  /** 64-bit arithmetic on masked operands, masked again, is the 32-bit operation. */
  lemma MaskedAlu(kind: Alu, a: Word, b: Word)
    requires a < TWO32 && b < TWO32
    ensures Low32(Arith(BinaryOf(kind), a, b)) == AluValue(W32, kind, a, b)
  {
    match kind {
      case Add => assert Wrap(a + b) == a + b;
      case Sub => MaskedDifference(a, b);
      case _ => MaskedLogic(kind, a, b);
    }
  }

  lemma MaskedLogic(kind: Alu, a: Word, b: Word)
    requires a < TWO32 && b < TWO32 && kind != Add && kind != Sub
    ensures Low32(Arith(BinaryOf(kind), a, b)) == AluValue(W32, kind, a, b)
  {
    Pow2Facts();
    BitwiseNarrow(BitOpOf(kind), 64, 32, a, b);
  }

  lemma MaskedDifference(a: Word, b: Word)
    requires a < TWO32 && b < TWO32
    ensures Low32(Wrap(a - b)) == (a - b) % TWO32
  {
    if a < b {
      assert Wrap(a - b) == a - b + TWO64;
      assert Low32(a - b + TWO64) == a - b + TWO32;
      assert (a - b) % TWO32 == a - b + TWO32;
    } else {
      assert Wrap(a - b) == a - b;
    }
  }

  lemma FullAlu(kind: Alu, a: Word, b: Word)
    ensures Arith(BinaryOf(kind), a, b) == AluValue(W64, kind, a, b)
  {
  }

  function FlagInput(flag: Flag, ip: nat): Operand {
    Ref(In(FlagField(flag), ip))
  }

  /** ZF and SF of a 32-bit result are out, and the three signs are in temporaries. */
  ghost predicate SignsDone(ip: nat, from: nat, before: Env, after: Env, lhs: Operand, rhs: Operand, result: Operand,
                            lhsNegative: Operand, rhsNegative: Operand, resultNegative: Operand) {
    && OnlyTempsAndFlags(ip, from, before, after)
    && ZeroAndSign(ip, W32, before, after, result)
    && SignTested(before, lhs, after, lhsNegative) && SignTested(before, rhs, after, rhsNegative)
    && SignTested(before, result, after, resultNegative)
  }

  lemma SignSteps(ip: nat, from: nat, before: Env, zero: Env, signs: Env, after: Env, lhs: Operand, rhs: Operand,
                  result: Operand, lhsNegative: Operand, rhsNegative: Operand, resultNegative: Operand)
    requires Settled(ip, from, lhs) && Settled(ip, from, rhs) && Settled(ip, from, result)
    requires Binds(Out(FlagField(ZF), ip), Eval(before, Compare(EqI, I64Type, result, Const(0))), before, zero)
    requires OnlyTemps(ip, from, zero, signs)
    requires SignTested(zero, lhs, signs, lhsNegative) && SignTested(zero, rhs, signs, rhsNegative)
    requires SignTested(zero, result, signs, resultNegative)
    requires lhsNegative == Ref(Temp(ip, from + 1)) && rhsNegative == Ref(Temp(ip, from + 3)) &&
             resultNegative == Ref(Temp(ip, from + 5))
    requires Binds(Out(FlagField(SF), ip), Eval(signs, Binary(OrI, I1Type, resultNegative, False)), signs, after)
    ensures SignsDone(ip, from, before, after, lhs, rhs, result, lhsNegative, rhsNegative, resultNegative)
  {
  }

  const FLAG_OUTPUTS: set<Field> := {FlagField(ZF), FlagField(SF), FlagField(OF), FlagField(CF)}

  /** Nothing is assigned twice, and temporaries are numbered below `next`. */
  ghost predicate AssignedOnce(ip: nat, next: nat, body: seq<Instr>) {
    NamesOnce(ip, body) && forall i :: 0 <= i < |body| && body[i].name.Temp? ==> body[i].name.index < next
  }

  /** Each name is assigned once, and is one of this block's own outputs or temporaries. */
  ghost predicate NamesOnce(ip: nat, body: seq<Instr>) {
    && (forall i, j :: 0 <= i < j < |body| ==> body[i].name != body[j].name)
    && (forall i :: 0 <= i < |body| ==> body[i].name.ip == ip && !body[i].name.In?)
  }

  function OutFields(body: seq<Instr>): set<Field> {
    set i | 0 <= i < |body| && body[i].name.Out? :: body[i].name.field
  }

  lemma AppendedOnce(ip: nat, next: nat, body: seq<Instr>, last: Instr)
    requires AssignedOnce(ip, next, body) && last.name.ip == ip && !last.name.In? &&
             (last.name.Temp? ==> last.name.index < next)
    requires forall i :: 0 <= i < |body| ==> body[i].name != last.name
    ensures AssignedOnce(ip, next, body + [last])
    ensures OutFields(body + [last]) == OutFields(body) + (if last.name.Out? then {last.name.field} else {})
  {
    var grown := body + [last];
    forall f
      ensures f in OutFields(grown) <==> f in OutFields(body) || (last.name.Out? && f == last.name.field)
    {
      if f in OutFields(body) {
        var i :| 0 <= i < |body| && body[i].name.Out? && body[i].name.field == f;
        assert grown[i] == body[i];
      }
      assert grown[|body|] == last;
    }
  }

  /** The block under construction: instructions so far and the next temporary. */
  class Emitter {
    const ip: nat
    var body: seq<Instr>
    var sequence: nat

    /** No name is assigned twice, and all are this block's own. */
    ghost predicate Valid()
      reads this
    {
      AssignedOnce(ip, sequence, body)
    }

    ghost function Outs(): set<Field>
      reads this
    {
      OutFields(body)
    }

    constructor (ip: nat)
      ensures this.ip == ip && body == [] && sequence == 0 && Valid()
    {
      this.ip := ip;
      body := [];
      sequence := 0;
    }

    method Define(name: Name, rhs: Rhs)
      requires Valid() && name.ip == ip && !name.In? && (name.Temp? ==> name.index < sequence)
      requires forall i :: 0 <= i < |body| ==> body[i].name != name
      modifies this
      ensures Valid() && Outs() == old(Outs()) + (if name.Out? then {name.field} else {})
      ensures sequence == old(sequence)
      ensures forall e :: Binds(name, Eval(Run(old(body), e), rhs), Run(old(body), e), Run(body, e))
    {
      AppendedOnce(ip, sequence, body, Assign(name, rhs));
      body := body + [Assign(name, rhs)];
      assert body[..|body| - 1] == old(body);
    }

    method DefineOutput(field: Field, rhs: Rhs)
      requires Valid() && field !in Outs()
      modifies this
      ensures Valid() && Outs() == old(Outs()) + {field}
      ensures sequence == old(sequence)
      ensures forall e :: Binds(Out(field, ip), Eval(Run(old(body), e), rhs), Run(old(body), e), Run(body, e))
    {
      Define(Out(field, ip), rhs);
    }

    method Temporary(rhs: Rhs) returns (t: Operand)
      requires Valid()
      modifies this
      ensures Valid() && Outs() == old(Outs())
      ensures t == Ref(Temp(ip, old(sequence))) && sequence == old(sequence) + 1
      ensures forall e :: Binds(Temp(ip, old(sequence)), Eval(Run(old(body), e), rhs), Run(old(body), e), Run(body, e))
    {
      var name := Temp(ip, sequence);
      sequence := sequence + 1;
      Define(name, rhs);
      t := Ref(name);
    }

    method Mask32(value: Operand) returns (t: Operand)
      requires Settled(ip, sequence, value)
      requires Valid()
      modifies this
      ensures Valid() && Outs() == old(Outs())
      ensures t == Ref(Temp(ip, old(sequence))) && sequence == old(sequence) + 1
      ensures forall e :: OnlyTemps(ip, old(sequence), Run(old(body), e), Run(body, e))
      ensures forall e :: Is64(Run(old(body), e), value) ==>
                Is64(Run(body, e), t) && Num(Run(body, e), t) == Low32(Num(Run(old(body), e), value))
    {
      t := Temporary(Binary(AndI, I64Type, value, Const(4294967295)));
      forall e | Is64(Run(old(body), e), value)
        ensures Is64(Run(body, e), t) && Num(Run(body, e), t) == Low32(Num(Run(old(body), e), value))
      {
        EmittedMasks(Num(Run(old(body), e), value));
      }
    }

    method Sign32(value: Operand) returns (t: Operand)
      requires Settled(ip, sequence, value)
      requires Valid()
      modifies this
      ensures Valid() && Outs() == old(Outs())
      ensures t == Ref(Temp(ip, old(sequence) + 1)) && sequence == old(sequence) + 2
      ensures forall e :: OnlyTemps(ip, old(sequence), Run(old(body), e), Run(body, e))
      ensures forall e :: Is64(Run(old(body), e), value) && Num(Run(old(body), e), value) < TWO32 ==>
                Is1(Run(body, e), t) && Truth(Run(body, e), t) == (Num(Run(old(body), e), value) >= TWO31)
    {
      var bit := Temporary(Binary(AndI, I64Type, value, Const(2147483648)));
      t := Temporary(Compare(NeI, I64Type, bit, Const(0)));
      forall e | Is64(Run(old(body), e), value) && Num(Run(old(body), e), value) < TWO32
        ensures Is1(Run(body, e), t) && Truth(Run(body, e), t) == (Num(Run(old(body), e), value) >= TWO31)
      {
        EmittedMasks(Num(Run(old(body), e), value));
      }
    }

    method DefineFlag(flag: Flag, rhs: Rhs)
      requires Valid() && Outs() !! {FlagField(flag)}
      modifies this
      ensures Valid() && Outs() == old(Outs()) + {FlagField(flag)}
      ensures sequence == old(sequence)
      ensures forall e :: Binds(Out(FlagField(flag), ip), Eval(Run(old(body), e), rhs), Run(old(body), e), Run(body, e))
    {
      DefineOutput(FlagField(flag), rhs);
    }

    method ClearOverflowAndCarry()
      requires Valid() && Outs() !! {FlagField(OF), FlagField(CF)}
      modifies this
      ensures Valid() && Outs() == old(Outs()) + {FlagField(OF), FlagField(CF)}
      ensures sequence == old(sequence)
      ensures forall e, n {:trigger Look(Run(body, e), n)} :: Look(Run(body, e), n) ==
                if n == Out(FlagField(OF), ip) ||
                  n == Out(FlagField(CF), ip) then I1(false) else Look(Run(old(body), e), n)
    {
      DefineFlag(OF, Binary(AndI, I1Type, False, False));
      DefineFlag(CF, Binary(AndI, I1Type, False, False));
    }

    method Negative(value: Operand) returns (t: Operand)
      requires Settled(ip, sequence, value)
      requires Valid()
      modifies this
      ensures Valid() && Outs() == old(Outs())
      ensures t == Ref(Temp(ip, old(sequence))) && sequence == old(sequence) + 1
      ensures forall e :: OnlyTemps(ip, old(sequence), Run(old(body), e), Run(body, e))
      ensures forall e :: Is64(Run(old(body), e), value) ==>
                Operand1Of(Run(body, e), t) == I1(Num(Run(old(body), e), value) >= TWO63)
    {
      t := Temporary(Compare(SltI, I64Type, value, Const(0)));
    }

    method NegativePair(lhs: Operand, rhs: Operand) returns (lhsNegative: Operand, rhsNegative: Operand)
      requires Settled(ip, sequence, lhs) && Settled(ip, sequence, rhs)
      requires Valid()
      modifies this
      ensures Valid() && Outs() == old(Outs())
      ensures lhsNegative == Ref(Temp(ip, old(sequence))) && rhsNegative == Ref(Temp(ip, old(sequence) + 1))
      ensures sequence == old(sequence) + 2
      ensures forall e :: OnlyTemps(ip, old(sequence), Run(old(body), e), Run(body, e))
      ensures forall e :: Is64(Run(old(body), e), lhs) ==>
                Operand1Of(Run(body, e), lhsNegative) == I1(Num(Run(old(body), e), lhs) >= TWO63)
      ensures forall e :: Is64(Run(old(body), e), rhs) ==>
                Operand1Of(Run(body, e), rhsNegative) == I1(Num(Run(old(body), e), rhs) >= TWO63)
    {
      lhsNegative := Negative(lhs);
      rhsNegative := Negative(rhs);
    }

    /** Signed overflow of an addition or subtraction, from the operand signs and the result's sign. */
    method EmitOverflow(lhs: Operand, rhs: Operand, kind: Alu)
      requires Settled(ip, sequence, lhs) && Settled(ip, sequence, rhs) && (kind == Add || kind == Sub)
      requires Valid() && Outs() !! {FlagField(OF)}
      modifies this
      ensures Valid() && Outs() == old(Outs()) + {FlagField(OF)}
      ensures sequence >= old(sequence)
      ensures forall e :: OnlyTempsAndFlag(ip, old(sequence), OF, Run(old(body), e), Run(body, e))
      ensures forall e :: OverflowTested(ip, W64, kind, Run(old(body), e), Run(body, e), lhs, rhs)
    {
      var lhsNegative, rhsNegative := NegativePair(lhs, rhs);
      ghost var signs := body;
      EmitSignsOverflow(lhsNegative, rhsNegative, kind);
      forall e
        ensures OverflowTested(ip, W64, kind, Run(old(body), e), Run(body, e), lhs, rhs)
      {
        var before, middle := Run(old(body), e), Run(signs, e);
        assert Look(middle, Out(FlagField(SF), ip)) == Look(before, Out(FlagField(SF), ip));
        assert OverflowOfSigns(ip, kind, middle, Run(body, e), lhsNegative, rhsNegative, Ref(Out(FlagField(SF), ip)));
      }
    }

    /** Overflow from the operands' signs and the sign flag just defined. */
    method EmitSignsOverflow(lhsNegative: Operand, rhsNegative: Operand, kind: Alu)
      requires Valid() && Outs() !! {FlagField(OF)} && sequence >= 2 && (kind == Add || kind == Sub)
      requires lhsNegative == Ref(Temp(ip, sequence - 2)) && rhsNegative == Ref(Temp(ip, sequence - 1))
      modifies this
      ensures Valid() && Outs() == old(Outs()) + {FlagField(OF)} && sequence >= old(sequence)
      ensures forall e :: OnlyTempsAndFlag(ip, old(sequence), OF, Run(old(body), e), Run(body, e))
      ensures forall e :: OverflowOfSigns(ip, kind, Run(old(body), e), Run(body, e), lhsNegative, rhsNegative,
              Ref(Out(FlagField(SF), ip)))
    {
      ghost var i := sequence - 2;
      var first := Temporary(Compare(if kind == Add then EqI else NeI, I1Type, lhsNegative, rhsNegative));
      ghost var compared := body;
      var changed := Temporary(Compare(NeI, I1Type, lhsNegative, Ref(Out(FlagField(SF), ip))));
      ghost var both := body;
      DefineFlag(OF, Binary(AndI, I1Type, first, changed));
      forall e
        ensures OverflowOfSigns(ip, kind, Run(old(body), e), Run(body, e), lhsNegative, rhsNegative,
                Ref(Out(FlagField(SF), ip)))
      {
        OverflowSteps(ip, i, kind, Run(old(body), e), Run(compared, e), Run(both, e), Run(body, e));
      }
    }

    method EmitZeroAndSign(result: Operand)
      requires Settled(ip, sequence, result)
      requires Valid() && Outs() !! {FlagField(ZF), FlagField(SF)}
      modifies this
      ensures Valid() && Outs() == old(Outs()) + {FlagField(ZF), FlagField(SF)}
      ensures sequence == old(sequence)
      ensures forall e :: OnlyTempsAndFlags(ip, old(sequence), Run(old(body), e), Run(body, e))
      ensures forall e :: ZeroAndSign(ip, W64, Run(old(body), e), Run(body, e), result)
    {
      DefineFlag(ZF, Compare(EqI, I64Type, result, Const(0)));
      DefineFlag(SF, Compare(SltI, I64Type, result, Const(0)));
    }

    /** Flags of an addition or subtraction. */
    method EmitAddOrSubFlags(lhs: Operand, rhs: Operand, result: Operand, kind: AddOrSub)
      requires Settled(ip, sequence, lhs) && Settled(ip, sequence, rhs) && Settled(ip, sequence, result)
      requires Valid() && Outs() !! FLAG_OUTPUTS
      modifies this
      ensures Valid() && Outs() == old(Outs()) + FLAG_OUTPUTS
      ensures sequence >= old(sequence)
      ensures forall e :: OnlyTempsAndFlags(ip, old(sequence), Run(old(body), e), Run(body, e))
      ensures forall e :: FlagsEmitted(ip, W64, Some(kind), Run(old(body), e), Run(body, e), lhs, rhs, result)
    {
      EmitZeroAndSign(result);
      ghost var signs := body;
      EmitOverflow(lhs, rhs, kind);
      ghost var overflow := body;
      DefineFlag(CF, CarryTest(kind, lhs, rhs, result));
      forall e
        ensures FlagsEmitted(ip, W64, Some(kind), Run(old(body), e), Run(body, e), lhs, rhs, result)
      {
        AddOrSubFlags(ip, old(sequence), W64, kind, Run(old(body), e), Run(signs, e), Run(overflow, e), Run(body, e),
          lhs, rhs, result);
      }
    }

    /** Flags of a bitwise operation. */
    method EmitLogicFlags(lhs: Operand, rhs: Operand, result: Operand, kind: Option<Alu>)
      requires Settled(ip, sequence, result) && kind != Some(Add) && kind != Some(Sub)
      requires Valid() && Outs() !! FLAG_OUTPUTS
      modifies this
      ensures Valid() && Outs() == old(Outs()) + FLAG_OUTPUTS
      ensures sequence >= old(sequence)
      ensures forall e :: OnlyTempsAndFlags(ip, old(sequence), Run(old(body), e), Run(body, e))
      ensures forall e :: FlagsEmitted(ip, W64, kind, Run(old(body), e), Run(body, e), lhs, rhs, result)
    {
      EmitZeroAndSign(result);
      ghost var signs := body;
      ClearOverflowAndCarry();
      forall e
        ensures FlagsEmitted(ip, W64, kind, Run(old(body), e), Run(body, e), lhs, rhs, result)
      {
        assert ZeroAndSign(ip, W64, Run(old(body), e), Run(signs, e), result);
        assert FlagsTested(ip, W64, kind, Run(old(body), e), Run(body, e), lhs, rhs, result);
        TestedIsEmitted(ip, W64, kind, Run(old(body), e), Run(body, e), lhs, rhs, result);
      }
    }

    method EmitFlags(lhs: Operand, rhs: Operand, result: Operand, kind: Option<Alu>)
      requires Settled(ip, sequence, lhs) && Settled(ip, sequence, rhs) && Settled(ip, sequence, result)
      requires Valid() && Outs() !! FLAG_OUTPUTS
      modifies this
      ensures Valid() && Outs() == old(Outs()) + FLAG_OUTPUTS
      ensures sequence >= old(sequence)
      ensures forall e :: OnlyTempsAndFlags(ip, old(sequence), Run(old(body), e), Run(body, e))
      ensures forall e :: FlagsEmitted(ip, W64, kind, Run(old(body), e), Run(body, e), lhs, rhs, result)
    {
      if kind == Some(Add) || kind == Some(Sub) {
        EmitAddOrSubFlags(lhs, rhs, result, kind.value);
      } else {
        EmitLogicFlags(lhs, rhs, result, kind);
      }
    }

    method EmitSigns32(lhs: Operand, rhs: Operand, result: Operand)
      returns (lhsNegative: Operand, rhsNegative: Operand, resultNegative: Operand)
      requires Settled(ip, sequence, lhs) && Settled(ip, sequence, rhs) && Settled(ip, sequence, result)
      requires Valid() && Outs() !! {FlagField(ZF), FlagField(SF)}
      modifies this
      ensures Valid() && Outs() == old(Outs()) + {FlagField(ZF), FlagField(SF)}
      ensures sequence == old(sequence) + 6
      ensures lhsNegative == Ref(Temp(ip, old(sequence) + 1)) && rhsNegative == Ref(Temp(ip, old(sequence) + 3))
      ensures resultNegative == Ref(Temp(ip, old(sequence) + 5))
      ensures forall e :: SignsDone(ip, old(sequence), Run(old(body), e), Run(body, e), lhs, rhs, result,
                                    lhsNegative, rhsNegative, resultNegative)
    {
      DefineFlag(ZF, Compare(EqI, I64Type, result, Const(0)));
      ghost var zero := body;
      lhsNegative, rhsNegative, resultNegative := EmitThreeSigns(lhs, rhs, result);
      ghost var signs := body;
      DefineFlag(SF, Binary(OrI, I1Type, resultNegative, False));
      forall e
        ensures SignsDone(ip, old(sequence), Run(old(body), e), Run(body, e), lhs, rhs, result, lhsNegative,
                rhsNegative, resultNegative)
      {
        SignSteps(ip, old(sequence), Run(old(body), e), Run(zero, e), Run(signs, e), Run(body, e), lhs, rhs, result,
                  lhsNegative, rhsNegative, resultNegative);
      }
    }

    method EmitThreeSigns(lhs: Operand, rhs: Operand, result: Operand)
      returns (lhsNegative: Operand, rhsNegative: Operand, resultNegative: Operand)
      requires Settled(ip, sequence, lhs) && Settled(ip, sequence, rhs) && Settled(ip, sequence, result)
      requires Valid()
      modifies this
      ensures Valid() && Outs() == old(Outs())
      ensures sequence == old(sequence) + 6
      ensures lhsNegative == Ref(Temp(ip, old(sequence) + 1)) && rhsNegative == Ref(Temp(ip, old(sequence) + 3))
      ensures resultNegative == Ref(Temp(ip, old(sequence) + 5))
      ensures forall e :: OnlyTemps(ip, old(sequence), Run(old(body), e), Run(body, e))
      ensures forall e :: SignTested(Run(old(body), e), lhs, Run(body, e), lhsNegative)
      ensures forall e :: SignTested(Run(old(body), e), rhs, Run(body, e), rhsNegative)
      ensures forall e :: SignTested(Run(old(body), e), result, Run(body, e), resultNegative)
    {
      lhsNegative := Sign32(lhs);
      ghost var one := body;
      rhsNegative := Sign32(rhs);
      ghost var two := body;
      resultNegative := Sign32(result);
      forall e
        ensures SignTested(Run(old(body), e), lhs, Run(body, e), lhsNegative)
        ensures SignTested(Run(old(body), e), rhs, Run(body, e), rhsNegative)
        ensures SignTested(Run(old(body), e), result, Run(body, e), resultNegative)
      {
        SignsInTurn(ip, old(sequence), Run(old(body), e), Run(one, e), Run(two, e), Run(body, e), lhs, rhs, result);
      }
    }

    method EmitOverflow32(lhsNegative: Operand, rhsNegative: Operand, resultNegative: Operand, kind: Alu)
      requires Settled(ip, sequence, lhsNegative) && Settled(ip, sequence, rhsNegative) &&
               Settled(ip, sequence, resultNegative)
      requires kind == Add || kind == Sub
      requires Valid() && Outs() !! {FlagField(OF)}
      modifies this
      ensures Valid() && Outs() == old(Outs()) + {FlagField(OF)}
      ensures sequence >= old(sequence)
      ensures forall e :: OnlyTempsAndFlag(ip, old(sequence), OF, Run(old(body), e), Run(body, e))
      ensures forall e :: OverflowOfSigns(ip, kind, Run(old(body), e), Run(body, e), lhsNegative, rhsNegative,
              resultNegative)
    {
      var operandsDiffer, lhsResultDiffer := EmitSignDifferences(lhsNegative, rhsNegative, resultNegative);
      var first := EmitOperandSigns(operandsDiffer, kind);
      var overflow := Temporary(Binary(AndI, I1Type, first, lhsResultDiffer));
      DefineFlag(OF, Binary(OrI, I1Type, overflow, False));
    }

    /** For an addition the operand signs must agree to overflow, for a subtraction differ. */
    method EmitOperandSigns(operandsDiffer: Operand, kind: Alu) returns (first: Operand)
      requires Settled(ip, sequence, operandsDiffer)
      requires Valid()
      modifies this
      ensures Valid() && Outs() == old(Outs())
      ensures sequence >= old(sequence) && (first == operandsDiffer || first == Ref(Temp(ip, old(sequence)))) &&
              Settled(ip, sequence, first)
      ensures forall e :: OnlyTemps(ip, old(sequence), Run(old(body), e), Run(body, e))
      ensures forall e :: Is1(Run(old(body), e), operandsDiffer) ==>
                Operand1Of(Run(body, e), first) == I1(Truth(Run(old(body), e), operandsDiffer) != (kind == Add))
    {
      first := operandsDiffer;
      if kind == Add {
        first := Temporary(Binary(XorI, I1Type, operandsDiffer, True));
      }
    }

    method EmitSignDifferences(lhsNegative: Operand, rhsNegative: Operand, resultNegative: Operand)
      returns (operandsDiffer: Operand, lhsResultDiffer: Operand)
      requires Settled(ip, sequence, lhsNegative) && Settled(ip, sequence, resultNegative)
      requires Valid()
      modifies this
      ensures Valid() && Outs() == old(Outs())
      ensures sequence == old(sequence) + 2
      ensures operandsDiffer == Ref(Temp(ip, old(sequence))) && lhsResultDiffer == Ref(Temp(ip, old(sequence) + 1))
      ensures forall e :: OnlyTemps(ip, old(sequence), Run(old(body), e), Run(body, e))
      ensures forall e :: Differ(Run(old(body), e), lhsNegative, rhsNegative, Run(body, e), operandsDiffer)
      ensures forall e :: Differ(Run(old(body), e), lhsNegative, resultNegative, Run(body, e), lhsResultDiffer)
    {
      operandsDiffer := Temporary(Binary(XorI, I1Type, lhsNegative, rhsNegative));
      lhsResultDiffer := Temporary(Binary(XorI, I1Type, lhsNegative, resultNegative));
    }

    method EmitCarry32(test: Rhs)
      requires Valid() && Outs() !! {FlagField(CF)}
      modifies this
      ensures Valid() && Outs() == old(Outs()) + {FlagField(CF)}
      ensures sequence == old(sequence) + 1
      ensures forall e :: OnlyTempsAndFlag(ip, old(sequence), CF, Run(old(body), e), Run(body, e))
      ensures forall e :: Eval(Run(old(body), e), test).I1? ==>
                Look(Run(body, e), Out(FlagField(CF), ip)) == Eval(Run(old(body), e), test)
    {
      var carry := Temporary(test);
      DefineFlag(CF, Binary(OrI, I1Type, carry, False));
    }

    method EmitAddOrSubFlags32(lhs: Operand, rhs: Operand, result: Operand, kind: AddOrSub)
      requires Settled(ip, sequence, lhs) && Settled(ip, sequence, rhs) && Settled(ip, sequence, result)
      requires Valid() && Outs() !! FLAG_OUTPUTS
      modifies this
      ensures Valid() && Outs() == old(Outs()) + FLAG_OUTPUTS
      ensures sequence >= old(sequence)
      ensures forall e :: OnlyTempsAndFlags(ip, old(sequence), Run(old(body), e), Run(body, e))
      ensures forall e :: FlagsEmitted(ip, W32, Some(kind), Run(old(body), e), Run(body, e), lhs, rhs, result)
    {
      var lhsNegative, rhsNegative, resultNegative := EmitSigns32(lhs, rhs, result);
      ghost var signs := body;
      EmitOverflow32(lhsNegative, rhsNegative, resultNegative, kind);
      ghost var overflow := body;
      EmitCarry32(CarryTest(kind, lhs, rhs, result));
      forall e
        ensures FlagsEmitted(ip, W32, Some(kind), Run(old(body), e), Run(body, e), lhs, rhs, result)
        ensures OnlyTempsAndFlags(ip, old(sequence), Run(old(body), e), Run(body, e))
      {
        var before, middle := Run(old(body), e), Run(signs, e);
        assert SignsDone(ip, old(sequence), before, middle, lhs, rhs, result, lhsNegative, rhsNegative, resultNegative);
        if Is64(before, result) && Num(before, result) < TWO32 {
          Overflow32(ip, old(sequence), kind, before, middle, Run(overflow, e), lhs, rhs, result,
                     lhsNegative, rhsNegative, resultNegative);
          AddOrSubFlags(ip, old(sequence), W32, kind, before, middle, Run(overflow, e), Run(body, e), lhs, rhs, result);
        }
      }
    }

    method EmitLogicFlags32(lhs: Operand, rhs: Operand, result: Operand, kind: Option<Alu>)
      requires Settled(ip, sequence, lhs) && Settled(ip, sequence, rhs) && Settled(ip, sequence, result)
      requires kind != Some(Add) && kind != Some(Sub)
      requires Valid() && Outs() !! FLAG_OUTPUTS
      modifies this
      ensures Valid() && Outs() == old(Outs()) + FLAG_OUTPUTS
      ensures sequence >= old(sequence)
      ensures forall e :: OnlyTempsAndFlags(ip, old(sequence), Run(old(body), e), Run(body, e))
      ensures forall e :: FlagsEmitted(ip, W32, kind, Run(old(body), e), Run(body, e), lhs, rhs, result)
    {
      var lhsNegative, rhsNegative, resultNegative := EmitSigns32(lhs, rhs, result);
      ghost var signs := body;
      ClearOverflowAndCarry();
      forall e
        ensures FlagsEmitted(ip, W32, kind, Run(old(body), e), Run(body, e), lhs, rhs, result)
        ensures OnlyTempsAndFlags(ip, old(sequence), Run(old(body), e), Run(body, e))
      {
        assert SignsDone(ip, old(sequence), Run(old(body), e), Run(signs, e), lhs, rhs, result, lhsNegative,
               rhsNegative, resultNegative);
        assert FlagsTested(ip, W32, kind, Run(old(body), e), Run(body, e), lhs, rhs, result);
        TestedIsEmitted(ip, W32, kind, Run(old(body), e), Run(body, e), lhs, rhs, result);
      }
    }

    method EmitFlags32(lhs: Operand, rhs: Operand, result: Operand, kind: Option<Alu>)
      requires Settled(ip, sequence, lhs) && Settled(ip, sequence, rhs) && Settled(ip, sequence, result)
      requires Valid() && Outs() !! FLAG_OUTPUTS
      modifies this
      ensures Valid() && Outs() == old(Outs()) + FLAG_OUTPUTS
      ensures sequence >= old(sequence)
      ensures forall e :: OnlyTempsAndFlags(ip, old(sequence), Run(old(body), e), Run(body, e))
      ensures forall e :: FlagsEmitted(ip, W32, kind, Run(old(body), e), Run(body, e), lhs, rhs, result)
    {
      if kind == Some(Add) || kind == Some(Sub) {
        EmitAddOrSubFlags32(lhs, rhs, result, kind.value);
      } else {
        EmitLogicFlags32(lhs, rhs, result, kind);
      }
    }

    /** The truth of a condition over the incoming flags. */
    method ConditionName(condition: Condition) returns (t: Operand)
      requires Valid()
      modifies this
      ensures Valid() && Outs() == old(Outs())
      ensures sequence >= old(sequence)
      ensures forall e :: OnlyTemps(ip, old(sequence), Run(old(body), e), Run(body, e))
      ensures forall e :: ConditionReads(condition) <= TypedFlags(Run(old(body), e), ip) ==>
                Is1(Run(body, e), t) && Truth(Run(body, e), t) == Holds(condition, FlagsView(Run(old(body), e), ip))
    {
      match condition {
        case E => t := FlagInput(ZF, ip);
        case Ne => t := Negate(FlagInput(ZF, ip));
        case S => t := FlagInput(SF, ip);
        case Ns => t := Negate(FlagInput(SF, ip));
        case O => t := FlagInput(OF, ip);
        case No => t := Negate(FlagInput(OF, ip));
        case B => t := FlagInput(CF, ip);
        case Ae => t := Negate(FlagInput(CF, ip));
        case Be => t := UnsignedOrderName(condition);
        case A => t := UnsignedOrderName(condition);
        case L => t := LessName(condition);
        case Ge => t := GreaterName(condition);
        case Le => t := LessName(condition);
        case G => t := GreaterName(condition);
      }
    }

    method UnsignedOrderName(condition: Condition) returns (t: Operand)
      requires condition.Be? || condition.A?
      requires Valid()
      modifies this
      ensures Valid() && Outs() == old(Outs())
      ensures sequence >= old(sequence)
      ensures forall e :: OnlyTemps(ip, old(sequence), Run(old(body), e), Run(body, e))
      ensures forall e :: ConditionReads(condition) <= TypedFlags(Run(old(body), e), ip) ==>
                Is1(Run(body, e), t) && Truth(Run(body, e), t) == Holds(condition, FlagsView(Run(old(body), e), ip))
    {
      t := Temporary(Binary(OrI, I1Type, FlagInput(CF, ip), FlagInput(ZF, ip)));
      if condition.A? {
        t := Negate(t);
      }
    }

    method LessName(condition: Condition) returns (t: Operand)
      requires condition.L? || condition.Le?
      requires Valid()
      modifies this
      ensures Valid() && Outs() == old(Outs())
      ensures sequence >= old(sequence)
      ensures forall e :: OnlyTemps(ip, old(sequence), Run(old(body), e), Run(body, e))
      ensures forall e :: ConditionReads(condition) <= TypedFlags(Run(old(body), e), ip) ==>
                Is1(Run(body, e), t) && Truth(Run(body, e), t) == Holds(condition, FlagsView(Run(old(body), e), ip))
    {
      t := Temporary(Binary(XorI, I1Type, FlagInput(SF, ip), FlagInput(OF, ip)));
      if condition.Le? {
        t := Temporary(Binary(OrI, I1Type, FlagInput(ZF, ip), t));
      }
    }

    method GreaterName(condition: Condition) returns (t: Operand)
      requires condition.G? || condition.Ge?
      requires Valid()
      modifies this
      ensures Valid() && Outs() == old(Outs())
      ensures sequence >= old(sequence)
      ensures forall e :: OnlyTemps(ip, old(sequence), Run(old(body), e), Run(body, e))
      ensures forall e :: ConditionReads(condition) <= TypedFlags(Run(old(body), e), ip) ==>
                Is1(Run(body, e), t) && Truth(Run(body, e), t) == Holds(condition, FlagsView(Run(old(body), e), ip))
    {
      t := Temporary(Compare(EqI, I1Type, FlagInput(SF, ip), FlagInput(OF, ip)));
      if condition.G? {
        var nonzero := Negate(FlagInput(ZF, ip));
        t := Temporary(Binary(AndI, I1Type, nonzero, t));
      }
    }

    method Negate(value: Operand) returns (t: Operand)
      requires Valid()
      modifies this
      ensures Valid() && Outs() == old(Outs())
      ensures t == Ref(Temp(ip, old(sequence))) && sequence == old(sequence) + 1
      ensures forall e :: Binds(Temp(ip, old(sequence)), Eval(Run(old(body), e), Binary(XorI, I1Type, value, True)),
                                Run(old(body), e), Run(body, e))
    {
      t := Temporary(Binary(XorI, I1Type, value, True));
    }

    /** A copy, as an addition to zero. */
    method Copy(name: Name, value: Operand)
      requires Valid() && name.Out? && name.ip == ip && name.field !in Outs()
      modifies this
      ensures Valid() && Outs() == old(Outs()) + {name.field}
      ensures sequence == old(sequence)
      ensures forall e :: CopiedTo(name, value, Run(old(body), e), Run(body, e))
    {
      Define(name, Binary(AddI, I64Type, Const(0), value));
      forall e | Is64(Run(old(body), e), value)
        ensures Eval(Run(old(body), e), Binary(AddI, I64Type, Const(0), value)) == I64(Num(Run(old(body), e), value))
      {
        WrapWord(Num(Run(old(body), e), value));
      }
    }

    method EmitMov(node: Node)
      requires body == [] && sequence == 0 && node.op.Mov?
      requires Valid()
      modifies this
      ensures Valid()
      ensures forall e :: KeepsOthers(ip, e, Run(body, e)) && Computes(ip, node, e, Run(body, e))
    {
      Copy(Out(RegisterField(node.op.dst), ip), ValueName(node.op.src, ip));
      forall e
        ensures Computes(ip, node, e, Run(body, e))
      {
        MovComputes(ip, node, e, Run(body, e));
      }
    }

    method EmitMov32(node: Node)
      requires body == [] && sequence == 0 && node.op.Mov32?
      requires Valid()
      modifies this
      ensures Valid()
      ensures forall e :: KeepsOthers(ip, e, Run(body, e)) && Computes(ip, node, e, Run(body, e))
    {
      var value := Value32Name(node.op.src32, ip);
      if node.op.src32.Register32? {
        value := Temporary(TruncToI32(value));
      }
      DefineOutput(RegisterField(node.op.dst), ZextFromI32(value));
      forall e
        ensures Computes(ip, node, e, Run(body, e))
      {
        Mov32Computes(ip, node, e, Run(body, e));
      }
    }

    method EmitLoad(node: Node)
      requires body == [] && sequence == 0 && (node.op.LoadStack64? || node.op.LoadStack32?) && node.slot.Some?
      requires Valid()
      modifies this
      ensures Valid()
      ensures forall e :: KeepsOthers(ip, e, Run(body, e)) && Computes(ip, node, e, Run(body, e))
    {
      var value := Ref(In(SlotField(node.slot.value), ip));
      if node.op.LoadStack32? {
        value := Mask32(value);
      }
      Copy(Out(RegisterField(node.op.dst), ip), value);
      forall e
        ensures Computes(ip, node, e, Run(body, e))
      {
        LoadComputes(ip, node, e, Run(body, e));
      }
    }

    method EmitStore(node: Node)
      requires body == [] && sequence == 0 && (node.op.StoreStack64? || node.op.StoreStack32?) && node.slot.Some?
      requires Valid()
      modifies this
      ensures Valid()
      ensures forall e :: KeepsOthers(ip, e, Run(body, e)) && Computes(ip, node, e, Run(body, e))
    {
      var value := if node.op.StoreStack64? then InputOf(node.op.source, ip) else Value32Name(node.op.src32, ip);
      if node.op.StoreStack32? {
        value := Mask32(value);
      }
      Copy(Out(SlotField(node.slot.value), ip), value);
      forall e
        ensures Computes(ip, node, e, Run(body, e))
      {
        StoreComputes(ip, node, e, Run(body, e));
      }
    }

    method EmitLea(node: Node)
      requires body == [] && sequence == 0 && node.op.Lea? && !RejectedWithStackProof(node.op)
      requires Valid()
      modifies this
      ensures Valid()
      ensures forall e :: KeepsOthers(ip, e, Run(body, e)) && Computes(ip, node, e, Run(body, e))
    {
      var base, index := AddressPart(node.op.leaBase, ip), AddressPart(node.op.index, ip);
      var scaled := index;
      if node.op.scale != 1 {
        scaled := Temporary(Binary(MulI, I64Type, index, Const(node.op.scale)));
      }
      ghost var multiplied := body;
      var sum := Temporary(Binary(AddI, I64Type, base, scaled));
      ghost var summed := body;
      DefineOutput(RegisterField(node.op.dst), Binary(AddI, I64Type, sum, Const(node.op.displacement)));
      forall e
        ensures Computes(ip, node, e, Run(body, e))
      {
        if Is64(e, base) && Is64(e, index) {
          LeaSteps(ip, node, base, index, scaled, sum, e, Run(multiplied, e), Run(summed, e), Run(body, e));
        }
        LeaComputes(ip, node, e, Run(body, e));
      }
    }

    /** Full-width arithmetic with its flags; the result goes to a field or to a temporary. */
    method EmitArith64(op: BinOp, kind: Option<Alu>, lhs: Operand, rhs: Operand, dest: Option<Field>)
      requires body == [] && sequence == 0 && Incoming(lhs) && Incoming(rhs)
      requires op == BinaryOf(FlagKind(kind)) && (dest.Some? ==> !dest.value.FlagField?)
      requires Valid()
      modifies this
      ensures Valid()
      ensures forall e ::
                KeepsOthers(ip, e, Run(body, e)) && ArithDone(ip, W64, FlagKind(kind), lhs, rhs, dest, e, Run(body, e))
    {
      var result: Operand;
      if dest.Some? {
        result := Ref(Out(dest.value, ip));
        DefineOutput(dest.value, Binary(op, I64Type, lhs, rhs));
      } else {
        result := Temporary(Binary(op, I64Type, lhs, rhs));
      }
      ghost var computed := body;
      EmitFlags(lhs, rhs, result, kind);
      forall e
        ensures ArithDone(ip, W64, FlagKind(kind), lhs, rhs, dest, e, Run(body, e))
      {
        var middle := Run(computed, e);
        Arith64Done(ip, kind, lhs, rhs, dest, result, e, middle, Run(body, e));
      }
    }

    /** Both operands masked, the operation, and its masked result. */
    method EmitMasked(kind: Alu, lhs: Operand, rhs: Operand) returns (a: Operand, b: Operand, result: Operand)
      requires sequence == 0 && Incoming(lhs) && Incoming(rhs)
      requires Valid()
      modifies this
      ensures Valid() && Outs() == old(Outs())
      ensures a == Ref(Temp(ip, 0)) && b == Ref(Temp(ip, 1)) && result == Ref(Temp(ip, 3)) && sequence == 4
      ensures forall e :: OnlyTemps(ip, 0, Run(old(body), e), Run(body, e))
      ensures forall e :: MaskedResult(kind, lhs, rhs, a, b, result, Run(old(body), e), Run(body, e))
    {
      a := Mask32(lhs);
      b := Mask32(rhs);
      ghost var masked := body;
      var raw := Temporary(Binary(BinaryOf(kind), I64Type, a, b));
      ghost var computed := body;
      result := Mask32(raw);
      forall e
        ensures MaskedResult(kind, lhs, rhs, a, b, result, Run(old(body), e), Run(body, e))
      {
        MaskedSteps(ip, kind, lhs, rhs, a, b, Run(old(body), e), Run(masked, e), Run(computed, e), Run(body, e));
      }
    }

    method EmitArith32(kind: Alu, lhs: Operand, rhs: Operand, dest: Option<Field>)
      requires body == [] && sequence == 0 && Incoming(lhs) && Incoming(rhs) && (dest.Some? ==> !dest.value.FlagField?)
      requires Valid()
      modifies this
      ensures Valid()
      ensures forall e :: KeepsOthers(ip, e, Run(body, e)) && ArithDone(ip, W32, kind, lhs, rhs, dest, e, Run(body, e))
    {
      var a, b, result := EmitMasked(kind, lhs, rhs);
      ghost var masked := body;
      if dest.Some? {
        Copy(Out(dest.value, ip), result);
      }
      ghost var copied := body;
      EmitFlags32(a, b, result, Some(kind));
      forall e
        ensures ArithDone(ip, W32, kind, lhs, rhs, dest, e, Run(body, e))
      {
        Arith32Done(ip, kind, lhs, rhs, dest, a, b, result, e, Run(masked, e), Run(copied, e), Run(body, e));
      }
    }

    /** Arithmetic, comparisons and tests. */
    method EmitArithmetic64(node: Node)
      requires body == [] && sequence == 0 && (node.op.Alu? || node.op.Cmp? || node.op.Test?)
      requires Valid()
      modifies this
      ensures Valid()
      ensures forall e :: KeepsOthers(ip, e, Run(body, e)) && Computes(ip, node, e, Run(body, e))
    {
      if node.op.Alu? {
        EmitArith64(BinaryOf(node.op.kind), Some(node.op.kind), InputOf(node.op.dst, ip), ValueName(node.op.src, ip),
                    Some(RegisterField(node.op.dst)));
      } else if node.op.Cmp? {
        EmitArith64(SubI, Some(Sub), InputOf(node.op.lhs, ip), ValueName(node.op.rhs, ip), None);
      } else {
        EmitArith64(AndI, None, InputOf(node.op.lhs, ip), ValueName(node.op.rhs, ip), None);
      }
      forall e
        ensures Computes(ip, node, e, Run(body, e))
      {
        ArithmeticComputes(ip, node, e, Run(body, e));
      }
    }

    /** The operation and operands of each 32-bit form. */
    method EmitForm32(node: Node)
      requires body == [] && sequence == 0 && IsArithmetic(node.op) && (StackAccess(node.op).Some? ==> node.slot.Some?)
      requires !(node.op.Alu? || node.op.Cmp? || node.op.Test?)
      requires Valid()
      modifies this
      ensures Valid()
      ensures forall e ::
                KeepsOthers(ip, e, Run(body, e)) &&
                ArithDone(ip, ArithWidth(node.op), ArithKind(node.op), ArithLhs(node, ip), ArithRhs(node, ip),
                          ArithDest(node), e, Run(body, e))
    {
      match node.op {
        case Alu32(kind, dst, src) =>
          EmitArith32(kind, InputOf(dst, ip), Value32Name(src, ip), Some(RegisterField(dst)));
        case AluStack32(kind, _, _, src) =>
          EmitArith32(kind, SlotInput(node, ip), Value32Name(src, ip), Some(SlotField(node.slot.value)));
        case Cmp32(lhs, rhs) =>
          EmitArith32(Sub, InputOf(lhs, ip), Value32Name(rhs, ip), None);
        case CmpRegStack32(lhs, _, _) =>
          EmitArith32(Sub, InputOf(lhs, ip), SlotInput(node, ip), None);
        case CmpStack32(_, _, rhs) =>
          EmitArith32(Sub, SlotInput(node, ip), Value32Name(rhs, ip), None);
      }
    }

    method EmitArithmetic32(node: Node)
      requires body == [] && sequence == 0 && IsArithmetic(node.op) && (StackAccess(node.op).Some? ==> node.slot.Some?)
      requires !(node.op.Alu? || node.op.Cmp? || node.op.Test?)
      requires Valid()
      modifies this
      ensures Valid()
      ensures forall e :: KeepsOthers(ip, e, Run(body, e)) && Computes(ip, node, e, Run(body, e))
    {
      EmitForm32(node);
      forall e
        ensures Computes(ip, node, e, Run(body, e))
      {
        ArithmeticComputes(ip, node, e, Run(body, e));
      }
    }

    method EmitArithmetic(node: Node)
      requires body == [] && sequence == 0 && IsArithmetic(node.op) && (StackAccess(node.op).Some? ==> node.slot.Some?)
      requires Valid()
      modifies this
      ensures Valid()
      ensures forall e :: KeepsOthers(ip, e, Run(body, e)) && Computes(ip, node, e, Run(body, e))
    {
      if node.op.Alu? || node.op.Cmp? || node.op.Test? {
        EmitArithmetic64(node);
      } else {
        EmitArithmetic32(node);
      }
    }

    /** A whole block: its body and its terminator. */
    method EmitNode(node: Node) returns (t: Terminator)
      requires body == [] && sequence == 0 && Emittable(node)
      requires Valid()
      modifies this
      ensures Valid()
      ensures forall e :: KeepsOthers(ip, e, Run(body, e))
      ensures forall e :: Computes(ip, node, e, Run(body, e))
      ensures forall e :: Leaves(ip, node, e, Run(body, e), t)
    {
      if node.op.Mov? {
        EmitMov(node);
      } else if node.op.Mov32? {
        EmitMov32(node);
      } else if node.op.LoadStack64? || node.op.LoadStack32? {
        EmitLoad(node);
      } else if node.op.StoreStack64? || node.op.StoreStack32? {
        EmitStore(node);
      } else if node.op.Lea? {
        EmitLea(node);
      } else if IsArithmetic(node.op) {
        EmitArithmetic(node);
      } else if node.op.Jcc? {
        var predicate_ := ConditionName(node.op.condition);
        NoOutputs(node);
        t := CondBranch(predicate_, node.successors[0], node.successors[1]);
        forall e
          ensures Leaves(ip, node, e, Run(body, e), t)
        {
          BranchReads(node, e, ip);
        }
        return;
      } else if node.op.Ret? {
        NoOutputs(node);
        return Return(InputOf(RAX, ip));
      } else {
        NoOutputs(node);
      }
      t := Branch(node.successors[0]);
    }
  }

  /** The shape of a call-free recovered node. */
  predicate Emittable(node: Node) {
    && Modelled(node.op) && !RejectedWithStackProof(node.op)
    && (StackAccess(node.op).Some? ==> node.slot.Some?)
    && |node.successors| == (if node.op.Ret? then 0 else if node.op.Jcc? then 2 else 1)
  }

  predicate IsArithmetic(op: Op) {
    op.Alu? || op.Cmp? || op.Test? || op.Alu32? || op.AluStack32? || op.Cmp32? || op.CmpRegStack32? || op.CmpStack32?
  }

  function SlotInput(node: Node, ip: nat): Operand {
    match node.slot
    case Some(i) => Ref(In(SlotField(i), ip))
    case None => Const(0)
  }

  /** The terminator goes where the machine goes, or returns the incoming RAX. */
  ghost predicate Leaves(ip: nat, node: Node, before: Env, after: Env, t: Terminator)
    requires Emittable(node)
  {
    Typed(before, ip, Reads(node)) ==>
      Leave(after, t) ==
        if node.op.Ret? then Returns(I64(Get(RegsView(before, ip), RAX)))
        else if node.op.Jcc? then Goto(node.successors[if Holds(node.op.condition, FlagsView(before, ip)) then 0
          else 1])
        else Goto(node.successors[0])
  }

  lemma NoOutputs(node: Node)
    requires Emittable(node)
    requires IsFrameOp(node.op) || node.op.Jcc? || node.op.Jmp? || node.op.Ret? || node.op.Nop?
    ensures Defs(node) == {} && (node.op.Ret? ==> RegisterField(RAX) in Reads(node))
  {
  }

  lemma BranchReads(node: Node, env: Env, ip: nat)
    requires node.op.Jcc?
    ensures Typed(env, ip, Reads(node)) ==> ConditionReads(node.op.condition) <= TypedFlags(env, ip)
  {
    forall f | f in ConditionReads(node.op.condition)
      ensures FlagField(f) in Reads(node)
    {
      assert FlagField(f) in FlagFields(ConditionReads(node.op.condition));
    }
  }

  ghost predicate CopiedTo(name: Name, value: Operand, before: Env, after: Env) {
    Binds(name, if Is64(before, value) then I64(Num(before, value)) else Undef, before, after)
  }

  lemma MovComputes(ip: nat, node: Node, before: Env, after: Env)
    requires node.op.Mov? && CopiedTo(Out(RegisterField(node.op.dst), ip), ValueName(node.op.src, ip), before, after)
    ensures Computes(ip, node, before, after)
  {
    assert Defs(node) == {RegisterField(node.op.dst)};
    if Typed(before, ip, Reads(node)) {
      ValueInput(before, ip, Reads(node), node.op.src);
    }
  }

  lemma Mov32Computes(ip: nat, node: Node, before: Env, after: Env)
    requires node.op.Mov32?
    requires Is64(before, Value32Name(node.op.src32, ip)) ==>
               Look(after, Out(RegisterField(node.op.dst), ip)) ==
                 I64(Low32(Num(before, Value32Name(node.op.src32, ip))))
    ensures Computes(ip, node, before, after)
  {
    assert Defs(node) == {RegisterField(node.op.dst)};
    if Typed(before, ip, Reads(node)) {
      Value32Input(before, ip, Reads(node), node.op.src32);
    }
  }

  lemma LoadComputes(ip: nat, node: Node, before: Env, after: Env)
    requires (node.op.LoadStack64? || node.op.LoadStack32?) && node.slot.Some?
    requires var slot := Ref(In(SlotField(node.slot.value), ip));
             Is64(before, slot) ==> Look(after, Out(RegisterField(node.op.dst), ip)) ==
                                    I64(if node.op.LoadStack64? then Num(before, slot) else Low32(Num(before, slot)))
    ensures Computes(ip, node, before, after)
  {
    assert Defs(node) == {RegisterField(node.op.dst)};
    assert SlotField(node.slot.value) in Reads(node);
  }

  lemma StoreComputes(ip: nat, node: Node, before: Env, after: Env)
    requires (node.op.StoreStack64? || node.op.StoreStack32?) && node.slot.Some?
    requires var value := if node.op.StoreStack64? then InputOf(node.op.source, ip) else Value32Name(node.op.src32, ip);
             Is64(before, value) ==> Look(after, Out(SlotField(node.slot.value), ip)) ==
                                     I64(if node.op.StoreStack64? then Num(before, value)
                                       else Low32(Num(before, value)))
    ensures Computes(ip, node, before, after)
  {
    StoreDefines(node);
    if Typed(before, ip, Reads(node)) {
      StoreInput(ip, node, before);
      var x := Exec(node.op, RegsView(before, ip), SlotView(before, ip, node));
      StoreExec(node.op, RegsView(before, ip), SlotView(before, ip, node));
      assert OutcomeValue(x, SlotField(node.slot.value)) == I64(x.memory.value);
    }
  }

  lemma StoreExec(op: Op, regs: Regs, operand: Word)
    requires op.StoreStack64? || op.StoreStack32?
    ensures Exec(op, regs, operand).memory ==
            Some(if op.StoreStack64? then Get(regs, op.source) else Operand32(regs, op.src32))
  {
  }

  lemma StoreDefines(node: Node)
    requires (node.op.StoreStack64? || node.op.StoreStack32?) && node.slot.Some?
    ensures Defs(node) == {SlotField(node.slot.value)}
  {
  }

  lemma StoreInput(ip: nat, node: Node, before: Env)
    requires (node.op.StoreStack64? || node.op.StoreStack32?) && Typed(before, ip, Reads(node))
    ensures node.op.StoreStack64? ==>
              Is64(before, InputOf(node.op.source, ip)) &&
                Num(before, InputOf(node.op.source, ip)) == Get(RegsView(before, ip), node.op.source)
    ensures node.op.StoreStack32? ==>
              Is64(before, Value32Name(node.op.src32, ip)) &&
              Low32(Num(before, Value32Name(node.op.src32, ip))) == Operand32(RegsView(before, ip), node.op.src32)
  {
    if node.op.StoreStack64? {
      assert RegisterField(node.op.source) in Reads(node);
      RegisterInput(before, ip, Reads(node), node.op.source);
    } else {
      assert RegisterFields(Value32Reads(node.op.src32)) <= Reads(node);
      Value32Input(before, ip, Reads(node), node.op.src32);
    }
  }

  function AddressPart(r: Option<Register>, ip: nat): Operand
    requires r != Some(RSP) && r != Some(RBP)
  {
    match r
    case Some(register) => InputOf(register, ip)
    case None => Const(0)
  }

  lemma AddressPartInput(env: Env, ip: nat, fields: set<Field>, r: Option<Register>)
    requires r != Some(RSP) && r != Some(RBP)
    requires Typed(env, ip, fields) && RegisterFields(OptionalReads(r)) <= fields
    ensures Is64(env, AddressPart(r, ip)) && Num(env, AddressPart(r, ip)) == OptionalRegister(RegsView(env, ip), r)
  {
    if r.Some? {
      assert RegisterField(r.value) in RegisterFields(OptionalReads(r));
      RegisterInput(env, ip, fields, r.value);
    }
  }

  lemma LeaFields(node: Node)
    requires node.op.Lea?
    ensures Defs(node) == {RegisterField(node.op.dst)}
    ensures RegisterFields(OptionalReads(node.op.leaBase)) <= Reads(node)
    ensures RegisterFields(OptionalReads(node.op.index)) <= Reads(node)
  {
  }

  lemma LeaComputes(ip: nat, node: Node, before: Env, after: Env)
    requires node.op.Lea? && !RejectedWithStackProof(node.op)
    requires var base, index := AddressPart(node.op.leaBase, ip), AddressPart(node.op.index, ip);
             Is64(before, base) && Is64(before, index) ==>
               Look(after, Out(RegisterField(node.op.dst), ip)) ==
               I64(LeaAddress(Num(before, base), Num(before, index), node.op.scale, node.op.displacement))
    ensures Computes(ip, node, before, after)
  {
    LeaFields(node);
    if Typed(before, ip, Reads(node)) {
      AddressPartInput(before, ip, Reads(node), node.op.leaBase);
      AddressPartInput(before, ip, Reads(node), node.op.index);
    }
  }

  lemma EmittedLea(base: Word, index: Word, scale: Scale, displacement: Int64)
    ensures Wrap(Wrap(base + Wrap(index * scale)) + Wrap(displacement)) == LeaAddress(base, index, scale, displacement)
    ensures Wrap(index * 1) == index
  {
    WrapSum(base, index * scale, displacement);
  }

  lemma WrapSum(a: int, b: int, c: int)
    ensures Wrap(Wrap(a + Wrap(b)) + Wrap(c)) == Wrap(a + b + c)
  {
    WrapAdd(a, b);
    WrapAdd(a + b, c);
    WrapAdd(Wrap(a + b), c);
  }

  lemma LeaSteps(ip: nat, node: Node, base: Operand, index: Operand, scaled: Operand, sum: Operand, before: Env,
                 multiplied: Env, summed: Env, after: Env)
    requires node.op.Lea? && Incoming(base) && Incoming(index) && sum.Ref? && sum.name.Temp?
    requires if node.op.scale == 1 then scaled == index && multiplied == before
             else scaled == Ref(Temp(ip, 0)) &&
                  Binds(Temp(ip, 0), Eval(before, Binary(MulI, I64Type, index, Const(node.op.scale))), before,
                    multiplied)
    requires Binds(sum.name, Eval(multiplied, Binary(AddI, I64Type, base, scaled)), multiplied, summed)
    requires Binds(Out(RegisterField(node.op.dst), ip),
                   Eval(summed, Binary(AddI, I64Type, sum, Const(node.op.displacement))), summed, after)
    requires Is64(before, base) && Is64(before, index)
    ensures Look(after, Out(RegisterField(node.op.dst), ip)) ==
            I64(LeaAddress(Num(before, base), Num(before, index), node.op.scale, node.op.displacement))
  {
    EmittedLea(Num(before, base), Num(before, index), node.op.scale, node.op.displacement);
    assert Operand64Of(multiplied, base) == Operand64Of(before, base);
    assert Operand64Of(multiplied, scaled) == I64(Wrap(Num(before, index) * node.op.scale));
    assert Operand64Of(summed, sum) ==
           I64(Wrap(Num(before, base) + Wrap(Num(before, index) * node.op.scale)));
  }

  predicate Incoming(o: Operand) { o.Ref? ==> o.name.In? }

  function FlagKind(kind: Option<Alu>): Alu {
    if kind.Some? then kind.value else And
  }

  /** An operand cut to the operation's width. */
  function Cut(w: Width, v: Word): Word { if w == W32 then Low32(v) else v }

  /** Result and flags of an arithmetic operation on the operands cut to its width. */
  ghost predicate ArithDone(ip: nat, w: Width, kind: Alu, lhs: Operand, rhs: Operand, dest: Option<Field>, before: Env,
                            after: Env) {
    var a, b := Cut(w, Num(before, lhs)), Cut(w, Num(before, rhs));
    Is64(before, lhs) && Is64(before, rhs) ==>
      FlagsOut(ip, after, AluFlags(w, kind, a, b)) &&
      (dest.Some? ==> Look(after, Out(dest.value, ip)) == I64(AluValue(w, kind, a, b)))
  }

  /** Masked operands, the operation on them, and its result masked again. */
  lemma MaskedSteps(ip: nat, kind: Alu, lhs: Operand, rhs: Operand, a: Operand, b: Operand, before: Env, masked: Env,
                    computed: Env, after: Env)
    requires a == Ref(Temp(ip, 0)) && b == Ref(Temp(ip, 1))
    requires Is64(before, lhs) ==> Is64(masked, a) && Num(masked, a) == Low32(Num(before, lhs))
    requires Is64(before, rhs) ==> Is64(masked, b) && Num(masked, b) == Low32(Num(before, rhs))
    requires Binds(Temp(ip, 2), Eval(masked, Binary(BinaryOf(kind), I64Type, a, b)), masked, computed)
    requires OnlyTemps(ip, 3, computed, after)
    requires Is64(computed, Ref(Temp(ip, 2))) ==>
               Is64(after, Ref(Temp(ip, 3))) && Num(after, Ref(Temp(ip, 3))) == Low32(Num(computed, Ref(Temp(ip, 2))))
    ensures MaskedResult(kind, lhs, rhs, a, b, Ref(Temp(ip, 3)), before, after)
  {
    if Is64(before, lhs) && Is64(before, rhs) {
      MaskedAlu(kind, Low32(Num(before, lhs)), Low32(Num(before, rhs)));
    }
  }

  ghost predicate MaskedResult(kind: Alu, lhs: Operand, rhs: Operand, a: Operand, b: Operand, result: Operand,
                               before: Env, after: Env) {
    Is64(before, lhs) && Is64(before, rhs) ==>
      var x, y := Low32(Num(before, lhs)), Low32(Num(before, rhs));
      Operand64Of(after, a) == I64(x) && Operand64Of(after, b) == I64(y) &&
        Operand64Of(after, result) == I64(AluValue(W32, kind, x, y))
  }

  lemma Arith64Done(ip: nat, kind: Option<Alu>, lhs: Operand, rhs: Operand, dest: Option<Field>, result: Operand,
                    before: Env, computed: Env, after: Env)
    requires Incoming(lhs) && Incoming(rhs) && (dest.Some? ==> !dest.value.FlagField?)
    requires result == if dest.Some? then Ref(Out(dest.value, ip)) else Ref(Temp(ip, 0))
    requires Binds(result.name, Eval(before, Binary(BinaryOf(FlagKind(kind)), I64Type, lhs, rhs)), before, computed)
    requires FlagsEmitted(ip, W64, kind, computed, after, lhs, rhs, result)
    requires OnlyTempsAndFlags(ip, 1, computed, after) || (dest.Some? && OnlyTempsAndFlags(ip, 0, computed, after))
    ensures ArithDone(ip, W64, FlagKind(kind), lhs, rhs, dest, before, after)
  {
    assert Operand64Of(computed, lhs) == Operand64Of(before, lhs) &&
           Operand64Of(computed, rhs) == Operand64Of(before, rhs);
    FullAlu(FlagKind(kind), Num(before, lhs), Num(before, rhs));
  }

  lemma Arith32Done(ip: nat, kind: Alu, lhs: Operand, rhs: Operand, dest: Option<Field>, a: Operand, b: Operand,
                    result: Operand, before: Env, masked: Env, copied: Env, after: Env)
    requires a == Ref(Temp(ip, 0)) && b == Ref(Temp(ip, 1)) && result == Ref(Temp(ip, 3)) &&
             (dest.Some? ==> !dest.value.FlagField?)
    requires MaskedResult(kind, lhs, rhs, a, b, result, before, masked)
    requires if dest.Some? then CopiedTo(Out(dest.value, ip), result, masked, copied) else copied == masked
    requires FlagsEmitted(ip, W32, Some(kind), copied, after, a, b, result)
    requires OnlyTempsAndFlags(ip, 4, copied, after)
    ensures ArithDone(ip, W32, kind, lhs, rhs, dest, before, after)
  {
  }

  /** Source operands, operation and destination of the arithmetic instructions, as they are emitted. */
  function ArithLhs(node: Node, ip: nat): Operand
  {
    match node.op
    case Alu(_, dst, _) => InputOf(dst, ip)
    case Alu32(_, dst, _) => InputOf(dst, ip)
    case Cmp(lhs, _) => InputOf(lhs, ip)
    case Test(lhs, _) => InputOf(lhs, ip)
    case Cmp32(lhs, _) => InputOf(lhs, ip)
    case CmpRegStack32(lhs, _, _) => InputOf(lhs, ip)
    case _ => SlotInput(node, ip)
  }

  function ArithRhs(node: Node, ip: nat): Operand
  {
    match node.op
    case Alu(_, _, src) => ValueName(src, ip)
    case Cmp(_, rhs) => ValueName(rhs, ip)
    case Test(_, rhs) => ValueName(rhs, ip)
    case Alu32(_, _, src) => Value32Name(src, ip)
    case AluStack32(_, _, _, src) => Value32Name(src, ip)
    case Cmp32(_, rhs) => Value32Name(rhs, ip)
    case CmpStack32(_, _, rhs) => Value32Name(rhs, ip)
    case _ => SlotInput(node, ip)
  }

  function ArithKind(op: Op): Alu {
    match op
    case Alu(kind, _, _) => kind
    case Alu32(kind, _, _) => kind
    case AluStack32(kind, _, _, _) => kind
    case Test(_, _) => And
    case _ => Sub
  }

  function ArithDest(node: Node): Option<Field> {
    match node.op
    case Alu(_, dst, _) => Some(RegisterField(dst))
    case Alu32(_, dst, _) => Some(RegisterField(dst))
    case AluStack32(_, _, _, _) => if node.slot.Some? then Some(SlotField(node.slot.value)) else None
    case _ => None
  }

  function ArithWidth(op: Op): Width {
    if op.Alu? || op.Cmp? || op.Test? then W64 else W32
  }

  function ArithA(op: Op, regs: Regs, operand: Word): Word
    requires IsArithmetic(op)
  {
    match op
    case Alu(_, dst, _) => Get(regs, dst)
    case Cmp(lhs, _) => Get(regs, lhs)
    case Test(lhs, _) => Get(regs, lhs)
    case Alu32(_, dst, _) => Low32(Get(regs, dst))
    case Cmp32(lhs, _) => Low32(Get(regs, lhs))
    case CmpRegStack32(lhs, _, _) => Low32(Get(regs, lhs))
    case _ => Low32(operand)
  }

  function ArithB(op: Op, regs: Regs, operand: Word): Word
    requires IsArithmetic(op)
  {
    match op
    case Alu(_, _, src) => Operand64(regs, src)
    case Cmp(_, rhs) => Operand64(regs, rhs)
    case Test(_, rhs) => Operand64(regs, rhs)
    case Alu32(_, _, src) => Operand32(regs, src)
    case AluStack32(_, _, _, src) => Operand32(regs, src)
    case Cmp32(_, rhs) => Operand32(regs, rhs)
    case CmpStack32(_, _, rhs) => Operand32(regs, rhs)
    case _ => Low32(operand)
  }

  /** All arithmetic instructions have one form: flags of the operation, and its value if kept. */
  lemma ArithmeticForm(op: Op, regs: Regs, operand: Word)
    requires IsArithmetic(op)
    ensures var a, b := ArithA(op, regs, operand), ArithB(op, regs, operand);
            var v := AluValue(ArithWidth(op), ArithKind(op), a, b);
            && Exec(op, regs, operand).flags == Some(AluFlags(ArithWidth(op), ArithKind(op), a, b))
            && (op.Alu? || op.Alu32? ==> Exec(op, regs, operand).register == Some((op.dst, v)))
            && (op.AluStack32? ==> Exec(op, regs, operand).memory == Some(v))
  {
  }

  lemma ArithmeticInputs(ip: nat, node: Node, env: Env)
    requires IsArithmetic(node.op) && (StackAccess(node.op).Some? ==> node.slot.Some?)
    requires Typed(env, ip, Reads(node))
    ensures var regs, operand := RegsView(env, ip), SlotView(env, ip, node);
            && Is64(env, ArithLhs(node, ip)) &&
              Cut(ArithWidth(node.op), Num(env, ArithLhs(node, ip))) == ArithA(node.op, regs, operand)
            && Is64(env, ArithRhs(node, ip)) &&
              Cut(ArithWidth(node.op), Num(env, ArithRhs(node, ip))) == ArithB(node.op, regs, operand)
  {
    var fields := Reads(node);
    match node.op {
      case Alu(_, dst, src) => RegisterInput(env, ip, fields, dst); ValueInput(env, ip, fields, src);
      case Cmp(lhs, rhs) => RegisterInput(env, ip, fields, lhs); ValueInput(env, ip, fields, rhs);
      case Test(lhs, rhs) => RegisterInput(env, ip, fields, lhs); ValueInput(env, ip, fields, rhs);
      case Alu32(_, dst, src) => RegisterInput(env, ip, fields, dst); Value32Input(env, ip, fields, src);
      case Cmp32(lhs, rhs) => RegisterInput(env, ip, fields, lhs); Value32Input(env, ip, fields, rhs);
      case AluStack32(_, _, _, src) => SlotOperand(env, ip, node); Value32Input(env, ip, fields, src);
      case CmpStack32(_, _, rhs) => SlotOperand(env, ip, node); Value32Input(env, ip, fields, rhs);
      case CmpRegStack32(lhs, _, _) => SlotOperand(env, ip, node); RegisterInput(env, ip, fields, lhs);
    }
  }

  lemma SlotOperand(env: Env, ip: nat, node: Node)
    requires ReadsSlot(node.op) && node.slot.Some? && Typed(env, ip, Reads(node))
    ensures Is64(env, SlotInput(node, ip)) && Num(env, SlotInput(node, ip)) == SlotView(env, ip, node)
  {
    assert SlotField(node.slot.value) in Reads(node);
  }

  lemma ArithmeticDefs(node: Node, f: Field)
    requires IsArithmetic(node.op) && (StackAccess(node.op).Some? ==> node.slot.Some?) && f in Defs(node)
    ensures f.FlagField? || ArithDest(node) == Some(f)
  {
  }

  lemma ArithmeticComputes(ip: nat, node: Node, before: Env, after: Env)
    requires IsArithmetic(node.op) && (StackAccess(node.op).Some? ==> node.slot.Some?)
    requires ArithDone(ip, ArithWidth(node.op), ArithKind(node.op), ArithLhs(node, ip), ArithRhs(node, ip),
             ArithDest(node), before, after)
    ensures Computes(ip, node, before, after)
  {
    if Typed(before, ip, Reads(node)) {
      ArithmeticInputs(ip, node, before);
      ArithmeticForm(node.op, RegsView(before, ip), SlotView(before, ip, node));
      forall f | f in Defs(node)
        ensures Look(after, Out(f, ip)) == OutcomeValue(Exec(node.op, RegsView(before, ip), SlotView(before, ip, node)),
                f)
      {
        ArithmeticDefs(node, f);
      }
    }
  }
}
