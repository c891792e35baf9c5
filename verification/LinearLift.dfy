/**
 The straight-line lifter (`lift_linear`): one pass that maps each register to the name of its current
 value, and its agreement with the control-flow lifter.
 */
module LinearLift {
  import opened Wrappers
  import opened Words
  import opened Semantics
  import opened Machine
  import opened Decode
  import opened CfgRecovery
  import opened Fields
  import opened ScalarRecovery
  import opened Ssa
  import opened Emit
  import opened Runs
  import opened Paths
  import opened LiftCorrect
  import opened Lift
  import opened SavedRbpSlots
  import StackProof

  /** The registers this lifter models. */
  const LINEAR_REGISTERS: set<Register> := {RAX, RDI, RSI, RDX, RCX}

  /** A function of two arguments: straight-line code and the value it returns. */
  datatype Linear = Linear(body: seq<Instr>, result: Operand)

  datatype LinearError =
    | BadSize | InvalidInstruction(ip: nat) | Unsupported(ip: nat) | UnsupportedRegister(register: Register, ip: nat)
    | Uninitialized(register: Register, ip: nat) | BytesAfterReturn | NoReturn

  /** Names of current register values. */
  type Names = map<Register, Operand>

  /** The arguments are the entry values of RDI and RSI. */
  function Entry(address: nat, rdi: Word, rsi: Word): Env {
    map[In(RegisterField(RDI), address) := I64(rdi), In(RegisterField(RSI), address) := I64(rsi)]
  }

  function Value(l: Linear, address: nat, rdi: Word, rsi: Word): Val {
    Operand64Of(Run(l.body, Entry(address, rdi, rsi)), l.result)
  }

  /** Instructions the linear lifter has a case for. */
  predicate LinearOp(op: Op) {
    (op.Mov? && op.src.RegisterValue?) || op.Lea? ||
      (op.Alu? && (op.kind == Add || op.kind == Sub) && op.src.RegisterValue?) ||
    op.Nop? || op.Ret?
  }

  // ----- names and values -----

  /** Temporaries from `next` on are unused by the operand. */
  predicate Older(address: nat, next: nat, o: Operand) {
    o.Ref? ==> !(o.name.Temp? && o.name.ip == address && o.name.index >= next)
  }

  predicate AllOlder(address: nat, next: nat, names: Names) {
    forall r | r in names :: Older(address, next, names[r])
  }

  /** Every named register has the machine's value. */
  ghost predicate NamesHold(env: Env, names: Names, regs: Regs) {
    forall r :: r in names ==> Operand64Of(env, names[r]) == I64(Get(regs, r))
  }

  function Start(address: nat): Names {
    map[RDI := Ref(In(RegisterField(RDI), address)), RSI := Ref(In(RegisterField(RSI), address))]
  }

  method CheckedRegister(register: Register, ip: nat) returns (r: Result<Register, LinearError>)
    ensures r.Success? <==> register in LINEAR_REGISTERS
    ensures r.Success? ==> r.value == register
  {
    if register in {RAX, RDI, RSI, RDX, RCX} {
      return Success(register);
    }
    r := Failure(UnsupportedRegister(register, ip));
  }

  method ReadRegister(names: Names, register: Register, ip: nat) returns (r: Result<Operand, LinearError>)
    ensures r.Success? <==> register in LINEAR_REGISTERS && register in names
    ensures r.Success? ==> r.value == names[register]
  {
    var checked := CheckedRegister(register, ip);
    if checked.Failure? {
      return Failure(checked.error);
    }
    if register !in names {
      return Failure(Uninitialized(register, ip));
    }
    r := Success(names[register]);
  }

  /** From ip on the code is straight, modelled and reads only registers already defined, up to a final RET. */
  predicate LinearLiftable(code: Code, plain: nat -> bool, ip: nat, defined: set<Register>)
    requires code.Valid()
    decreases code.End() - ip
  {
    code.Decodes(ip) && plain(ip) && Accepts(code.OpAt(ip), defined) &&
    if code.OpAt(ip).Ret? then code.NextIp(ip) == code.End()
      else LinearLiftable(code, plain, code.NextIp(ip), defined + Defined(code.OpAt(ip)))
  }

  /** The instruction's reads are defined and all its registers modelled. */
  predicate Accepts(op: Op, defined: set<Register>) {
    LinearOp(op) && LinearReads(op) <= defined * LINEAR_REGISTERS && Defined(op) <= LINEAR_REGISTERS
  }

  function LinearReads(op: Op): set<Register> {
    if op.Ret? then {RAX} else EffectsOf(op).readRegisters
  }

  function Defined(op: Op): set<Register> {
    if op.Ret? then {} else EffectsOf(op).writeRegisters
  }

  // ----- which code is taken, position by position -----

  /** Register moves, LEA, addition and subtraction of a register, NOP and RET. */
  predicate LinearForm(op: Op) {
    match op
    case Mov(_, RegisterValue(_)) => true
    case Lea(_, _, _, _, _) => true
    case Alu(Add, _, RegisterValue(_)) => true
    case Alu(Sub, _, RegisterValue(_)) => true
    case Nop => true
    case Ret => true
    case _ => false
  }

  /** The registers whose values a linear instruction needs. */
  predicate Needs(op: Op, r: Register) {
    match op
    case Mov(_, RegisterValue(s)) => r == s
    case Lea(_, base, index, _, _) => base == Some(r) || index == Some(r)
    case Alu(_, dst, RegisterValue(s)) => r == dst || r == s
    case Ret => r == RAX
    case _ => false
  }

  /** The register a linear instruction gives a value. */
  predicate Gives(op: Op, r: Register) {
    match op
    case Mov(dst, _) => r == dst
    case Lea(dst, _, _, _, _) => r == dst
    case Alu(_, dst, _) => r == dst
    case _ => false
  }

  /** Straight from ip: instructions one behind the other, a RET that ends the code as the last, and none before. */
  ghost predicate StraightLine(code: Code, plain: nat -> bool, ip: nat, at: seq<nat>) {
    && |at| > 0 && at[0] == ip
    && (forall i :: 0 <= i < |at| ==> code.Decodes(at[i]) && plain(at[i]) && LinearForm(code.OpAt(at[i])))
    && (forall i :: 0 <= i < |at| - 1 ==> !code.OpAt(at[i]).Ret? && code.NextIp(at[i]) == at[i + 1])
    && code.OpAt(Last(at)).Ret? && code.NextIp(Last(at)) == code.End()
  }

  /** The register has a value before instruction i: from the entry, or given by an earlier instruction. */
  ghost predicate HasValue(code: Code, at: seq<nat>, entry: set<Register>, i: nat, r: Register)
    requires i <= |at| && forall k :: 0 <= k < |at| ==> code.Decodes(at[k])
  {
    r in entry || exists j :: 0 <= j < i && Gives(code.OpAt(at[j]), r)
  }

  /** Every register used is modelled, and has a value where it is needed. */
  ghost predicate RegistersDefined(code: Code, at: seq<nat>, entry: set<Register>)
    requires forall k :: 0 <= k < |at| ==> code.Decodes(at[k])
  {
    forall i, r :: 0 <= i < |at| ==>
      && (Needs(code.OpAt(at[i]), r) ==> r in {RAX, RDI, RSI, RDX, RCX} && HasValue(code, at, entry, i, r))
      && (Gives(code.OpAt(at[i]), r) ==> r in {RAX, RDI, RSI, RDX, RCX})
  }

  lemma AcceptsOne(op: Op, defined: set<Register>)
    ensures Accepts(op, defined) <==>
            && LinearForm(op)
            && forall r :: (Needs(op, r) ==> r in {RAX, RDI, RSI, RDX, RCX} && r in defined) &&
                           (Gives(op, r) ==> r in {RAX, RDI, RSI, RDX, RCX})
    ensures LinearForm(op) ==> forall r :: r in Defined(op) <==> Gives(op, r)
  {
    if LinearForm(op) {
      forall r
        ensures r in LinearReads(op) <==> Needs(op, r)
        ensures r in Defined(op) <==> Gives(op, r)
      {
      }
    }
  }

  /** A listing without its first instruction starts behind it, with that instruction's register defined as well. */
  lemma StraightRest(code: Code, plain: nat -> bool, ip: nat, entry: set<Register>, at: seq<nat>)
    requires StraightLine(code, plain, ip, at) && RegistersDefined(code, at, entry) && |at| > 1
    ensures StraightLine(code, plain, code.NextIp(ip), at[1..])
    ensures RegistersDefined(code, at[1..], entry + Defined(code.OpAt(ip)))
  {
    AcceptsOne(code.OpAt(ip), entry);
    var rest := at[1..];
    forall i, r | 0 <= i < |rest| && Needs(code.OpAt(rest[i]), r)
      ensures HasValue(code, rest, entry + Defined(code.OpAt(ip)), i, r)
    {
      assert HasValue(code, at, entry, i + 1, r);
      if r !in entry {
        var j :| 0 <= j < i + 1 && Gives(code.OpAt(at[j]), r);
        assert j > 0 ==> rest[j - 1] == at[j];
      }
    }
    assert forall i :: 0 <= i < |rest| ==> rest[i] == at[i + 1];
  }

  lemma StraightMore(code: Code, plain: nat -> bool, ip: nat, entry: set<Register>, rest: seq<nat>)
    requires code.Decodes(ip) && plain(ip) && Accepts(code.OpAt(ip), entry) && !code.OpAt(ip).Ret?
    requires StraightLine(code, plain, code.NextIp(ip), rest)
    requires RegistersDefined(code, rest, entry + Defined(code.OpAt(ip)))
    ensures StraightLine(code, plain, ip, [ip] + rest) && RegistersDefined(code, [ip] + rest, entry)
  {
    AcceptsOne(code.OpAt(ip), entry);
    var at := [ip] + rest;
    assert forall i :: 0 < i < |at| ==> at[i] == rest[i - 1];
    forall i, r | 0 <= i < |at| && Needs(code.OpAt(at[i]), r)
      ensures HasValue(code, at, entry, i, r)
    {
      if i > 0 {
        assert HasValue(code, rest, entry + Defined(code.OpAt(ip)), i - 1, r);
        if r in Defined(code.OpAt(ip)) {
          assert Gives(code.OpAt(at[0]), r);
        } else if r !in entry {
          var j :| 0 <= j < i - 1 && Gives(code.OpAt(rest[j]), r);
          assert Gives(code.OpAt(at[j + 1]), r);
        }
      }
    }
  }

  /** The linear lifter's acceptance, said by positions: a straight line whose registers have values where needed. */
  lemma {:induction false} LinearLiftableExactly(code: Code, plain: nat -> bool, ip: nat, entry: set<Register>)
    requires code.Valid()
    ensures LinearLiftable(code, plain, ip, entry) <==>
            exists at :: StraightLine(code, plain, ip, at) && RegistersDefined(code, at, entry)
    decreases code.End() - ip
  {
    if code.Decodes(ip) && plain(ip) {
      var op := code.OpAt(ip);
      AcceptsOne(op, entry);
      if op.Ret? {
        ReturnLine(code, plain, ip, entry);
      } else if Accepts(op, entry) {
        LinearLiftableExactly(code, plain, code.NextIp(ip), entry + Defined(op));
        if LinearLiftable(code, plain, ip, entry) {
          var rest :| StraightLine(code, plain, code.NextIp(ip), rest) &&
            RegistersDefined(code, rest, entry + Defined(op));
          StraightMore(code, plain, ip, entry, rest);
        }
        forall at | StraightLine(code, plain, ip, at) && RegistersDefined(code, at, entry)
          ensures LinearLiftable(code, plain, ip, entry)
        {
          StraightRest(code, plain, ip, entry, at);
        }
      } else {
        forall at | StraightLine(code, plain, ip, at)
          ensures !RegistersDefined(code, at, entry)
        {
          assert forall r :: HasValue(code, at, entry, 0, r) <==> r in entry;
        }
      }
    }
  }

  lemma ReturnLine(code: Code, plain: nat -> bool, ip: nat, entry: set<Register>)
    requires code.Valid() && code.Decodes(ip) && plain(ip) && code.OpAt(ip).Ret?
    ensures LinearLiftable(code, plain, ip, entry) <==>
            exists at :: StraightLine(code, plain, ip, at) && RegistersDefined(code, at, entry)
  {
    AcceptsOne(Ret, entry);
    var only := [ip];
    assert Last(only) == ip;
    assert forall r :: HasValue(code, only, entry, 0, r) <==> r in entry;
    if LinearLiftable(code, plain, ip, entry) {
      assert StraightLine(code, plain, ip, only) && RegistersDefined(code, only, entry);
    }
    forall at | StraightLine(code, plain, ip, at) && RegistersDefined(code, at, entry)
      ensures LinearLiftable(code, plain, ip, entry)
    {
      assert at == only;
    }
  }

  // ----- emission -----

  /** The body grew by code that computes x for every entry environment and disturbs no older name. */
  ghost predicate Grows(address: nat, body: seq<Instr>, next: nat, body': seq<Instr>, next': nat) {
    && next <= next'
    && forall env, o {:trigger Operand64Of(Run(body', env), o)} :: Older(address, next, o) ==>
         Operand64Of(Run(body', env), o) == Operand64Of(Run(body, env), o)
  }

  method EmitBinary(address: nat, body: seq<Instr>, next: nat, op: BinOp, lhs: Operand, rhs: Operand)
    returns (body': seq<Instr>, next': nat, value: Operand)
    requires Older(address, next, lhs) && Older(address, next, rhs)
    ensures Grows(address, body, next, body', next') && Older(address, next', value)
    ensures forall env {:trigger Run(body', env)} :: Is64(Run(body, env), lhs) && Is64(Run(body, env), rhs) ==>
              Operand64Of(Run(body', env), value) == I64(Arith(op, Num(Run(body, env), lhs), Num(Run(body, env), rhs)))
  {
    value := Ref(Temp(address, next));
    var instr := Assign(Temp(address, next), Binary(op, I64Type, lhs, rhs));
    body', next' := body + [instr], next + 1;
    forall env
      ensures Run(body', env) == Run(body, env)[Temp(address, next) := Eval(Run(body, env), instr.rhs)]
    {
      assert body'[..|body'| - 1] == body;
    }
  }

  /** Address parts are registers or the constant zero. */
  method AddressOperand(names: Names, register: Option<Register>, ip: nat) returns (r: Result<Operand, LinearError>)
    ensures r.Success? <==> OptionalReads(register) <= names.Keys * LINEAR_REGISTERS
    ensures r.Success? ==> match register
              case None => r.value == Const(0)
              case Some(x) => x in names && r.value == names[x]
  {
    match register {
      case None => r := Success(Const(0));
      case Some(x) => r := ReadRegister(names, x, ip);
    }
  }

  method EmitLea(address: nat, op: Op, names: Names, body: seq<Instr>, next: nat, ip: nat)
    returns (r: Result<Operand, LinearError>, body': seq<Instr>, next': nat)
    requires op.Lea? && AllOlder(address, next, names)
    ensures r.Success? <==> LinearReads(op) <= names.Keys * LINEAR_REGISTERS
    ensures r.Success? ==> Grows(address, body, next, body', next') && Older(address, next', r.value)
    ensures r.Success? ==>
            forall env, regs {:trigger NamesHold(Run(body, env), names, regs)} ::
            NamesHold(Run(body, env), names, regs) ==>
              Operand64Of(Run(body', env), r.value) ==
              I64(LeaAddress(OptionalRegister(regs, op.leaBase), OptionalRegister(regs, op.index), op.scale,
                op.displacement))
  {
    body', next' := body, next;
    var base := AddressOperand(names, op.leaBase, ip);
    if base.Failure? {
      return Failure(base.error), body', next';
    }
    var index := AddressOperand(names, op.index, ip);
    if index.Failure? {
      return Failure(index.error), body', next';
    }
    var scaled := index.value;
    if op.scale != 1 {
      body', next', scaled := EmitBinary(address, body', next', MulI, index.value, Const(op.scale));
    }
    ghost var afterScale := body';
    var sum;
    body', next', sum := EmitBinary(address, body', next', AddI, base.value, scaled);
    ghost var afterSum := body';
    var value := sum;
    if op.displacement != 0 {
      body', next', value := EmitBinary(address, body', next', AddI, sum, Const(op.displacement));
    }
    forall env, regs | NamesHold(Run(body, env), names, regs)
      ensures Operand64Of(Run(body', env), value) ==
              I64(LeaAddress(OptionalRegister(regs, op.leaBase), OptionalRegister(regs, op.index), op.scale,
                op.displacement))
    {
      LeaComputes(Run(body, env), Run(afterScale, env), Run(afterSum, env), Run(body', env), base.value, index.value,
        scaled, sum, value,
                  OptionalRegister(regs, op.leaBase), OptionalRegister(regs, op.index), op.scale, op.displacement);
    }
    r := Success(value);
  }

  /** The multiply, the sum and the displacement, each skipped when trivial. */
  lemma LeaComputes(e0: Env, e1: Env, e2: Env, e3: Env, base: Operand, index: Operand, scaled: Operand, sum: Operand,
                    value: Operand, b: Word, i: Word, scale: Scale, displacement: Int64)
    requires Operand64Of(e0, base) == I64(b) && Operand64Of(e0, index) == I64(i) && Operand64Of(e1, base) == I64(b)
    requires if scale == 1 then scaled == index &&
             e1 == e0 else Operand64Of(e1, scaled) == I64(Arith(MulI, i, Wrap(scale)))
    requires Is64(e1, base) && Is64(e1, scaled) ==>
             Operand64Of(e2, sum) == I64(Arith(AddI, Num(e1, base), Num(e1, scaled)))
    requires if displacement == 0 then value == sum && e3 == e2
             else Is64(e2, sum) ==> Operand64Of(e3, value) == I64(Arith(AddI, Num(e2, sum), Wrap(displacement)))
    ensures Operand64Of(e3, value) == I64(LeaAddress(b, i, scale, displacement))
  {
    LeaParts(b, i, scale, displacement);
  }

  lemma LeaParts(base: Word, index: Word, scale: Scale, displacement: Int64)
    ensures Wrap(Wrap(base + Wrap(index * scale)) + Wrap(displacement)) == LeaAddress(base, index, scale, displacement)
    ensures Wrap(scale) == scale && (scale == 1 ==> Wrap(index * scale) == index)
    ensures displacement == 0 ==> Wrap(base + Wrap(index * scale)) == LeaAddress(base, index, scale, displacement)
  {
    EmittedLea(base, index, scale, displacement);
    WrapAdd(base + Wrap(index * scale), 0);
    WrapSmall(index);
  }

  // ----- one instruction -----

  /** From equal register values, the instruction's names give its results. */
  ghost predicate StepExact(op: Op, names: Names, body: seq<Instr>, names': Names, body': seq<Instr>) {
    forall env, m: State {:trigger NamesHold(Run(body, env), names, m.regs)} ::
      NamesHold(Run(body, env), names, m.regs) ==> NamesHold(Run(body', env), names', Effect(op, m).regs)
  }

  lemma RegisterStep(op: Op, dst: Gpr, names: Names, before: Env, after: Env, value: Operand, m: State)
    requires NamesHold(before, names, m.regs)
    requires forall r :: r in names ==> Operand64Of(after, names[r]) == Operand64Of(before, names[r])
    requires Effect(op, m).regs == m.regs[dst := Get(Effect(op, m).regs, dst)]
    requires Operand64Of(after, value) == I64(Get(Effect(op, m).regs, dst))
    ensures NamesHold(after, names[dst := value], Effect(op, m).regs)
  {
  }

  method LinearMov(op: Op, names: Names, body: seq<Instr>, ip: nat, address: nat, next: nat)
    returns (r: Result<Names, LinearError>)
    requires op.Mov? && op.src.RegisterValue? && AllOlder(address, next, names)
    ensures r.Success? <==> Accepts(op, names.Keys)
    ensures r.Success? ==> StepExact(op, names, body, r.value, body) && AllOlder(address, next, r.value)
    ensures r.Success? ==> r.value.Keys == names.Keys + Defined(op)
  {
    var source := ReadRegister(names, op.src.register, ip);
    if source.Failure? {
      return Failure(source.error);
    }
    var target := CheckedRegister(op.dst, ip);
    if target.Failure? {
      return Failure(target.error);
    }
    forall env, m: State | NamesHold(Run(body, env), names, m.regs)
      ensures NamesHold(Run(body, env), names[op.dst := source.value], Effect(op, m).regs)
    {
      RegisterStep(op, op.dst, names, Run(body, env), Run(body, env), source.value, m);
    }
    r := Success(names[target.value := source.value]);
  }

  method LinearLea(op: Op, names: Names, body: seq<Instr>, ip: nat, address: nat, next: nat)
    returns (r: Result<Names, LinearError>, body': seq<Instr>, next': nat)
    requires op.Lea? && AllOlder(address, next, names)
    ensures r.Success? <==> Accepts(op, names.Keys)
    ensures r.Success? ==> StepExact(op, names, body, r.value, body') && AllOlder(address, next', r.value)
    ensures r.Success? ==> r.value.Keys == names.Keys + Defined(op)
  {
    body', next' := body, next;
    var target := CheckedRegister(op.dst, ip);
    if target.Failure? {
      return Failure(target.error), body', next';
    }
    var lea;
    lea, body', next' := EmitLea(address, op, names, body, next, ip);
    if lea.Failure? {
      return Failure(lea.error), body', next';
    }
    forall env, m: State | NamesHold(Run(body, env), names, m.regs)
      ensures NamesHold(Run(body', env), names[op.dst := lea.value], Effect(op, m).regs)
    {
      RegisterStep(op, op.dst, names, Run(body, env), Run(body', env), lea.value, m);
    }
    r := Success(names[target.value := lea.value]);
  }

  method LinearAlu(op: Op, names: Names, body: seq<Instr>, ip: nat, address: nat, next: nat)
    returns (r: Result<Names, LinearError>, body': seq<Instr>, next': nat)
    requires op.Alu? && (op.kind == Add || op.kind == Sub) && op.src.RegisterValue? && AllOlder(address, next, names)
    ensures r.Success? <==> Accepts(op, names.Keys)
    ensures r.Success? ==> StepExact(op, names, body, r.value, body') && AllOlder(address, next', r.value)
    ensures r.Success? ==> r.value.Keys == names.Keys + Defined(op)
  {
    body', next' := body, next;
    var target := CheckedRegister(op.dst, ip);
    if target.Failure? {
      return Failure(target.error), body', next';
    }
    var lhs := ReadRegister(names, target.value, ip);
    if lhs.Failure? {
      return Failure(lhs.error), body', next';
    }
    var rhs := ReadRegister(names, op.src.register, ip);
    if rhs.Failure? {
      return Failure(rhs.error), body', next';
    }
    var value;
    body', next', value := EmitBinary(address, body, next, if op.kind == Add then AddI else SubI, lhs.value, rhs.value);
    forall env, m: State | NamesHold(Run(body, env), names, m.regs)
      ensures NamesHold(Run(body', env), names[op.dst := value], Effect(op, m).regs)
    {
      AluHolds(op, m);
      RegisterStep(op, op.dst, names, Run(body, env), Run(body', env), value, m);
    }
    r := Success(names[target.value := value]);
  }

  lemma AluHolds(op: Op, m: State)
    requires op.Alu? && (op.kind == Add || op.kind == Sub) && op.src.RegisterValue?
    ensures Get(Effect(op, m).regs, op.dst) ==
            Arith(if op.kind == Add then AddI else SubI, Get(m.regs, op.dst), Get(m.regs, op.src.register))
    ensures Effect(op, m).regs == m.regs[op.dst := Get(Effect(op, m).regs, op.dst)]
  {
  }

  method LinearStep(op: Op, names: Names, body: seq<Instr>, ip: nat, address: nat, next: nat)
    returns (r: Result<Names, LinearError>, body': seq<Instr>, next': nat)
    requires AllOlder(address, next, names) && !op.Ret?
    ensures r.Success? <==> Accepts(op, names.Keys)
    ensures r.Success? ==> StepExact(op, names, body, r.value, body') && AllOlder(address, next', r.value)
    ensures r.Success? ==> r.value.Keys == names.Keys + Defined(op)
  {
    body', next' := body, next;
    if op.Mov? && op.src.RegisterValue? {
      r := LinearMov(op, names, body, ip, address, next);
    } else if op.Lea? {
      r, body', next' := LinearLea(op, names, body, ip, address, next);
    } else if op.Alu? && (op.kind == Add || op.kind == Sub) && op.src.RegisterValue? {
      r, body', next' := LinearAlu(op, names, body, ip, address, next);
    } else if op.Nop? {
      r := Success(names);
    } else {
      r := Failure(LinearError.Unsupported(ip));
    }
  }

  // ----- the whole pass -----

  /** After k steps the machine is at ip and its named registers have the values of their names. */
  ghost predicate Follows(code: Code, k: nat, ip: nat, names: Names, body: seq<Instr>) {
    forall m0: State {:trigger MachineRun(code, m0, k)} :: m0.rip == code.address ==>
      MachineRun(code, m0, k).Next? && MachineRun(code, m0, k).state.rip == ip &&
      NamesHold(Run(body, Entry(code.address, Get(m0.regs, RDI), Get(m0.regs, RSI))), names,
        MachineRun(code, m0, k).state.regs)
  }

  /** Control starts in `passed` or at ip, and from `passed` goes only there. */
  ghost predicate Passed(code: Code, passed: set<nat>, ip: nat) {
    && code.address in passed + {ip}
    && (forall x :: x in passed ==>
      code.Decodes(x) && LinearOp(code.OpAt(x)) && Edges(code, Scalar(CALL_FREE))(x) <= passed + {ip})
  }

  /** What an accepted straight-line lift means. */
  ghost predicate LinearExact(code: Code, l: Linear, steps: nat) {
    && (forall m0: State {:trigger MachineRun(code, m0, steps)} :: m0.rip == code.address ==>
          MachineRun(code, m0, steps).Returned? &&
          Value(l, code.address, Get(m0.regs, RDI), Get(m0.regs, RSI)) ==
            I64(Get(MachineRun(code, m0, steps).state.regs, RAX)))
    && (forall ip :: Reached(code, Scalar(CALL_FREE), ip) ==> code.Decodes(ip) && LinearOp(code.OpAt(ip)))
  }

  lemma LinearMoves(code: Code, m: State)
    requires code.Decodes(m.rip) && LinearOp(code.OpAt(m.rip)) && !code.OpAt(m.rip).Ret?
    ensures MachineStep(code, m).Next? && MachineStep(code, m).state.rip == code.NextIp(m.rip)
    ensures MachineStep(code, m).state.regs == Effect(code.OpAt(m.rip), m).regs
  {
  }

  lemma FollowOne(code: Code, k: nat, ip: nat, names: Names, body: seq<Instr>, names': Names, body': seq<Instr>,
                  m0: State)
    requires Follows(code, k, ip, names, body) && code.Decodes(ip) && LinearOp(code.OpAt(ip)) && !code.OpAt(ip).Ret?
    requires StepExact(code.OpAt(ip), names, body, names', body') && m0.rip == code.address
    ensures MachineRun(code, m0, k + 1).Next? && MachineRun(code, m0, k + 1).state.rip == code.NextIp(ip)
    ensures NamesHold(Run(body', Entry(code.address, Get(m0.regs, RDI), Get(m0.regs, RSI))), names',
            MachineRun(code, m0, k + 1).state.regs)
  {
    var m, env := MachineRun(code, m0, k).state, Entry(code.address, Get(m0.regs, RDI), Get(m0.regs, RSI));
    assert NamesHold(Run(body, env), names, m.regs);
    assert NamesHold(Run(body', env), names', Effect(code.OpAt(ip), m).regs);
    LinearMoves(code, m);
    OneMoreStep(code, m0, k, m);
  }

  lemma OneMoreStep(code: Code, m0: State, k: nat, m: State)
    requires MachineRun(code, m0, k) == Next(m)
    ensures MachineRun(code, m0, k + 1) == MachineStep(code, m)
  {
  }

  lemma FollowStep(code: Code, k: nat, ip: nat, names: Names, body: seq<Instr>, names': Names, body': seq<Instr>)
    requires Follows(code, k, ip, names, body) && code.Decodes(ip) && LinearOp(code.OpAt(ip)) && !code.OpAt(ip).Ret?
    requires StepExact(code.OpAt(ip), names, body, names', body')
    ensures Follows(code, k + 1, code.NextIp(ip), names', body')
  {
    forall m0: State | m0.rip == code.address
      ensures MachineRun(code, m0, k + 1).Next? && MachineRun(code, m0, k + 1).state.rip == code.NextIp(ip)
      ensures NamesHold(Run(body', Entry(code.address, Get(m0.regs, RDI), Get(m0.regs, RSI))), names',
              MachineRun(code, m0, k + 1).state.regs)
    {
      FollowOne(code, k, ip, names, body, names', body', m0);
    }
  }

  lemma ReturnStep(code: Code, k: nat, ip: nat, names: Names, body: seq<Instr>, m0: State)
    requires Follows(code, k, ip, names, body) && code.Decodes(ip) && code.OpAt(ip).Ret? && RAX in names &&
             m0.rip == code.address
    ensures MachineRun(code, m0, k + 1).Returned?
    ensures Value(Linear(body, names[RAX]), code.address, Get(m0.regs, RDI), Get(m0.regs, RSI)) ==
            I64(Get(MachineRun(code, m0, k + 1).state.regs, RAX))
  {
    var m := MachineRun(code, m0, k).state;
    assert MachineRun(code, m0, k + 1) == MachineStep(code, m);
  }

  lemma PassStep(code: Code, passed: set<nat>, ip: nat)
    requires Passed(code, passed, ip) && code.Decodes(ip) && LinearOp(code.OpAt(ip))
    ensures Passed(code, passed + {ip}, code.NextIp(ip))
    ensures code.OpAt(ip).Ret? ==> Closed(Edges(code, Scalar(CALL_FREE)), passed + {ip})
  {
  }

  lemma PassedAll(code: Code, passed: set<nat>)
    requires Closed(Edges(code, Scalar(CALL_FREE)), passed) && code.address in passed
    requires forall x :: x in passed ==> code.Decodes(x) && LinearOp(code.OpAt(x))
    ensures forall ip :: Reached(code, Scalar(CALL_FREE), ip) ==> code.Decodes(ip) && LinearOp(code.OpAt(ip))
  {
    forall ip | Reached(code, Scalar(CALL_FREE), ip)
      ensures ip in passed
    {
      ClosedHoldsReachable(Edges(code, Scalar(CALL_FREE)), passed, code.address, ip);
    }
  }

  lemma LinearReturns(code: Code, k: nat, ip: nat, names: Names, body: seq<Instr>, passed: set<nat>)
    requires Progressing(code, k, ip, names, body, passed) && code.Decodes(ip) && code.OpAt(ip).Ret? && RAX in names
    ensures LinearExact(code, Linear(body, names[RAX]), k + 1)
  {
    assert Unfold(true);
    PassStep(code, passed, ip);
    PassedAll(code, passed + {ip});
    forall m0: State | m0.rip == code.address
      ensures MachineRun(code, m0, k + 1).Returned?
      ensures Value(Linear(body, names[RAX]), code.address, Get(m0.regs, RDI), Get(m0.regs, RSI)) ==
              I64(Get(MachineRun(code, m0, k + 1).state.regs, RAX))
    {
      ReturnStep(code, k, ip, names, body, m0);
    }
  }

  /** `plain`: the encodings this lifter takes, without prefixes, segments, operands on NOP or RET, or ENDBR64. */
  method LiftLinear(code: Code, plain: nat -> bool) returns (r: Result<Linear, LinearError>)
    requires code.Valid()
    ensures r.Success? <==> 1 <= |code.table| <= 4096 && LinearLiftable(code, plain, code.address, {RDI, RSI})
    ensures r.Success? ==> exists steps :: LinearExact(code, r.value, steps)
  {
    if |code.table| == 0 || |code.table| > 4096 {
      return Failure(LinearError.BadSize);
    }
    var names: Names, body: seq<Instr>, next: nat := Start(code.address), [], 0;
    var ip := code.address;
    ghost var passed: set<nat>, steps: nat := {}, 0;
    Begin(code);
    while ip < code.End()
      invariant code.address <= ip && AllOlder(code.address, next, names)
      invariant Progressing(code, steps, ip, names, body, passed)
      invariant LinearLiftable(code, plain, code.address, {RDI, RSI}) <==> LinearLiftable(code, plain, ip, names.Keys)
      decreases code.End() - ip
    {
      if code.At(ip).Invalid? {
        return Failure(LinearError.InvalidInstruction(ip));
      }
      if !code.Decodes(ip) || !plain(ip) {
        return Failure(LinearError.Unsupported(ip));
      }
      var op := code.OpAt(ip);
      if op.Ret? {
        var value := ReadRegister(names, RAX, ip);
        if value.Failure? {
          return Failure(value.error);
        }
        if code.NextIp(ip) < code.End() {
          return Failure(BytesAfterReturn);
        }
        LinearReturns(code, steps, ip, names, body, passed);
        return Success(Linear(body, value.value));
      }
      ghost var namesBefore, bodyBefore := names, body;
      var stepped;
      stepped, body, next := LinearStep(op, names, body, ip, code.address, next);
      if stepped.Failure? {
        return Failure(stepped.error);
      }
      names := stepped.value;
      ProgressStep(code, steps, ip, namesBefore, bodyBefore, names, body, passed);
      passed, steps := passed + {ip}, steps + 1;
      ip := code.NextIp(ip);
    }
    r := Failure(NoReturn);
  }

  /** The pass's invariant, folded. */
  ghost predicate Progressing(code: Code, k: nat, ip: nat, names: Names, body: seq<Instr>, passed: set<nat>) {
    forall b: bool {:trigger Unfold(b)} :: Unfold(b) ==> Follows(code, k, ip, names, body) && Passed(code, passed, ip)
  }

  lemma Begin(code: Code)
    ensures Start(code.address).Keys == {RDI, RSI} && AllOlder(code.address, 0, Start(code.address))
    ensures Progressing(code, 0, code.address, Start(code.address), [], {})
  {
  }

  lemma ProgressStep(code: Code, k: nat, ip: nat, names: Names, body: seq<Instr>, names': Names, body': seq<Instr>,
                     passed: set<nat>)
    requires Progressing(code, k, ip, names, body, passed) && code.Decodes(ip) && LinearOp(code.OpAt(ip)) &&
             !code.OpAt(ip).Ret?
    requires StepExact(code.OpAt(ip), names, body, names', body')
    ensures Progressing(code, k + 1, code.NextIp(ip), names', body', passed + {ip})
  {
    assert Unfold(true);
    FollowStep(code, k, ip, names, body, names', body');
    PassStep(code, passed, ip);
  }

  // ----- agreement with the control-flow lifter -----

  lemma LinearPushesNothing(code: Code, l: Linear, steps: nat, nodes: Nodes)
    requires LinearExact(code, l, steps) && NodesExact(code, Scalar(CALL_FREE), nodes)
    ensures forall ip :: ip in nodes ==> !nodes[ip].op.SaveFramePointer?
  {
    forall ip | ip in nodes
      ensures !nodes[ip].op.SaveFramePointer?
    {
      assert Reached(code, Scalar(CALL_FREE), ip) && LinearOp(code.OpAt(ip));
    }
  }

  lemma StraightLineIsSlotSafe(code: Code, l: Linear, steps: nat)
    requires LinearExact(code, l, steps)
    ensures SlotSafe(code)
  {
    forall nodes: Nodes, slots: seq<StackProof.StackSlot> | ScalarRecovered(code, CALL_FREE, nodes) &&
      SlotsAssigned(code, false, nodes, slots)
      ensures SlotsClean(nodes, slots, code.address)
    {
      LinearPushesNothing(code, l, steps, nodes);
      ClearSlotsAreClean(nodes, slots, code.address);
    }
  }

  /** On code both lifters accept, they return the same value for the same arguments. */
  lemma LiftersAgree(code: Code, l: Linear, steps: nat, prog: Program, m0: State)
    requires LinearExact(code, l, steps) && IsLift(code, prog) && m0.rip == code.address
    ensures SsaRun(prog, Arguments(m0), steps) == Finished(Value(l, code.address, Get(m0.regs, RDI), Get(m0.regs, RSI)))
  {
    StraightLineIsSlotSafe(code, l, steps);
    LiftedCodeRunsAlike(code, prog, m0, steps);
  }
}
