/**
 The emitted program: LLVM blocks as an abstract syntax tree, one block per machine instruction,
 and their meaning. Evaluating anything unassigned or of the wrong type gives Undef.
 */
module Ssa {
  import opened Words
  import opened Machine
  import opened Fields

  /** The incoming and outgoing value of a field at an address, and numbered temporaries. */
  datatype Name = In(field: Field, ip: nat) | Out(field: Field, ip: nat) | Temp(ip: nat, index: nat)

  datatype Operand = Ref(name: Name) | Const(value: int) | False | True

  datatype Type = I64Type | I1Type

  datatype BinOp = AddI | SubI | MulI | AndI | OrI | XorI

  datatype Comparison = EqI | NeI | SltI | UltI

  datatype Rhs =
    | Binary(op: BinOp, ty: Type, a: Operand, b: Operand)
    | Compare(comparison: Comparison, ty: Type, a: Operand, b: Operand)
    | TruncToI32(a: Operand)
    | ZextFromI32(a: Operand)

  datatype Instr = Assign(name: Name, rhs: Rhs)

  datatype Terminator = Branch(target: nat) | CondBranch(cond: Operand, taken: nat, other: nat) | Return(value: Operand)

  datatype Label = Prologue | BlockAt(ip: nat)

  datatype PhiSource = FromValue(name: Name) | FromArgument(index: nat)

  datatype PhiArg = PhiArg(source: PhiSource, from: Label)

  /** Phis are keyed by the name they define; they all read the environment of the incoming edge. */
  datatype Block = Block(phis: map<Name, seq<PhiArg>>, body: seq<Instr>, terminator: Terminator)

  datatype Program = Program(entry: nat, blocks: map<nat, Block>)

  // ----- meaning -----

  datatype Val = I64(word: Word) | I32(half: int) | I1(bit: bool) | Undef

  type Env = map<Name, Val>

  function Look(env: Env, n: Name): Val {
    if n in env then env[n] else Undef
  }

  function Operand64Of(env: Env, o: Operand): Val {
    match o
    case Ref(n) => if Look(env, n).I64? then Look(env, n) else Undef
    case Const(v) => I64(Wrap(v))
    case _ => Undef
  }

  function Operand1Of(env: Env, o: Operand): Val {
    match o
    case Ref(n) => if Look(env, n).I1? then Look(env, n) else Undef
    case False => I1(false)
    case True => I1(true)
    case Const(_) => Undef
  }

  function Operand32Of(env: Env, o: Operand): Val {
    match o
    case Ref(n) => if Look(env, n).I32? then Look(env, n) else Undef
    case Const(v) => I32(Low32(v))
    case _ => Undef
  }

  function Arith(op: BinOp, x: Word, y: Word): Word {
    Pow2Facts();
    match op
    case AddI => Wrap(x + y)
    case SubI => Wrap(x - y)
    case MulI => Wrap(x * y)
    case AndI => Bitwise(BitAnd, 64, x, y)
    case OrI => Bitwise(BitOr, 64, x, y)
    case XorI => Bitwise(BitXor, 64, x, y)
  }

  function Logic(op: BinOp, x: bool, y: bool): Val {
    match op
    case AndI => I1(x && y)
    case OrI => I1(x || y)
    case XorI => I1(x != y)
    case _ => Undef
  }

  function Eval(env: Env, rhs: Rhs): Val {
    match rhs
    case Binary(op, I64Type, a, b) =>
      var x, y := Operand64Of(env, a), Operand64Of(env, b);
      if x.I64? && y.I64? then I64(Arith(op, x.word, y.word)) else Undef
    case Binary(op, I1Type, a, b) =>
      var x, y := Operand1Of(env, a), Operand1Of(env, b);
      if x.I1? && y.I1? then Logic(op, x.bit, y.bit) else Undef
    case Compare(c, I64Type, a, b) =>
      var x, y := Operand64Of(env, a), Operand64Of(env, b);
      if x.I64? && y.I64? then
        match c
        case EqI => I1(x.word == y.word)
        case NeI => I1(x.word != y.word)
        case SltI => I1(Signed(W64, x.word) < Signed(W64, y.word))
        case UltI => I1(x.word < y.word)
      else Undef
    case Compare(c, I1Type, a, b) =>
      var x, y := Operand1Of(env, a), Operand1Of(env, b);
      if x.I1? && y.I1? && c.EqI? then I1(x.bit == y.bit)
      else if x.I1? && y.I1? && c.NeI? then I1(x.bit != y.bit)
      else Undef
    case TruncToI32(a) =>
      var x := Operand64Of(env, a);
      if x.I64? then I32(Low32(x.word)) else Undef
    case ZextFromI32(a) =>
      var x := Operand32Of(env, a);
      if x.I32? then I64(Low32(x.half)) else Undef
  }

  /** The environment after a straight-line body. */
  function Run(body: seq<Instr>, env: Env): Env {
    if body == [] then env
    else
      var before := Run(body[..|body| - 1], env);
      var last := body[|body| - 1];
      before[last.name := Eval(before, last.rhs)]
  }

  datatype Exit = Goto(target: nat) | Returns(value: Val) | Wrong

  function Leave(env: Env, t: Terminator): Exit {
    match t
    case Branch(target) => Goto(target)
    case CondBranch(c, taken, other) =>
      var x := Operand1Of(env, c);
      if x.I1? then Goto(if x.bit then taken else other) else Wrong
    case Return(v) => Returns(Operand64Of(env, v))
  }

  /** The argument listed first for the edge taken. */
  function EvalPhi(env: Env, arguments: seq<Word>, phi: seq<PhiArg>, from: Label): Val {
    if phi == [] then Undef
    else if phi[0].from == from then
      match phi[0].source
      case FromValue(n) => Look(env, n)
      case FromArgument(i) => if i < |arguments| then I64(arguments[i]) else Undef
    else EvalPhi(env, arguments, phi[1..], from)
  }

  /** Entering a block evaluates all its phis at once. */
  function Enter(env: Env, arguments: seq<Word>, block: Block, from: Label): Env {
    env + map n | n in block.phis :: EvalPhi(env, arguments, block.phis[n], from)
  }

  /** A program stopped just after the phis of block `at`. */
  datatype Config = Config(at: nat, env: Env)

  datatype SsaResult = Running(config: Config) | Finished(value: Val) | Crashed

  function EnterBlock(prog: Program, arguments: seq<Word>, env: Env, target: nat, from: Label): SsaResult {
    if target in prog.blocks then Running(Config(target, Enter(env, arguments, prog.blocks[target], from)))
    else Crashed
  }

  function Start(prog: Program, arguments: seq<Word>): SsaResult {
    EnterBlock(prog, arguments, map[], prog.entry, Prologue)
  }

  function SsaStep(prog: Program, arguments: seq<Word>, c: Config): SsaResult {
    if c.at !in prog.blocks then Crashed
    else
      var block := prog.blocks[c.at];
      var env := Run(block.body, c.env);
      match Leave(env, block.terminator)
      case Goto(target) => EnterBlock(prog, arguments, env, target, BlockAt(c.at))
      case Returns(v) => Finished(v)
      case Wrong => Crashed
  }
}
