/**
 What each instruction of the machine does, said without the machine's own functions: sums modulo the
 width, logical operations bit by bit, flags from the operands' bits (Intel SDM volume 1 section
 3.4.3.1, volume 2), stores byte by byte, and where control goes next.
 */
module InstructionLaws {
  import opened Wrappers
  import opened Words
  import opened Memory
  import opened Semantics
  import opened Machine
  import opened Decode
  import opened Runs

  // ----- arithmetic -----

  function Bits(w: Width): nat { if w.W32? then 32 else 64 }

  /** r is the `bits`-bit result: a sum or difference modulo 2^bits, or one logical operation per bit. */
  ghost predicate Computes(kind: Alu, bits: nat, a: nat, b: nat, r: nat) {
    && r < Pow2(bits)
    && match kind
       case Add => r == a + b || r == a + b - Pow2(bits)
       case Sub => r == a - b || r == a - b + Pow2(bits)
       case And => forall k: nat :: k < bits ==> (BitSet(r, k) <==> BitSet(a, k) && BitSet(b, k))
       case Or => forall k: nat :: k < bits ==> (BitSet(r, k) <==> BitSet(a, k) || BitSet(b, k))
       case Xor => forall k: nat :: k < bits ==> (BitSet(r, k) <==> BitSet(a, k) != BitSet(b, k))
  }

  /** The four flags from the top bits: signed overflow is a result whose sign the operands' signs rule out. */
  predicate SetsFlags(kind: Alu, bits: nat, a: nat, b: nat, r: nat, f: Flags)
    requires bits > 0
  {
    var top := bits - 1;
    && f.zf == (r == 0)
    && f.sf == BitSet(r, top)
    && f.cf == (match kind
                case Add => a + b >= Pow2(bits)
                case Sub => a < b
                case _ => false)
    && f.of == (match kind
                case Add => BitSet(a, top) == BitSet(b, top) && BitSet(r, top) != BitSet(a, top)
                case Sub => BitSet(a, top) != BitSet(b, top) && BitSet(r, top) != BitSet(a, top)
                case _ => false)
  }

  lemma AluComputes(w: Width, kind: Alu, a: nat, b: nat)
    requires a < Pow2(Bits(w)) && b < Pow2(Bits(w))
    ensures Computes(kind, Bits(w), a, b, AluValue(w, kind, a, b))
  {
    Pow2Facts();
    if kind.Add? || kind.Sub? {
      SumComputes(w, kind, a, b);
    } else {
      LogicComputes(w, kind, a, b);
    }
  }

  lemma SumComputes(w: Width, kind: Alu, a: nat, b: nat)
    requires kind.Add? || kind.Sub?
    requires a < Pow2(Bits(w)) && b < Pow2(Bits(w))
    ensures Computes(kind, Bits(w), a, b, AluValue(w, kind, a, b))
  {
    Pow2Facts();
    ModOnce(if kind.Add? then a + b else a - b, Modulus(w));
  }

  /** One modulus is added or taken off at most. */
  lemma ModOnce(x: int, m: int)
    requires m > 0 && -m < x < 2 * m
    ensures x % m == if x < 0 then x + m else if x < m then x else x - m
  {
    var q, r := x / m, x % m;
    assert x == m * q + r;
    if q >= 2 {
      TimesAtLeast(m, q, 2);
    } else if q <= -2 {
      TimesAtLeast(m, -2, q);
    }
  }

  lemma TimesAtLeast(m: int, p: int, q: int)
    requires m > 0 && p >= q
    ensures m * p >= m * q
  {
  }

  lemma LogicComputes(w: Width, kind: Alu, a: nat, b: nat)
    requires kind.And? || kind.Or? || kind.Xor?
    ensures Computes(kind, Bits(w), a, b, AluValue(w, kind, a, b))
  {
    Pow2Facts();
    forall k: nat | k < Bits(w)
      ensures BitSet(AluValue(w, kind, a, b), k) ==
              Combined(BitOpOf(kind), BitSet(a, k), BitSet(b, k))
    {
      BitwiseAt(BitOpOf(kind), Bits(w), a, b, k);
    }
  }

  /** The top bit is the sign. */
  lemma TopBit(w: Width, v: nat)
    requires v < Pow2(Bits(w))
    ensures BitSet(v, Bits(w) - 1) <==> v >= Half(w)
  {
    Pow2Facts();
    HalfBit(v, Half(w));
  }

  lemma HalfBit(v: nat, h: nat)
    requires 0 < h && v < 2 * h
    ensures (v / h) % 2 == 1 <==> v >= h
  {
    DivModUnique(v, h, if v >= h then 1 else 0, if v >= h then v - h else v);
  }

  lemma LogicSetsFlags(w: Width, kind: Alu, a: nat, b: nat)
    requires kind.And? || kind.Or? || kind.Xor?
    ensures SetsFlags(kind, Bits(w), a, b, AluValue(w, kind, a, b), AluFlags(w, kind, a, b))
  {
    Pow2Facts();
    TopBit(w, AluValue(w, kind, a, b));
  }

  lemma AddSetsFlags(w: Width, a: nat, b: nat)
    requires a < Modulus(w) && b < Modulus(w) && Modulus(w) == Pow2(Bits(w))
    ensures SetsFlags(Add, Bits(w), a, b, AluValue(w, Add, a, b), AluFlags(w, Add, a, b))
  {
    ModOnce(a + b, Modulus(w));
    TopBit(w, a);
    TopBit(w, b);
    TopBit(w, AluValue(w, Add, a, b));
  }

  lemma SubSetsFlags(w: Width, a: nat, b: nat)
    requires a < Modulus(w) && b < Modulus(w) && Modulus(w) == Pow2(Bits(w))
    ensures SetsFlags(Sub, Bits(w), a, b, AluValue(w, Sub, a, b), AluFlags(w, Sub, a, b))
  {
    ModOnce(a - b, Modulus(w));
    TopBit(w, a);
    TopBit(w, b);
    TopBit(w, AluValue(w, Sub, a, b));
  }

  lemma AluSetsFlags(w: Width, kind: Alu, a: nat, b: nat)
    requires a < Pow2(Bits(w)) && b < Pow2(Bits(w))
    ensures SetsFlags(kind, Bits(w), a, b, AluValue(w, kind, a, b), AluFlags(w, kind, a, b))
  {
    Pow2Facts();
    if kind.Add? {
      AddSetsFlags(w, a, b);
    } else if kind.Sub? {
      SubSetsFlags(w, a, b);
    } else {
      LogicSetsFlags(w, kind, a, b);
    }
  }

  lemma {:induction false} SameBits(bits: nat, v: nat, v': nat)
    requires v < Pow2(bits) && v' < Pow2(bits)
    requires forall k: nat :: k < bits ==> BitSet(v, k) == BitSet(v', k)
    ensures v == v'
  {
    if bits > 0 {
      forall k: nat | k < bits - 1
        ensures BitSet(v / 2, k) == BitSet(v' / 2, k)
      {
        HalvesFirst(v, k + 1);
        HalvesFirst(v', k + 1);
      }
      SameBits(bits - 1, v / 2, v' / 2);
      assert BitSet(v, 0) == BitSet(v', 0);
      LowBit(v);
      LowBit(v');
    }
  }

  /** The arithmetic law leaves one result. */
  lemma ComputesOnce(kind: Alu, bits: nat, a: nat, b: nat, r: nat, r': nat)
    requires Computes(kind, bits, a, b, r) && Computes(kind, bits, a, b, r')
    ensures r == r'
  {
    if kind.And? || kind.Or? || kind.Xor? {
      SameBits(bits, r, r');
    }
  }

  // ----- conditions -----

  /** After an addition the signed conditions compare the exact sum with zero. */
  lemma ConditionAfterSum(w: Width, a: nat, b: nat, c: Condition)
    requires a < Modulus(w) && b < Modulus(w)
    ensures var exact, r := Signed(w, a) + Signed(w, b), AluValue(w, Add, a, b);
            Holds(c, AluFlags(w, Add, a, b)) <==>
            match c
            case E => r == 0
            case Ne => r != 0
            case B => a + b >= Modulus(w)
            case Ae => a + b < Modulus(w)
            case Be => r == 0 || a + b >= Modulus(w)
            case A => r != 0 && a + b < Modulus(w)
            case L => exact < 0
            case Ge => exact >= 0
            case Le => r == 0 || exact < 0
            case G => r != 0 && exact >= 0
            case S => Signed(w, r) < 0
            case Ns => Signed(w, r) >= 0
            case O => Signed(w, r) != exact
            case No => Signed(w, r) == exact
  {
    ModOnce(a + b, Modulus(w));
  }

  /** After a logical operation carry and overflow are clear, and the conditions compare the result with zero. */
  lemma ConditionAfterLogic(w: Width, kind: Alu, a: nat, b: nat, c: Condition)
    requires kind.And? || kind.Or? || kind.Xor?
    ensures var r := AluValue(w, kind, a, b);
            Holds(c, AluFlags(w, kind, a, b)) <==>
            match c
            case E => r == 0
            case Ne => r != 0
            case B => false
            case Ae => true
            case Be => r == 0
            case A => r != 0
            case L => Signed(w, r) < 0
            case Ge => Signed(w, r) >= 0
            case Le => Signed(w, r) <= 0
            case G => Signed(w, r) > 0
            case S => Signed(w, r) < 0
            case Ns => Signed(w, r) >= 0
            case O => false
            case No => true
  {
  }

  // ----- instructions -----

  function Source64(m: State, v: Value): Word {
    match v
    case RegisterValue(r) => Get(m.regs, r)
    case Immediate(i) => if i < 0 then i + TWO64 else i
  }

  function Source32(m: State, v: Value32): Word {
    match v
    case Register32(r) => Get(m.regs, r) % TWO32
    case Immediate32(i) => i
  }

  function IndexPart(m: State, r: Option<Register>): int {
    if r.Some? then Get(m.regs, r.value) else 0
  }

  /** The registers listed have these values afterwards, all others their old ones. */
  ghost predicate Registers(m: State, m': State, news: map<Register, int>) {
    forall r: Register :: Get(m'.regs, r) == if r in news then news[r] else Get(m.regs, r)
  }

  /** Byte i of v is at address + i, least significant first, and every other byte is as before. */
  ghost predicate Stores(mem: Mem, mem': Mem, address: int, n: nat, v: nat) {
    && (forall i: nat :: i < n ==> At(mem', address + i) == ByteOf(v, i))
    && (forall x: Word :: (x - address) % TWO64 >= n ==> At(mem', x) == At(mem, x))
  }

  /** An operation on operands a and b sets these flags. */
  ghost predicate Compares(kind: Alu, bits: nat, a: nat, b: nat, f: Flags)
    requires bits > 0
  {
    exists r: nat :: Computes(kind, bits, a, b, r) && SetsFlags(kind, bits, a, b, r, f)
  }

  ghost predicate Same(m: State, m': State, registers: bool, flags: bool, mem: bool) {
    && (registers ==> Registers(m, m', map[]))
    && (flags ==> m'.flags == m.flags)
    && (mem ==> m'.mem == m.mem)
  }

  /** A value goes into a register and nothing else changes. */
  ghost predicate Moves(m: State, m': State, dst: Register, v: int) {
    Registers(m, m', map[dst := v]) && Same(m, m', false, true, true)
  }

  /** A register gets the result of an operation, the flags follow it, and memory stays. */
  ghost predicate Operates(m: State, m': State, dst: Register, kind: Alu, bits: nat, a: Word, b: Word)
    requires bits > 0
  {
    var r := Get(m'.regs, dst);
    && Computes(kind, bits, a, b, r) && SetsFlags(kind, bits, a, b, r, m'.flags)
    && Registers(m, m', map[dst := r]) && m'.mem == m.mem
  }

  /** The same on the four bytes at an address. */
  ghost predicate OperatesAt(m: State, m': State, address: int, kind: Alu, b: Word) {
    var a, r := Load(m.mem, address, 4), Load(m'.mem, address, 4);
    && Computes(kind, 32, a, b, r) && SetsFlags(kind, 32, a, b, r, m'.flags)
    && Stores(m.mem, m'.mem, address, 4, r) && Registers(m, m', map[])
  }

  /** A comparison only sets flags. */
  ghost predicate Tests(m: State, m': State, kind: Alu, bits: nat, a: nat, b: nat)
    requires bits > 0
  {
    Compares(kind, bits, a, b, m'.flags) && Same(m, m', true, false, true)
  }

  ghost predicate Writes(m: State, m': State, address: int, n: nat, v: Word) {
    Stores(m.mem, m'.mem, address, n, v) && Same(m, m', true, true, false)
  }

  /** RBP is loaded from an address and RSP is left just above it. */
  ghost predicate Pops(m: State, m': State, address: Word) {
    && Registers(m, m', map[RSP := (address + 8) % TWO64, RBP := Load(m.mem, address, 8)])
    && Same(m, m', false, true, true)
  }

  function Base(m: State, b: Register, displacement: int): int { Get(m.regs, b) + displacement }

  /** The data effect of the instructions without a role in the frame. */
  ghost predicate ExecutesScalar(op: Op, m: State, m': State) {
    match op
    case Mov(dst, src) => Moves(m, m', dst, Source64(m, src))
    case Mov32(dst, src) => Moves(m, m', dst, Source32(m, src))
    case LoadStack64(dst, b, d) => Moves(m, m', dst, Load(m.mem, Base(m, b, d), 8))
    case LoadStack32(dst, b, d) => Moves(m, m', dst, Load(m.mem, Base(m, b, d), 4))
    case StoreStack64(b, d, src) => Writes(m, m', Base(m, b, d), 8, Get(m.regs, src))
    case StoreStack32(b, d, src) => Writes(m, m', Base(m, b, d), 4, Source32(m, src))
    case Lea(dst, b, index, scale, d) =>
      Moves(m, m', dst, (IndexPart(m, b) + IndexPart(m, index) * scale + d) % TWO64)
    case Alu(kind, dst, src) => Operates(m, m', dst, kind, 64, Get(m.regs, dst), Source64(m, src))
    case Alu32(kind, dst, src) => Operates(m, m', dst, kind, 32, Get(m.regs, dst) % TWO32, Source32(m, src))
    case AluStack32(kind, b, d, src) => OperatesAt(m, m', Base(m, b, d), kind, Source32(m, src))
    case Cmp(lhs, rhs) => Tests(m, m', Sub, 64, Get(m.regs, lhs), Source64(m, rhs))
    case Cmp32(lhs, rhs) => Tests(m, m', Sub, 32, Get(m.regs, lhs) % TWO32, Source32(m, rhs))
    case CmpRegStack32(lhs, b, d) => Tests(m, m', Sub, 32, Get(m.regs, lhs) % TWO32, Load(m.mem, Base(m, b, d), 4))
    case CmpStack32(b, d, rhs) => Tests(m, m', Sub, 32, Load(m.mem, Base(m, b, d), 4), Source32(m, rhs))
    case Test(lhs, rhs) => Tests(m, m', And, 64, Get(m.regs, lhs), Source64(m, rhs))
    case Jcc(_) => Same(m, m', true, true, true)
    case Jmp => Same(m, m', true, true, true)
    case Nop => Same(m, m', true, true, true)
    case _ => true
  }

  /** The data effect of the instructions that move RSP or RBP. */
  ghost predicate ExecutesFrame(op: Op, m: State, m': State) {
    var rsp, rbp := Get(m.regs, RSP), Get(m.regs, RBP);
    match op
    case SaveFramePointer =>
      && Registers(m, m', map[RSP := (rsp - 8) % TWO64]) && Stores(m.mem, m'.mem, rsp - 8, 8, rbp)
      && m'.flags == m.flags
    case RestoreFramePointer => Pops(m, m', rsp)
    case SetFramePointer => Moves(m, m', RBP, rsp)
    case RestoreStackPointerFromFrame => Moves(m, m', RSP, rbp)
    case AdjustStack(kind, amount) => Operates(m, m', RSP, kind, 64, rsp, Source64(m, Immediate(amount)))
    case LeaveFrame => Pops(m, m', rbp)
    case Ret => Moves(m, m', RSP, (rsp + 8) % TWO64)
    case _ => true
  }

  /** The instructions this machine has none of: general memory, other pushes and pops, and calls. */
  predicate Outside(op: Op) {
    match op
    case LoadMemory64(_, _) => true
    case LoadMemory32(_, _) => true
    case StoreMemory64(_, _) => true
    case StoreMemory32(_, _) => true
    case AluRegMemory64(_, _, _) => true
    case SaveRegister(_) => true
    case RestoreRegister(_) => true
    case CallDirect(_) => true
    case _ => false
  }

  lemma StoreStores(mem: Mem, address: int, n: nat, v: nat)
    requires n <= 8
    ensures Stores(mem, Store(mem, address, n, v), address, n, v)
  {
    var mem' := Store(mem, address, n, v);
    forall i: nat | i < n
      ensures At(mem', address + i) == ByteOf(v, i)
    {
      StoreByte(mem, address, n, v, address + i);
    }
    forall x: Word | (x - address) % TWO64 >= n
      ensures At(mem', x) == At(mem, x)
    {
      WrapSmall(x);
      forall y | address <= y < address + n
        ensures Wrap(y) != Wrap(x)
      {
        if Wrap(y) == x {
          Distance(address, y, x);
        }
      }
      StoreFrame(mem, address, n, v, x);
    }
  }

  lemma Distance(address: int, y: int, x: Word)
    requires Wrap(y) == x && 0 <= y - address < TWO64
    ensures (x - address) % TWO64 == y - address
  {
    WrapAdd(y, 0 - address);
    WrapSmall(y - address);
  }

  lemma Sources(m: State, v: Value, v32: Value32)
    ensures Operand64(m.regs, v) == Source64(m, v)
    ensures Operand32(m.regs, v32) == Source32(m, v32) < TWO32
  {
    if v.Immediate? {
      ModOnce(v.value, TWO64);
    }
  }

  /** The machine's 64-bit and 32-bit operations obey the arithmetic laws. */
  lemma AluLaws(w: Width, kind: Alu, a: Word, b: Word)
    requires w == W32 ==> a < TWO32 && b < TWO32
    ensures Computes(kind, Bits(w), a, b, AluValue(w, kind, a, b))
    ensures SetsFlags(kind, Bits(w), a, b, AluValue(w, kind, a, b), AluFlags(w, kind, a, b))
    ensures Compares(kind, Bits(w), a, b, AluFlags(w, kind, a, b))
  {
    Pow2Facts();
    AluComputes(w, kind, a, b);
    AluSetsFlags(w, kind, a, b);
  }

  lemma LoadIsWord(mem: Mem, a: int)
    ensures Load(mem, a, 4) < TWO32 && Load(mem, a, 8) < TWO64
  {
    LoadBound(mem, a, 4);
    LoadBound(mem, a, 8);
    Pow256Facts();
  }

  lemma Moved(m: State, m': State, dst: Register, v: Word)
    requires m' == m.(regs := m.regs[dst := v])
    ensures Moves(m, m', dst, v)
  {
  }

  lemma Operated(m: State, m': State, dst: Register, w: Width, kind: Alu, a: Word, b: Word)
    requires w == W32 ==> a < TWO32 && b < TWO32
    requires m'.regs == m.regs[dst := AluValue(w, kind, a, b)] && m'.flags == AluFlags(w, kind, a, b) && m'.mem == m.mem
    ensures Operates(m, m', dst, kind, Bits(w), a, b)
  {
    AluLaws(w, kind, a, b);
    assert Get(m'.regs, dst) == AluValue(w, kind, a, b);
    assert Registers(m, m', map[dst := Get(m'.regs, dst)]);
  }

  lemma Tested(m: State, m': State, w: Width, kind: Alu, a: Word, b: Word)
    requires w == W32 ==> a < TWO32 && b < TWO32
    requires m' == m.(flags := AluFlags(w, kind, a, b))
    ensures Tests(m, m', kind, Bits(w), a, b)
  {
    AluLaws(w, kind, a, b);
  }

  lemma Written(m: State, m': State, address: int, n: nat, v: Word)
    requires n <= 8 && m' == m.(mem := Store(m.mem, address, n, v))
    ensures Writes(m, m', address, n, v)
  {
    StoreStores(m.mem, address, n, v);
  }

  lemma OperatedAt(m: State, m': State, address: int, kind: Alu, b: Word)
    requires b < TWO32 && Load(m.mem, address, 4) < TWO32
    requires m' == m.(mem := Store(m.mem, address, 4, AluValue(W32, kind, Load(m.mem, address, 4), b)),
                      flags := AluFlags(W32, kind, Load(m.mem, address, 4), b))
    ensures OperatesAt(m, m', address, kind, b)
  {
    var a: Word := Load(m.mem, address, 4);
    var r := AluValue(W32, kind, a, b);
    AluLaws(W32, kind, a, b);
    StoreStores(m.mem, address, 4, r);
    StoredHalf(m.mem, address, r);
  }

  lemma StoredHalf(mem: Mem, address: int, r: Word)
    requires r < TWO32
    ensures Load(Store(mem, address, 4, r), address, 4) == r
  {
    Pow256Facts();
    LoadStored(mem, address, 4, r);
  }

  lemma MoveExecutes(op: Op, m: State)
    requires op.Mov? || op.Mov32?
    ensures ExecutesScalar(op, m, Effect(op, m))
  {
    match op
    case Mov(dst, src) =>
      Sources(m, src, Immediate32(0));
      Moved(m, Effect(op, m), dst, Source64(m, src));
    case Mov32(dst, src) =>
      Sources(m, Immediate(0), src);
      Moved(m, Effect(op, m), dst, Source32(m, src));
  }

  lemma LeaExecutes(op: Op, m: State)
    requires op.Lea?
    ensures ExecutesScalar(op, m, Effect(op, m))
  {
    var at := IndexPart(m, op.leaBase) + IndexPart(m, op.index) * op.scale + op.displacement;
    Moved(m, Effect(op, m), op.dst, at % TWO64);
  }

  lemma LoadEffect64(dst: Gpr, b: FrameBase, d: Int64, m: State)
    ensures Effect(LoadStack64(dst, b, d), m) == m.(regs := m.regs[dst := Load(m.mem, Base(m, b, d), 8) as Word])
  {
    LoadIsWord(m.mem, Base(m, b, d));
  }

  lemma LoadEffect32(dst: Gpr, b: FrameBase, d: Int64, m: State)
    ensures Effect(LoadStack32(dst, b, d), m) == m.(regs := m.regs[dst := Load(m.mem, Base(m, b, d), 4) as Word])
  {
    LoadIsWord(m.mem, Base(m, b, d));
    ModOnce(Load(m.mem, Base(m, b, d), 4), TWO32);
  }

  lemma StoreEffect64(b: FrameBase, d: Int64, src: Gpr, m: State)
    ensures Effect(StoreStack64(b, d, src), m) == m.(mem := Store(m.mem, Base(m, b, d), 8, Get(m.regs, src)))
  {
  }

  lemma StoreEffect32(b: FrameBase, d: Int64, src: Value32, m: State)
    ensures Effect(StoreStack32(b, d, src), m) == m.(mem := Store(m.mem, Base(m, b, d), 4, Operand32(m.regs, src)))
  {
  }

  lemma CompareEffect(lhs: Gpr, b: FrameBase, d: Int64, m: State)
    ensures Load(m.mem, Base(m, b, d), 4) < TWO32
    ensures Effect(CmpRegStack32(lhs, b, d), m) ==
            m.(flags := AluFlags(W32, Sub, Low32(Get(m.regs, lhs)), Load(m.mem, Base(m, b, d), 4)))
  {
    LoadIsWord(m.mem, Base(m, b, d));
    ModOnce(Load(m.mem, Base(m, b, d), 4), TWO32);
  }

  lemma CompareHeldEffect(b: FrameBase, d: Int64, rhs: Value32, m: State)
    ensures Load(m.mem, Base(m, b, d), 4) < TWO32
    ensures Effect(CmpStack32(b, d, rhs), m) ==
            m.(flags := AluFlags(W32, Sub, Load(m.mem, Base(m, b, d), 4), Operand32(m.regs, rhs)))
  {
    LoadIsWord(m.mem, Base(m, b, d));
    ModOnce(Load(m.mem, Base(m, b, d), 4), TWO32);
  }

  lemma LoadExecutes(op: Op, m: State)
    requires op.LoadStack64? || op.LoadStack32?
    ensures ExecutesScalar(op, m, Effect(op, m))
  {
    var at := Base(m, op.base, op.displacement);
    LoadIsWord(m.mem, at);
    if op.LoadStack64? {
      LoadEffect64(op.dst, op.base, op.displacement, m);
      Moved(m, Effect(op, m), op.dst, Load(m.mem, at, 8));
    } else {
      LoadEffect32(op.dst, op.base, op.displacement, m);
      Moved(m, Effect(op, m), op.dst, Load(m.mem, at, 4));
    }
  }

  lemma StoreExecutes(op: Op, m: State)
    requires op.StoreStack64? || op.StoreStack32?
    ensures ExecutesScalar(op, m, Effect(op, m))
  {
    var at := Base(m, op.base, op.displacement);
    match op
    case StoreStack64(b, d, src) =>
      StoreEffect64(b, d, src, m);
      Written(m, Effect(op, m), at, 8, Get(m.regs, src));
    case StoreStack32(b, d, src) =>
      StoreEffect32(b, d, src, m);
      Sources(m, Immediate(0), src);
      Written(m, Effect(op, m), at, 4, Source32(m, src));
  }

  lemma AluExecutes(op: Op, m: State)
    requires op.Alu? || op.Alu32?
    ensures ExecutesScalar(op, m, Effect(op, m))
  {
    match op
    case Alu(kind, dst, src) =>
      Sources(m, src, Immediate32(0));
      Operated(m, Effect(op, m), dst, W64, kind, Get(m.regs, dst), Source64(m, src));
    case Alu32(kind, dst, src) =>
      Sources(m, Immediate(0), src);
      Operated(m, Effect(op, m), dst, W32, kind, Low32(Get(m.regs, dst)), Source32(m, src));
  }

  lemma StackAluExecutes(op: Op, m: State)
    requires op.AluStack32?
    ensures ExecutesScalar(op, m, Effect(op, m))
  {
    var at := Base(m, op.base, op.displacement);
    Sources(m, Immediate(0), op.src32);
    LoadIsWord(m.mem, at);
    ModOnce(Load(m.mem, at, 4), TWO32);
    OperatedAt(m, Effect(op, m), at, op.kind, Source32(m, op.src32));
  }

  lemma CompareExecutes(op: Op, m: State)
    requires op.Cmp? || op.Cmp32? || op.Test?
    ensures ExecutesScalar(op, m, Effect(op, m))
  {
    match op
    case Cmp(lhs, rhs) =>
      Sources(m, rhs, Immediate32(0));
      Tested(m, Effect(op, m), W64, Sub, Get(m.regs, lhs), Source64(m, rhs));
    case Test(lhs, rhs) =>
      Sources(m, rhs, Immediate32(0));
      Tested(m, Effect(op, m), W64, And, Get(m.regs, lhs), Source64(m, rhs));
    case Cmp32(lhs, rhs) =>
      Sources(m, Immediate(0), rhs);
      Tested(m, Effect(op, m), W32, Sub, Low32(Get(m.regs, lhs)), Source32(m, rhs));
  }

  lemma StackCompareExecutes(op: Op, m: State)
    requires op.CmpRegStack32? || op.CmpStack32?
    ensures ExecutesScalar(op, m, Effect(op, m))
  {
    var held := Load(m.mem, Base(m, op.base, op.displacement), 4);
    match op
    case CmpRegStack32(lhs, b, d) =>
      CompareEffect(lhs, b, d, m);
      Tested(m, Effect(op, m), W32, Sub, Low32(Get(m.regs, lhs)), held);
    case CmpStack32(b, d, rhs) =>
      CompareHeldEffect(b, d, rhs, m);
      Sources(m, Immediate(0), rhs);
      Tested(m, Effect(op, m), W32, Sub, held, Source32(m, rhs));
  }

  lemma ScalarExecutes(op: Op, m: State)
    ensures ExecutesScalar(op, m, Effect(op, m))
  {
    if op.Mov? || op.Mov32? {
      MoveExecutes(op, m);
    } else if op.Lea? {
      LeaExecutes(op, m);
    } else if op.LoadStack64? || op.LoadStack32? {
      LoadExecutes(op, m);
    } else if op.StoreStack64? || op.StoreStack32? {
      StoreExecutes(op, m);
    } else if op.Alu? || op.Alu32? {
      AluExecutes(op, m);
    } else if op.AluStack32? {
      StackAluExecutes(op, m);
    } else if op.Cmp? || op.Cmp32? || op.Test? {
      CompareExecutes(op, m);
    } else if op.CmpRegStack32? || op.CmpStack32? {
      StackCompareExecutes(op, m);
    }
  }

  lemma Popped(m: State, at: Word)
    ensures Pops(m, PopRbp(m, at), at)
  {
    LoadIsWord(m.mem, at);
    ModOnce(Load(m.mem, at, 8), TWO64);
  }

  lemma PushEffect(m: State)
    ensures Effect(SaveFramePointer, m) ==
            m.(regs := m.regs[RSP := Wrap(Get(m.regs, RSP) - 8)],
               mem := Store(m.mem, Get(m.regs, RSP) - 8, 8, Get(m.regs, RBP)))
  {
  }

  lemma Pushed(m: State, m': State, rsp: Word, rbp: Word)
    requires rsp == Get(m.regs, RSP) && rbp == Get(m.regs, RBP)
    requires m' == m.(regs := m.regs[RSP := (rsp - 8) % TWO64], mem := Store(m.mem, rsp - 8, 8, rbp))
    ensures ExecutesFrame(SaveFramePointer, m, m')
  {
    StoreStores(m.mem, rsp - 8, 8, rbp);
    assert Registers(m, m', map[RSP := (rsp - 8) % TWO64]);
  }

  lemma FrameExecutes(op: Op, m: State)
    ensures ExecutesFrame(op, m, Effect(op, m))
  {
    var rsp, rbp := Get(m.regs, RSP), Get(m.regs, RBP);
    match op
    case SaveFramePointer =>
      PushEffect(m);
      Pushed(m, Effect(op, m), rsp, rbp);
    case RestoreFramePointer => Popped(m, rsp);
    case LeaveFrame => Popped(m, rbp);
    case SetFramePointer => Moved(m, Effect(op, m), RBP, rsp);
    case RestoreStackPointerFromFrame => Moved(m, Effect(op, m), RSP, rbp);
    case AdjustStack(kind, amount) =>
      Sources(m, Immediate(amount), Immediate32(0));
      Operated(m, Effect(op, m), RSP, W64, kind, rsp, Source64(m, Immediate(amount)));
    case Ret => Moved(m, Effect(op, m), RSP, (rsp + 8) % TWO64);
    case _ =>
  }

  /** Where control goes, and what the instruction did; a return leaves through the word RSP points at. */
  ghost predicate Steps(code: Code, m: State, r: StepResult)
    requires code.Decodes(m.rip)
  {
    var op := code.OpAt(m.rip);
    if Outside(op) then r == Stuck
    else if op.Ret? then
      && r.Returned? && ExecutesScalar(op, m, r.state) && ExecutesFrame(op, m, r.state)
      && r.state.rip == Load(m.mem, Get(m.regs, RSP), 8)
    else
      && r.Next? && ExecutesScalar(op, m, r.state) && ExecutesFrame(op, m, r.state)
      && r.state.rip == (if op.Jmp? || (op.Jcc? && Holds(op.condition, m.flags)) then code.At(m.rip).target
                         else m.rip + code.At(m.rip).length)
  }

  /** Every instruction of the machine does what the laws say, and it has all but those outside. */
  lemma MachineObeysLaws(code: Code, m: State)
    requires code.Decodes(m.rip)
    ensures Steps(code, m, MachineStep(code, m))
  {
    StepShape(code, m);
    match MachineStep(code, m)
    case Next(m') => Leaves(code.OpAt(m.rip), m, m');
    case Returned(m') => Leaves(code.OpAt(m.rip), m, m');
    case Stuck =>
  }

  lemma StepShape(code: Code, m: State)
    requires code.Decodes(m.rip)
    ensures var op, r := code.OpAt(m.rip), MachineStep(code, m);
            if Outside(op) then r == Stuck
            else if op.Ret? then
              r.Returned? && r.state == Effect(op, m).(rip := Load(m.mem, Get(m.regs, RSP), 8))
            else
              r.Next? && r.state == Effect(op, m).(rip :=
                if op.Jmp? || (op.Jcc? && Holds(op.condition, m.flags)) then code.At(m.rip).target
                else m.rip + code.At(m.rip).length)
  {
  }

  lemma Leaves(op: Op, m: State, m': State)
    requires m' == Effect(op, m).(rip := m'.rip)
    ensures ExecutesScalar(op, m, m') && ExecutesFrame(op, m, m')
  {
    ScalarExecutes(op, m);
    FrameExecutes(op, m);
    RipIrrelevant(op, m, Effect(op, m), m');
  }

  lemma RipIrrelevant(op: Op, m: State, after: State, m': State)
    requires ExecutesScalar(op, m, after) && ExecutesFrame(op, m, after) && m' == after.(rip := m'.rip)
    ensures ExecutesScalar(op, m, m') && ExecutesFrame(op, m, m')
  {
  }
}
