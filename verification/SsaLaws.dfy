/**
 What the emitted operations mean, said without the evaluator's own functions: LLVM's integer
 arithmetic modulo 2^64, its logical operations bit by bit, comparisons, conversions and exits.
 */
module SsaLaws {
  import opened Words
  import Semantics
  import opened Machine
  import opened Ssa
  import opened InstructionLaws

  /** x as a two's-complement number: the top bit counts -2^63. */
  function TwosComplement(x: Word): int { if BitSet(x, 63) then x - TWO64 else x }

  /** r is the 64-bit result of an LLVM operation. */
  ghost predicate Means(op: BinOp, x: Word, y: Word, r: Word) {
    match op
    case AddI => Computes(Semantics.Add, 64, x, y, r)
    case SubI => Computes(Semantics.Sub, 64, x, y, r)
    case MulI => exists q: nat :: x * y == q * TWO64 + r
    case AndI => forall k: nat :: k < 64 ==> (BitSet(r, k) <==> BitSet(x, k) && BitSet(y, k))
    case OrI => forall k: nat :: k < 64 ==> (BitSet(r, k) <==> BitSet(x, k) || BitSet(y, k))
    case XorI => forall k: nat :: k < 64 ==> (BitSet(r, k) <==> BitSet(x, k) != BitSet(y, k))
  }

  lemma LogicMeans(op: BinOp, x: Word, y: Word)
    requires op.AndI? || op.OrI? || op.XorI?
    ensures Means(op, x, y, Arith(op, x, y))
  {
    Pow2Facts();
    var bitOp := match op case AndI => BitAnd case OrI => BitOr case _ => BitXor;
    forall k: nat | k < 64
      ensures BitSet(Arith(op, x, y), k) == Combined(bitOp, BitSet(x, k), BitSet(y, k))
    {
      BitwiseAt(bitOp, 64, x, y, k);
    }
  }

  lemma SumMeans(op: BinOp, x: Word, y: Word)
    requires op.AddI? || op.SubI?
    ensures Means(op, x, y, Arith(op, x, y))
  {
    Pow2Facts();
    ModOnce(if op.AddI? then x + y else x - y, TWO64);
  }

  lemma ProductMeans(x: Word, y: Word)
    ensures Means(MulI, x, y, Arith(MulI, x, y))
  {
    var product := x * y;
    assert product == (product / TWO64) * TWO64 + product % TWO64;
  }

  /** Arithmetic and logic on words: sums, differences and products modulo 2^64, and, or and xor per bit. */
  lemma ArithMeans(op: BinOp, x: Word, y: Word)
    ensures Means(op, x, y, Arith(op, x, y))
  {
    if op.MulI? {
      ProductMeans(x, y);
    } else if op.AddI? || op.SubI? {
      SumMeans(op, x, y);
    } else {
      LogicMeans(op, x, y);
    }
  }

  /** Evaluating a binary operation on words gives its meaning. */
  lemma BinaryMeans(env: Env, op: BinOp, a: Operand, b: Operand, x: Word, y: Word)
    requires Operand64Of(env, a) == I64(x) && Operand64Of(env, b) == I64(y)
    ensures Eval(env, Binary(op, I64Type, a, b)).I64?
    ensures Means(op, x, y, Eval(env, Binary(op, I64Type, a, b)).word)
  {
    ArithMeans(op, x, y);
  }

  lemma SignedIsTwosComplement(x: Word)
    ensures Signed(W64, x) == TwosComplement(x)
  {
    Pow2Facts();
    TopBit(W64, x);
  }

  /** Comparisons of words: equality, unsigned order and two's-complement order. */
  lemma CompareMeans(env: Env, a: Operand, b: Operand, x: Word, y: Word)
    requires Operand64Of(env, a) == I64(x) && Operand64Of(env, b) == I64(y)
    ensures Eval(env, Compare(EqI, I64Type, a, b)) == I1(x == y)
    ensures Eval(env, Compare(NeI, I64Type, a, b)) == I1(!(x == y))
    ensures Eval(env, Compare(UltI, I64Type, a, b)) == I1(y - x > 0)
    ensures Eval(env, Compare(SltI, I64Type, a, b)) == I1(TwosComplement(x) < TwosComplement(y))
  {
    SignedIsTwosComplement(x);
    SignedIsTwosComplement(y);
  }

  /** Operations on single bits. */
  lemma BitMeans(env: Env, a: Operand, b: Operand, x: bool, y: bool)
    requires Operand1Of(env, a) == I1(x) && Operand1Of(env, b) == I1(y)
    ensures Eval(env, Binary(AndI, I1Type, a, b)) == I1(if x then y else false)
    ensures Eval(env, Binary(OrI, I1Type, a, b)) == I1(if x then true else y)
    ensures Eval(env, Binary(XorI, I1Type, a, b)) == I1(if x then !y else y)
    ensures Eval(env, Compare(EqI, I1Type, a, b)) == I1(if x then y else !y)
    ensures Eval(env, Compare(NeI, I1Type, a, b)) == I1(if x then !y else y)
  {
  }

  /** Truncation keeps the low half, and extension puts zeros above it. */
  lemma ConversionMeans(env: Env, a: Operand, x: Word, h: Word)
    requires h < TWO32
    ensures Operand64Of(env, a) == I64(x) ==>
              var half := Eval(env, TruncToI32(a));
              half.I32? && 0 <= half.half < TWO32 && (x - half.half) % TWO32 == 0
    ensures Operand32Of(env, a) == I32(h) ==> Eval(env, ZextFromI32(a)) == I64(h)
  {
    ModOnce(h, TWO32);
  }

  /** Constants are two's-complement words and the two truth values. */
  lemma ConstantMeans(env: Env, v: int)
    requires -TWO63 <= v < TWO64
    ensures Operand64Of(env, Const(v)) == I64(if v < 0 then v + TWO64 else v)
    ensures 0 <= v < TWO32 ==> Operand32Of(env, Const(v)) == I32(v)
    ensures Operand1Of(env, Operand.True) == I1(true) && Operand1Of(env, Operand.False) == I1(false)
  {
    ModOnce(v, TWO64);
    if 0 <= v < TWO32 {
      ModOnce(v, TWO32);
    }
  }

  /** A block leaves through its branch, the arm its condition picks, or a return of a word. */
  lemma ExitMeans(env: Env, c: Operand, taken: nat, other: nat, bit: bool, v: Operand, w: Word)
    requires Operand1Of(env, c) == I1(bit) && Operand64Of(env, v) == I64(w)
    ensures Leave(env, Branch(taken)) == Goto(taken)
    ensures bit ==> Leave(env, CondBranch(c, taken, other)) == Goto(taken)
    ensures !bit ==> Leave(env, CondBranch(c, taken, other)) == Goto(other)
    ensures Leave(env, Return(v)) == Returns(I64(w))
  {
  }
}
