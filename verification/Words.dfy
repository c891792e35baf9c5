/** Machine integers: 64-bit words as integers modulo 2^64, and bitwise operations defined bit by bit. */
module Words {

  const TWO31: int := 0x8000_0000
  const TWO32: int := 0x1_0000_0000
  const TWO63: int := 0x8000_0000_0000_0000
  const TWO64: int := 0x1_0000_0000_0000_0000

  type Word = w: int | 0 <= w < 0x1_0000_0000_0000_0000

  /** The 64-bit word an integer denotes (two's complement for negative ones). */
  function Wrap(x: int): Word {
    x % TWO64
  }

  /** The low half of a word. */
  function Low32(x: int): (r: Word)
    ensures 0 <= r < TWO32
  {
    x % TWO32
  }

  predicate InI64(x: int) {
    -0x8000_0000_0000_0000 <= x < 0x8000_0000_0000_0000
  }

  lemma WrapAdd(a: int, b: int)
    ensures Wrap(Wrap(a) + b) == Wrap(a + b)
    ensures Wrap(a + Wrap(b)) == Wrap(a + b)
  {
  }

  lemma WrapSub(a: int, b: int)
    ensures Wrap(a - Wrap(b)) == Wrap(a - b)
  {
  }

  lemma WrapSmall(w: Word)
    ensures Wrap(w) == w
  {
  }

  /** Two integers less than 2^64 apart that denote the same word are equal. */
  lemma WrapInjective(base: int, a: int, b: int)
    requires -TWO63 <= a < TWO63 && -TWO63 <= b < TWO63
    requires Wrap(base + a) == Wrap(base + b)
    ensures a == b
  {
  }

  // ----- bitwise operations -----

  datatype BitOp = BitAnd | BitOr | BitXor

  function Bit(op: BitOp, x: nat, y: nat): (r: nat)
    requires x < 2 && y < 2
    ensures r < 2
  {
    match op
    case BitAnd => if x == 1 && y == 1 then 1 else 0
    case BitOr => if x == 1 || y == 1 then 1 else 0
    case BitXor => if x == y then 0 else 1
  }

  function Pow2(k: nat): (r: nat)
    ensures r >= 1
  {
    if k == 0 then 1 else 2 * Pow2(k - 1)
  }

  /** The operation applied to each of the low `width` bits. */
  function Bitwise(op: BitOp, width: nat, a: nat, b: nat): (r: nat)
    ensures r < Pow2(width)
  {
    if width == 0 then 0
    else Bit(op, a % 2, b % 2) + 2 * Bitwise(op, width - 1, a / 2, b / 2)
  }

  lemma Pow2Facts()
    ensures Pow2(31) == TWO31 && Pow2(32) == TWO32 && Pow2(63) == TWO63 && Pow2(64) == TWO64
  {
    assert Pow2(8) == 0x100;
    assert Pow2(16) == 0x1_0000;
    assert Pow2(24) == 0x100_0000;
    assert Pow2(31) == TWO31;
    assert Pow2(40) == 0x100_0000_0000;
    assert Pow2(48) == 0x1_0000_0000_0000;
    assert Pow2(56) == 0x100_0000_0000_0000;
  }

  lemma MulMonotone(a: nat, b: nat, d: nat)
    requires a <= b
    ensures a * d <= b * d
  {
  }

  lemma DivModUnique(x: nat, d: nat, q: nat, r: nat)
    requires d > 0 && r < d && x == q * d + r
    ensures x / d == q && x % d == r
  {
    var q' := x / d;
    if q > q' {
      MulMonotone(q' + 1, q, d);
    } else if q < q' {
      MulMonotone(q + 1, q', d);
    }
  }

  /** Dividing by 2n takes the low bit off first. */
  lemma HalfMod(a: nat, n: nat)
    requires n > 0
    ensures a % (2 * n) == a % 2 + 2 * ((a / 2) % n)
    ensures a / (2 * n) == (a / 2) / n
  {
    var q, r := (a / 2) / n, (a / 2) % n;
    assert a == 2 * (q * n + r) + a % 2;
    assert 2 * (q * n) == q * (2 * n);
    DivModUnique(a, 2 * n, q, 2 * r + a % 2);
  }

  lemma OddHalf(n: nat)
    requires n > 0
    ensures (2 * n - 1) % 2 == 1 && (2 * n - 1) / 2 == n - 1
  {
  }

  lemma MaskStep(width: nat, a: nat, n: nat)
    requires width > 0 && n > 0
    ensures Bitwise(BitAnd, width, a, 2 * n - 1) == a % 2 + 2 * Bitwise(BitAnd, width - 1, a / 2, n - 1)
  {
    OddHalf(n);
  }

  lemma MaskNext(width: nat, a: nat, n: nat)
    requires width > 0 && n > 0 && Bitwise(BitAnd, width - 1, a / 2, n - 1) == (a / 2) % n
    ensures Bitwise(BitAnd, width, a, 2 * n - 1) == a % (2 * n)
  {
    MaskStep(width, a, n);
    HalfMod(a, n);
  }

  /** AND with 2^k - 1 keeps exactly the low k bits. */
  lemma {:induction false} MaskIsMod(width: nat, k: nat, a: nat)
    requires k <= width
    ensures Bitwise(BitAnd, width, a, Pow2(k) - 1) == a % Pow2(k)
  {
    if width == 0 {
    } else if k == 0 {
      AndZero(width, a);
    } else {
      MaskIsMod(width - 1, k - 1, a / 2);
      MaskNext(width, a, Pow2(k - 1));
    }
  }

  lemma {:induction false} AndZero(width: nat, a: nat)
    ensures Bitwise(BitAnd, width, a, 0) == 0
  {
    if width > 0 {
      AndZero(width - 1, a / 2);
    }
  }

  /** AND with 2^k tests bit k. */
  lemma {:induction false} AndPower(width: nat, k: nat, a: nat)
    requires k < width
    ensures Bitwise(BitAnd, width, a, Pow2(k)) == if (a / Pow2(k)) % 2 == 1 then Pow2(k) else 0
  {
    if k == 0 {
      AndZero(width - 1, a / 2);
    } else {
      AndPower(width - 1, k - 1, a / 2);
      HalfMod(a, Pow2(k - 1));
    }
  }

  predicate BitSet(v: nat, k: nat) { (v / Pow2(k)) % 2 == 1 }

  lemma HalvesFirst(v: nat, k: nat)
    requires k > 0
    ensures BitSet(v, k) == BitSet(v / 2, k - 1)
  {
    HalfMod(v, Pow2(k - 1));
  }

  lemma BitwiseHalves(op: BitOp, width: nat, a: nat, b: nat)
    requires width > 0
    ensures Bitwise(op, width, a, b) % 2 == Bit(op, a % 2, b % 2)
    ensures Bitwise(op, width, a, b) / 2 == Bitwise(op, width - 1, a / 2, b / 2)
  {
  }

  predicate Combined(op: BitOp, x: bool, y: bool) {
    match op
    case BitAnd => x && y
    case BitOr => x || y
    case BitXor => x != y
  }

  /** Bit k of the result is the operation on bit k of the operands. */
  lemma {:induction false} BitwiseAt(op: BitOp, width: nat, a: nat, b: nat, k: nat)
    requires k < width
    ensures BitSet(Bitwise(op, width, a, b), k) == Combined(op, BitSet(a, k), BitSet(b, k))
  {
    BitwiseHalves(op, width, a, b);
    if k == 0 {
      LowBit(a);
      LowBit(b);
      LowBit(Bitwise(op, width, a, b));
    } else {
      HalvesFirst(a, k);
      HalvesFirst(b, k);
      HalvesFirst(Bitwise(op, width, a, b), k);
      BitwiseAt(op, width - 1, a / 2, b / 2, k - 1);
    }
  }

  lemma LowBit(v: nat)
    ensures BitSet(v, 0) <==> v % 2 == 1
  {
  }

  /** On operands of k bits the wider operation equals the k-bit one. */
  lemma {:induction false} BitwiseNarrow(op: BitOp, width: nat, k: nat, a: nat, b: nat)
    requires k <= width && a < Pow2(k) && b < Pow2(k)
    ensures Bitwise(op, width, a, b) == Bitwise(op, k, a, b)
  {
    if width > 0 {
      if k == 0 {
        BitwiseNarrow(op, width - 1, 0, 0, 0);
      } else {
        BitwiseNarrow(op, width - 1, k - 1, a / 2, b / 2);
      }
    }
  }

  /** The forms the lifter emits: masking to 32 bits and testing bit 31. */
  lemma EmittedMasks(a: Word)
    ensures Bitwise(BitAnd, 64, a, TWO32 - 1) == a % TWO32
    ensures a < TWO32 ==> (Bitwise(BitAnd, 64, a, TWO31) != 0 <==> a >= TWO31)
  {
    Pow2Facts();
    MaskIsMod(64, 32, a);
    AndPower(64, 31, a);
  }
}
