/** Byte-addressed little-endian memory over the 64-bit address space; addresses wrap. */
module Memory {
  import opened Words

  /** Bytes in a 64-bit word. */
  const WORD_BYTES: nat := 8

  type Byte = b: int | 0 <= b < 256

  /** A byte never written reads as zero; any memory of 2^64 bytes is such a map. */
  type Mem = map<Word, Byte>

  function At(m: Mem, a: int): Byte {
    if Wrap(a) in m then m[Wrap(a)] else 0
  }

  function Load(m: Mem, a: int, n: nat): nat
    decreases n
  {
    if n == 0 then 0 else At(m, a) + 256 * Load(m, a + 1, n - 1)
  }

  function Store(m: Mem, a: int, n: nat, v: nat): Mem
    decreases n
  {
    if n == 0 then m else Store(m[Wrap(a) := v % 256], a + 1, n - 1, v / 256)
  }

  /** Byte i of a value, least significant first. */
  function ByteOf(v: nat, i: nat): Byte {
    if i == 0 then v % 256 else ByteOf(v / 256, i - 1)
  }

  function Pow256(n: nat): (r: nat)
    ensures r >= 1
  {
    if n == 0 then 1 else 256 * Pow256(n - 1)
  }

  lemma Pow256Facts()
    ensures Pow256(4) == TWO32 && Pow256(8) == TWO64
  {
    assert Pow256(2) == 0x1_0000;
    assert Pow256(6) == 0x1_0000_0000_0000;
  }

  /** The store leaves every address it does not cover alone. */
  lemma {:induction false} StoreFrame(m: Mem, a: int, n: nat, v: nat, b: int)
    requires forall x :: a <= x < a + n ==> Wrap(x) != Wrap(b)
    ensures At(Store(m, a, n, v), b) == At(m, b)
    decreases n
  {
    if n > 0 {
      StoreFrame(m[Wrap(a) := v % 256], a + 1, n - 1, v / 256, b);
    }
  }

  /** Byte x of the stored range is the byte of the value at that position. */
  lemma {:induction false} StoreByte(m: Mem, a: int, n: nat, v: nat, x: int)
    requires a <= x < a + n && n <= 0x1_0000
    ensures At(Store(m, a, n, v), x) == ByteOf(v, x - a)
    decreases n
  {
    var m' := m[Wrap(a) := v % 256];
    if x == a {
      StoreFrame(m', a + 1, n - 1, v / 256, a);
    } else {
      StoreByte(m', a + 1, n - 1, v / 256, x);
    }
  }

  /** Memory holding the bytes of v at a reads back as v cut to n bytes. */
  lemma {:induction false} LoadBytes(m: Mem, a: int, n: nat, v: nat)
    requires forall x :: a <= x < a + n ==> At(m, x) == ByteOf(v, x - a)
    ensures Load(m, a, n) == v % Pow256(n)
    decreases n
  {
    if n > 0 {
      forall x | a + 1 <= x < a + n
        ensures At(m, x) == ByteOf(v / 256, x - (a + 1))
      {
        assert At(m, x) == ByteOf(v, x - a);
      }
      LoadBytes(m, a + 1, n - 1, v / 256);
      assert At(m, a) == ByteOf(v, 0);
      SplitLowByte(v, Pow256(n - 1));
    }
  }

  lemma SplitLowByte(v: nat, p: nat)
    requires p > 0
    ensures v % (256 * p) == v % 256 + 256 * ((v / 256) % p)
  {
    var q, r := (v / 256) / p, (v / 256) % p;
    assert v == 256 * (q * p + r) + v % 256;
    assert 256 * (q * p) == q * (256 * p);
    DivModUnique(v, 256 * p, q, 256 * r + v % 256);
  }

  lemma {:induction false} ByteOfLoad(m: Mem, a: int, n: nat, x: int)
    requires a <= x < a + n
    ensures ByteOf(Load(m, a, n), x - a) == At(m, x)
    decreases n
  {
    if x > a {
      ByteOfLoad(m, a + 1, n - 1, x);
    }
  }

  lemma {:induction false} LoadBound(m: Mem, a: int, n: nat)
    ensures Load(m, a, n) < Pow256(n)
    decreases n
  {
    if n > 0 {
      LoadBound(m, a + 1, n - 1);
    }
  }

  /** Loads of ranges d apart with the same bytes agree. */
  lemma {:induction false} LoadCongruent(m: Mem, a: int, m': Mem, d: int, n: nat)
    requires forall x :: a <= x < a + n ==> At(m, x) == At(m', x + d)
    ensures Load(m, a, n) == Load(m', a + d, n)
    decreases n
  {
    if n > 0 {
      LoadCongruent(m, a + 1, m', d, n - 1);
      assert At(m, a) == At(m', a + d);
    }
  }

  /** A store reads back as the stored value cut to its width. */
  lemma LoadStore(m: Mem, a: int, n: nat, v: nat)
    requires n <= 0x1_0000
    ensures Load(Store(m, a, n, v), a, n) == v % Pow256(n)
  {
    var m' := Store(m, a, n, v);
    forall x | a <= x < a + n
      ensures At(m', x) == ByteOf(v, x - a)
    {
      StoreByte(m, a, n, v, x);
    }
    LoadBytes(m', a, n, v);
  }

  /** Stores and loads depend on the wrapped address only. */
  lemma {:induction false} StoreCongruent(m: Mem, a: int, b: int, n: nat, v: nat)
    requires Wrap(a) == Wrap(b)
    ensures Store(m, a, n, v) == Store(m, b, n, v)
    decreases n
  {
    if n > 0 {
      WrapStep(a, b);
      StoreCongruent(m[Wrap(a) := v % 256], a + 1, b + 1, n - 1, v / 256);
    }
  }

  lemma {:induction false} LoadSameAddress(m: Mem, a: int, b: int, n: nat)
    requires Wrap(a) == Wrap(b)
    ensures Load(m, a, n) == Load(m, b, n)
    decreases n
  {
    if n > 0 {
      WrapStep(a, b);
      LoadSameAddress(m, a + 1, b + 1, n - 1);
    }
  }

  lemma WrapStep(a: int, b: int)
    requires Wrap(a) == Wrap(b)
    ensures Wrap(a + 1) == Wrap(b + 1)
  {
    WrapAdd(a, 1);
    WrapAdd(b, 1);
  }

  /** A store within a window around a base leaves the window's other bytes alone, whatever the base. */
  lemma StoreElsewhere(m: Mem, base: int, offset: int, n: nat, v: nat, x: int)
    requires -TWO63 <= offset && offset + n <= TWO63 && -TWO63 <= x < TWO63
    requires x < offset || x >= offset + n
    ensures At(Store(m, base + offset, n, v), base + x) == At(m, base + x)
  {
    forall y | base + offset <= y < base + offset + n
      ensures Wrap(y) != Wrap(base + x)
    {
      if Wrap(y) == Wrap(base + x) {
        WrapInjective(base, y - base, x);
      }
    }
    StoreFrame(m, base + offset, n, v, base + x);
  }

  /** Nor do loads of a disjoint part of the window change. */
  lemma LoadElsewhere(m: Mem, base: int, offset: int, n: nat, v: nat, other: int, k: nat)
    requires -TWO63 <= offset && offset + n <= TWO63 && -TWO63 <= other && other + k <= TWO63
    requires other + k <= offset || other >= offset + n
    ensures Load(Store(m, base + offset, n, v), base + other, k) == Load(m, base + other, k)
  {
    var stored := Store(m, base + offset, n, v);
    var start := base + other;
    forall x | start <= x < start + k
      ensures At(stored, x) == At(m, x + 0)
    {
      StoreElsewhere(m, base, offset, n, v, x - base);
    }
    LoadCongruent(stored, start, m, 0, k);
  }

  /** A value that fits reads back whole. */
  lemma LoadStored(m: Mem, a: int, n: nat, v: nat)
    requires n <= 0x1_0000 && v < Pow256(n)
    ensures Load(Store(m, a, n, v), a, n) == v
  {
    LoadStore(m, a, n, v);
    DivModUnique(v, Pow256(n), 0, v);
  }
}
