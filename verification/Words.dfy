/** Machine words as mathematical integers: 32-bit wrap-around, the signed view, powers of two and
    the bitwise operators, all written out because Dafny's `int` is unbounded. */
module Words {
  const WORD := 0x1_0000_0000

  type Word = x: int | 0 <= x < 0x1_0000_0000
  type Byte = x: int | 0 <= x < 256

  /** Reduction of an integer to 32 bits: what a `uint32_t` keeps of it. */
  function Wrap(x: int): Word {
    x % 0x1_0000_0000
  }

  /** Addition of a word and a signed offset of less than one turn: modular, with one correction. */
  function Plus(a: Word, d: int): (r: Word)
    requires -0x1_0000_0000 <= d <= 0x1_0000_0000
    ensures r == Wrap(a as int + d)
  {
    PlusWraps(a, d);
    var s := a as int + d;
    if s < 0 then s + 0x1_0000_0000 else if s >= 0x1_0000_0000 then s - 0x1_0000_0000 else s
  }

  lemma PlusWraps(a: Word, d: int)
    requires -0x1_0000_0000 <= d <= 0x1_0000_0000
    ensures var s := a as int + d;
      Wrap(s) == if s < 0 then s + 0x1_0000_0000 else if s >= 0x1_0000_0000 then s - 0x1_0000_0000 else s
  {
  }

  /** The `int32_t` reading of a 32-bit word. */
  function Signed(w: Word): int {
    if w < 0x8000_0000 then w else w - 0x1_0000_0000
  }

  function Pow2(n: nat): (p: int)
    ensures p > 0
  {
    if n == 0 then 1 else 2 * Pow2(n - 1)
  }

  function Abs(x: int): nat {
    if x < 0 then -x else x
  }

  /** Bitwise operators on naturals, one binary digit at a time. */
  function BitAnd(a: nat, b: nat): (r: nat)
    ensures r <= a && r <= b
  {
    if a == 0 || b == 0 then 0 else (a % 2) * (b % 2) + 2 * BitAnd(a / 2, b / 2)
  }

  function BitOr(a: nat, b: nat): nat {
    if a == 0 then b else if b == 0 then a
    else (if a % 2 + b % 2 > 0 then 1 else 0) + 2 * BitOr(a / 2, b / 2)
  }

  function BitXor(a: nat, b: nat): nat {
    if a == 0 then b else if b == 0 then a
    else (a + b) % 2 + 2 * BitXor(a / 2, b / 2)
  }

  lemma WrapAdd(x: int, y: int)
    ensures Wrap(Wrap(x) + y) == Wrap(x + y)
  {
  }

  lemma SignedOfWrap(x: int)
    requires -0x8000_0000 <= x < 0x8000_0000
    ensures Signed(Wrap(x)) == x
  {
  }

  lemma {:induction false} Pow2Add(m: nat, n: nat)
    ensures Pow2(m + n) == Pow2(m) * Pow2(n)
    decreases m
  {
    if m > 0 {
      Pow2Add(m - 1, n);
      DoubleProduct(Pow2(m - 1), Pow2(n), Pow2(m - 1 + n));
    }
  }

  lemma DoubleProduct(x: int, y: int, z: int)
    requires z == x * y
    ensures 2 * z == (2 * x) * y
  {
  }

  lemma {:induction false} Pow2Monotone(m: nat, n: nat)
    requires m <= n
    ensures Pow2(m) <= Pow2(n)
  {
    if m < n {
      Pow2Monotone(m, n - 1);
    }
  }

  lemma Pow2Values()
    ensures Pow2(7) == 128 && Pow2(8) == 256
    ensures Pow2(15) == 0x8000 && Pow2(16) == 0x1_0000
    ensures Pow2(29) == 0x2000_0000 && Pow2(31) == 0x8000_0000 && Pow2(32) == 0x1_0000_0000
  {
    Pow2Add(4, 4);
    Pow2Add(4, 3);
    Pow2Add(8, 8);
    Pow2Add(8, 7);
    Pow2Add(16, 16);
    Pow2Add(16, 15);
    assert Pow2(4) == 16 && Pow2(3) == 8;
  }

  // ---------------------------------------------------------------- products and quotients

  lemma MulMono(a: int, b: int, k: int)
    requires a <= b && k >= 0
    ensures a * k <= b * k
  {
  }

  lemma MulUnit(k: int, p: int)
    requires p >= 0
    ensures k >= 1 ==> k * p >= p
    ensures k <= -1 ==> k * p <= -p
  {
    if k >= 1 {
      MulMono(1, k, p);
    } else if k <= -1 {
      MulMono(k, -1, p);
    }
  }

  lemma Distribute(a: int, b: int, p: int)
    ensures (a - b) * p == a * p - b * p
    ensures (a + b) * p == a * p + b * p
    ensures (a + 1) * p == a * p + p
  {
  }

  lemma DivMod(x: int, p: int)
    requires p > 0
    ensures x == (x / p) * p + x % p && 0 <= x % p < p
  {
  }

  /** A quotient is determined by the multiple that sits just below the dividend. */
  lemma ModUnique(x: int, p: int, q: int)
    requires p > 0 && q * p <= x < q * p + p
    ensures x % p == x - q * p && x / p == q
  {
    DivMod(x, p);
    Distribute(q, x / p, p);
    MulUnit(q - x / p, p);
  }

  lemma DivBounds(x: int, p: int, lo: int, hi: int)
    requires p > 0 && lo * p <= x < hi * p
    ensures lo <= x / p < hi
  {
    DivMod(x, p);
    Distribute(lo, x / p, p);
    Distribute(x / p, hi, p);
    MulUnit(lo - x / p, p);
    MulUnit(x / p - hi, p);
  }

  // ---------------------------------------------------------------- blocks of equal size

  /** The block of `size` cells that holds cell `a`, counted off block by block. */
  function BlockOf(a: nat, size: nat): nat
    requires size > 0
    decreases a
  {
    if a < size then 0 else 1 + BlockOf(a - size, size)
  }

  /** The cell's place inside its block. */
  function OffsetOf(a: nat, size: nat): (r: nat)
    requires size > 0
    ensures r < size && r <= a
    decreases a
  {
    if a < size then a else OffsetOf(a - size, size)
  }

  /** The quotient and the remainder that the code computes. */
  lemma {:induction false} DivisionFindsBlock(a: nat, size: nat)
    requires size > 0
    ensures a / size == BlockOf(a, size) && a - a / size * size == OffsetOf(a, size)
    decreases a
  {
    if a < size {
      ModUnique(a, size, 0);
    } else {
      DivisionFindsBlock(a - size, size);
      var q := (a - size) / size;
      DivMod(a - size, size);
      Distribute(q, 1, size);
      ModUnique(a, size, q + 1);
    }
  }

  /** The addresses of one block's part of an access are exactly that block's cells. */
  lemma {:induction false} InBlock(a: nat, address: nat, n: nat, size: nat)
    requires size > 0 && OffsetOf(address, size) + n <= size
    ensures address <= a < address + n <==>
            BlockOf(a, size) == BlockOf(address, size)
            && OffsetOf(address, size) <= OffsetOf(a, size) < OffsetOf(address, size) + n
    ensures BlockOf(a, size) == BlockOf(address, size) ==> OffsetOf(a, size) - OffsetOf(address, size) == a - address
    decreases a
  {
    if a >= size && address >= size {
      InBlock(a - size, address - size, n, size);
    }
  }

  lemma {:induction false} NextCell(address: nat, i: nat, size: nat)
    requires size > 0 && OffsetOf(address, size) + i < size
    ensures BlockOf(address + i, size) == BlockOf(address, size)
    ensures OffsetOf(address + i, size) == OffsetOf(address, size) + i
    decreases address
  {
    if address >= size {
      NextCell(address - size, i, size);
    }
  }

  // ---------------------------------------------------------------- bitwise facts

  lemma {:induction false} AndOnes(a: nat, k: nat)
    requires a < Pow2(k)
    ensures BitAnd(a, Pow2(k) - 1) == a
  {
    if a != 0 {
      assert (Pow2(k) - 1) / 2 == Pow2(k - 1) - 1 && (Pow2(k) - 1) % 2 == 1;
      AndOnes(a / 2, k - 1);
    }
  }

  lemma AndEven(x: nat, y: nat, halfX: nat, halfY: nat)
    requires x == 2 * halfX && y == 2 * halfY
    ensures BitAnd(x, y) == 2 * BitAnd(halfX, halfY)
  {
  }

  /** A common factor 2^k is a common shift. */
  lemma {:induction false} AndScaled(a: nat, b: nat, k: nat)
    ensures BitAnd(a * Pow2(k), b * Pow2(k)) == BitAnd(a, b) * Pow2(k)
  {
    if k > 0 {
      AndScaled(a, b, k - 1);
      AndDoubled(a, b, BitAnd(a, b), Pow2(k - 1));
    }
  }

  lemma AndDoubled(a: nat, b: nat, both: nat, p: int)
    requires p > 0 && 0 <= a * p && 0 <= b * p && BitAnd(a * p, b * p) == both * p
    ensures 0 <= a * (2 * p) && 0 <= b * (2 * p) && BitAnd(a * (2 * p), b * (2 * p)) == both * (2 * p)
  {
    Halves(a, p);
    Halves(b, p);
    Halves(both, p);
    AndEven(a * (2 * p), b * (2 * p), a * p, b * p);
  }

  lemma Halves(a: nat, p: int)
    requires p > 0
    ensures (a * (2 * p)) % 2 == 0 && (a * (2 * p)) / 2 == a * p && a * (2 * p) == 2 * (a * p)
    ensures a > 0 ==> a * (2 * p) > 0
  {
    MulUnit(a, 2 * p);
    assert a * (2 * p) == 2 * (a * p);
  }

  lemma AndBit(h: nat)
    ensures BitAnd(h, 1) == h % 2
  {
    assert BitAnd(h / 2, 0) == 0;
  }

  lemma {:induction false} OrBound(a: nat, b: nat, k: nat)
    requires a < Pow2(k) && b < Pow2(k)
    ensures BitOr(a, b) < Pow2(k) && BitXor(a, b) < Pow2(k)
  {
    if a > 0 && b > 0 {
      OrBound(a / 2, b / 2, k - 1);
    }
  }

  /** Or adds when the left operand is clear where the right one is not. */
  lemma {:induction false} OrDisjoint(h: nat, b: nat, k: nat)
    requires b < Pow2(k)
    ensures BitOr(h * Pow2(k), b) == h * Pow2(k) + b
    decreases k
  {
    if h == 0 {
    } else if k > 0 && b > 0 {
      Halves(h, Pow2(k - 1));
      OrDisjoint(h, b / 2, k - 1);
    }
  }

  lemma {:induction false} OrCommutes(a: nat, b: nat)
    ensures BitOr(a, b) == BitOr(b, a)
    decreases a
  {
    if a > 0 && b > 0 {
      OrCommutes(a / 2, b / 2);
    }
  }

  function OrWord(a: Word, b: Word): (r: Word)
    ensures r as int == BitOr(a, b)
  {
    Pow2Values();
    OrBound(a, b, 32);
    BitOr(a, b)
  }

  function XorWord(a: Word, b: Word): (r: Word)
    ensures r as int == BitXor(a, b)
  {
    Pow2Values();
    OrBound(a, b, 32);
    BitXor(a, b)
  }
}
