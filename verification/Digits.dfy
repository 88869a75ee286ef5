/** Numbers by their digits: what the bitwise operators do to each binary digit, and byte sequences
    as little-endian numbers. */
module Digits {
  import opened Words

  lemma QuotientOfQuotient(a: nat, p: nat, q: nat)
    requires p > 0 && q > 0
    ensures p * q > 0 && a / (p * q) == (a / p) / q
  {
    var h := a / p;
    var k := h / q;
    DivMod(a, p);
    DivMod(h, q);
    MulUnit(p, q);
    ScaledRemainder(p, q, h, k, a);
    ModUnique(a, p * q, k);
  }

  lemma ScaledRemainder(p: nat, q: nat, h: nat, k: nat, a: nat)
    requires p > 0 && h * p <= a < h * p + p && k * q <= h < k * q + q
    ensures k * (p * q) <= a < k * (p * q) + p * q
  {
    MulMono(k * q, h, p);
    MulMono(h + 1, k * q + q, p);
    Distribute(h, 1, p);
    Distribute(k * q, q, p);
    assert (k * q) * p == k * (p * q) && q * p == p * q;
  }

  /** Digit `i` of a number: its last digit, or digit `i - 1` of its half. */
  lemma DigitStep(r: nat, last: nat, half: nat, i: nat)
    requires last < 2 && r == last + 2 * half
    ensures r / Pow2(i) % 2 == if i == 0 then last else half / Pow2(i - 1) % 2
  {
    if i > 0 {
      QuotientOfQuotient(r, 2, Pow2(i - 1));
    }
  }

  /** An operator that decides each binary digit by `rule`. */
  ghost predicate Bitwise(op: (nat, nat) -> nat, rule: (nat, nat) -> nat) {
    forall a: nat, b: nat :: rule(a % 2, b % 2) < 2 && op(a, b) == rule(a % 2, b % 2) + 2 * op(a / 2, b / 2)
  }

  lemma {:induction false} BitwiseDigit(op: (nat, nat) -> nat, rule: (nat, nat) -> nat, a: nat, b: nat, i: nat)
    requires Bitwise(op, rule)
    ensures op(a, b) / Pow2(i) % 2 == rule(a / Pow2(i) % 2, b / Pow2(i) % 2)
    decreases i
  {
    DigitStep(a, a % 2, a / 2, i);
    DigitStep(b, b % 2, b / 2, i);
    DigitStep(op(a, b), rule(a % 2, b % 2), op(a / 2, b / 2), i);
    if i > 0 {
      BitwiseDigit(op, rule, a / 2, b / 2, i - 1);
    }
  }

  lemma LastAnd(a: nat, b: nat)
    ensures BitAnd(a, b) == (if a % 2 == 1 && b % 2 == 1 then 1 else 0) + 2 * BitAnd(a / 2, b / 2)
  {
    LastProduct(a % 2, b % 2);
  }

  lemma LastProduct(x: nat, y: nat)
    requires x < 2 && y < 2
    ensures x * y == if x == 1 && y == 1 then 1 else 0
  {
  }

  lemma LastOr(a: nat, b: nat)
    ensures BitOr(a, b) == (if a % 2 == 1 || b % 2 == 1 then 1 else 0) + 2 * BitOr(a / 2, b / 2)
  {
  }

  lemma LastXor(a: nat, b: nat)
    ensures BitXor(a, b) == (if a % 2 != b % 2 then 1 else 0) + 2 * BitXor(a / 2, b / 2)
  {
    Parity(a, b);
    if a == 0 {
      assert BitXor(a / 2, b / 2) == b / 2;
    } else if b == 0 {
      assert BitXor(a / 2, b / 2) == a / 2;
    }
  }

  lemma Parity(a: nat, b: nat)
    ensures (a + b) % 2 == if a % 2 != b % 2 then 1 else 0
  {
  }

  lemma AndDigit(a: nat, b: nat, i: nat)
    ensures BitAnd(a, b) / Pow2(i) % 2 == if a / Pow2(i) % 2 == 1 && b / Pow2(i) % 2 == 1 then 1 else 0
  {
    var op: (nat, nat) -> nat := (x, y) => BitAnd(x, y);
    var rule: (nat, nat) -> nat := (x, y) => if x == 1 && y == 1 then 1 else 0;
    forall x: nat, y: nat ensures op(x, y) == rule(x % 2, y % 2) + 2 * op(x / 2, y / 2) {
      LastAnd(x, y);
    }
    BitwiseDigit(op, rule, a, b, i);
  }

  lemma OrDigit(a: nat, b: nat, i: nat)
    ensures BitOr(a, b) / Pow2(i) % 2 == if a / Pow2(i) % 2 == 1 || b / Pow2(i) % 2 == 1 then 1 else 0
  {
    var op: (nat, nat) -> nat := (x, y) => BitOr(x, y);
    var rule: (nat, nat) -> nat := (x, y) => if x == 1 || y == 1 then 1 else 0;
    forall x: nat, y: nat ensures op(x, y) == rule(x % 2, y % 2) + 2 * op(x / 2, y / 2) {
      LastOr(x, y);
    }
    BitwiseDigit(op, rule, a, b, i);
  }

  lemma XorDigit(a: nat, b: nat, i: nat)
    ensures BitXor(a, b) / Pow2(i) % 2 == if a / Pow2(i) % 2 != b / Pow2(i) % 2 then 1 else 0
  {
    var op: (nat, nat) -> nat := (x, y) => BitXor(x, y);
    var rule: (nat, nat) -> nat := (x, y) => if x != y then 1 else 0;
    forall x: nat, y: nat ensures op(x, y) == rule(x % 2, y % 2) + 2 * op(x / 2, y / 2) {
      LastXor(x, y);
    }
    BitwiseDigit(op, rule, a, b, i);
  }

  /** Digit `i` of the three bitwise operators is decided by the operands' digits `i` alone. */
  lemma BitwiseDigits(a: nat, b: nat, i: nat)
    ensures BitAnd(a, b) / Pow2(i) % 2 == 1 <==> a / Pow2(i) % 2 == 1 && b / Pow2(i) % 2 == 1
    ensures BitOr(a, b) / Pow2(i) % 2 == 1 <==> a / Pow2(i) % 2 == 1 || b / Pow2(i) % 2 == 1
    ensures BitXor(a, b) / Pow2(i) % 2 == 1 <==> a / Pow2(i) % 2 != b / Pow2(i) % 2
  {
    AndDigit(a, b, i);
    OrDigit(a, b, i);
    XorDigit(a, b, i);
  }

  // ---------------------------------------------------------------- little-endian numbers

  /** The little-endian value of `n` bytes from position `at`. */
  function LittleEndian(bytes: seq<Byte>, at: nat, n: nat): (v: nat)
    requires at + n <= |bytes|
    ensures v < Pow2(8 * n)
  {
    if n == 0 then 0
    else
      ScaledByte(bytes[at + n - 1], n - 1);
      LittleEndian(bytes, at, n - 1) + (bytes[at + n - 1] as nat) * Pow2(8 * (n - 1))
  }

  lemma ScaledByte(b: Byte, n: nat)
    ensures (b as nat) * Pow2(8 * n) + Pow2(8 * n) <= Pow2(8 * (n + 1))
  {
    Pow2Values();
    Pow2Add(8 * n, 8);
    MulMono(b + 1, 256, Pow2(8 * n));
    Distribute(b, 1, Pow2(8 * n));
  }

  /** Byte `k` of the number is the byte at place `k`: lower places are less significant. */
  lemma {:induction false} LittleEndianByte(bytes: seq<Byte>, at: nat, n: nat, k: nat)
    requires at + n <= |bytes| && k < n
    ensures LittleEndian(bytes, at, n) / Pow2(8 * k) % 256 == bytes[at + k]
    decreases n
  {
    var low, top, p := LittleEndian(bytes, at, n - 1), bytes[at + n - 1], Pow2(8 * (n - 1));
    if k == n - 1 {
      ModUnique(low + top * p, p, top);
    } else {
      LittleEndianByte(bytes, at, n - 1, k);
      Pow2Add(8 * k, 8 * (n - 1 - k));
      Pow2Add(8, 8 * (n - 2 - k));
      Pow2Values();
      HighPart(low, top, Pow2(8 * k), Pow2(8 * (n - 2 - k)), p);
    }
  }

  lemma QuotientOfSum(low: nat, q: nat, c: nat)
    requires q > 0
    ensures 0 <= c * q && (low + c * q) / q == low / q + c
  {
    DivMod(low, q);
    MulMono(0, c, q);
    Distribute(low / q, c, q);
    ModUnique(low + c * q, q, low / q + c);
  }

  /** A multiple of 256 * q changes no quotient by q in its last byte. */
  lemma HighPart(low: nat, top: nat, q: nat, r: nat, p: nat)
    requires q > 0 && p == q * (256 * r)
    ensures (low + top * p) / q % 256 == low / q % 256
  {
    var h := top * r;
    MulMono(0, top, r);
    assert top * p == (256 * h) * q by {
      assert (256 * h) * q == top * (q * (256 * r));
    }
    QuotientOfSum(low, q, 256 * h);
  }

  lemma NextByteValue(bytes: seq<Byte>, at: nat, n: nat, p: nat)
    requires at + n < |bytes| && p == Pow2(8 * n)
    ensures LittleEndian(bytes, at, n + 1) == LittleEndian(bytes, at, n) + (bytes[at + n] as nat) * p
  {
  }

  /** A 32-bit word from its four bytes. */
  lemma FourBytes(bytes: seq<Byte>, at: nat)
    requires at + 4 <= |bytes|
    ensures LittleEndian(bytes, at, 4)
            == (bytes[at] as nat) + 0x100 * (bytes[at + 1] as nat) + 0x1_0000 * (bytes[at + 2] as nat)
               + 0x100_0000 * (bytes[at + 3] as nat)
  {
    Pow2Values();
    Pow2Add(16, 8);
    NextByteValue(bytes, at, 0, 1);
    NextByteValue(bytes, at, 1, 0x100);
    NextByteValue(bytes, at, 2, 0x1_0000);
    NextByteValue(bytes, at, 3, 0x100_0000);
  }

  /** Bit `i` of the number is bit `i % 8` of byte `i / 8`. */
  lemma LittleEndianBit(bytes: seq<Byte>, n: nat, i: nat)
    requires n <= |bytes| && i < 8 * n
    ensures LittleEndian(bytes, 0, n) / Pow2(i) % 2 == (bytes[i / 8] as nat) / Pow2(i % 8) % 2
  {
    LittleEndianByte(bytes, 0, n, i / 8);
    BitAbove(LittleEndian(bytes, 0, n), 8 * (i / 8), i % 8, bytes[i / 8]);
  }

  lemma BitAbove(v: nat, m: nat, j: nat, b: nat)
    requires b == v / Pow2(m) % 256 && j < 8
    ensures v / Pow2(m + j) % 2 == b / Pow2(j) % 2
  {
    var p, q := Pow2(m), Pow2(j);
    assert Pow2(m + j) == p * q by {
      Pow2Add(m, j);
    }
    QuotientOfQuotient(v, p, q);
    QuotientIsNat(v, p);
    LowBit(v / p, b, j);
  }

  lemma QuotientIsNat(v: nat, p: nat)
    requires p > 0
    ensures 0 <= v / p
  {
    MulUnit(v + 1, p);
    Distribute(v, 1, p);
    MulMono(0, v, p);
    MulMono(1, p, v);
    DivBounds(v, p, 0, v + 1);
  }

  /** The low eight bits of a number are those of its last byte. */
  lemma LowBit(u: nat, b: nat, j: nat)
    requires b == u % 256 && j < 8
    ensures u / Pow2(j) % 2 == b / Pow2(j) % 2
  {
    var p := Pow2(j);
    Pow2Add(j, 8 - j);
    Pow2Values();
    assert Pow2(8 - j) == 2 * Pow2(7 - j);
    HighBits(u / 256, b, p, Pow2(7 - j));
  }

  lemma HighBits(t: nat, b: nat, p: nat, r: nat)
    requires p > 0 && 256 == p * (2 * r)
    ensures (b + t * 256) / p % 2 == b / p % 2
  {
    var h := t * r;
    MulMono(0, t, r);
    TwiceTimes(t, p, r, h);
    QuotientOfSum(b, p, 2 * h);
  }

  lemma TwiceTimes(t: nat, p: nat, r: nat, h: nat)
    requires 256 == p * (2 * r) && h == t * r
    ensures t * 256 == (2 * h) * p
  {
    assert (2 * h) * p == t * (p * (2 * r));
  }
}
