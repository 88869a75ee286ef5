/** The generator step of the preamble's memory fill: three shifts, each xor-ed into the word. Every
    step can be undone, so different words stay different. */
module XorshiftStep {
  import opened Words
  import opened Rv32

  function ShiftLeft(s: Word, k: nat): Word {
    Wrap((s as int) * Pow2(k))
  }

  function Xorshift(s: Word): Word {
    var a := XorWord(s, ShiftLeft(s, 13));
    var b := XorWord(a, ShiftDown(a, 17));
    XorWord(b, ShiftLeft(b, 5))
  }

  /** The step in numbers: shifts by 13 up, 17 down and 5 up. */
  lemma XorshiftInNumbers(s: Word, a: Word, b: Word, c: Word)
    requires BitXor(s, Wrap(s as int * 0x2000)) == a && BitXor(a, a / 0x2_0000) == b && BitXor(b, Wrap(b as int * 0x20)) == c
    ensures Xorshift(s) == c
  {
    assert Pow2(13) == 0x2000 && Pow2(5) == 0x20 && Pow2(17) == 0x2_0000 by {
      Pow2Values();
      Pow2Add(8, 5);
      Pow2Add(16, 1);
    }
  }

  lemma {:induction false} XorZero(a: nat, b: nat)
    requires BitXor(a, b) == 0
    ensures a == b
  {
    if a > 0 && b > 0 {
      XorZero(a / 2, b / 2);
    }
  }

  /** A word equal to its own left shift is divisible by every power of two up to 2^32. */
  lemma {:induction false} ShiftFixpoint(s: Word, k: nat, j: nat) returns (c: int)
    requires k > 0 && ShiftLeft(s, k) == s && j <= 32
    ensures s as int == c * Pow2(j)
  {
    if j == 0 {
      c := s;
    } else {
      var d := ShiftFixpoint(s, k, j - 1);
      var q := ((s as int) * Pow2(k)) / WORD;
      Pow2Values();
      Pow2Add(j, 32 - j);
      assert (s as int) * Pow2(k) == q * WORD + s;
      c := d * Pow2(k - 1) - q * Pow2(32 - j);
      FixpointStep(s, d, q, Pow2(j - 1), Pow2(k - 1), Pow2(32 - j));
    }
  }

  lemma FixpointStep(s: int, d: int, q: int, p: int, h: int, r: int)
    requires s == d * p && s * (2 * h) == q * ((2 * p) * r) + s
    ensures s == (d * h - q * r) * (2 * p)
  {
    assert s * (2 * h) == (d * h) * (2 * p);
    assert q * ((2 * p) * r) == (q * r) * (2 * p);
    Distribute(d * h, q * r, 2 * p);
  }

  lemma ShiftFixpointIsZero(s: Word, k: nat)
    requires k > 0 && ShiftLeft(s, k) == s
    ensures s == 0
  {
    var c := ShiftFixpoint(s, k, 32);
    Pow2Values();
  }

  lemma HalvedFixpoint(a: Word, k: nat)
    requires k > 0 && ShiftDown(a, k) == a
    ensures a == 0
  {
    DivMod(a, Pow2(k));
    assert Pow2(k) == 2 * Pow2(k - 1);
    MulMono(2, Pow2(k), a);
    assert a * Pow2(k) == Pow2(k) * a;
  }

  // ---------------------------------------------------------------- exclusive or, digit by digit

  lemma {:induction false} XorHalf(a: nat, b: nat)
    ensures BitXor(a, b) % 2 == (a + b) % 2 && BitXor(a, b) / 2 == BitXor(a / 2, b / 2)
  {
    if a == 0 {
      assert BitXor(0, b) == b && BitXor(0, b / 2) == b / 2;
    } else if b == 0 {
      assert BitXor(a, 0) == a && BitXor(a / 2, 0) == a / 2;
    } else {
      Digit((a + b) % 2, BitXor(a / 2, b / 2));
    }
  }

  lemma Digit(d: nat, h: nat)
    requires d < 2
    ensures (d + 2 * h) % 2 == d && (d + 2 * h) / 2 == h
  {
  }

  lemma SameHalves(a: nat, b: nat)
    requires a % 2 == b % 2 && a / 2 == b / 2
    ensures a == b
  {
  }

  lemma SplitXor(a: nat, b: nat, c: nat, d: nat)
    requires BitXor(a, b) == BitXor(c, d)
    ensures (a + b) % 2 == (c + d) % 2 && BitXor(a / 2, b / 2) == BitXor(c / 2, d / 2)
  {
    XorHalf(a, b);
    XorHalf(c, d);
  }

  lemma JoinXor(a: nat, b: nat, c: nat, d: nat)
    requires (a + b) % 2 == (c + d) % 2 && BitXor(a / 2, b / 2) == BitXor(c / 2, d / 2)
    ensures BitXor(a, b) == BitXor(c, d)
  {
    XorHalf(a, b);
    XorHalf(c, d);
    SameHalves(BitXor(a, b), BitXor(c, d));
  }

  lemma SwapParity(a: nat, b: nat, c: nat, d: nat)
    requires (a + b) % 2 == (c + d) % 2
    ensures (a + c) % 2 == (b + d) % 2
  {
  }

  lemma HalvesShrink(a: nat, b: nat, c: nat, d: nat)
    requires a + b + c + d > 0
    ensures a / 2 + b / 2 + c / 2 + d / 2 < a + b + c + d
  {
  }

  lemma {:induction false} XorSwap(a: nat, b: nat, c: nat, d: nat)
    requires BitXor(a, b) == BitXor(c, d)
    ensures BitXor(a, c) == BitXor(b, d)
    decreases a + b + c + d
  {
    if a + b + c + d > 0 {
      SplitXor(a, b, c, d);
      SwapParity(a, b, c, d);
      HalvesShrink(a, b, c, d);
      XorSwap(a / 2, b / 2, c / 2, d / 2);
      JoinXor(a, c, b, d);
    }
  }

  lemma {:induction false} XorScaled(a: nat, b: nat, k: nat)
    ensures 0 <= a * Pow2(k) && 0 <= b * Pow2(k) && BitXor(a * Pow2(k), b * Pow2(k)) == BitXor(a, b) * Pow2(k)
    decreases k
  {
    if k == 0 {
      Once(a);
      Once(b);
      Once(BitXor(a, b));
    } else {
      XorScaled(a, b, k - 1);
      XorDoubled(a, b, BitXor(a, b), Pow2(k - 1));
    }
  }

  lemma Once(a: int)
    ensures a * Pow2(0) == a
  {
  }

  lemma XorDoubled(a: nat, b: nat, either: nat, p: int)
    requires p > 0 && 0 <= a * p && 0 <= b * p && BitXor(a * p, b * p) == either * p
    ensures 0 <= a * (2 * p) && 0 <= b * (2 * p) && BitXor(a * (2 * p), b * (2 * p)) == either * (2 * p)
  {
    Halves(a, p);
    Halves(b, p);
    Halves(either, p);
    XorHalf(a * (2 * p), b * (2 * p));
  }

  lemma HalfOfMod(a: nat, p: int)
    requires p > 0
    ensures (a % (2 * p)) % 2 == a % 2 && (a % (2 * p)) / 2 == (a / 2) % p
  {
    DivMod(a / 2, p);
    var q, r := a / 2 / p, a / 2 % p;
    assert a == (q * p + r) * 2 + a % 2;
    assert q * (2 * p) == 2 * (q * p);
    ModUnique(a, 2 * p, q);
  }

  lemma LowJoin(u: nat, v: nat, w: nat)
    requires (u + v) % 2 == w % 2 && BitXor(u / 2, v / 2) == w / 2
    ensures BitXor(u, v) == w
  {
    XorHalf(u, v);
    SameHalves(BitXor(u, v), w);
  }

  lemma ParityOfSum(u: nat, v: nat, a: nat, b: nat)
    requires u % 2 == a % 2 && v % 2 == b % 2
    ensures (u + v) % 2 == (a + b) % 2
  {
  }

  lemma LowStep(a: nat, b: nat, p: int)
    requires p > 0 && BitXor(a / 2 % p, b / 2 % p) == BitXor(a / 2, b / 2) % p
    ensures BitXor(a % (2 * p), b % (2 * p)) == BitXor(a, b) % (2 * p)
  {
    HalfOfMod(a, p);
    HalfOfMod(b, p);
    HalfOfMod(BitXor(a, b), p);
    XorHalf(a, b);
    ParityOfSum(a % (2 * p), b % (2 * p), a, b);
    LowJoin(a % (2 * p), b % (2 * p), BitXor(a, b) % (2 * p));
  }

  lemma {:induction false} XorLow(a: nat, b: nat, n: nat)
    ensures BitXor(a % Pow2(n), b % Pow2(n)) == BitXor(a, b) % Pow2(n)
    decreases n
  {
    if n > 0 {
      XorLow(a / 2, b / 2, n - 1);
      LowStep(a, b, Pow2(n - 1));
    }
  }

  lemma HalfOfQuotient(a: nat, p: int)
    requires p > 0
    ensures a / (2 * p) == (a / 2) / p
  {
    DivMod(a / 2, p);
    var q, r := a / 2 / p, a / 2 % p;
    assert a == (q * p + r) * 2 + a % 2;
    assert q * (2 * p) == 2 * (q * p);
    ModUnique(a, 2 * p, q);
  }

  lemma HighStep(a: nat, b: nat, p: int)
    requires p > 0 && 0 <= a / 2 / p && 0 <= b / 2 / p && BitXor(a / 2 / p, b / 2 / p) == BitXor(a / 2, b / 2) / p
    ensures 0 <= a / (2 * p) && 0 <= b / (2 * p) && BitXor(a / (2 * p), b / (2 * p)) == BitXor(a, b) / (2 * p)
  {
    HalfOfQuotient(a, p);
    HalfOfQuotient(b, p);
    HalfOfQuotient(BitXor(a, b), p);
    XorHalf(a, b);
  }

  lemma Whole(a: int)
    ensures a / Pow2(0) == a
  {
  }

  lemma {:induction false} XorHigh(a: nat, b: nat, k: nat)
    ensures 0 <= a / Pow2(k) && 0 <= b / Pow2(k) && BitXor(a / Pow2(k), b / Pow2(k)) == BitXor(a, b) / Pow2(k)
    decreases k
  {
    if k == 0 {
      Whole(a);
      Whole(b);
      Whole(BitXor(a, b));
    } else {
      XorHigh(a / 2, b / 2, k - 1);
      HighStep(a, b, Pow2(k - 1));
    }
  }

  // ---------------------------------------------------------------- the step is injective

  /** Shifting commutes with exclusive or. */
  lemma ShiftLeftOfXor(s: Word, r: Word, k: nat)
    ensures XorWord(ShiftLeft(s, k), ShiftLeft(r, k)) == ShiftLeft(XorWord(s, r), k)
  {
    Pow2Values();
    XorScaled(s, r, k);
    XorLow(s * Pow2(k), r * Pow2(k), 32);
  }

  lemma ShiftDownOfXor(s: Word, r: Word, k: nat)
    ensures XorWord(ShiftDown(s, k), ShiftDown(r, k)) == ShiftDown(XorWord(s, r), k)
  {
    XorHigh(s, r, k);
  }

  lemma LeftStepInjective(s: Word, r: Word, k: nat)
    requires k > 0 && XorWord(s, ShiftLeft(s, k)) == XorWord(r, ShiftLeft(r, k))
    ensures s == r
  {
    XorSwap(s, ShiftLeft(s, k), r, ShiftLeft(r, k));
    ShiftLeftOfXor(s, r, k);
    ShiftFixpointIsZero(XorWord(s, r), k);
    XorZero(s, r);
  }

  lemma DownStepInjective(s: Word, r: Word, k: nat)
    requires k > 0 && XorWord(s, ShiftDown(s, k)) == XorWord(r, ShiftDown(r, k))
    ensures s == r
  {
    XorSwap(s, ShiftDown(s, k), r, ShiftDown(r, k));
    ShiftDownOfXor(s, r, k);
    HalvedFixpoint(XorWord(s, r), k);
    XorZero(s, r);
  }

  /** Different words have different successors. */
  lemma XorshiftInjective(s: Word, r: Word)
    requires Xorshift(s) == Xorshift(r)
    ensures s == r
  {
    var a, c := XorWord(s, ShiftLeft(s, 13)), XorWord(r, ShiftLeft(r, 13));
    LeftStepInjective(XorWord(a, ShiftDown(a, 17)), XorWord(c, ShiftDown(c, 17)), 5);
    DownStepInjective(a, c, 17);
    LeftStepInjective(s, r, 13);
  }

  lemma XorshiftOfZero()
    ensures Xorshift(0) == 0
  {
    Pow2Values();
    assert ShiftLeft(0, 13) == 0 && ShiftLeft(0, 5) == 0;
    ModUnique(0, Pow2(17), 0);
  }

  lemma XorshiftKeepsNonzero(s: Word)
    requires s != 0
    ensures Xorshift(s) != 0
  {
    XorshiftOfZero();
    if Xorshift(s) == 0 {
      XorshiftInjective(s, 0);
    }
  }
}
