/** The value functions applied lane by lane by the SIMD instructions: saturating addition and
    subtraction, the logical/arithmetic saturating shift, the narrowing shift and the high-half
    multiplications. A lane of type `LaneType(bits, signed)` is the integer it denotes; the
    C++ casts and the sign tests by exclusive-or are written out. */
module LaneArith {
  import opened Words

  datatype LaneType = LaneType(bits: int, isSigned: bool) {
    function Min(): int
      requires bits > 0
    {
      if isSigned then -Pow2(bits - 1) else 0
    }

    function Max(): int
      requires bits > 0
    {
      if isSigned then Pow2(bits - 1) - 1 else Pow2(bits) - 1
    }

    predicate Holds(v: int)
      requires bits > 0
    {
      Min() <= v <= Max()
    }

    /** What a conversion of `x` to this type keeps. */
    function Cast(x: int): int
      requires bits > 0
    {
      var u := x % Pow2(bits);
      if isSigned && u >= Pow2(bits - 1) then u - Pow2(bits) else u
    }
  }

  function Int(bits: int): LaneType {
    LaneType(bits, true)
  }

  function UInt(bits: int): LaneType {
    LaneType(bits, false)
  }

  /** The nearest value of the type: the reference for every saturating operation below. */
  function Clamp(t: LaneType, x: int): int
    requires t.bits > 0
  {
    if x < t.Min() then t.Min() else if x > t.Max() then t.Max() else x
  }

  /** The reference for rounding right shifts. */
  function ShiftRight(round: bool, v: int, s: nat): int {
    (v + (if round && s > 0 then Pow2(s - 1) else 0)) / Pow2(s)
  }

  lemma CastInRange(t: LaneType, x: int)
    requires t.bits > 0 && t.Holds(x)
    ensures t.Cast(x) == x
  {
    var p := Pow2(t.bits);
    assert p == 2 * Pow2(t.bits - 1);
    if x < 0 {
      assert x % p == x + p by {
        ModUnique(x, p, -1);
      }
    } else {
      ModUnique(x, p, 0);
    }
  }

  /** The values of a type are 2^bits consecutive integers, from -2^(bits - 1) when signed and from 0
      otherwise. */
  lemma TypeRange(t: LaneType, v: int)
    requires t.bits > 0
    ensures t.isSigned ==> (t.Holds(v) <==> -Pow2(t.bits - 1) <= v < Pow2(t.bits - 1))
    ensures !t.isSigned ==> (t.Holds(v) <==> 0 <= v < Pow2(t.bits))
    ensures t == if t.isSigned then Int(t.bits) else UInt(t.bits)
  {
  }

  /** A conversion gives the one value of the type that differs by a multiple of 2^bits. */
  lemma CastIsCongruent(t: LaneType, x: int, v: int)
    requires t.bits > 0
    ensures t.Cast(x) == v <==> t.Holds(v) && v % Pow2(t.bits) == x % Pow2(t.bits)
  {
    var p := Pow2(t.bits);
    assert p == 2 * Pow2(t.bits - 1);
    DivMod(x, p);
    if t.Holds(v) {
      ModUnique(v, p, if v < 0 then -1 else 0);
    }
    var c := t.Cast(x);
    ModUnique(c, p, if c < 0 then -1 else 0);
  }

  /** Clamping gives a value of the type with no other one between it and `x`. */
  lemma ClampIsNearest(t: LaneType, x: int, v: int)
    requires t.bits > 0 && t.Holds(v)
    ensures t.Holds(Clamp(t, x))
    ensures x <= Clamp(t, x) <= v || v <= Clamp(t, x) <= x
  {
  }

  /** Shifting right gives the greatest integer not above v / 2^s, and with rounding the integer nearest
      to it, upward from the middle. */
  lemma ShiftRightRounds(round: bool, v: int, s: nat, q: int)
    ensures ShiftRight(round, v, s) == q <==>
            if round then -Pow2(s) < 2 * (q * Pow2(s) - v) <= Pow2(s) else q * Pow2(s) <= v < q * Pow2(s) + Pow2(s)
  {
    FloorIs(v + (if round && s > 0 then Pow2(s - 1) else 0), Pow2(s), q);
    assert s > 0 ==> Pow2(s) == 2 * Pow2(s - 1);
  }

  lemma FloorIs(x: int, p: int, q: int)
    requires p > 0
    ensures x / p == q <==> q * p <= x < q * p + p
  {
    DivMod(x, p);
    if q * p <= x < q * p + p {
      ModUnique(x, p, q);
    }
  }

  // ---------------------------------------------------------------- saturating add and subtract

  function VAdds(n: int, a: int, b: int): int
    requires n > 0
  {
    var sum := Int(n).Cast(a + b);
    if (a < 0) == (b < 0) && (sum < 0) != (a < 0) then
      if a > 0 then Int(n).Max() else Int(n).Min()
    else
      sum
  }

  function VAddsu(n: int, a: int, b: int): int
    requires n > 0
  {
    var sum := UInt(n).Cast(a + b);
    if sum < a then UInt(n).Max() else sum
  }

  function VSubs(n: int, a: int, b: int): int
    requires n > 0
  {
    var sub := Int(n).Cast(a - b);
    if (a < 0) != (b < 0) && (sub < 0) == (b < 0) then
      if b < 0 then Int(n).Max() else Int(n).Min()
    else
      sub
  }

  /** A sum outside the signed range wraps to the other side by exactly one turn. */
  lemma CastOneTurn(n: int, x: int)
    requires n > 0
    ensures Pow2(n - 1) <= x < Pow2(n) + Pow2(n - 1) ==> Int(n).Cast(x) == x - Pow2(n)
    ensures -Pow2(n) - Pow2(n - 1) <= x < -Pow2(n - 1) ==> Int(n).Cast(x) == x + Pow2(n)
  {
    var p := Pow2(n);
    assert p == 2 * Pow2(n - 1);
    if Pow2(n - 1) <= x < p {
      ModUnique(x, p, 0);
    } else if p <= x < p + Pow2(n - 1) {
      ModUnique(x, p, 1);
    } else if -p <= x < -Pow2(n - 1) {
      ModUnique(x, p, -1);
    } else if -p - Pow2(n - 1) <= x < -p {
      ModUnique(x, p, -2);
    }
  }

  lemma VAddsSaturates(n: int, a: int, b: int)
    requires n > 0 && Int(n).Holds(a) && Int(n).Holds(b)
    ensures VAdds(n, a, b) == Clamp(Int(n), a + b)
  {
    CastOneTurn(n, a + b);
    if Int(n).Holds(a + b) {
      CastInRange(Int(n), a + b);
    }
  }

  lemma VSubsSaturates(n: int, a: int, b: int)
    requires n > 0 && Int(n).Holds(a) && Int(n).Holds(b)
    ensures VSubs(n, a, b) == Clamp(Int(n), a - b)
  {
    CastOneTurn(n, a - b);
    if Int(n).Holds(a - b) {
      CastInRange(Int(n), a - b);
    }
  }

  lemma VAddsuSaturates(n: int, a: int, b: int)
    requires n > 0 && UInt(n).Holds(a) && UInt(n).Holds(b)
    ensures VAddsu(n, a, b) == Clamp(UInt(n), a + b)
  {
    if a + b < Pow2(n) {
      ModUnique(a + b, Pow2(n), 0);
    } else {
      ModUnique(a + b, Pow2(n), 1);
    }
  }

  // ---------------------------------------------------------------- saturating shift

  /** Left or right shift with saturation. The shift amount is an `int`; its negation must not
      overflow, which for 32-bit lanes excludes the least amount. */
  function VShift(t: LaneType, round: bool, v: int, shamt: int): int
    requires t.bits > 0 && -0x8000_0000 < shamt
  {
    if t.isSigned then VShiftSigned(t.bits, round, v, shamt) else VShiftUnsigned(t.bits, round, v, shamt)
  }

  function VShiftSigned(n: int, round: bool, v: int, shamt: int): int
    requires n > 0
  {
    if v == 0 then 0
    else
      var shift :=
        if v < 0 && shamt >= n then -1 + (if round then 1 else 0)
        else if v > 0 && shamt >= n then 0
        else if shamt > 0 then (v + (if round then Pow2(shamt - 1) else 0)) / Pow2(shamt)
        else
          var ushamt := if -shamt <= n then -shamt else n;
          Int(2 * n).Cast(UInt(2 * n).Cast(v) * Pow2(ushamt));
      SaturateSigned(n, v, shamt, shift)
  }

  /** The saturation tests look at the operand's sign and at the shifted value. */
  function SaturateSigned(n: int, v: int, shamt: int, shift: int): int
    requires n > 0
  {
    if v < 0 && (shamt <= -n || shift < Int(n).Min()) then Int(n).Min()
    else if v > 0 && (shamt <= -n || shift > Int(n).Max()) then Int(n).Max()
    else shift
  }

  function VShiftUnsigned(n: int, round: bool, v: int, shamt: int): int
    requires n > 0
  {
    if v == 0 then 0
    else
      var shift :=
        if shamt > n then 0
        else if shamt > 0 then (v + (if round then Pow2(shamt - 1) else 0)) / Pow2(shamt)
        else
          var ushamt := if -shamt <= n then -shamt else n;
          UInt(2 * n).Cast(v * Pow2(ushamt));
      SaturateUnsigned(n, shamt, shift)
  }

  function SaturateUnsigned(n: int, shamt: int, shift: int): int
    requires n > 0
  {
    if shamt < -n || shift > UInt(n).Max() then UInt(n).Max() else shift
  }

  /** The shift without word sizes: scale by a power of two, round, and clamp once. */
  function VShiftSpec(t: LaneType, round: bool, v: int, shamt: int): int
    requires t.bits > 0
  {
    if shamt > 0 then Clamp(t, ShiftRight(round, v, shamt)) else Clamp(t, v * Pow2(-shamt))
  }

  /** Shifting right by at least the width leaves only the sign, or nothing after rounding. */
  lemma ShiftOut(n: int, round: bool, v: int, s: nat)
    requires n > 0 && -Pow2(n - 1) <= v < Pow2(n - 1) && s >= n
    ensures ShiftRight(round, v, s) == if round || v >= 0 then 0 else -1
  {
    Pow2Monotone(n - 1, s - 1);
    if round || v >= 0 {
      ModUnique(v + (if round then Pow2(s - 1) else 0), Pow2(s), 0);
    } else {
      ModUnique(v, Pow2(s), -1);
    }
  }

  /** A quotient by a power of two stays between the operand's bounds. */
  lemma ShiftRightHolds(t: LaneType, round: bool, v: int, s: nat)
    requires t.bits > 0 && t.Holds(v) && s > 0
    ensures t.Holds(ShiftRight(round, v, s))
  {
    QuotientHolds(t.Min(), t.Max() + 1, v, Pow2(s - 1), if round then Pow2(s - 1) else 0);
  }

  lemma QuotientHolds(lo: int, hi: int, v: int, h: int, rounding: int)
    requires lo <= 0 < hi && lo <= v < hi && h > 0 && 0 <= rounding <= h
    ensures lo <= (v + rounding) / (2 * h) < hi
  {
    MulMono(1, 2 * h, -lo);
    MulMono(1, h, hi - 1);
    Distribute(hi, 1, h);
    assert hi * (2 * h) == 2 * (hi * h) && h * (hi - 1) == (hi - 1) * h;
    assert lo * (2 * h) == -((2 * h) * -lo);
    DivBounds(v + rounding, 2 * h, lo, hi);
  }

  /** Scaling a lane by at most 2^n fits the double-width intermediate. */
  lemma WideShiftExact(n: int, v: int, k: nat)
    requires n > 0 && Int(n).Holds(v) && k <= n
    ensures Int(2 * n).Cast(UInt(2 * n).Cast(v) * Pow2(k)) == v * Pow2(k)
  {
    Pow2Monotone(n - 1, 2 * n - 1);
    ScaledFitsDouble(n, v, k);
    CastInRange(Int(2 * n), v * Pow2(k));
    UnsignedView(v, Pow2(2 * n), Pow2(k));
    SameCast(2 * n, UInt(2 * n).Cast(v) * Pow2(k), v * Pow2(k));
  }

  lemma SameCast(n: int, x: int, y: int)
    requires n > 0 && x % Pow2(n) == y % Pow2(n)
    ensures Int(n).Cast(x) == Int(n).Cast(y)
  {
  }

  /** Multiplying the unsigned view of `v` changes the product by whole turns only. */
  lemma UnsignedView(v: int, w: int, p: int)
    requires w > 0 && -w <= v < w
    ensures ((v % w) * p) % w == (v * p) % w
  {
    if v < 0 {
      ModUnique(v, w, -1);
      Distribute(v, w, p);
      ModShift(v * p, p, w);
    } else {
      ModUnique(v, w, 0);
    }
  }

  lemma ScaledFitsDouble(n: int, v: int, k: nat)
    requires n > 0 && Int(n).Holds(v) && k <= n
    ensures Int(2 * n).Holds(v * Pow2(k))
  {
    Pow2Monotone(k, n);
    Pow2Add(n - 1, n);
    assert n - 1 + n == 2 * n - 1;
    MulBoth(v, Pow2(n - 1), Pow2(k), Pow2(n));
  }

  lemma MulBoth(v: int, m: int, p: int, q: int)
    requires -m <= v < m && 0 < p <= q
    ensures -(m * q) <= v * p < m * q
  {
    MulMono(v, m - 1, p);
    MulMono(-m, v, p);
    Distribute(m, 1, p);
    MulMono(p, q, m);
  }

  lemma ModShift(x: int, p: int, w: int)
    requires w > 0
    ensures (x + w * p) % w == x % w
  {
    DivMod(x, w);
    Distribute(x / w, p, w);
    ModUnique(x + w * p, w, x / w + p);
  }

  lemma UnsignedWideExact(n: int, v: int, k: nat)
    requires n > 0 && 0 <= v < Pow2(n) && k <= n
    ensures UInt(2 * n).Cast(v * Pow2(k)) == v * Pow2(k)
  {
    Pow2Add(n, n);
    Pow2Monotone(k, n);
    MulBoth(v, Pow2(n), Pow2(k), Pow2(n));
    MulMono(0, v, Pow2(k));
    ModUnique(v * Pow2(k), Pow2(2 * n), 0);
  }

  /** A nonzero lane scaled by at least 2^n lies beyond the range. */
  lemma ScaledBeyond(n: int, v: int, k: nat)
    requires n > 0 && v != 0 && k >= n
    ensures v > 0 ==> v * Pow2(k) >= Pow2(n)
    ensures v < 0 ==> v * Pow2(k) <= -Pow2(n)
  {
    Pow2Monotone(n, k);
    if v > 0 {
      MulMono(1, v, Pow2(k));
    } else {
      MulMono(v, -1, Pow2(k));
    }
  }

  /** The branches of the shift helper implement one clamp of one exact quotient or product, for
      every width, every operand and every shift amount that can be negated. */
  lemma VShiftMeetsSpec(t: LaneType, round: bool, v: int, shamt: int)
    requires t.bits > 0 && t.Holds(v) && -0x8000_0000 < shamt
    ensures VShift(t, round, v, shamt)
            == if shamt > 0 then Clamp(t, ShiftRight(round, v, shamt)) else Clamp(t, v * Pow2(-shamt))
  {
    if v == 0 {
      ZeroShift(t, round, shamt);
    } else if shamt > 0 {
      RightShiftMeetsSpec(t, round, v, shamt);
    } else if t.isSigned {
      LeftShiftMeetsSpec(t.bits, round, v, shamt);
    } else {
      UnsignedLeftShiftMeetsSpec(t.bits, round, v, shamt);
    }
  }

  lemma ZeroShift(t: LaneType, round: bool, shamt: int)
    requires t.bits > 0 && -0x8000_0000 < shamt
    ensures VShiftSpec(t, round, 0, shamt) == 0
  {
    if shamt > 0 {
      ModUnique(if round then Pow2(shamt - 1) else 0, Pow2(shamt), 0);
    }
  }

  lemma RightShiftMeetsSpec(t: LaneType, round: bool, v: int, shamt: int)
    requires t.bits > 0 && t.Holds(v) && v != 0 && 0 < shamt
    ensures VShift(t, round, v, shamt) == VShiftSpec(t, round, v, shamt)
  {
    ShiftRightHolds(t, round, v, shamt);
    if t.isSigned && shamt >= t.bits {
      ShiftOut(t.bits, round, v, shamt);
    } else if !t.isSigned && shamt > t.bits {
      ShiftOut(t.bits + 1, round, v, shamt);
    }
  }

  lemma LeftShiftMeetsSpec(n: int, round: bool, v: int, shamt: int)
    requires n > 0 && Int(n).Holds(v) && v != 0 && -0x8000_0000 < shamt <= 0
    ensures VShiftSigned(n, round, v, shamt) == VShiftSpec(Int(n), round, v, shamt)
  {
    var k := if -shamt <= n then -shamt else n;
    WideShiftExact(n, v, k);
    SaturatedSigned(n, v, k, v * Pow2(k), shamt, v * Pow2(-shamt));
  }

  /** Saturating the exact product of the limited amount clamps that of the whole amount. */
  lemma SaturatedSigned(n: int, v: int, k: nat, shift: int, shamt: int, exact: int)
    requires n > 0 && v != 0 && shamt <= 0 && k == (if -shamt <= n then -shamt else n)
    requires shift == v * Pow2(k) && exact == v * Pow2(-shamt)
    ensures SaturateSigned(n, v, shamt, shift) == Clamp(Int(n), exact)
  {
    SameSign(v, Pow2(-shamt), exact);
    if shamt <= -n {
      ScaledBeyond(n, v, -shamt);
    }
  }

  lemma SameSign(v: int, p: int, x: int)
    requires p > 0 && x == v * p
    ensures (v > 0 ==> x > 0) && (v < 0 ==> x < 0)
  {
    MulUnit(v, p);
  }

  lemma UnsignedLeftShiftMeetsSpec(n: int, round: bool, v: int, shamt: int)
    requires n > 0 && UInt(n).Holds(v) && v != 0 && -0x8000_0000 < shamt <= 0
    ensures VShiftUnsigned(n, round, v, shamt) == VShiftSpec(UInt(n), round, v, shamt)
  {
    var k := if -shamt <= n then -shamt else n;
    UnsignedWideExact(n, v, k);
    SaturatedUnsigned(n, v, k, v * Pow2(k), shamt, v * Pow2(-shamt));
  }

  lemma SaturatedUnsigned(n: int, v: int, k: nat, shift: int, shamt: int, exact: int)
    requires n > 0 && v > 0 && shamt <= 0 && k == (if -shamt <= n then -shamt else n)
    requires shift == v * Pow2(k) && exact == v * Pow2(-shamt)
    ensures SaturateUnsigned(n, shamt, shift) == Clamp(UInt(n), exact)
  {
    SameSign(v, Pow2(-shamt), exact);
    if shamt <= -n {
      ScaledBeyond(n, v, -shamt);
    }
  }

  // ---------------------------------------------------------------- narrowing shift

  /** Right shift of a wide lane by the low bits of `vs2`, rounded and clamped to the narrow type. */
  function VSrans(td: LaneType, srcBits: nat, round: bool, v: int, vs2: int): int
    requires td.bits > 0 && srcBits > 0
  {
    var s := vs2 % srcBits;
    var res := (v + (if s != 0 && round then Pow2(s - 1) else 0)) / Pow2(s);
    if res < td.Min() then td.Min()
    else if res > td.Max() then td.Max()
    else if v == 0 then 0
    else res
  }

  lemma VSransIsClampedShift(td: LaneType, srcBits: nat, round: bool, v: int, vs2: int)
    requires td.bits > 0 && srcBits > 0
    ensures VSrans(td, srcBits, round, v, vs2) == Clamp(td, ShiftRight(round, v, vs2 % srcBits))
  {
    var s := vs2 % srcBits;
    if v == 0 {
      ModUnique(if s != 0 && round then Pow2(s - 1) else 0, Pow2(s), 0);
    }
  }

  // ---------------------------------------------------------------- halving add and high-half multiplications

  function VHadd(t: LaneType, round: bool, a: int, b: int): int
    requires t.bits > 0
  {
    t.Cast((a + b + (if round then 1 else 0)) / 2)
  }

  function VMulh(t: LaneType, round: bool, a: int, b: int): int
    requires t.bits > 0
  {
    t.Cast((a * b + (if round then Pow2(t.bits - 1) else 0)) / Pow2(t.bits))
  }

  function VAddw(t: LaneType, a: int, b: int): int
    requires t.bits > 0
  {
    LaneType(2 * t.bits, t.isSigned).Cast(a + b)
  }

  function VMulw(t: LaneType, a: int, b: int): int
    requires t.bits > 0
  {
    LaneType(2 * t.bits, t.isSigned).Cast(a * b)
  }

  /** Widening sums and products never wrap: the double-width type holds them. */
  lemma WideningExact(t: LaneType, a: int, b: int)
    requires t.bits > 0 && t.Holds(a) && t.Holds(b)
    ensures VAddw(t, a, b) == a + b && VMulw(t, a, b) == a * b
  {
    var m := Pow2(t.bits - 1);
    Pow2Add(t.bits, t.bits);
    Squares(m);
    ProductBounds(t, a, b);
    MulUnit(m, m);
    CastInRange(LaneType(2 * t.bits, t.isSigned), a + b);
    CastInRange(LaneType(2 * t.bits, t.isSigned), a * b);
  }

  lemma ProductBounds(t: LaneType, a: int, b: int)
    requires t.bits > 0 && t.Holds(a) && t.Holds(b)
    ensures t.isSigned ==> SignedProductRange(Pow2(t.bits - 1), a, b)
    ensures !t.isSigned ==> 0 <= a * b <= (Pow2(t.bits) - 1) * (Pow2(t.bits) - 1)
  {
    if t.isSigned {
      SignedProduct(a, b, Pow2(t.bits - 1));
    } else {
      var p := Pow2(t.bits) - 1;
      MulMono(a, p, b);
      MulMono(b, p, p);
      MulMono(0, a, b);
    }
  }

  ghost predicate SignedProductRange(m: int, a: int, b: int) {
    m - m * m <= a * b <= m * m && (a * b > m * m - m ==> a == -m && b == -m)
  }

  lemma SignedProduct(a: int, b: int, m: int)
    requires m > 0 && -m <= a < m && -m <= b < m
    ensures SignedProductRange(m, a, b)
  {
    UnsignedProduct(Abs(a), Abs(b), m);
    Signs(a, b);
  }

  lemma UnsignedProduct(a: int, b: int, m: int)
    requires 0 <= a <= m && 0 <= b <= m && m > 0
    ensures 0 <= a * b <= m * m && (a * b > m * m - m ==> a == m && b == m)
  {
    MulMono(0, a, b);
    MulMono(b, m, a);
    MulMono(a, m, m);
    Distribute(m, 1, m);
    if a < m {
      MulMono(a, m - 1, m);
    } else if b < m {
      MulMono(b, m - 1, m);
    }
  }

  lemma Signs(a: int, b: int)
    ensures a * b == -(a * (-b)) == -((-a) * b) == (-a) * (-b)
  {
  }

  lemma ShiftDownByWidth(t: LaneType, round: bool, a: int, b: int)
    requires t.bits > 1 && t.Holds(a) && t.Holds(b)
    ensures t.Holds(ShiftRight(round, a * b, t.bits))
  {
    var m := Pow2(t.bits - 1);
    ProductBounds(t, a, b);
    HighHalfBounds(t.isSigned, m, a * b, if round then m else 0);
  }

  lemma HighHalfBounds(isSigned: bool, m: int, product: int, rounding: int)
    requires m > 1 && 0 <= rounding <= m
    requires isSigned ==> m - m * m <= product <= m * m
    requires !isSigned ==> 0 <= product <= (2 * m - 1) * (2 * m - 1)
    ensures var q := (product + rounding) / (2 * m); if isSigned then -m <= q < m else 0 <= q < 2 * m
  {
    Squares(m);
    MulMono(2, m, m);
    if isSigned {
      DivBounds(product + rounding, 2 * m, -m, m);
    } else {
      DivBounds(product + rounding, 2 * m, 0, 2 * m);
    }
  }

  lemma Squares(m: int)
    ensures 2 * m * (2 * m) == 4 * (m * m)
    ensures m * (2 * m) == 2 * (m * m) && -m * (2 * m) == -2 * (m * m)
    ensures (2 * m - 1) * (2 * m - 1) == 4 * (m * m) - 4 * m + 1
  {
  }

  /** Narrowing by 0 after a widening sum is the saturating sum. */
  lemma NarrowedSumSaturates(t: LaneType, round: bool, a: int, b: int)
    requires t.bits > 0 && t.Holds(a) && t.Holds(b)
    ensures VSrans(t, 2 * t.bits, round, VAddw(t, a, b), 0)
            == if t.isSigned then VAdds(t.bits, a, b) else VAddsu(t.bits, a, b)
  {
    WideningExact(t, a, b);
    VSransIsClampedShift(t, 2 * t.bits, round, a + b, 0);
    if t.isSigned {
      VAddsSaturates(t.bits, a, b);
    } else {
      VAddsuSaturates(t.bits, a, b);
    }
  }

  /** Narrowing by 1 after a widening sum is the halving sum with the same rounding. */
  lemma NarrowedSumHalves(t: LaneType, round: bool, a: int, b: int)
    requires t.bits > 0 && t.Holds(a) && t.Holds(b)
    ensures VSrans(t, 2 * t.bits, round, VAddw(t, a, b), 1) == VHadd(t, round, a, b)
  {
    WideningExact(t, a, b);
    ModUnique(1, 2 * t.bits, 0);
    VSransIsClampedShift(t, 2 * t.bits, round, a + b, 1);
    assert Pow2(1) == 2 && Pow2(0) == 1;
    HalfHolds(t, round, a, b);
    CastInRange(t, (a + b + (if round then 1 else 0)) / 2);
  }

  lemma HalfHolds(t: LaneType, round: bool, a: int, b: int)
    requires t.bits > 0 && t.Holds(a) && t.Holds(b)
    ensures t.Holds((a + b + (if round then 1 else 0)) / 2)
  {
  }

  /** Narrowing by the lane width after a widening product is the high-half product. */
  lemma NarrowedProductIsHighHalf(t: LaneType, round: bool, a: int, b: int)
    requires t.bits > 1 && t.Holds(a) && t.Holds(b)
    ensures VSrans(t, 2 * t.bits, round, VMulw(t, a, b), t.bits) == VMulh(t, round, a, b)
  {
    WideningExact(t, a, b);
    assert t.bits % (2 * t.bits) == t.bits by {
      ModUnique(t.bits, 2 * t.bits, 0);
    }
    VSransIsClampedShift(t, 2 * t.bits, round, a * b, t.bits);
    ShiftDownByWidth(t, round, a, b);
    CastInRange(t, ShiftRight(round, a * b, t.bits));
  }

  /** Rounding term of the doubling multiplication: 2^(n-2), negated for negative products on
      request. */
  function DmulhRounding(n: int, round: bool, roundNeg: bool, product: int): int
    requires n >= 2
  {
    if !round then 0 else if product < 0 && roundNeg then -Pow2(n - 2) else Pow2(n - 2)
  }

  function DmulhQuotient(n: int, round: bool, roundNeg: bool, a: int, b: int): int
    requires n >= 2
  {
    (a * b + DmulhRounding(n, round, roundNeg, a * b)) / Pow2(n - 1)
  }

  function VDmulh(n: int, round: bool, roundNeg: bool, a: int, b: int): int
    requires n >= 2
  {
    var q := DmulhQuotient(n, round, roundNeg, a, b);
    Int(n).Cast(if a == Int(n).Min() && b == Int(n).Min() then Int(n).Max() else q)
  }

  /** The doubled high half leaves the lane range only for least times least, in either rounding
      mode; so the one special case of the helper is exactly saturation. */
  lemma VDmulhSaturatesOnce(n: int, round: bool, roundNeg: bool, a: int, b: int)
    requires n >= 2 && Int(n).Holds(a) && Int(n).Holds(b)
    ensures Int(n).Holds(DmulhQuotient(n, round, roundNeg, a, b))
            <==> !(a == Int(n).Min() && b == Int(n).Min())
    ensures VDmulh(n, round, roundNeg, a, b) == Clamp(Int(n), DmulhQuotient(n, round, roundNeg, a, b))
  {
    var m := Pow2(n - 1);
    SignedProduct(a, b, m);
    DmulhBounds(m, a, b, DmulhRounding(n, round, roundNeg, a * b));
    CastInRange(Int(n), Int(n).Max());
    if a != -m || b != -m {
      CastInRange(Int(n), DmulhQuotient(n, round, roundNeg, a, b));
    }
  }

  lemma DmulhBounds(m: int, a: int, b: int, rnd: int)
    requires m > 1 && -m <= 2 * rnd <= m && SignedProductRange(m, a, b)
    requires a == -m && b == -m ==> rnd >= 0
    ensures var q := (a * b + rnd) / m;
      if a == -m && b == -m then q == m else -m <= q < m
  {
    var product := a * b;
    if a == -m && b == -m {
      assert product == m * m;
      ModUnique(product + rnd, m, m);
    } else {
      assert product <= m * m - m;
      assert (-m) * m == -(m * m);
      DivBounds(product + rnd, m, -m, m);
    }
  }

  lemma Doubled(x: int, p: int)
    requires p > 0
    ensures 2 * x / (2 * p) == x / p
  {
    DivMod(x, p);
    ModUnique(2 * x, 2 * p, x / p);
  }

  /** The doubling multiplication is 2ab / 2^n rounded and clamped. Without rounding it takes the floor;
      rounding takes the nearest integer, upward from the middle, except that on request negative
      products are rounded by subtracting half a unit before the floor. */
  lemma VDmulhRounds(n: int, round: bool, roundNeg: bool, a: int, b: int)
    requires n >= 2 && Int(n).Holds(a) && Int(n).Holds(b)
    ensures VDmulh(n, round, roundNeg, a, b)
            == if round && roundNeg && a * b < 0 then Clamp(Int(n), (2 * (a * b) - Pow2(n - 1)) / Pow2(n))
               else Clamp(Int(n), ShiftRight(round, 2 * (a * b), n))
  {
    VDmulhSaturatesOnce(n, round, roundNeg, a, b);
    Doubled(a * b + DmulhRounding(n, round, roundNeg, a * b), Pow2(n - 1));
    assert Pow2(n) == 2 * Pow2(n - 1) && Pow2(n - 1) == 2 * Pow2(n - 2);
  }
}
