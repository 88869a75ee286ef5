/** Conversion between single precision and bfloat16 on bit patterns, its meaning on real values, and
    the second, independently written conversion. */
module Bf16 {
  import opened Words

  type Half = h: int | 0 <= h < 0x1_0000

  datatype Mode = NearestEven | TowardZero | Down | Up | NearestAway

  datatype Flags = Flags(invalid: bool, overflow: bool, underflow: bool, inexact: bool) {
    function Or(f: Flags): Flags {
      Flags(invalid || f.invalid, overflow || f.overflow, underflow || f.underflow, inexact || f.inexact)
    }
  }

  /** Or-ing flags is a least upper bound: a flag is raised when one of the two raises it. */
  lemma OrIsUnion(f: Flags, g: Flags)
    ensures f.Or(g).invalid <==> f.invalid || g.invalid
    ensures f.Or(g).overflow <==> f.overflow || g.overflow
    ensures f.Or(g).underflow <==> f.underflow || g.underflow
    ensures f.Or(g).inexact <==> f.inexact || g.inexact
  {
  }

  const NO_FLAGS := Flags(false, false, false, false)
  const CANONICAL_NAN: Half := 0x7FC0

  datatype Converted = Converted(value: int, flags: Flags)

  // ---------------------------------------------------------------- fields

  predicate Negative(bits: Word) {
    bits >= 0x8000_0000
  }

  /** The pattern without its sign. */
  function Magnitude(bits: Word): int {
    if Negative(bits) then bits - 0x8000_0000 else bits
  }

  function Exponent(m: int): int {
    m / 0x80_0000
  }

  predicate IsNaN(bits: Word) {
    Magnitude(bits) > 0x7F80_0000
  }

  predicate IsSignaling(bits: Word) {
    IsNaN(bits) && bits / 0x40_0000 % 2 == 0
  }

  predicate HalfIsNaN(h: Half) {
    h / 0x80 % 0x100 == 0xFF && h % 0x80 != 0
  }

  // ---------------------------------------------------------------- the conversions

  /** The increment of the truncated pattern. */
  function Increment(bits: Word, rm: Mode): int {
    var lsb, guardBit, sticky := bits / 0x1_0000 % 2 == 1, bits / 0x8000 % 2 == 1, bits % 0x8000 != 0;
    var up := match rm
      case NearestEven => guardBit && (lsb || sticky)
      case Up => !Negative(bits) && (guardBit || sticky)
      case Down => Negative(bits) && (guardBit || sticky)
      case NearestAway => guardBit
      case TowardZero => false;
    if up then 1 else 0
  }

  function HalfExponent(h: int): int {
    h / 0x80 % 0x100
  }

  function RoundBFloat16(bits: Word, rm: Mode): Converted {
    var inexact := bits / 0x8000 % 2 == 1 || bits % 0x8000 != 0;
    var increment := if inexact then Increment(bits, rm) else 0;
    var result := bits / 0x1_0000 + increment;
    var overflow := increment == 1 && HalfExponent(result) == 0xFF && bits / 0x80_0000 % 0x100 != 0xFF;
    var underflow := inexact && HalfExponent(result) == 0;
    Converted(result % 0x1_0000, Flags(false, overflow, underflow, inexact || overflow))
  }

  function ConvertF32ToBF16(bits: Word, rm: Mode): Converted {
    if IsNaN(bits) then Converted(CANONICAL_NAN, Flags(IsSignaling(bits), false, false, false))
    else RoundBFloat16(bits, rm)
  }

  function ConvertBF16ToF32Precise(h: Half): Converted {
    if HalfIsNaN(h) then Converted(0x7FC0_0000, Flags(h / 0x40 % 2 == 0, false, false, false))
    else Converted(h * 0x1_0000, NO_FLAGS)
  }

  /** The override's straight-line conversion. */
  method FcvtBf16S(f: Word, rm: Mode) returns (bf16: Half, fflags: Flags)
    ensures Converted(bf16, fflags) == ConvertF32ToBF16(f, rm)
  {
    fflags := NO_FLAGS;
    var isNaN := f / 0x80_0000 % 0x100 == 0xFF && f % 0x80_0000 != 0;
    NaNByFields(f);
    if isNaN {
      bf16 := 0x7FC0;
      if f / 0x40_0000 % 2 == 0 {
        fflags := fflags.(invalid := true);
      }
    } else {
      var sign, rBit, sBit, lBit := f / 0x8000_0000 != 0, f / 0x8000 % 2 == 1, f % 0x8000 != 0, f / 0x1_0000 % 2 == 1;
      if rBit || sBit {
        fflags := fflags.(inexact := true);
      }
      var increment := false;
      match rm {
        case NearestEven => increment := rBit && (lBit || sBit);
        case TowardZero => increment := false;
        case Down => increment := sign && (rBit || sBit);
        case Up => increment := !sign && (rBit || sBit);
        case NearestAway => increment := rBit;
      }
      var upper := f / 0x1_0000;
      if increment {
        upper := upper + 1;
      }
      var before, after := f / 0x80_0000 % 0x100, upper / 0x80 % 0x100;
      ExponentOfUpper(f);
      if before < 0xFF && after == 0xFF {
        fflags := fflags.(overflow := true, inexact := true);
      } else if after == 0 && fflags.inexact {
        fflags := fflags.(underflow := true);
      }
      bf16 := upper % 0x1_0000;
    }
  }

  lemma NaNByFields(f: Word)
    ensures IsNaN(f) <==> f / 0x80_0000 % 0x100 == 0xFF && f % 0x80_0000 != 0
  {
  }

  /** A NaN is signaling when the leading bit of its fraction is clear. */
  lemma SignalingByFields(f: Word)
    ensures IsSignaling(f) <==> f / 0x80_0000 % 0x100 == 0xFF && 0 < f % 0x80_0000 < 0x40_0000
  {
    NaNByFields(f);
    var e := f / 0x80_0000;
    assert f / 0x40_0000 == 2 * e + (if f % 0x80_0000 >= 0x40_0000 then 1 else 0);
  }

  /** Without an increment the exponent stays. */
  lemma ExponentOfUpper(f: Word)
    ensures f / 0x1_0000 / 0x80 % 0x100 == f / 0x80_0000 % 0x100
  {
  }

  // ---------------------------------------------------------------- real values

  /** Magnitudes in units of 2^-149; the pattern of infinity stands for 2^128. */
  function Real(m: int): int
    requires 0 <= m <= 0x7F80_0000
  {
    var e := Exponent(m);
    if e == 0 then m else (m - (e - 1) * 0x80_0000) * Pow2(e - 1)
  }

  /** One unit in the last place of single precision at a magnitude. */
  function Ulp(m: int): (u: int)
    requires 0 <= m <= 0x7F80_0000
    ensures u > 0
  {
    var e := Exponent(m);
    if e == 0 then 1 else Pow2(e - 1)
  }

  /** The value of a single-precision pattern that is not a NaN. */
  function Value(bits: Word): int
    requires !IsNaN(bits)
  {
    if Negative(bits) then -Real(Magnitude(bits)) else Real(Magnitude(bits))
  }

  predicate Proper(h: Half) {
    h % 0x8000 <= 0x7F80
  }

  function HalfValue(h: Half): int
    requires Proper(h)
  {
    Value(h * 0x1_0000)
  }

  /** Inside one binade, up to and including its end, magnitudes grow by one unit per step. */
  lemma RealLinear(m: int, d: int)
    requires 0 <= m && 0 <= d && m + d <= (Exponent(m) + 1) * 0x80_0000 && m + d <= 0x7F80_0000
    ensures Real(m + d) == Real(m) + d * Ulp(m)
  {
    var e := Exponent(m);
    if m + d < (e + 1) * 0x80_0000 {
      assert Exponent(m + d) == e;
      if e > 0 {
        Distribute(m - (e - 1) * 0x80_0000, d, Pow2(e - 1));
      }
    } else {
      assert Exponent(m + d) == e + 1;
      if e > 0 {
        Distribute(m - (e - 1) * 0x80_0000, d, Pow2(e - 1));
        assert Pow2(e) == 2 * Pow2(e - 1);
        assert 0x80_0000 * Pow2(e) == 0x100_0000 * Pow2(e - 1);
      } else {
        assert Pow2(0) == 1;
      }
    }
  }

  /** Two binades without a scale, and twice the value for each further one; the sign negates. */
  lemma RealScale(m: int, bits: Word)
    ensures 0 <= m < 0x100_0000 ==> Real(m) == m
    ensures 0x80_0000 <= m <= 0x7F00_0000 ==> Real(m + 0x80_0000) == 2 * Real(m)
    ensures 0x8000_0000 <= bits && !IsNaN(bits) ==> Value(bits) == -Value(bits - 0x8000_0000)
    ensures bits <= 0x7F80_0000 ==> Value(bits) == Real(bits)
  {
    if 0x80_0000 <= m <= 0x7F00_0000 {
      var e := Exponent(m);
      assert Exponent(m + 0x80_0000) == e + 1 && Pow2(e) == 2 * Pow2(e - 1);
      Twice(m - (e - 1) * 0x80_0000, Pow2(e - 1));
    }
  }

  lemma Twice(x: int, p: int)
    ensures x * (2 * p) == 2 * (x * p)
  {
  }
}
