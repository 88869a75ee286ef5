/** The rounding of single precision to bfloat16 in the order of the real values: every mode picks the
    value that IEEE 754-2008 section 4.3 requires, rounding is monotone, and nothing is lost on values
    that bfloat16 holds. */
module Bf16Rounding {
  import opened Words
  import opened Bf16

  // ---------------------------------------------------------------- the order of magnitudes

  lemma {:induction false} RealStrict(m: int, n: int)
    requires 0 <= m < n <= 0x7F80_0000
    ensures Real(m) < Real(n)
    decreases n
  {
    assert n <= (Exponent(n - 1) + 1) * 0x80_0000;
    RealLinear(n - 1, 1);
    if m < n - 1 {
      RealStrict(m, n - 1);
    }
  }

  lemma RealMonotone(m: int, n: int)
    requires 0 <= m <= n <= 0x7F80_0000
    ensures Real(m) <= Real(n)
  {
    if m < n {
      RealStrict(m, n);
    }
  }

  lemma RealZero()
    ensures Real(0) == 0
  {
  }

  /** The value of a bfloat16 magnitude. */
  function Grid(g: int): int
    requires 0 <= g <= 0x7F80
  {
    Real(g * 0x1_0000)
  }

  /** A magnitude between its two neighbouring bfloat16 magnitudes. */
  lemma Bracket(m: int)
    requires 0 <= m <= 0x7F80_0000
    ensures var g, d := m / 0x1_0000, m % 0x1_0000;
      && g <= 0x7F80 && Real(m) == Grid(g) + d * Ulp(m) && Ulp(m) > 0
      && (d > 0 ==> g < 0x7F80 && Grid(g + 1) == Grid(g) + 0x1_0000 * Ulp(m))
  {
    var g, d := m / 0x1_0000, m % 0x1_0000;
    var lo := g * 0x1_0000;
    assert m == lo + d;
    SameBinade(m);
    RealLinear(lo, d);
    if d > 0 {
      RealLinear(lo, 0x1_0000);
    }
  }

  lemma SameBinade(m: int)
    requires 0 <= m <= 0x7F80_0000
    ensures var lo := m / 0x1_0000 * 0x1_0000;
      Exponent(lo) == Exponent(m) && lo + 0x1_0000 <= (Exponent(m) + 1) * 0x80_0000
  {
    var q := m / 0x1_0000;
    assert Exponent(m) == q / 0x80;
  }

  /** The distance in units, as an integer multiple. */
  lemma Parts(m: int) returns (u: int)
    requires 0 <= m <= 0x7F80_0000
    ensures u > 0
    ensures var g, d := m / 0x1_0000, m % 0x1_0000;
      && g <= 0x7F80 && Real(m) == Grid(g) + d * u && (d > 0 ==> g < 0x7F80 && Grid(g + 1) == Real(m) + (0x1_0000 - d) * u)
  {
    u := Ulp(m);
    Bracket(m);
    Distribute(0x1_0000, m % 0x1_0000, u);
  }

  /** No bfloat16 magnitude lies strictly between the two neighbours. */
  lemma GridNeighbours(m: int, k: int)
    requires 0 <= m <= 0x7F80_0000 && 0 <= k <= 0x7F80
    ensures var g := m / 0x1_0000;
      && (k <= g ==> Grid(k) <= Grid(g) <= Real(m))
      && (k > g ==> g < 0x7F80 && Real(m) < Grid(g + 1) <= Grid(k))
  {
    var g := m / 0x1_0000;
    if k <= g {
      RealMonotone(k * 0x1_0000, g * 0x1_0000);
      RealMonotone(g * 0x1_0000, m);
    } else {
      RealStrict(m, (g + 1) * 0x1_0000);
      RealMonotone((g + 1) * 0x1_0000, k * 0x1_0000);
    }
  }

  // ---------------------------------------------------------------- results as signed magnitudes

  /** A proper bfloat16 pattern's sign and magnitude. */
  function HalfMagnitude(h: Half): int {
    if h >= 0x8000 then h - 0x8000 else h
  }

  lemma HalfParts(h: Half)
    requires Proper(h)
    ensures 0 <= HalfMagnitude(h) <= 0x7F80
    ensures HalfValue(h) == if h >= 0x8000 then -Grid(HalfMagnitude(h)) else Grid(HalfMagnitude(h))
    ensures Grid(HalfMagnitude(h)) >= 0
  {
    RealZero();
    RealMonotone(0, HalfMagnitude(h) * 0x1_0000);
  }

  /** The increment as a function of the magnitude's low half, its parity and the sign. */
  function Step(negative: bool, g: int, d: int, rm: Mode): int {
    if d == 0 then 0
    else match rm
      case NearestEven => if d > 0x8000 || (d == 0x8000 && g % 2 == 1) then 1 else 0
      case Up => if negative then 0 else 1
      case Down => if negative then 1 else 0
      case NearestAway => if d >= 0x8000 then 1 else 0
      case TowardZero => 0
  }

  /** The result keeps the sign; its magnitude is the lower neighbour or the next one. */
  lemma ResultParts(bits: Word, rm: Mode)
    requires !IsNaN(bits)
    ensures var m := Magnitude(bits);
      var h := RoundBFloat16(bits, rm).value;
      var r := m / 0x1_0000 + Step(Negative(bits), m / 0x1_0000, m % 0x1_0000, rm);
      0 <= h < 0x1_0000 && 0 <= r <= 0x7F80 && h == r + (if Negative(bits) then 0x8000 else 0)
  {
    IncrementIsStep(bits, rm);
  }

  lemma IncrementIsStep(bits: Word, rm: Mode)
    requires !IsNaN(bits)
    ensures var m := Magnitude(bits);
      var inexact := bits / 0x8000 % 2 == 1 || bits % 0x8000 != 0;
      && inexact == (m % 0x1_0000 != 0) && bits % 0x1_0000 == m % 0x1_0000
      && bits / 0x1_0000 == m / 0x1_0000 + (if Negative(bits) then 0x8000 else 0)
      && (if inexact then Increment(bits, rm) else 0) == Step(Negative(bits), m / 0x1_0000, m % 0x1_0000, rm)
  {
    LowHalf(bits);
  }

  lemma LowHalf(bits: Word)
    ensures bits % 0x1_0000 == bits / 0x8000 % 2 * 0x8000 + bits % 0x8000
  {
    var h := bits / 0x8000;
    assert bits == h * 0x8000 + bits % 0x8000 && h == h / 2 * 2 + h % 2;
    ModUnique(bits, 0x1_0000, h / 2);
  }

  function Rounded(bits: Word, rm: Mode): (h: Half)
    requires !IsNaN(bits)
    ensures Proper(h) && (h >= 0x8000 <==> Negative(bits))
  {
    ResultParts(bits, rm);
    RoundBFloat16(bits, rm).value
  }

  // ---------------------------------------------------------------- the directed modes

  /** The greatest bfloat16 value not above the input. */
  lemma RoundsDown(bits: Word, g: Half)
    requires !IsNaN(bits) && Proper(g)
    ensures HalfValue(Rounded(bits, Down)) <= Value(bits)
    ensures HalfValue(g) <= Value(bits) ==> HalfValue(g) <= HalfValue(Rounded(bits, Down))
  {
    Directed(bits, g, Down);
  }

  /** The least bfloat16 value not below the input. */
  lemma RoundsUp(bits: Word, g: Half)
    requires !IsNaN(bits) && Proper(g)
    ensures Value(bits) <= HalfValue(Rounded(bits, Up))
    ensures Value(bits) <= HalfValue(g) ==> HalfValue(Rounded(bits, Up)) <= HalfValue(g)
  {
    Directed(bits, g, Up);
  }

  /** The bfloat16 value of greatest magnitude not beyond the input, with the input's sign. */
  lemma RoundsTowardZero(bits: Word, g: Half)
    requires !IsNaN(bits) && Proper(g)
    ensures Abs(HalfValue(Rounded(bits, TowardZero))) <= Abs(Value(bits))
    ensures Abs(HalfValue(g)) <= Abs(Value(bits)) ==> Abs(HalfValue(g)) <= Abs(HalfValue(Rounded(bits, TowardZero)))
  {
    Directed(bits, g, TowardZero);
  }

  lemma Directed(bits: Word, g: Half, rm: Mode)
    requires !IsNaN(bits) && Proper(g)
    ensures var v, r, k := Value(bits), HalfValue(Rounded(bits, rm)), HalfValue(g);
      && (rm == Down ==> r <= v && (k <= v ==> k <= r))
      && (rm == Up ==> v <= r && (v <= k ==> r <= k))
      && (rm == TowardZero ==> Abs(r) <= Abs(v) && (Abs(k) <= Abs(v) ==> Abs(k) <= Abs(r)))
  {
    ResultParts(bits, rm);
    DirectedHalf(bits, Rounded(bits, rm), g, rm);
  }

  lemma DirectedHalf(bits: Word, h: Half, g: Half, rm: Mode)
    requires !IsNaN(bits) && Proper(g) && Proper(h) && (h >= 0x8000 <==> Negative(bits))
    requires var m := Magnitude(bits);
      HalfMagnitude(h) == m / 0x1_0000 + Step(Negative(bits), m / 0x1_0000, m % 0x1_0000, rm)
    ensures var v, r, k := Value(bits), HalfValue(h), HalfValue(g);
      && (rm == Down ==> r <= v && (k <= v ==> k <= r))
      && (rm == Up ==> v <= r && (v <= k ==> r <= k))
      && (rm == TowardZero ==> Abs(r) <= Abs(v) && (Abs(k) <= Abs(v) ==> Abs(k) <= Abs(r)))
  {
    var m := Magnitude(bits);
    HalfParts(h);
    HalfParts(g);
    DirectedMagnitude(m, HalfMagnitude(g));
    DirectedValues(rm, Negative(bits), m % 0x1_0000, Real(m), Grid(m / 0x1_0000), Grid(HalfMagnitude(h)), g >= 0x8000,
                   Grid(HalfMagnitude(g)));
  }

  lemma DirectedMagnitude(m: int, k: int)
    requires 0 <= m <= 0x7F80_0000 && 0 <= k <= 0x7F80
    ensures var g, d := m / 0x1_0000, m % 0x1_0000;
      && g <= 0x7F80 && Grid(g) <= Real(m) && (Grid(k) <= Real(m) ==> Grid(k) <= Grid(g))
      && (d == 0 ==> Grid(g) == Real(m))
      && (d > 0 ==> g < 0x7F80 && Real(m) < Grid(g + 1) && (Real(m) <= Grid(k) ==> Grid(g + 1) <= Grid(k)))
      && Grid(k) >= 0 && Grid(g) >= 0
  {
    var g, d := m / 0x1_0000, m % 0x1_0000;
    GridNeighbours(m, k);
    GridNeighbours(m, g);
    NonnegativeMagnitude(k * 0x1_0000);
    NonnegativeMagnitude(g * 0x1_0000);
    if d == 0 {
      assert m == g * 0x1_0000;
    } else {
      var u := Parts(m);
      GridNeighbours(m, g + 1);
      MulUnit(d, u);
    }
  }

  /** The order of the signed values, from the order of the magnitudes. */
  lemma DirectedValues(rm: Mode, negative: bool, d: int, x: int, lo: int, r: int, kNegative: bool, k: int)
    requires 0 <= lo <= x && k >= 0 && (k <= x ==> k <= lo) && (d == 0 ==> lo == x && r == x)
    requires d != 0 && ((rm == Up && !negative) || (rm == Down && negative)) ==> x < r && (x <= k ==> r <= k)
    requires (rm == TowardZero || (rm == Up && negative) || (rm == Down && !negative)) ==> r == lo
    ensures var v := if negative then -x else x;
      var w := if negative then -r else r;
      var q := if kNegative then -k else k;
      && (rm == Down ==> w <= v && (q <= v ==> q <= w))
      && (rm == Up ==> v <= w && (v <= q ==> w <= q))
      && (rm == TowardZero ==> Abs(w) <= Abs(v) && (Abs(q) <= Abs(v) ==> Abs(q) <= Abs(w)))
  {
  }

  lemma NonnegativeMagnitude(m: int)
    requires 0 <= m <= 0x7F80_0000
    ensures Real(m) >= 0 && Grid(0) == 0
  {
    RealZero();
    RealMonotone(0, m);
  }

  // ---------------------------------------------------------------- the nearest modes

  /** The distances from the input to the two neighbours, in units, decide the nearest one. */
  lemma NearestMagnitude(m: int, r: int, k: int)
    requires 0 <= m <= 0x7F80_0000 && 0 <= k <= 0x7F80 && 0 <= r <= 0x7F80
    requires var g, d := m / 0x1_0000, m % 0x1_0000;
      (r == g && d <= 0x8000) || (r == g + 1 && d >= 0x8000)
    ensures Abs(Real(m) - Grid(r)) <= Abs(Real(m) - Grid(k))
    ensures k != r && Abs(Real(m) - Grid(r)) == Abs(Real(m) - Grid(k)) ==>
              m % 0x1_0000 == 0x8000 && k + r == 2 * (m / 0x1_0000) + 1
  {
    var u := Parts(m);
    GridNeighbours(m, k);
    StrictDistances(m, k, u);
    DistanceOrder(m % 0x1_0000, u);
    NearestValues(m % 0x1_0000, m % 0x1_0000 * u, (0x1_0000 - m % 0x1_0000) * u, Real(m), m / 0x1_0000, Grid(m / 0x1_0000),
                  if m % 0x1_0000 > 0 then Grid(m / 0x1_0000 + 1) else 0, r, Grid(r), k, Grid(k));
  }

  /** Distances of `d` and `0x10000 - d` units compare as the units do. */
  lemma DistanceOrder(d: int, u: int)
    requires 0 <= d < 0x1_0000 && u > 0
    ensures d * u >= 0 && (0x1_0000 - d) * u > 0 && (d == 0 ==> d * u == 0)
    ensures d < 0x8000 ==> d * u < (0x1_0000 - d) * u
    ensures d == 0x8000 ==> d * u == (0x1_0000 - d) * u
    ensures d > 0x8000 ==> (0x1_0000 - d) * u < d * u
  {
    MulMono(0, d, u);
    MulUnit(0x1_0000 - d, u);
    Distribute(0x1_0000 - d, d, u);
    MulUnit(0x1_0000 - d - d, u);
  }

  /** The same in terms of the two distances `a` (below) and `b` (above). */
  lemma NearestValues(d: int, a: int, b: int, x: int, g: int, lo: int, hi: int, r: int, rv: int, k: int, kv: int)
    requires 0 <= d < 0x1_0000 && x == lo + a && a >= 0 && (d > 0 ==> hi == x + b && b > 0) && (d == 0 ==> a == 0)
    requires (d < 0x8000 ==> a < b) && (d == 0x8000 ==> a == b) && (d > 0x8000 ==> b < a)
    requires (r == g && rv == lo && d <= 0x8000) || (r == g + 1 && rv == hi && d >= 0x8000)
    requires (k < g ==> kv < lo) && (k == g ==> kv == lo) && (k == g + 1 && d > 0 ==> kv == hi) && (k > g + 1 && d > 0 ==> kv > hi)
    requires k > g ==> kv > x
    ensures Abs(x - rv) <= Abs(x - kv)
    ensures k != r && Abs(x - rv) == Abs(x - kv) ==> d == 0x8000 && k + r == 2 * g + 1
  {
  }

  /** Magnitudes other than the neighbours are strictly farther away than the neighbour on their side. */
  lemma StrictDistances(m: int, k: int, u: int)
    requires 0 <= m <= 0x7F80_0000 && 0 <= k <= 0x7F80
    ensures var g := m / 0x1_0000;
      && (k < g ==> Grid(k) < Grid(g)) && (k > g + 1 ==> g < 0x7F80 && Grid(g + 1) < Grid(k))
  {
    var g := m / 0x1_0000;
    if k < g {
      RealStrict(k * 0x1_0000, g * 0x1_0000);
    }
    if k > g + 1 {
      RealStrict((g + 1) * 0x1_0000, k * 0x1_0000);
    }
  }

  function Distance(bits: Word, g: Half): int
    requires !IsNaN(bits) && Proper(g)
  {
    Abs(Value(bits) - HalfValue(g))
  }

  /** No bfloat16 value is closer; an equally close other value loses the tie, to the even pattern or to
      the value farther from zero. */
  lemma RoundsToNearest(bits: Word, g: Half, rm: Mode)
    requires !IsNaN(bits) && Proper(g) && (rm == NearestEven || rm == NearestAway)
    ensures Distance(bits, Rounded(bits, rm)) <= Distance(bits, g)
    ensures HalfValue(g) != HalfValue(Rounded(bits, rm)) && Distance(bits, Rounded(bits, rm)) == Distance(bits, g) ==>
              if rm == NearestEven then Rounded(bits, rm) % 2 == 0
              else Abs(HalfValue(g)) < Abs(HalfValue(Rounded(bits, rm)))
  {
    ResultParts(bits, rm);
    NearestHalf(bits, Rounded(bits, rm), g, rm);
  }

  lemma NearestHalf(bits: Word, h: Half, g: Half, rm: Mode)
    requires !IsNaN(bits) && Proper(g) && Proper(h) && (rm == NearestEven || rm == NearestAway)
    requires h >= 0x8000 <==> Negative(bits)
    requires var m := Magnitude(bits);
      HalfMagnitude(h) == m / 0x1_0000 + Step(Negative(bits), m / 0x1_0000, m % 0x1_0000, rm)
    ensures Distance(bits, h) <= Distance(bits, g)
    ensures HalfValue(g) != HalfValue(h) && Distance(bits, h) == Distance(bits, g) ==>
              if rm == NearestEven then h % 2 == 0 else Abs(HalfValue(g)) < Abs(HalfValue(h))
  {
    var m := Magnitude(bits);
    HalfParts(h);
    HalfParts(g);
    ParityOfHalf(h);
    NearestSigned(m, m / 0x1_0000, m % 0x1_0000, rm, Negative(bits), HalfMagnitude(h), g >= 0x8000, HalfMagnitude(g),
                  Value(bits), HalfValue(h), HalfValue(g));
  }

  /** The same on magnitudes and signs. */
  lemma NearestSigned(
    m: int, lower: int, rest: int, rm: Mode, negative: bool, r: int, kNegative: bool, k: int, v: int, w: int, q: int)
    requires 0 <= m <= 0x7F80_0000 && lower == m / 0x1_0000 && rest == m % 0x1_0000
    requires 0 <= r <= 0x7F80 && 0 <= k <= 0x7F80 && (rm == NearestEven || rm == NearestAway)
    requires r == lower + Step(negative, lower, rest, rm)
    requires v == if negative then -Real(m) else Real(m)
    requires w == if negative then -Grid(r) else Grid(r)
    requires q == if kNegative then -Grid(k) else Grid(k)
    ensures Abs(v - w) <= Abs(v - q)
    ensures q != w && Abs(v - w) == Abs(v - q) ==> if rm == NearestEven then r % 2 == 0 else Abs(q) < Abs(w)
  {
    StepIsNearest(negative, lower, rest, rm);
    NearestFacts(m, lower, rest, r, k, Real(m), Grid(r), Grid(k));
    SignedNearest(rm, negative, rest, lower, Real(m), r, Grid(r), kNegative, k, Grid(k), v, w, q);
  }

  lemma StepIsNearest(negative: bool, g: int, d: int, rm: Mode)
    requires rm == NearestEven || rm == NearestAway
    ensures var step := Step(negative, g, d, rm); (step == 0 && d <= 0x8000) || (step == 1 && d >= 0x8000)
  {
  }

  lemma ParityOfHalf(h: Half)
    ensures h % 2 == HalfMagnitude(h) % 2
  {
  }

  /** What the two nearest modes share, on magnitudes. */
  lemma NearestFacts(m: int, g: int, d: int, r: int, k: int, x: int, rv: int, kv: int)
    requires 0 <= m <= 0x7F80_0000 && 0 <= k <= 0x7F80 && 0 <= r <= 0x7F80 && g == m / 0x1_0000 && d == m % 0x1_0000
    requires x == Real(m) && rv == Grid(r) && kv == Grid(k)
    requires (r == g && d <= 0x8000) || (r == g + 1 && d >= 0x8000)
    ensures x >= 0 && kv >= 0 && rv >= 0 && (kv == 0 <==> k == 0)
    ensures Abs(x - rv) <= Abs(x - kv) && (k != r && Abs(x - rv) == Abs(x - kv) ==> d == 0x8000 && k + r == 2 * g + 1)
    ensures Abs(x - rv) <= x && (r != 0 && Abs(x - rv) == x ==> d == 0x8000 && r == 2 * g + 1)
    ensures (k < r ==> kv < rv) && (k == r ==> kv == rv)
  {
    NonnegativeMagnitude(m);
    NonnegativeMagnitude(r * 0x1_0000);
    NearestMagnitude(m, r, k);
    NearestMagnitude(m, r, 0);
    TieBreaks(m, r, k);
    OppositeSide(m, r, k);
  }

  /** `v`, `w` and `q` are the signed input, result and other value of magnitudes `x`, `rv` and `kv`. */
  lemma SignedNearest(
    rm: Mode, negative: bool, d: int, g: int, x: int, r: int, rv: int, kNegative: bool, k: int, kv: int, v: int, w: int, q: int)
    requires rm == NearestEven || rm == NearestAway
    requires x >= 0 && kv >= 0 && rv >= 0 && r >= 0 && k >= 0 && g >= 0 && (kv == 0 <==> k == 0)
    requires r == g + Step(negative, g, d, rm) && 0 <= d < 0x1_0000
    requires Abs(x - rv) <= Abs(x - kv) && (k != r && Abs(x - rv) == Abs(x - kv) ==> d == 0x8000 && k + r == 2 * g + 1)
    requires Abs(x - rv) <= x && (r != 0 && Abs(x - rv) == x ==> d == 0x8000 && r == 2 * g + 1)
    requires (k < r ==> kv < rv) && (k == r ==> kv == rv)
    requires v == (if negative then -x else x) && w == (if negative then -rv else rv) && q == (if kNegative then -kv else kv)
    ensures Abs(v - w) <= Abs(v - q)
    ensures q != w && Abs(v - w) == Abs(v - q) ==> if rm == NearestEven then r % 2 == 0 else Abs(q) < Abs(w)
  {
  }

  lemma TieBreaks(m: int, r: int, k: int)
    requires 0 <= m <= 0x7F80_0000 && 0 <= k <= 0x7F80 && 0 <= r <= 0x7F80
    ensures k < r ==> Grid(k) < Grid(r)
  {
    if k < r {
      RealStrict(k * 0x1_0000, r * 0x1_0000);
    }
  }

  /** A value of the other sign is no closer than zero is, and only zero is as close. */
  lemma OppositeSide(m: int, r: int, k: int)
    requires 0 <= m <= 0x7F80_0000 && 0 <= k <= 0x7F80 && 0 <= r <= 0x7F80
    ensures Real(m) + Grid(k) >= Real(m) && (Grid(k) == 0 ==> k == 0)
  {
    NonnegativeMagnitude(k * 0x1_0000);
    if k > 0 {
      RealStrict(0, k * 0x1_0000);
      RealZero();
    }
  }

  // ---------------------------------------------------------------- rounding is monotone

  /** A larger input never rounds to a smaller result, in any mode. */
  lemma RoundingIsMonotone(x: Word, y: Word, rm: Mode)
    requires !IsNaN(x) && !IsNaN(y) && Value(x) <= Value(y)
    ensures HalfValue(Rounded(x, rm)) <= HalfValue(Rounded(y, rm))
  {
    ResultParts(x, rm);
    ResultParts(y, rm);
    MonotoneHalves(x, Rounded(x, rm), y, Rounded(y, rm), rm);
  }

  lemma MonotoneHalves(x: Word, g: Half, y: Word, h: Half, rm: Mode)
    requires !IsNaN(x) && !IsNaN(y) && Value(x) <= Value(y) && Proper(g) && Proper(h)
    requires (g >= 0x8000 <==> Negative(x)) && (h >= 0x8000 <==> Negative(y))
    requires HalfMagnitude(g) == StepUp(Negative(x), Magnitude(x), rm)
    requires HalfMagnitude(h) == StepUp(Negative(y), Magnitude(y), rm)
    ensures HalfValue(g) <= HalfValue(h)
  {
    var m, n := Magnitude(x), Magnitude(y);
    HalfParts(g);
    HalfParts(h);
    NonnegativeMagnitude(m);
    NonnegativeMagnitude(n);
    if !Negative(x) && !Negative(y) {
      OrderOfMagnitudes(m, n);
      MonotoneMagnitudes(false, m, n, rm);
      RealMonotone(HalfMagnitude(g) * 0x1_0000, HalfMagnitude(h) * 0x1_0000);
    } else if Negative(x) && Negative(y) {
      OrderOfMagnitudes(n, m);
      MonotoneMagnitudes(true, n, m, rm);
      RealMonotone(HalfMagnitude(h) * 0x1_0000, HalfMagnitude(g) * 0x1_0000);
    } else if !Negative(x) {
      ZeroMagnitude(m);
      ZeroMagnitude(n);
    }
  }

  /** The magnitude of the result. */
  function StepUp(negative: bool, m: int, rm: Mode): int {
    m / 0x1_0000 + Step(negative, m / 0x1_0000, m % 0x1_0000, rm)
  }

  lemma OrderOfMagnitudes(m: int, n: int)
    requires 0 <= m <= 0x7F80_0000 && 0 <= n <= 0x7F80_0000 && Real(m) <= Real(n)
    ensures m <= n
  {
    if n < m {
      RealStrict(n, m);
    }
  }

  lemma MonotoneMagnitudes(negative: bool, m: int, n: int, rm: Mode)
    requires 0 <= m <= n
    ensures StepUp(negative, m, rm) <= StepUp(negative, n, rm)
  {
    var g, k := m / 0x1_0000, n / 0x1_0000;
    assert g <= k && (g == k ==> m % 0x1_0000 <= n % 0x1_0000);
  }

  lemma ZeroMagnitude(m: int)
    requires 0 <= m <= 0x7F80_0000
    ensures Real(m) <= 0 ==> m == 0
  {
    if m > 0 {
      RealStrict(0, m);
      RealZero();
    }
  }

  // ---------------------------------------------------------------- flags

  /** Inexact exactly when the value changed. */
  lemma InexactMeansChanged(bits: Word, rm: Mode)
    requires !IsNaN(bits)
    ensures RoundBFloat16(bits, rm).flags.inexact <==> HalfValue(Rounded(bits, rm)) != Value(bits)
  {
    ResultParts(bits, rm);
    IncrementIsStep(bits, rm);
    InexactHalf(bits, Rounded(bits, rm), rm);
  }

  lemma InexactHalf(bits: Word, h: Half, rm: Mode)
    requires !IsNaN(bits) && Proper(h) && (h >= 0x8000 <==> Negative(bits))
    requires HalfMagnitude(h) == StepUp(Negative(bits), Magnitude(bits), rm)
    ensures HalfValue(h) != Value(bits) <==> Magnitude(bits) % 0x1_0000 != 0
  {
    var m := Magnitude(bits);
    HalfParts(h);
    if m % 0x1_0000 == 0 {
      assert m == m / 0x1_0000 * 0x1_0000;
    } else if HalfMagnitude(h) == m / 0x1_0000 {
      RealStrict(m / 0x1_0000 * 0x1_0000, m);
    } else {
      RealStrict(m, (m / 0x1_0000 + 1) * 0x1_0000);
    }
  }

  /** Overflow exactly when a finite input became infinite; underflow exactly when an inexact result is
      zero or subnormal; never invalid. */
  lemma FlagsOfRounding(bits: Word, rm: Mode)
    requires !IsNaN(bits)
    ensures var f, h := RoundBFloat16(bits, rm).flags, Rounded(bits, rm);
      && !f.invalid && (f.overflow <==> Magnitude(bits) < 0x7F80_0000 && HalfMagnitude(h) == 0x7F80)
      && (f.underflow <==> f.inexact && HalfMagnitude(h) < 0x80)
  {
    ResultParts(bits, rm);
    IncrementIsStep(bits, rm);
    var m := Magnitude(bits);
    ExponentField(Rounded(bits, rm));
    ExponentField(m / 0x1_0000 + (if Negative(bits) then 0x8000 else 0));
    WideExponent(bits);
  }

  lemma ExponentField(h: Half)
    ensures HalfExponent(h) == HalfMagnitude(h) / 0x80
  {
  }

  lemma WideExponent(bits: Word)
    requires !IsNaN(bits)
    ensures bits / 0x80_0000 % 0x100 == Magnitude(bits) / 0x1_0000 / 0x80
    ensures Magnitude(bits) < 0x7F80_0000 <==> Magnitude(bits) / 0x1_0000 < 0x7F80
  {
  }

  // ---------------------------------------------------------------- round trip

  /** Widening and narrowing again is the identity without flags, in every mode, for everything but NaNs. */
  lemma NarrowUndoesWiden(h: Half, rm: Mode)
    requires !HalfIsNaN(h)
    ensures ConvertF32ToBF16(ConvertBF16ToF32Precise(h).value, rm) == Converted(h, NO_FLAGS)
    ensures ConvertBF16ToF32Precise(h).flags == NO_FLAGS
  {
    var bits: Word := h * 0x1_0000;
    WidenedFields(h);
    assert !IsNaN(bits);
  }

  lemma WidenedFields(h: Half)
    requires !HalfIsNaN(h)
    ensures var bits: Word := h * 0x1_0000;
      && bits / 0x1_0000 == h && bits / 0x8000 % 2 == 0 && bits % 0x8000 == 0 && h % 0x1_0000 == h && !IsNaN(bits)
  {
    assert h * 0x1_0000 / 0x8000 == 2 * h;
  }

  // ---------------------------------------------------------------- NaNs

  /** Widening keeps NaNs as NaNs and nothing else. They become the canonical quiet NaN, invalid is raised for
      the signaling ones only, and no other flag is ever raised. */
  lemma WideningOfNaNs(h: Half)
    ensures HalfIsNaN(h) <==> IsNaN(h * 0x1_0000)
    ensures var r := ConvertBF16ToF32Precise(h);
      && 0 <= r.value < WORD && (IsNaN(r.value) <==> IsNaN(h * 0x1_0000))
      && r == if IsNaN(h * 0x1_0000) then Converted(0x7FC0_0000, Flags(IsSignaling(h * 0x1_0000), false, false, false))
              else Converted(h * 0x1_0000, Flags(false, false, false, false))
  {
    NaNByFields(h * 0x1_0000);
    SignalingByFields(h * 0x1_0000);
    HalfFields(h);
  }

  lemma HalfFields(h: Half)
    ensures var bits := h * 0x1_0000;
      bits / 0x80_0000 % 0x100 == h / 0x80 % 0x100 && bits % 0x80_0000 == h % 0x80 * 0x1_0000
    ensures h / 0x40 % 2 == 0 <==> h % 0x80 < 0x40
  {
    var q := h / 0x80;
    assert h * 0x1_0000 == q * 0x80_0000 + h % 0x80 * 0x1_0000;
  }

  /** Narrowing too; its NaN results carry no other flag either. */
  lemma NarrowingOfNaNs(bits: Word, rm: Mode)
    ensures var r := ConvertF32ToBF16(bits, rm);
      && 0 <= r.value < 0x1_0000 && (HalfIsNaN(r.value) <==> IsNaN(bits)) && (r.flags.invalid <==> IsSignaling(bits))
      && r == if IsNaN(bits) then Converted(0x7FC0, Flags(IsSignaling(bits), false, false, false)) else RoundBFloat16(bits, rm)
  {
    if !IsNaN(bits) {
      ResultParts(bits, rm);
      ProperIsNumber(Rounded(bits, rm));
    }
  }

  lemma ProperIsNumber(h: Half)
    ensures Proper(h) <==> !HalfIsNaN(h)
  {
  }
}
