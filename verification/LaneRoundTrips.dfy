/** Instruction sequences whose lane permutations cancel: narrowing after widening, after a widened
    accumulation and after two stacked widenings; zip against even/odd split; slides. */
module LaneRoundTrips {
  import opened Words
  import opened LaneArith
  import opened VectorLanes
  import opened LaneLayout

  // ---------------------------------------------------------------- narrowing after widening

  /** Widening by `h`, then narrowing by `g`, is `g` after `h` on every lane in place. */
  lemma NarrowingUndoesWidening(
    n: nat, size: nat, stripMine: bool, scalar: bool, h: (int, int) -> int, a: Group, b: Group, w: Group,
    shiftScalar: bool, g: (int, int) -> int, s: Group, op: nat, e: nat)
    requires WideningSources(n, size, stripMine, scalar, a, b)
    requires WellFormed(WideningOp(n, size, stripMine, scalar, h), [a, b])
    requires w == Registers(WideningOp(n, size, stripMine, scalar, h), [a, b])
    requires Operand(s, shiftScalar, NumOps(stripMine), 2 * n) && op < NumOps(stripMine) && e < 2 * n
    ensures var o := NarrowingOp(n, size, 2, stripMine, shiftScalar, g);
      && WellFormed(o, [w, s])
      && Registers(o, [w, s])[op][e] == g(h(a[op][e], OperandLane(b, scalar, op, e)), OperandLane(s, shiftScalar, op, e))
  {
    NarrowingWellFormed(n, size, 2, stripMine, shiftScalar, g, w, s);
    WidenedLane(n, size, stripMine, scalar, h, a, b, w, op, e);
    NarrowingLane(n, size, 2, stripMine, shiftScalar, g, w, s, op, e);
  }

  /** Where the widened result of lane `e` is. */
  lemma WidenedLane(n: nat, size: nat, stripMine: bool, scalar: bool, h: (int, int) -> int, a: Group, b: Group, w: Group,
                    op: nat, e: nat)
    requires WideningSources(n, size, stripMine, scalar, a, b)
    requires WellFormed(WideningOp(n, size, stripMine, scalar, h), [a, b])
    requires w == Registers(WideningOp(n, size, stripMine, scalar, h), [a, b])
    requires op < NumOps(stripMine) && e < 2 * n
    ensures op + (e % 2) * NumOps(stripMine) < |w| && e / 2 < |w[op + (e % 2) * NumOps(stripMine)]|
    ensures w[op + (e % 2) * NumOps(stripMine)][e / 2] == h(a[op][e], OperandLane(b, scalar, op, e))
  {
    assert 2 * (e / 2) + e % 2 == e;
    WideningLane(n, size, stripMine, scalar, h, a, b, op, e / 2, e % 2);
  }

  /** The same with an accumulation `k` of a third operand in between: the accumulator keeps the
      widened layout, so any number of accumulations can follow. */
  lemma NarrowingUndoesAccumulation(
    n: nat, size: nat, stripMine: bool, scalar: bool, h: (int, int) -> int, a: Group, b: Group, w: Group,
    addScalar: bool, k: (int, int) -> int, c: Group, shiftScalar: bool, g: (int, int) -> int, s: Group, op: nat, e: nat)
    requires WideningSources(n, size, stripMine, scalar, a, b) && op < NumOps(stripMine) && e < 2 * n
    requires WellFormed(WideningOp(n, size, stripMine, scalar, h), [a, b])
    requires w == Registers(WideningOp(n, size, stripMine, scalar, h), [a, b])
    requires Operand(c, addScalar, NumOps(stripMine), 2 * n) && Operand(s, shiftScalar, NumOps(stripMine), 2 * n)
    ensures WellFormed(AccumulateOp(n, size, stripMine, addScalar, k), [w, c])
    ensures var acc := Registers(AccumulateOp(n, size, stripMine, addScalar, k), [w, c]);
      var o := NarrowingOp(n, size, 2, stripMine, shiftScalar, g);
      && WellFormed(o, [acc, s])
      && Registers(o, [acc, s])[op][e]
         == g(k(h(a[op][e], OperandLane(b, scalar, op, e)), OperandLane(c, addScalar, op, e)),
              OperandLane(s, shiftScalar, op, e))
  {
    WidenedLane(n, size, stripMine, scalar, h, a, b, w, op, e);
    NarrowedAccumulation(n, size, stripMine, w, addScalar, k, c, shiftScalar, g, s, op, e);
  }

  /** Lane `e` of a narrowed accumulation over any widened group. */
  lemma NarrowedAccumulation(
    n: nat, size: nat, stripMine: bool, w: Group, addScalar: bool, k: (int, int) -> int, c: Group,
    shiftScalar: bool, g: (int, int) -> int, s: Group, op: nat, e: nat)
    requires AccumulateSources(n, size, stripMine, addScalar, w, c) && op < NumOps(stripMine) && e < 2 * n
    requires Operand(s, shiftScalar, NumOps(stripMine), 2 * n)
    ensures WellFormed(AccumulateOp(n, size, stripMine, addScalar, k), [w, c])
    ensures var acc := Registers(AccumulateOp(n, size, stripMine, addScalar, k), [w, c]);
      var o := NarrowingOp(n, size, 2, stripMine, shiftScalar, g);
      && WellFormed(o, [acc, s]) && op + (e % 2) * NumOps(stripMine) < |w|
      && Registers(o, [acc, s])[op][e]
         == g(k(w[op + (e % 2) * NumOps(stripMine)][e / 2], OperandLane(c, addScalar, op, e)),
              OperandLane(s, shiftScalar, op, e))
  {
    AccumulateWellFormed(n, size, stripMine, addScalar, k, w, c);
    var acc := Registers(AccumulateOp(n, size, stripMine, addScalar, k), [w, c]);
    NarrowingWellFormed(n, size, 2, stripMine, shiftScalar, g, acc, s);
    NarrowingLane(n, size, 2, stripMine, shiftScalar, g, acc, s, op, e);
    AccumulatedLane(n, size, stripMine, w, addScalar, k, c, op, e);
  }

  lemma AccumulatedLane(
    n: nat, size: nat, stripMine: bool, w: Group, addScalar: bool, k: (int, int) -> int, c: Group, op: nat, e: nat)
    requires AccumulateSources(n, size, stripMine, addScalar, w, c) && op < NumOps(stripMine) && e < 2 * n
    requires WellFormed(AccumulateOp(n, size, stripMine, addScalar, k), [w, c])
    ensures op + (e % 2) * NumOps(stripMine) < |w|
    ensures Registers(AccumulateOp(n, size, stripMine, addScalar, k), [w, c])[op + (e % 2) * NumOps(stripMine)][e / 2]
            == k(w[op + (e % 2) * NumOps(stripMine)][e / 2], OperandLane(c, addScalar, op, e))
  {
    assert 2 * (e / 2) + e % 2 == e;
    AccumulateLane(n, size, stripMine, addScalar, k, w, c, op, e / 2, e % 2);
  }

  /** The even-lane (0) or odd-lane (1) group of a widened result. */
  function Half(w: Group, k: nat, parity: nat): Group
    requires |w| == 2 * k
  {
    if parity == 0 then w[..k] else w[k..]
  }

  lemma HalfLane(w: Group, k: nat, n: nat, parity: nat, op: nat)
    requires Shape(w, 2 * k, n) && parity < 2 && op < k
    ensures Shape(Half(w, k, parity), k, n) && Half(w, k, parity)[op] == w[op + parity * k]
  {
  }

  /** The second operand of a second widening: a group, or a scalar. */
  datatype Second = Second(scalar: bool, group: Group)

  ghost predicate SecondSource(t: Second, stripMine: bool, n: nat) {
    Operand(t.group, t.scalar, NumOps(stripMine), 2 * n)
  }

  function SecondLane(t: Second, op: nat, e: nat): int
    requires if t.scalar then |t.group| == 1 && |t.group[0]| > 0 else op < |t.group| && e < |t.group[op]|
  {
    OperandLane(t.group, t.scalar, op, e)
  }

  /** A second widening of one half. */
  function Restacked(n: nat, stripMine: bool, h: (int, int) -> int, half: Group, t: Second): (q: Group)
    requires WellFormed(WideningOp(n, 2, stripMine, t.scalar, h), [half, t.group])
    ensures Shape(q, 2 * NumOps(stripMine), n)
  {
    Registers(WideningOp(n, 2, stripMine, t.scalar, h), [half, t.group])
  }

  /** Lane `e` of the quad layout: which half, which result of the second widening, which lane. */
  lemma QuadPosition(e: nat)
    ensures e / 4 == (e / 2) / 2
    ensures WideGroup(4, e) == 2 * (e % 2) + (e / 2) % 2
  {
  }

  lemma QuadRegister(q0: Group, q1: Group, k: nat, n: nat, op: nat, parity: nat, bit: nat, reg: nat, slot: nat)
    requires (k == 1 || k == 4) && Shape(q0, 2 * k, n) && Shape(q1, 2 * k, n) && op < k && parity < 2 && bit < 2
    requires reg == op + (2 * parity + bit) * k && slot == op + bit * k
    ensures slot < 2 * k && reg < 4 * k && (q0 + q1)[reg] == (if parity == 0 then q0 else q1)[slot]
  {
  }

  /** What one lane of the stacked result holds, in terms of the first widened result. */
  lemma StackedLane(
    n: nat, stripMine: bool, h: (int, int) -> int, w: Group, t: Second, parity: nat, op: nat, j: nat, slot: nat, lane: nat)
    requires Shape(w, 2 * NumOps(stripMine), 2 * n) && SecondSource(t, stripMine, n) && parity < 2
    requires WellFormed(WideningOp(n, 2, stripMine, t.scalar, h), [Half(w, NumOps(stripMine), parity), t.group])
    requires op < NumOps(stripMine) && j < 2 * n && slot == op + (j % 2) * NumOps(stripMine) && lane == j / 2
    ensures slot < 2 * NumOps(stripMine) && lane < n && op + parity * NumOps(stripMine) < |w|
    ensures Restacked(n, stripMine, h, Half(w, NumOps(stripMine), parity), t)[slot][lane]
            == h(w[op + parity * NumOps(stripMine)][j], SecondLane(t, op, j))
  {
    HalfLane(w, NumOps(stripMine), 2 * n, parity, op);
    RestackedLane(n, stripMine, h, Half(w, NumOps(stripMine), parity), t, op, j);
  }

  lemma RestackedLane(n: nat, stripMine: bool, h: (int, int) -> int, half: Group, t: Second, op: nat, j: nat)
    requires Shape(half, NumOps(stripMine), 2 * n) && SecondSource(t, stripMine, n)
    requires WellFormed(WideningOp(n, 2, stripMine, t.scalar, h), [half, t.group])
    requires op < NumOps(stripMine) && j < 2 * n
    ensures op + (j % 2) * NumOps(stripMine) < 2 * NumOps(stripMine)
    ensures Restacked(n, stripMine, h, half, t)[op + (j % 2) * NumOps(stripMine)][j / 2] == h(half[op][j], SecondLane(t, op, j))
  {
    WidenedLane(n, 2, stripMine, t.scalar, h, half, t.group, Restacked(n, stripMine, h, half, t), op, j);
  }

  lemma StackedWellFormed(n: nat, stripMine: bool, h: (int, int) -> int, w: Group, t: Second, parity: nat)
    requires Shape(w, 2 * NumOps(stripMine), 2 * n) && SecondSource(t, stripMine, n) && parity < 2
    ensures WellFormed(WideningOp(n, 2, stripMine, t.scalar, h), [Half(w, NumOps(stripMine), parity), t.group])
  {
    HalfLane(w, NumOps(stripMine), 2 * n, parity, 0);
    WideningWellFormed(n, 2, stripMine, t.scalar, h, Half(w, NumOps(stripMine), parity), t.group);
  }

  /** Both halves widened again, one after the other: four wide registers per source register. */
  function Quad(n: nat, stripMine: bool, h: (int, int) -> int, w: Group, even: Second, odd: Second): (q: Group)
    requires Shape(w, 2 * NumOps(stripMine), 2 * n)
    requires SecondSource(even, stripMine, n) && SecondSource(odd, stripMine, n)
    ensures Shape(q, NumOps(stripMine) * 4, n)
  {
    StackedWellFormed(n, stripMine, h, w, even, 0);
    StackedWellFormed(n, stripMine, h, w, odd, 1);
    Restacked(n, stripMine, h, Half(w, NumOps(stripMine), 0), even)
    + Restacked(n, stripMine, h, Half(w, NumOps(stripMine), 1), odd)
  }

  /** Lane `j` of the even half behind both widenings is at `lane` of register `reg`. */
  lemma QuadEven(
    n: nat, stripMine: bool, h: (int, int) -> int, w: Group, even: Second, odd: Second, op: nat, j: nat, reg: nat, lane: nat)
    requires Shape(w, 2 * NumOps(stripMine), 2 * n)
    requires SecondSource(even, stripMine, n) && SecondSource(odd, stripMine, n)
    requires op < NumOps(stripMine) && j < 2 * n && reg == op + (j % 2) * NumOps(stripMine) && lane == j / 2
    ensures reg < 4 * NumOps(stripMine) && lane < n && op < |w|
    ensures Quad(n, stripMine, h, w, even, odd)[reg][lane] == h(w[op][j], SecondLane(even, op, j))
  {
    var k := NumOps(stripMine);
    StackedWellFormed(n, stripMine, h, w, even, 0);
    StackedWellFormed(n, stripMine, h, w, odd, 1);
    var q0, q1 := Restacked(n, stripMine, h, Half(w, k, 0), even), Restacked(n, stripMine, h, Half(w, k, 1), odd);
    QuadRegister(q0, q1, k, n, op, 0, j % 2, reg, op + (j % 2) * k);
    StackedLane(n, stripMine, h, w, even, 0, op, j, op + (j % 2) * k, lane);
  }

  /** The same for the odd half. */
  lemma QuadOdd(
    n: nat, stripMine: bool, h: (int, int) -> int, w: Group, even: Second, odd: Second, op: nat, j: nat, reg: nat, lane: nat)
    requires Shape(w, 2 * NumOps(stripMine), 2 * n)
    requires SecondSource(even, stripMine, n) && SecondSource(odd, stripMine, n)
    requires op < NumOps(stripMine) && j < 2 * n && reg == op + (2 + j % 2) * NumOps(stripMine) && lane == j / 2
    ensures reg < 4 * NumOps(stripMine) && lane < n && op + NumOps(stripMine) < |w|
    ensures Quad(n, stripMine, h, w, even, odd)[reg][lane] == h(w[op + NumOps(stripMine)][j], SecondLane(odd, op, j))
  {
    var k := NumOps(stripMine);
    StackedWellFormed(n, stripMine, h, w, even, 0);
    StackedWellFormed(n, stripMine, h, w, odd, 1);
    var q0, q1 := Restacked(n, stripMine, h, Half(w, k, 0), even), Restacked(n, stripMine, h, Half(w, k, 1), odd);
    QuadRegister(q0, q1, k, n, op, 1, j % 2, reg, op + (j % 2) * k);
    StackedLane(n, stripMine, h, w, odd, 1, op, j, op + (j % 2) * k, lane);
  }

  lemma QuadLane(n: nat, stripMine: bool, h: (int, int) -> int, w: Group, even: Second, odd: Second, op: nat, e: nat)
    requires Shape(w, 2 * NumOps(stripMine), 2 * n)
    requires SecondSource(even, stripMine, n) && SecondSource(odd, stripMine, n)
    requires op < NumOps(stripMine) && e < 4 * n
    ensures op + WideGroup(4, e) * NumOps(stripMine) < 4 * NumOps(stripMine)
    ensures op + (e % 2) * NumOps(stripMine) < |w|
    ensures Quad(n, stripMine, h, w, even, odd)[op + WideGroup(4, e) * NumOps(stripMine)][e / 4]
            == h(w[op + (e % 2) * NumOps(stripMine)][e / 2], SecondLane(if e % 2 == 0 then even else odd, op, e / 2))
  {
    QuadPosition(e);
    if e % 2 == 0 {
      QuadEven(n, stripMine, h, w, even, odd, op, e / 2, op + WideGroup(4, e) * NumOps(stripMine), e / 4);
    } else {
      QuadOdd(n, stripMine, h, w, even, odd, op, e / 2, op + WideGroup(4, e) * NumOps(stripMine), e / 4);
    }
  }

  lemma QuadNarrowingLane(
    n: nat, stripMine: bool, h2: (int, int) -> int, w: Group, even: Second, odd: Second,
    shiftScalar: bool, g: (int, int) -> int, s: Group, op: nat, e: nat)
    requires Shape(w, 2 * NumOps(stripMine), 2 * n)
    requires SecondSource(even, stripMine, n) && SecondSource(odd, stripMine, n)
    requires Operand(s, shiftScalar, NumOps(stripMine), 4 * n) && op < NumOps(stripMine) && e < 4 * n
    ensures op + (e % 2) * NumOps(stripMine) < |w|
    ensures WellFormed(NarrowingOp(n, 1, 4, stripMine, shiftScalar, g), [Quad(n, stripMine, h2, w, even, odd), s])
    ensures Registers(NarrowingOp(n, 1, 4, stripMine, shiftScalar, g), [Quad(n, stripMine, h2, w, even, odd), s])[op][e]
            == g(h2(w[op + (e % 2) * NumOps(stripMine)][e / 2], SecondLane(if e % 2 == 0 then even else odd, op, e / 2)),
                 OperandLane(s, shiftScalar, op, e))
  {
    var q := Quad(n, stripMine, h2, w, even, odd);
    NarrowingWellFormed(n, 1, 4, stripMine, shiftScalar, g, q, s);
    NarrowingLane(n, 1, 4, stripMine, shiftScalar, g, q, s, op, e);
    QuadLane(n, stripMine, h2, w, even, odd, op, e);
  }

  /** The quad narrowing with its {0, 2, 1, 3} register order undoes two stacked widenings. */
  lemma QuadNarrowingUndoesStackedWidening(
    n: nat, stripMine: bool, scalar: bool, h: (int, int) -> int, a: Group, b: Group, w: Group,
    h2: (int, int) -> int, even: Second, odd: Second, shiftScalar: bool, g: (int, int) -> int, s: Group, op: nat, e: nat)
    requires WideningSources(2 * n, 1, stripMine, scalar, a, b)
    requires WellFormed(WideningOp(2 * n, 1, stripMine, scalar, h), [a, b])
    requires w == Registers(WideningOp(2 * n, 1, stripMine, scalar, h), [a, b])
    requires SecondSource(even, stripMine, n) && SecondSource(odd, stripMine, n)
    requires Operand(s, shiftScalar, NumOps(stripMine), 4 * n) && op < NumOps(stripMine) && e < 4 * n
    ensures var q, o := Quad(n, stripMine, h2, w, even, odd), NarrowingOp(n, 1, 4, stripMine, shiftScalar, g);
      && WellFormed(o, [q, s])
      && Registers(o, [q, s])[op][e]
         == g(h2(h(a[op][e], OperandLane(b, scalar, op, e)), SecondLane(if e % 2 == 0 then even else odd, op, e / 2)),
              OperandLane(s, shiftScalar, op, e))
  {
    WidenedLane(2 * n, 1, stripMine, scalar, h, a, b, w, op, e);
    QuadNarrowingLane(n, stripMine, h2, w, even, odd, shiftScalar, g, s, op, e);
  }

  // ---------------------------------------------------------------- operations that read their destination

  /** An operation that adds to its destination is the operation that adds after the one that does not:
      the add of three operands is two adds, the multiply-accumulate an add behind a product. */
  lemma AccumulatingIsComposed(
    n: nat, size: nat, stripMine: bool, scalar: bool, g: Combine, k: (int, int) -> int, h: (int, int) -> int,
    before: Group, a: Group, b: Group)
    requires ElementwiseSources(n, size, stripMine, scalar, a, b) && Shape(before, NumOps(stripMine), n)
    requires forall d, x, y :: g(d, x, y) == k(d, h(x, y))
    ensures WellFormed(ElementwiseOp(n, size, stripMine, scalar, h), [a, b])
    ensures var inner := Registers(ElementwiseOp(n, size, stripMine, scalar, h), [a, b]);
      && WellFormed(ElementwiseOp(n, size, stripMine, false, k), [before, inner])
      && Updated(ElementwiseOp(n, size, stripMine, scalar, h), g, [a, b], before)
         == Registers(ElementwiseOp(n, size, stripMine, false, k), [before, inner])
  {
    ElementwiseWellFormed(n, size, stripMine, scalar, h, a, b);
    var inner := Registers(ElementwiseOp(n, size, stripMine, scalar, h), [a, b]);
    ElementwiseWellFormed(n, size, stripMine, false, k, before, inner);
    var left := Updated(ElementwiseOp(n, size, stripMine, scalar, h), g, [a, b], before);
    var right := Registers(ElementwiseOp(n, size, stripMine, false, k), [before, inner]);
    forall op: nat, e: nat | op < NumOps(stripMine) && e < n
      ensures left[op][e] == right[op][e]
    {
      UpdatedElement(n, size, stripMine, scalar, g, h, before, a, b, op, e);
      ElementwiseLane(n, size, stripMine, scalar, h, a, b, op, e);
      ElementwiseLane(n, size, stripMine, false, k, before, inner, op, e);
      Composes(g, k, h, before[op][e], a[op][e], OperandLane(b, scalar, op, e));
    }
    SameLanes(left, right, NumOps(stripMine), n);
  }

  lemma Composes(g: Combine, k: (int, int) -> int, h: (int, int) -> int, was: int, x: int, y: int)
    requires forall d, x, y :: g(d, x, y) == k(d, h(x, y))
    ensures g(was, x, y) == k(was, h(x, y))
  {
  }

  lemma UpdatedElement(
    n: nat, size: nat, stripMine: bool, scalar: bool, g: Combine, h: (int, int) -> int, before: Group, a: Group, b: Group,
    op: nat, e: nat)
    requires ElementwiseSources(n, size, stripMine, scalar, a, b) && Shape(before, NumOps(stripMine), n)
    requires WellFormed(ElementwiseOp(n, size, stripMine, scalar, h), [a, b]) && op < NumOps(stripMine) && e < n
    ensures Updated(ElementwiseOp(n, size, stripMine, scalar, h), g, [a, b], before)[op][e]
            == g(before[op][e], a[op][e], OperandLane(b, scalar, op, e))
  {
    ElementwiseReads(n, size, stripMine, scalar, h, a, b, op, e);
    UpdatedAt(ElementwiseOp(n, size, stripMine, scalar, h), g, [a, b], before, op, e, 0);
  }

  function Add(t: LaneType): (int, int) -> int
    requires t.bits > 0
  {
    (x, y) => t.Cast(x + y)
  }

  function Product(t: LaneType): (int, int) -> int
    requires t.bits > 0
  {
    (x, y) => t.Cast(x * y)
  }

  function Add3(t: LaneType): Combine
    requires t.bits > 0
  {
    (d, x, y) => t.Cast(d + x + y)
  }

  function Macc(t: LaneType): Combine
    requires t.bits > 0
  {
    (d, x, y) => t.Cast(d + x * y)
  }

  lemma CastOfSum(t: LaneType, d: int, x: int)
    requires t.bits > 0
    ensures t.Cast(d + t.Cast(x)) == t.Cast(d + x)
  {
    var p := Pow2(t.bits);
    var q := x / p + (if t.isSigned && x % p >= Pow2(t.bits - 1) then 1 else 0);
    DivMod(x, p);
    Distribute(x / p, 1, p);
    assert t.Cast(x) == x - q * p;
    assert d + x == (d + t.Cast(x)) + p * q;
    ModShift(d + t.Cast(x), q, p);
  }

  /** VAdd3 is VAdd of the destination and VAdd of the sources; VMacc is VAdd behind VMul. */
  lemma DestinationIsAdded(n: nat, size: nat, stripMine: bool, scalar: bool, t: LaneType, before: Group, a: Group, b: Group)
    requires t.bits > 0 && ElementwiseSources(n, size, stripMine, scalar, a, b) && Shape(before, NumOps(stripMine), n)
    ensures AddsTo(n, size, stripMine, scalar, Add3(t), Add(t), Add(t), before, a, b)
    ensures AddsTo(n, size, stripMine, scalar, Macc(t), Add(t), Product(t), before, a, b)
  {
    forall d, x, y
      ensures Add3(t)(d, x, y) == Add(t)(d, Add(t)(x, y))
    {
      CastOfSum(t, d, x + y);
    }
    AccumulatingIsComposed(n, size, stripMine, scalar, Add3(t), Add(t), Add(t), before, a, b);
    forall d, x, y
      ensures Macc(t)(d, x, y) == Add(t)(d, Product(t)(x, y))
    {
      CastOfSum(t, d, x * y);
    }
    AccumulatingIsComposed(n, size, stripMine, scalar, Macc(t), Add(t), Product(t), before, a, b);
  }

  /** Updating in place by `g` leaves the registers that `k` makes of the old ones and those of `h`. */
  ghost predicate AddsTo(
    n: nat, size: nat, stripMine: bool, scalar: bool, g: Combine, k: (int, int) -> int, h: (int, int) -> int,
    before: Group, a: Group, b: Group)
  {
    && WellFormed(ElementwiseOp(n, size, stripMine, scalar, h), [a, b]) && Shape(before, NumOps(stripMine), n)
    && var inner := Registers(ElementwiseOp(n, size, stripMine, scalar, h), [a, b]);
    && WellFormed(ElementwiseOp(n, size, stripMine, false, k), [before, inner])
    && Updated(ElementwiseOp(n, size, stripMine, scalar, h), g, [a, b], before)
       == Registers(ElementwiseOp(n, size, stripMine, false, k), [before, inner])
  }

  // ---------------------------------------------------------------- the arithmetic instructions


  function Addw(t: LaneType): (int, int) -> int
    requires t.bits > 0
  {
    (x, y) => VAddw(t, x, y)
  }

  function Mulw(t: LaneType): (int, int) -> int
    requires t.bits > 0
  {
    (x, y) => VMulw(t, x, y)
  }

  function SaturatingAdd(t: LaneType): (int, int) -> int
    requires t.bits > 0
  {
    (x, y) => if t.isSigned then VAdds(t.bits, x, y) else VAddsu(t.bits, x, y)
  }

  function HalvingAdd(t: LaneType, round: bool): (int, int) -> int
    requires t.bits > 0
  {
    (x, y) => VHadd(t, round, x, y)
  }

  function HighHalf(t: LaneType, round: bool): (int, int) -> int
    requires t.bits > 0
  {
    (x, y) => VMulh(t, round, x, y)
  }

  function NarrowingShift(t: LaneType, round: bool): (int, int) -> int
    requires t.bits > 0
  {
    (x, s) => VSrans(t, 2 * t.bits, round, x, s)
  }

  ghost predicate LanesHold(t: LaneType, g: Group)
    requires t.bits > 0
  {
    forall r, e :: 0 <= r < |g| && 0 <= e < |g[r]| ==> t.Holds(g[r][e])
  }

  /** Sources of a widening instruction on lanes of type `t`. */
  ghost predicate TypedSources(t: LaneType, n: nat, stripMine: bool, scalar: bool, a: Group, b: Group) {
    && (t.bits == 8 || t.bits == 16) && WideningSources(n, t.bits / 8, stripMine, scalar, a, b)
    && LanesHold(t, a) && LanesHold(t, b)
  }

  ghost predicate NarrowedIs(t: LaneType, n: nat, stripMine: bool, scalar: bool, a: Group, b: Group, round: bool,
                             widen: (int, int) -> int, shift: int, direct: (int, int) -> int)
    requires TypedSources(t, n, stripMine, scalar, a, b)
  {
    var size := t.bits / 8;
    && WellFormed(WideningOp(n, size, stripMine, scalar, widen), [a, b])
    && WellFormed(ElementwiseOp(2 * n, size, stripMine, scalar, direct), [a, b])
    && var w := Registers(WideningOp(n, size, stripMine, scalar, widen), [a, b]);
    && var o := NarrowingOp(n, size, 2, stripMine, true, NarrowingShift(t, round));
    && WellFormed(o, [w, [[shift]]])
    && Registers(o, [w, [[shift]]]) == Registers(ElementwiseOp(2 * n, size, stripMine, scalar, direct), [a, b])
  }

  /** When narrowing and widening compose to `direct` on lane values, the instruction pair leaves the
      very registers of the one-register instruction. */
  lemma PairEqualsDirect(t: LaneType, n: nat, stripMine: bool, scalar: bool, a: Group, b: Group, round: bool,
                         widen: (int, int) -> int, shift: int, direct: (int, int) -> int)
    requires TypedSources(t, n, stripMine, scalar, a, b)
    requires forall x, y :: t.Holds(x) && t.Holds(y) ==> NarrowingShift(t, round)(widen(x, y), shift) == direct(x, y)
    ensures NarrowedIs(t, n, stripMine, scalar, a, b, round, widen, shift, direct)
  {
    var size, g := t.bits / 8, NarrowingShift(t, round);
    WideningWellFormed(n, size, stripMine, scalar, widen, a, b);
    var w := Registers(WideningOp(n, size, stripMine, scalar, widen), [a, b]);
    NarrowingWellFormed(n, size, 2, stripMine, true, g, w, [[shift]]);
    ElementwiseWellFormed(2 * n, size, stripMine, scalar, direct, a, b);
    var left := Registers(NarrowingOp(n, size, 2, stripMine, true, g), [w, [[shift]]]);
    var right := Registers(ElementwiseOp(2 * n, size, stripMine, scalar, direct), [a, b]);
    forall op: nat, e: nat | op < NumOps(stripMine) && e < 2 * n
      ensures left[op][e] == right[op][e]
    {
      NarrowingUndoesWidening(n, size, stripMine, scalar, widen, a, b, w, true, g, [[shift]], op, e);
      ElementwiseLane(2 * n, size, stripMine, scalar, direct, a, b, op, e);
      assert t.Holds(a[op][e]) && t.Holds(OperandLane(b, scalar, op, e));
    }
    SameLanes(left, right, NumOps(stripMine), 2 * n);
  }

  /** VSrans by 0 after VAddw is VAdds (signed) or VAddsu (unsigned). */
  lemma NarrowedAddwIsSaturatingAdd(t: LaneType, n: nat, stripMine: bool, scalar: bool, a: Group, b: Group, round: bool)
    requires TypedSources(t, n, stripMine, scalar, a, b)
    ensures NarrowedIs(t, n, stripMine, scalar, a, b, round, Addw(t), 0, SaturatingAdd(t))
  {
    forall x, y | t.Holds(x) && t.Holds(y)
      ensures NarrowingShift(t, round)(Addw(t)(x, y), 0) == SaturatingAdd(t)(x, y)
    {
      NarrowedSumSaturates(t, round, x, y);
    }
    PairEqualsDirect(t, n, stripMine, scalar, a, b, round, Addw(t), 0, SaturatingAdd(t));
  }

  /** VSrans by 1 after VAddw is VHadd with the same rounding. */
  lemma NarrowedAddwIsHalvingAdd(t: LaneType, n: nat, stripMine: bool, scalar: bool, a: Group, b: Group, round: bool)
    requires TypedSources(t, n, stripMine, scalar, a, b)
    ensures NarrowedIs(t, n, stripMine, scalar, a, b, round, Addw(t), 1, HalvingAdd(t, round))
  {
    forall x, y | t.Holds(x) && t.Holds(y)
      ensures NarrowingShift(t, round)(Addw(t)(x, y), 1) == HalvingAdd(t, round)(x, y)
    {
      NarrowedSumHalves(t, round, x, y);
    }
    PairEqualsDirect(t, n, stripMine, scalar, a, b, round, Addw(t), 1, HalvingAdd(t, round));
  }

  /** VSrans by the lane width after VMulw is VMulh with the same rounding. */
  lemma NarrowedMulwIsHighHalf(t: LaneType, n: nat, stripMine: bool, scalar: bool, a: Group, b: Group, round: bool)
    requires TypedSources(t, n, stripMine, scalar, a, b)
    ensures NarrowedIs(t, n, stripMine, scalar, a, b, round, Mulw(t), t.bits, HighHalf(t, round))
  {
    forall x, y | t.Holds(x) && t.Holds(y)
      ensures NarrowingShift(t, round)(Mulw(t)(x, y), t.bits) == HighHalf(t, round)(x, y)
    {
      NarrowedProductIsHighHalf(t, round, x, y);
    }
    PairEqualsDirect(t, n, stripMine, scalar, a, b, round, Mulw(t), t.bits, HighHalf(t, round));
  }
}
