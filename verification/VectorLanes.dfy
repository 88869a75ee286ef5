/** Lane layout of the SIMD instructions. A register group is a sequence of registers, a register a
    sequence of lanes; flat element `k` of an operand is lane `k % n` of register `k / n`. Source
    and destination groups are disjoint, so an instruction is a function of its sources. */
module VectorLanes {
  import opened Words
  import opened LaneArith

  type Group = seq<seq<int>>

  ghost predicate Shape(g: Group, regs: nat, n: nat) {
    |g| == regs && forall r :: 0 <= r < regs ==> |g[r]| == n
  }

  /** A source operand number and a flat element index into it. */
  datatype Lane = Lane(source: nat, index: int)

  /** Picks the lane read for (op_index, dst_element_index, dst_reg_index). `lanes` is the number of
      lanes of the read type in one register. */
  datatype Getter =
    | Common(source: nat, scalar: bool, lanes: nat, dstSize: nat, srcSize: nat)
    | Accumulator(lanes: nat)
    | Srans(lanes: nat, dstSize: nat, srcSize: nat)
    | Zip(lanes: nat, scalar: bool)
    | Evnodd(lanes: nat, scalar: bool)
    | SlideNext(lanes: nat, horizontal: bool, index: nat)
    | SlidePrevious(lanes: nat, horizontal: bool, index: nat)

  /** `e * dstSize / srcSize`: where a destination lane starts when counted in source lanes. */
  function Rescale(e: nat, dstSize: nat, srcSize: nat): nat {
    if srcSize == 0 then 0 else e * dstSize / srcSize
  }

  const SransInterleave: seq<nat> := [0, 2, 1, 3]

  function Locate(g: Getter, numOps: nat, op: nat, e: nat, r: nat): Lane {
    match g
    case Common(source, scalar, lanes, dstSize, srcSize) =>
      Lane(source, if scalar then 0 else op * lanes + Rescale(e, dstSize, srcSize) + r)
    case Accumulator(lanes) =>
      Lane(0, op * lanes + e + (numOps * r) * lanes)
    case Srans(lanes, dstSize, srcSize) =>
      var group := if srcSize == 2 * dstSize then e % 2 else SransInterleave[e % 4];
      Lane(0, op * lanes + Rescale(e, dstSize, srcSize) + (group * numOps) * lanes)
    case Zip(lanes, scalar) =>
      var half := lanes / 2;
      Lane(e % 2, if scalar && e % 2 == 1 then 0 else op * half + e / 2 + (r * numOps) * half)
    case Evnodd(lanes, scalar) =>
      var l := FromPair(lanes, numOps, (op * 2) * lanes + e * 2 + (if r == 0 then 0 else 1));
      if scalar && l.source == 1 then Lane(1, 0) else l
    case SlideNext(lanes, horizontal, index) =>
      if e + index < lanes then Lane(0, op * lanes + e + index)
      else
        var next := if !horizontal then (op, 1) else if op < 3 then (op + 1, 0) else (0, 1);
        Lane(next.1, next.0 * lanes + (e + index - lanes))
    case SlidePrevious(lanes, horizontal, index) =>
      if e < index then
        var previous := if !horizontal then (op, 0) else if op == 0 then (3, 0) else (op - 1, 1);
        Lane(previous.1, previous.0 * lanes + (e + lanes - index))
      else Lane(1, op * lanes + e - index)
  }

  /** Element `k` of two source operands taken one after the other. */
  function FromPair(lanes: nat, numOps: nat, k: nat): Lane {
    var size := numOps * lanes;
    if k < size then Lane(0, k) else Lane(1, k - size)
  }

  /** One vector instruction: `numOps` is 4 when strip-mined and 1 otherwise, `destRegs` is 2 for
      widening, `lanes` counts destination lanes per register, `lanes1`/`lanes2` those of the types
      of the two arguments. */
  datatype VectorOp = VectorOp(
    numOps: nat, destRegs: nat, lanes: nat, lanes1: nat, lanes2: nat,
    arg1: Getter, arg2: Getter, f: (int, int) -> int)

  ghost predicate Has(g: Group, n: nat, index: int) {
    n > 0 && index >= 0 && index / n < |g| && index % n < |g[index / n]|
  }

  function Element(g: Group, n: nat, index: int): int
    requires Has(g, n, index)
  {
    g[index / n][index % n]
  }

  ghost predicate CanRead(src: seq<Group>, n: nat, l: Lane) {
    l.source < |src| && Has(src[l.source], n, l.index)
  }

  ghost predicate LaneReadable(o: VectorOp, src: seq<Group>, op: nat, e: nat, r: nat) {
    && CanRead(src, o.lanes1, Locate(o.arg1, o.numOps, op, e, r))
    && CanRead(src, o.lanes2, Locate(o.arg2, o.numOps, op, e, r))
  }

  ghost predicate WellFormed(o: VectorOp, src: seq<Group>) {
    && (o.numOps == 1 || o.numOps == 4)
    && forall op, e, r | 0 <= op < o.numOps && 0 <= e < o.lanes && 0 <= r < o.destRegs ::
         LaneReadable(o, src, op, e, r)
  }

  /** Operation and result number of destination register `op + r * numOps`. */
  function OpIndex(numOps: nat, reg: nat): nat {
    if numOps == 1 then 0 else reg % 4
  }

  function Slot(numOps: nat, reg: nat): nat {
    if numOps == 1 then reg else reg / 4
  }

  /** The two source lanes of a destination lane. */
  function LaneSources(o: VectorOp, src: seq<Group>, op: nat, e: nat, r: nat): (int, int)
    requires WellFormed(o, src) && op < o.numOps && e < o.lanes && r < o.destRegs
  {
    assert LaneReadable(o, src, op, e, r);
    var l1, l2 := Locate(o.arg1, o.numOps, op, e, r), Locate(o.arg2, o.numOps, op, e, r);
    (Element(src[l1.source], o.lanes1, l1.index), Element(src[l2.source], o.lanes2, l2.index))
  }

  function LaneResult(o: VectorOp, src: seq<Group>, op: nat, e: nat, r: nat): int
    requires WellFormed(o, src) && op < o.numOps && e < o.lanes && r < o.destRegs
  {
    var (x, y) := LaneSources(o, src, op, e, r);
    o.f(x, y)
  }

  /** The destination registers: register `op + r * numOps` holds result `r` of operation `op`. */
  function Registers(o: VectorOp, src: seq<Group>): (g: Group)
    requires WellFormed(o, src)
    ensures Shape(g, o.numOps * o.destRegs, o.lanes)
  {
    seq(o.numOps * o.destRegs, reg requires 0 <= reg < o.numOps * o.destRegs =>
      seq(o.lanes, e requires 0 <= e < o.lanes =>
        LaneResult(o, src, OpIndex(o.numOps, reg), e, Slot(o.numOps, reg))))
  }

  lemma RegistersAt(o: VectorOp, src: seq<Group>, op: nat, e: nat, r: nat)
    requires WellFormed(o, src) && op < o.numOps && e < o.lanes && r < o.destRegs
    ensures op + r * o.numOps < o.numOps * o.destRegs
    ensures Registers(o, src)[op + r * o.numOps][e] == LaneResult(o, src, op, e, r)
  {
    RegisterNumber(o.numOps, o.destRegs, op, r);
    RegisterHolds(o, src, op + r * o.numOps, op, e, r);
  }

  lemma RegisterHolds(o: VectorOp, src: seq<Group>, reg: int, op: nat, e: nat, r: nat)
    requires WellFormed(o, src) && op < o.numOps && e < o.lanes && r < o.destRegs
    requires 0 <= reg < o.numOps * o.destRegs && OpIndex(o.numOps, reg) == op && Slot(o.numOps, reg) == r
    ensures Registers(o, src)[reg][e] == LaneResult(o, src, op, e, r)
  {
  }

  /** An operation on a destination lane's old value and the two source lanes. */
  type Combine = (int, int, int) -> int

  /** The destination registers behind an operation that starts from `before`. */
  function Updated(o: VectorOp, g: Combine, src: seq<Group>, before: Group): (after: Group)
    requires WellFormed(o, src) && Shape(before, o.numOps * o.destRegs, o.lanes)
    ensures Shape(after, o.numOps * o.destRegs, o.lanes)
  {
    seq(o.numOps * o.destRegs, reg requires 0 <= reg < o.numOps * o.destRegs =>
      seq(o.lanes, e requires 0 <= e < o.lanes =>
        var (x, y) := LaneSources(o, src, OpIndex(o.numOps, reg), e, Slot(o.numOps, reg));
        g(before[reg][e], x, y)))
  }

  lemma UpdatedAt(o: VectorOp, g: Combine, src: seq<Group>, before: Group, op: nat, e: nat, r: nat)
    requires WellFormed(o, src) && Shape(before, o.numOps * o.destRegs, o.lanes)
    requires op < o.numOps && e < o.lanes && r < o.destRegs
    ensures op + r * o.numOps < o.numOps * o.destRegs
    ensures var (x, y) := LaneSources(o, src, op, e, r);
      Updated(o, g, src, before)[op + r * o.numOps][e] == g(before[op + r * o.numOps][e], x, y)
  {
    RegisterNumber(o.numOps, o.destRegs, op, r);
    UpdateHolds(o, g, src, before, op + r * o.numOps, op, e, r);
  }

  lemma UpdateHolds(o: VectorOp, g: Combine, src: seq<Group>, before: Group, reg: int, op: nat, e: nat, r: nat)
    requires WellFormed(o, src) && Shape(before, o.numOps * o.destRegs, o.lanes)
    requires op < o.numOps && e < o.lanes && r < o.destRegs
    requires 0 <= reg < o.numOps * o.destRegs && OpIndex(o.numOps, reg) == op && Slot(o.numOps, reg) == r
    ensures var (x, y) := LaneSources(o, src, op, e, r);
      Updated(o, g, src, before)[reg][e] == g(before[reg][e], x, y)
  {
  }

  /** An operation that ignores the old lanes leaves the registers its sources determine. */
  lemma PlainOperation(o: VectorOp, g: Combine, src: seq<Group>, before: Group)
    requires WellFormed(o, src) && Shape(before, o.numOps * o.destRegs, o.lanes)
    requires forall d, x, y :: g(d, x, y) == o.f(x, y)
    ensures Updated(o, g, src, before) == Registers(o, src)
  {
    forall reg, e | 0 <= reg < o.numOps * o.destRegs && 0 <= e < o.lanes
      ensures Updated(o, g, src, before)[reg][e] == Registers(o, src)[reg][e]
    {
      PlainLane(o, g, src, before, reg, e);
    }
    SameLanes(Updated(o, g, src, before), Registers(o, src), o.numOps * o.destRegs, o.lanes);
  }

  lemma PlainLane(o: VectorOp, g: Combine, src: seq<Group>, before: Group, reg: nat, e: nat)
    requires WellFormed(o, src) && Shape(before, o.numOps * o.destRegs, o.lanes)
    requires reg < o.numOps * o.destRegs && e < o.lanes && forall d, x, y :: g(d, x, y) == o.f(x, y)
    ensures Updated(o, g, src, before)[reg][e] == Registers(o, src)[reg][e]
  {
    Renumber(o.numOps, o.destRegs, reg);
    var (x, y) := LaneSources(o, src, OpIndex(o.numOps, reg), e, Slot(o.numOps, reg));
    Ignores(g, o.f, before[reg][e], x, y);
  }

  lemma Ignores(g: Combine, f: (int, int) -> int, was: int, x: int, y: int)
    requires forall d, x, y :: g(d, x, y) == f(x, y)
    ensures g(was, x, y) == f(x, y)
  {
  }

  lemma SameLanes(g: Group, h: Group, regs: nat, n: nat)
    requires Shape(g, regs, n) && Shape(h, regs, n)
    requires forall r, e | 0 <= r < regs && 0 <= e < n :: g[r][e] == h[r][e]
    ensures g == h
  {
    forall r | 0 <= r < regs
      ensures g[r] == h[r]
    {
    }
  }

  ghost function Contents(vd: array2<int>): (g: Group)
    reads vd
    ensures Shape(g, vd.Length0, vd.Length1)
    ensures forall reg, e | 0 <= reg < vd.Length0 && 0 <= e < vd.Length1 :: g[reg][e] == vd[reg, e]
  {
    seq(vd.Length0, reg requires 0 <= reg < vd.Length0 reads vd =>
      seq(vd.Length1, e requires 0 <= e < vd.Length1 reads vd => vd[reg, e]))
  }

  /** Registers of earlier operations, earlier lanes of this one, and earlier results of this lane. */
  predicate Written(numOps: nat, op: nat, el: nat, dr: nat, reg: nat, e: nat) {
    var o := OpIndex(numOps, reg);
    o < op || (o == op && (e < el || (e == el && Slot(numOps, reg) < dr)))
  }

  /** The written lanes are as behind the instruction, the others as in front of it. */
  ghost predicate Between(vd: array2<int>, before: Group, after: Group, numOps: nat, op: nat, el: nat, dr: nat)
    reads vd
  {
    && Shape(before, vd.Length0, vd.Length1) && Shape(after, vd.Length0, vd.Length1)
    && forall reg, e | 0 <= reg < vd.Length0 && 0 <= e < vd.Length1 ::
         vd[reg, e] == if Written(numOps, op, el, dr, reg, e) then after[reg][e] else before[reg][e]
  }

  /** The loop nest shared by every binary vector instruction. */
  method BinaryVectorOp(o: VectorOp, g: Combine, src: seq<Group>, vd: array2<int>)
    requires WellFormed(o, src)
    requires vd.Length0 == o.numOps * o.destRegs && vd.Length1 == o.lanes
    modifies vd
    ensures Contents(vd) == Updated(o, g, src, old(Contents(vd)))
  {
    ghost var before := Contents(vd);
    ghost var after := Updated(o, g, src, before);
    for op := 0 to o.numOps
      invariant Between(vd, before, after, o.numOps, op, 0, 0)
    {
      OperationLoop(o, g, src, vd, op, before, after);
    }
    AllWritten(vd, before, after, o.numOps, o.destRegs);
  }

  method OperationLoop(
    o: VectorOp, g: Combine, src: seq<Group>, vd: array2<int>, op: nat, ghost before: Group, ghost after: Group)
    requires WellFormed(o, src) && op < o.numOps && vd.Length0 == o.numOps * o.destRegs && vd.Length1 == o.lanes
    requires Between(vd, before, after, o.numOps, op, 0, 0) && after == Updated(o, g, src, before)
    modifies vd
    ensures Between(vd, before, after, o.numOps, op + 1, 0, 0)
  {
    for el := 0 to o.lanes
      invariant Between(vd, before, after, o.numOps, op, el, 0)
    {
      LaneLoop(o, g, src, vd, op, el, before, after);
    }
    NextOp(vd, before, after, o.numOps, op);
  }

  method LaneLoop(
    o: VectorOp, g: Combine, src: seq<Group>, vd: array2<int>, op: nat, el: nat, ghost before: Group, ghost after: Group)
    requires WellFormed(o, src) && op < o.numOps && el < o.lanes
    requires vd.Length0 == o.numOps * o.destRegs && vd.Length1 == o.lanes
    requires Between(vd, before, after, o.numOps, op, el, 0) && after == Updated(o, g, src, before)
    modifies vd
    ensures Between(vd, before, after, o.numOps, op, el + 1, 0)
  {
    for dr := 0 to o.destRegs
      invariant Between(vd, before, after, o.numOps, op, el, dr)
    {
      UpdateLane(o, g, src, vd, op, el, dr, before, after);
    }
    NextLane(vd, before, after, o.numOps, o.destRegs, op, el);
  }

  method UpdateLane(
    o: VectorOp, g: Combine, src: seq<Group>, vd: array2<int>, op: nat, el: nat, dr: nat,
    ghost before: Group, ghost after: Group)
    requires WellFormed(o, src) && op < o.numOps && el < o.lanes && dr < o.destRegs
    requires vd.Length0 == o.numOps * o.destRegs && vd.Length1 == o.lanes
    requires Between(vd, before, after, o.numOps, op, el, dr) && after == Updated(o, g, src, before)
    modifies vd
    ensures Between(vd, before, after, o.numOps, op, el, dr + 1)
  {
    UpdatedAt(o, g, src, before, op, el, dr);
    var (x, y) := LaneSources(o, src, op, el, dr);
    WriteLane(vd, g, o.numOps, op, el, dr, x, y, before, after);
  }

  method WriteLane(
    vd: array2<int>, g: Combine, numOps: nat, op: nat, el: nat, dr: nat, x: int, y: int, ghost before: Group, ghost after: Group)
    requires (numOps == 1 || numOps == 4) && op < numOps && el < vd.Length1
    requires op + dr * numOps < vd.Length0 && Between(vd, before, after, numOps, op, el, dr)
    requires after[op + dr * numOps][el] == g(before[op + dr * numOps][el], x, y)
    modifies vd
    ensures Between(vd, before, after, numOps, op, el, dr + 1)
  {
    forall reg, e | 0 <= reg < vd.Length0 && 0 <= e < vd.Length1
      ensures Written(numOps, op, el, dr + 1, reg, e)
              <==> Written(numOps, op, el, dr, reg, e) || (reg == op + dr * numOps && e == el)
    {
      OneMoreWritten(numOps, op, el, dr, reg, e);
    }
    vd[op + dr * numOps, el] := g(vd[op + dr * numOps, el], x, y);
  }

  lemma OneMoreWritten(numOps: nat, op: nat, el: nat, dr: nat, reg: nat, e: nat)
    requires (numOps == 1 || numOps == 4) && op < numOps
    ensures Written(numOps, op, el, dr + 1, reg, e)
            <==> Written(numOps, op, el, dr, reg, e) || (reg == op + dr * numOps && e == el)
    ensures !Written(numOps, op, el, dr, op + dr * numOps, el)
  {
  }

  lemma NextLane(vd: array2<int>, before: Group, after: Group, numOps: nat, destRegs: nat, op: nat, el: nat)
    requires (numOps == 1 || numOps == 4) && vd.Length0 == numOps * destRegs
    requires Between(vd, before, after, numOps, op, el, destRegs)
    ensures Between(vd, before, after, numOps, op, el + 1, 0)
  {
  }

  lemma NextOp(vd: array2<int>, before: Group, after: Group, numOps: nat, op: nat)
    requires Between(vd, before, after, numOps, op, vd.Length1, 0)
    ensures Between(vd, before, after, numOps, op + 1, 0, 0)
  {
  }

  lemma AllWritten(vd: array2<int>, before: Group, after: Group, numOps: nat, destRegs: nat)
    requires (numOps == 1 || numOps == 4) && vd.Length0 == numOps * destRegs
    requires Between(vd, before, after, numOps, numOps, 0, 0)
    ensures Contents(vd) == after
  {
    var now := Contents(vd);
    forall reg | 0 <= reg < vd.Length0
      ensures now[reg] == after[reg]
    {
      assert OpIndex(numOps, reg) < numOps;
    }
  }

  lemma Renumber(numOps: nat, destRegs: nat, reg: nat)
    requires (numOps == 1 || numOps == 4) && reg < numOps * destRegs
    ensures OpIndex(numOps, reg) < numOps && Slot(numOps, reg) < destRegs
    ensures reg == OpIndex(numOps, reg) + Slot(numOps, reg) * numOps
  {
  }

  lemma RegisterNumber(numOps: nat, destRegs: nat, op: nat, r: nat)
    requires (numOps == 1 || numOps == 4) && op < numOps && r < destRegs
    ensures var reg := op + r * numOps;
      reg < numOps * destRegs && OpIndex(numOps, reg) == op && Slot(numOps, reg) == r
  {
  }

  // ---------------------------------------------------------------- flat indices

  lemma ElementAt(g: Group, n: nat, r: nat, e: nat)
    requires e < n && r < |g| && e < |g[r]|
    ensures Has(g, n, r * n + e) && Element(g, n, r * n + e) == g[r][e]
  {
    ModUnique(r * n + e, n, r);
  }

  lemma FlatIndex(regs: nat, n: nat, k: nat)
    requires n > 0 && k < regs * n
    ensures k / n < regs && k % n < n && k == (k / n) * n + k % n
  {
    DivMod(k, n);
    DivBounds(k, n, 0, regs);
  }

  lemma ShapeHas(g: Group, regs: nat, n: nat, k: nat)
    requires Shape(g, regs, n) && n > 0 && k < regs * n
    ensures Has(g, n, k)
  {
    FlatIndex(regs, n, k);
  }

  lemma WithinGroup(regs: nat, n: nat, r: nat, e: nat)
    requires r < regs && e < n
    ensures r * n + e < regs * n
  {
    MulMono(r + 1, regs, n);
    Distribute(r, 1, n);
  }

  /** Groups of one shape are equal when they agree on every flat index. */
  lemma FlatExtensional(g: Group, h: Group, regs: nat, n: nat)
    requires Shape(g, regs, n) && Shape(h, regs, n)
    requires forall k: nat | k < regs * n && Has(g, n, k) && Has(h, n, k) :: Element(g, n, k) == Element(h, n, k)
    ensures g == h
  {
    forall r: nat | r < regs
      ensures g[r] == h[r]
    {
      forall e: nat | e < n
        ensures g[r][e] == h[r][e]
      {
        WithinGroup(regs, n, r, e);
        ElementAt(g, n, r, e);
        ElementAt(h, n, r, e);
      }
      assert g[r] == h[r];
    }
  }

  lemma Twice(regs: int, n: int)
    ensures (2 * regs) * n == 2 * (regs * n) && (regs * 2) * n == 2 * (regs * n)
  {
  }

  lemma ElementOfConcat(g: Group, h: Group, regs: nat, n: nat, k: nat)
    requires Shape(g, regs, n) && Shape(h, regs, n) && n > 0 && k < 2 * (regs * n)
    ensures Has(g + h, n, k)
    ensures k < regs * n ==> Has(g, n, k) && Element(g + h, n, k) == Element(g, n, k)
    ensures k >= regs * n ==> Has(h, n, k - regs * n) && Element(g + h, n, k) == Element(h, n, k - regs * n)
  {
    Twice(regs, n);
    FlatIndex(2 * regs, n, k);
    var r, e := k / n, k % n;
    if k < regs * n {
      FlatIndex(regs, n, k);
    } else {
      Distribute(r, regs, n);
      MulUnit(regs - r, n);
      assert r >= regs;
      ElementAt(h, n, r - regs, e);
    }
  }
}
