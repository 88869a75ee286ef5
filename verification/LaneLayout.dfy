/** What the widening, narrowing, interleaving and sliding instructions compose to. Widening splits
    even and odd lanes over two register groups; narrowing picks them up again in lane order. */
module LaneLayout {
  import opened Words
  import opened LaneArith
  import opened VectorLanes

  function NumOps(stripMine: bool): nat {
    if stripMine then 4 else 1
  }

  /** The second operand of an instruction: a group like the first, or one scalar in lane 0. */
  ghost predicate Operand(b: Group, scalar: bool, regs: nat, n: nat) {
    if scalar then |b| == 1 && |b[0]| > 0 else Shape(b, regs, n)
  }

  function OperandLane(b: Group, scalar: bool, r: nat, e: nat): int
    requires if scalar then |b| == 1 && |b[0]| > 0 else r < |b| && e < |b[r]|
  {
    if scalar then b[0][0] else b[r][e]
  }

  // ---------------------------------------------------------------- instructions

  /** `n` lanes per register on both sides; `size` is the lane size in bytes. */
  function ElementwiseOp(n: nat, size: nat, stripMine: bool, scalar: bool, f: (int, int) -> int): VectorOp {
    VectorOp(NumOps(stripMine), 1, n, n, n, Common(0, false, n, size, size), Common(1, scalar, n, size, size), f)
  }

  /** `n` wide lanes per destination register, hence `2 * n` narrow ones per source register. */
  function WideningOp(n: nat, size: nat, stripMine: bool, scalar: bool, f: (int, int) -> int): VectorOp {
    VectorOp(NumOps(stripMine), 2, n, 2 * n, 2 * n,
             Common(0, false, 2 * n, 2 * size, size), Common(1, scalar, 2 * n, 2 * size, size), f)
  }

  function AccumulateOp(n: nat, size: nat, stripMine: bool, scalar: bool, f: (int, int) -> int): VectorOp {
    VectorOp(NumOps(stripMine), 2, n, n, 2 * n, Accumulator(n), Common(1, scalar, 2 * n, 2 * size, size), f)
  }

  /** `n` wide lanes per source register, `ratio` (2 or 4) times as many narrow ones. */
  function NarrowingOp(n: nat, size: nat, ratio: nat, stripMine: bool, scalar: bool, f: (int, int) -> int): VectorOp {
    VectorOp(NumOps(stripMine), 1, ratio * n, n, ratio * n,
             Srans(n, size, ratio * size), Common(1, scalar, ratio * n, size, size), f)
  }

  /** The instructions that copy lanes, two destination registers per operation for the first two. */
  function ZipOp(n: nat, stripMine: bool, scalar: bool): VectorOp {
    VectorOp(NumOps(stripMine), 2, n, n, n, Zip(n, scalar), Zip(n, scalar), (x, y) => x)
  }

  function EvnoddOp(n: nat, stripMine: bool, scalar: bool): VectorOp {
    VectorOp(NumOps(stripMine), 2, n, n, n, Evnodd(n, scalar), Evnodd(n, scalar), (x, y) => x)
  }

  function SlideOp(n: nat, stripMine: bool, getter: Getter): VectorOp {
    VectorOp(NumOps(stripMine), 1, n, n, n, getter, Common(1, false, n, 1, 1), (x, y) => x)
  }

  // ---------------------------------------------------------------- reads

  /** Lane `e` of register `r` of a source is what the getter of this lane reads. */
  ghost predicate Reads(g: Getter, numOps: nat, n: nat, src: seq<Group>, op: nat, e: nat, r: nat, value: int) {
    var l := Locate(g, numOps, op, e, r);
    CanRead(src, n, l) && Element(src[l.source], n, l.index) == value
  }

  lemma RescaleValues(e: nat, size: nat)
    requires size in {1, 2, 4}
    ensures Rescale(e, size, size) == e
    ensures Rescale(e, 2 * size, size) == 2 * e
    ensures Rescale(e, size, 2 * size) == e / 2
    ensures Rescale(e, size, 4 * size) == e / 4
  {
  }

  lemma CommonReads(src: seq<Group>, source: nat, scalar: bool, numOps: nat, n: nat, dstSize: nat, srcSize: nat,
                    op: nat, e: nat, r: nat)
    requires source < |src| && Operand(src[source], scalar, numOps, n) && op < numOps
    requires Rescale(e, dstSize, srcSize) + r < n
    ensures Reads(Common(source, scalar, n, dstSize, srcSize), numOps, n, src, op, e, r,
                  OperandLane(src[source], scalar, op, Rescale(e, dstSize, srcSize) + r))
  {
    if scalar {
      ElementAt(src[source], n, 0, 0);
    } else {
      ElementAt(src[source], n, op, Rescale(e, dstSize, srcSize) + r);
    }
  }

  lemma AccumulatorReads(src: seq<Group>, numOps: nat, n: nat, op: nat, e: nat, r: nat)
    requires |src| > 0 && Shape(src[0], numOps * 2, n) && (numOps == 1 || numOps == 4)
    requires op < numOps && e < n && r < 2
    ensures op + r * numOps < |src[0]|
    ensures Reads(Accumulator(n), numOps, n, src, op, e, r, src[0][op + r * numOps][e])
  {
    Distribute(op, numOps * r, n);
    ElementAt(src[0], n, op + r * numOps, e);
  }

  /** The register group that holds lane `e` of the wide source. */
  function WideGroup(ratio: nat, e: nat): nat {
    if ratio == 2 then e % 2 else SransInterleave[e % 4]
  }

  lemma SransLocates(numOps: nat, n: nat, dstSize: nat, ratio: nat, op: nat, e: nat)
    requires dstSize in {1, 2} && ratio in {2, 4}
    ensures 0 <= (op + WideGroup(ratio, e) * numOps) * n
    ensures Locate(Srans(n, dstSize, ratio * dstSize), numOps, op, e, 0)
            == Lane(0, (op + WideGroup(ratio, e) * numOps) * n + e / ratio)
  {
    RescaleValues(e, dstSize);
    Distribute(op, WideGroup(ratio, e) * numOps, n);
    MulMono(0, op + WideGroup(ratio, e) * numOps, n);
  }

  lemma WideRegister(numOps: nat, ratio: nat, op: nat, e: nat)
    requires ratio in {2, 4} && (numOps == 1 || numOps == 4) && op < numOps
    ensures op + WideGroup(ratio, e) * numOps < numOps * ratio
  {
  }

  lemma SransReads(src: seq<Group>, numOps: nat, n: nat, dstSize: nat, ratio: nat, op: nat, e: nat)
    requires dstSize in {1, 2} && ratio in {2, 4} && (numOps == 1 || numOps == 4) && op < numOps
    requires |src| > 0 && Shape(src[0], numOps * ratio, n) && e / ratio < n
    ensures op + WideGroup(ratio, e) * numOps < |src[0]|
    ensures Reads(Srans(n, dstSize, ratio * dstSize), numOps, n, src, op, e, 0,
                  src[0][op + WideGroup(ratio, e) * numOps][e / ratio])
  {
    WideRegister(numOps, ratio, op, e);
    SransLocates(numOps, n, dstSize, ratio, op, e);
    ElementAt(src[0], n, op + WideGroup(ratio, e) * numOps, e / ratio);
  }

  ghost predicate ReadsBoth(o: VectorOp, src: seq<Group>, op: nat, e: nat, r: nat, x: int, y: int) {
    Reads(o.arg1, o.numOps, o.lanes1, src, op, e, r, x) && Reads(o.arg2, o.numOps, o.lanes2, src, op, e, r, y)
  }

  /** A register lane is the value the instruction computes from what the two getters read. */
  lemma RegisterLane(o: VectorOp, src: seq<Group>, op: nat, e: nat, r: nat, x: int, y: int)
    requires WellFormed(o, src) && op < o.numOps && e < o.lanes && r < o.destRegs
    requires ReadsBoth(o, src, op, e, r, x, y)
    ensures op + r * o.numOps < |Registers(o, src)| && Registers(o, src)[op + r * o.numOps][e] == o.f(x, y)
  {
    RegistersAt(o, src, op, e, r);
  }

  lemma FirstResult(o: VectorOp, src: seq<Group>, op: nat, e: nat, x: int, y: int)
    requires WellFormed(o, src) && op < o.numOps && e < o.lanes && 0 < o.destRegs && ReadsBoth(o, src, op, e, 0, x, y)
    ensures op < |Registers(o, src)| && Registers(o, src)[op][e] == o.f(x, y)
  {
    RegisterLane(o, src, op, e, 0, x, y);
  }

  // ---------------------------------------------------------------- elementwise, widening, accumulating, narrowing

  ghost predicate ElementwiseSources(n: nat, size: nat, stripMine: bool, scalar: bool, a: Group, b: Group) {
    size in {1, 2, 4} && Shape(a, NumOps(stripMine), n) && Operand(b, scalar, NumOps(stripMine), n)
  }

  lemma ElementwiseReads(n: nat, size: nat, stripMine: bool, scalar: bool, f: (int, int) -> int, a: Group, b: Group,
                         op: nat, e: nat)
    requires ElementwiseSources(n, size, stripMine, scalar, a, b) && op < NumOps(stripMine) && e < n
    ensures ReadsBoth(ElementwiseOp(n, size, stripMine, scalar, f), [a, b], op, e, 0, a[op][e], OperandLane(b, scalar, op, e))
  {
    RescaleValues(e, size);
    CommonReads([a, b], 0, false, NumOps(stripMine), n, size, size, op, e, 0);
    CommonReads([a, b], 1, scalar, NumOps(stripMine), n, size, size, op, e, 0);
  }

  lemma ElementwiseWellFormed(n: nat, size: nat, stripMine: bool, scalar: bool, f: (int, int) -> int, a: Group, b: Group)
    requires ElementwiseSources(n, size, stripMine, scalar, a, b)
    ensures WellFormed(ElementwiseOp(n, size, stripMine, scalar, f), [a, b])
  {
    var o := ElementwiseOp(n, size, stripMine, scalar, f);
    forall op: nat, e: nat, r: nat | op < o.numOps && e < o.lanes && r < o.destRegs
      ensures LaneReadable(o, [a, b], op, e, r)
    {
      ElementwiseReads(n, size, stripMine, scalar, f, a, b, op, e);
    }
  }

  lemma ElementwiseLane(n: nat, size: nat, stripMine: bool, scalar: bool, f: (int, int) -> int, a: Group, b: Group,
                        op: nat, e: nat)
    requires ElementwiseSources(n, size, stripMine, scalar, a, b) && op < NumOps(stripMine) && e < n
    requires WellFormed(ElementwiseOp(n, size, stripMine, scalar, f), [a, b])
    ensures Registers(ElementwiseOp(n, size, stripMine, scalar, f), [a, b])[op][e] == f(a[op][e], OperandLane(b, scalar, op, e))
  {
    ElementwiseReads(n, size, stripMine, scalar, f, a, b, op, e);
    FirstResult(ElementwiseOp(n, size, stripMine, scalar, f), [a, b], op, e, a[op][e], OperandLane(b, scalar, op, e));
  }

  ghost predicate WideningSources(n: nat, size: nat, stripMine: bool, scalar: bool, a: Group, b: Group) {
    size in {1, 2} && Shape(a, NumOps(stripMine), 2 * n) && Operand(b, scalar, NumOps(stripMine), 2 * n)
  }

  lemma WideningReads(n: nat, size: nat, stripMine: bool, scalar: bool, f: (int, int) -> int, a: Group, b: Group,
                      op: nat, e: nat, r: nat)
    requires WideningSources(n, size, stripMine, scalar, a, b) && op < NumOps(stripMine) && e < n && r < 2
    ensures ReadsBoth(WideningOp(n, size, stripMine, scalar, f), [a, b], op, e, r,
                      a[op][2 * e + r], OperandLane(b, scalar, op, 2 * e + r))
  {
    RescaleValues(e, size);
    CommonReads([a, b], 0, false, NumOps(stripMine), 2 * n, 2 * size, size, op, e, r);
    CommonReads([a, b], 1, scalar, NumOps(stripMine), 2 * n, 2 * size, size, op, e, r);
  }

  lemma WideningWellFormed(n: nat, size: nat, stripMine: bool, scalar: bool, f: (int, int) -> int, a: Group, b: Group)
    requires WideningSources(n, size, stripMine, scalar, a, b)
    ensures WellFormed(WideningOp(n, size, stripMine, scalar, f), [a, b])
  {
    var o := WideningOp(n, size, stripMine, scalar, f);
    forall op: nat, e: nat, r: nat | op < o.numOps && e < o.lanes && r < o.destRegs
      ensures LaneReadable(o, [a, b], op, e, r)
    {
      WideningReads(n, size, stripMine, scalar, f, a, b, op, e, r);
    }
  }

  /** Widening: result group `r` takes the lanes of parity `r`. */
  lemma WideningLane(n: nat, size: nat, stripMine: bool, scalar: bool, f: (int, int) -> int, a: Group, b: Group,
                     op: nat, e: nat, r: nat)
    requires WideningSources(n, size, stripMine, scalar, a, b) && op < NumOps(stripMine) && e < n && r < 2
    requires WellFormed(WideningOp(n, size, stripMine, scalar, f), [a, b])
    ensures op + r * NumOps(stripMine) < 2 * NumOps(stripMine)
    ensures Registers(WideningOp(n, size, stripMine, scalar, f), [a, b])[op + r * NumOps(stripMine)][e]
            == f(a[op][2 * e + r], OperandLane(b, scalar, op, 2 * e + r))
  {
    WideningReads(n, size, stripMine, scalar, f, a, b, op, e, r);
    RegisterLane(WideningOp(n, size, stripMine, scalar, f), [a, b], op, e, r,
                 a[op][2 * e + r], OperandLane(b, scalar, op, 2 * e + r));
  }

  ghost predicate AccumulateSources(n: nat, size: nat, stripMine: bool, scalar: bool, acc: Group, b: Group) {
    size in {1, 2} && Shape(acc, NumOps(stripMine) * 2, n) && Operand(b, scalar, NumOps(stripMine), 2 * n)
  }

  lemma AccumulateReads(n: nat, size: nat, stripMine: bool, scalar: bool, f: (int, int) -> int, acc: Group, b: Group,
                        op: nat, e: nat, r: nat)
    requires AccumulateSources(n, size, stripMine, scalar, acc, b) && op < NumOps(stripMine) && e < n && r < 2
    ensures ReadsBoth(AccumulateOp(n, size, stripMine, scalar, f), [acc, b], op, e, r,
                      acc[op + r * NumOps(stripMine)][e], OperandLane(b, scalar, op, 2 * e + r))
  {
    RescaleValues(e, size);
    AccumulatorReads([acc, b], NumOps(stripMine), n, op, e, r);
    CommonReads([acc, b], 1, scalar, NumOps(stripMine), 2 * n, 2 * size, size, op, e, r);
  }

  lemma AccumulateWellFormed(n: nat, size: nat, stripMine: bool, scalar: bool, f: (int, int) -> int, acc: Group, b: Group)
    requires AccumulateSources(n, size, stripMine, scalar, acc, b)
    ensures WellFormed(AccumulateOp(n, size, stripMine, scalar, f), [acc, b])
  {
    var o := AccumulateOp(n, size, stripMine, scalar, f);
    forall op: nat, e: nat, r: nat | op < o.numOps && e < o.lanes && r < o.destRegs
      ensures LaneReadable(o, [acc, b], op, e, r)
    {
      AccumulateReads(n, size, stripMine, scalar, f, acc, b, op, e, r);
    }
  }

  lemma AccumulateLane(n: nat, size: nat, stripMine: bool, scalar: bool, f: (int, int) -> int, acc: Group, b: Group,
                       op: nat, e: nat, r: nat)
    requires AccumulateSources(n, size, stripMine, scalar, acc, b) && op < NumOps(stripMine) && e < n && r < 2
    requires WellFormed(AccumulateOp(n, size, stripMine, scalar, f), [acc, b])
    ensures op + r * NumOps(stripMine) < 2 * NumOps(stripMine)
    ensures Registers(AccumulateOp(n, size, stripMine, scalar, f), [acc, b])[op + r * NumOps(stripMine)][e]
            == f(acc[op + r * NumOps(stripMine)][e], OperandLane(b, scalar, op, 2 * e + r))
  {
    AccumulateReads(n, size, stripMine, scalar, f, acc, b, op, e, r);
    RegisterLane(AccumulateOp(n, size, stripMine, scalar, f), [acc, b], op, e, r,
                 acc[op + r * NumOps(stripMine)][e], OperandLane(b, scalar, op, 2 * e + r));
  }

  ghost predicate NarrowingSources(n: nat, size: nat, ratio: nat, stripMine: bool, scalar: bool, w: Group, b: Group) {
    && size in {1, 2} && ratio in {2, 4}
    && Shape(w, NumOps(stripMine) * ratio, n) && Operand(b, scalar, NumOps(stripMine), ratio * n)
  }

  lemma NarrowingReads(n: nat, size: nat, ratio: nat, stripMine: bool, scalar: bool, f: (int, int) -> int,
                       w: Group, b: Group, op: nat, e: nat)
    requires NarrowingSources(n, size, ratio, stripMine, scalar, w, b) && op < NumOps(stripMine) && e < ratio * n
    ensures op + WideGroup(ratio, e) * NumOps(stripMine) < |w|
    ensures ReadsBoth(NarrowingOp(n, size, ratio, stripMine, scalar, f), [w, b], op, e, 0,
                      w[op + WideGroup(ratio, e) * NumOps(stripMine)][e / ratio], OperandLane(b, scalar, op, e))
  {
    SransReads([w, b], NumOps(stripMine), n, size, ratio, op, e);
    RescaleValues(e, size);
    CommonReads([w, b], 1, scalar, NumOps(stripMine), ratio * n, size, size, op, e, 0);
  }

  lemma NarrowingWellFormed(n: nat, size: nat, ratio: nat, stripMine: bool, scalar: bool, f: (int, int) -> int,
                            w: Group, b: Group)
    requires NarrowingSources(n, size, ratio, stripMine, scalar, w, b)
    ensures WellFormed(NarrowingOp(n, size, ratio, stripMine, scalar, f), [w, b])
  {
    var o := NarrowingOp(n, size, ratio, stripMine, scalar, f);
    forall op: nat, e: nat, r: nat | op < o.numOps && e < o.lanes && r < o.destRegs
      ensures LaneReadable(o, [w, b], op, e, r)
    {
      NarrowingReads(n, size, ratio, stripMine, scalar, f, w, b, op, e);
    }
  }

  /** Narrowing by 2 or 4: lane `e` comes from group `WideGroup(ratio, e)`. */
  lemma NarrowingLane(n: nat, size: nat, ratio: nat, stripMine: bool, scalar: bool, f: (int, int) -> int,
                      w: Group, b: Group, op: nat, e: nat)
    requires NarrowingSources(n, size, ratio, stripMine, scalar, w, b) && op < NumOps(stripMine) && e < ratio * n
    requires WellFormed(NarrowingOp(n, size, ratio, stripMine, scalar, f), [w, b])
    ensures op + WideGroup(ratio, e) * NumOps(stripMine) < |w|
    ensures Registers(NarrowingOp(n, size, ratio, stripMine, scalar, f), [w, b])[op][e]
            == f(w[op + WideGroup(ratio, e) * NumOps(stripMine)][e / ratio], OperandLane(b, scalar, op, e))
  {
    NarrowingReads(n, size, ratio, stripMine, scalar, f, w, b, op, e);
    FirstResult(NarrowingOp(n, size, ratio, stripMine, scalar, f), [w, b], op, e,
                w[op + WideGroup(ratio, e) * NumOps(stripMine)][e / ratio], OperandLane(b, scalar, op, e));
  }
}
