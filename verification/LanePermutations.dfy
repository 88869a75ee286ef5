/** The lane-copying instructions as maps on flat element indices: zip and even/odd split are inverse
    to each other, slides are windows over two consecutive register groups. */
module LanePermutations {
  import opened Words
  import opened VectorLanes
  import opened LaneLayout

  /** What flat destination element `k` reads. */
  function LocateFlat(g: Getter, numOps: nat, n: nat, k: nat): Lane
    requires n > 0
  {
    Locate(g, numOps, OpIndex(numOps, k / n), k % n, Slot(numOps, k / n))
  }

  ghost predicate IsCopy(o: VectorOp, stripMine: bool, destRegs: nat, n: nat) {
    && n > 0 && o.numOps == NumOps(stripMine) && o.destRegs == destRegs && o.lanes == o.lanes1 == o.lanes2 == n
    && o.f == ((x, y) => x)
  }

  lemma CopyLane(o: VectorOp, stripMine: bool, n: nat, src: seq<Group>, reg: nat, e: nat)
    requires IsCopy(o, stripMine, o.destRegs, n) && WellFormed(o, src) && reg < o.numOps * o.destRegs && e < n
    ensures var l := Locate(o.arg1, o.numOps, OpIndex(o.numOps, reg), e, Slot(o.numOps, reg));
      CanRead(src, n, l) && Registers(o, src)[reg][e] == Element(src[l.source], n, l.index)
  {
    Renumber(o.numOps, o.destRegs, reg);
    assert LaneReadable(o, src, OpIndex(o.numOps, reg), e, Slot(o.numOps, reg));
  }

  lemma CopyElement(o: VectorOp, stripMine: bool, n: nat, src: seq<Group>, k: nat)
    requires IsCopy(o, stripMine, o.destRegs, n) && WellFormed(o, src) && k < (o.numOps * o.destRegs) * n
    ensures Has(Registers(o, src), n, k)
    ensures var l := LocateFlat(o.arg1, o.numOps, n, k);
      CanRead(src, n, l) && Element(Registers(o, src), n, k) == Element(src[l.source], n, l.index)
  {
    FlatIndex(o.numOps * o.destRegs, n, k);
    CopyLane(o, stripMine, n, src, k / n, k % n);
  }

  /** An element taken from a pair of groups is an element of their concatenation. */
  lemma PairElement(c: Group, d: Group, numOps: nat, n: nat, k: nat)
    requires Shape(c, numOps, n) && Shape(d, numOps, n) && n > 0 && k < 2 * (numOps * n)
    ensures var l := FromPair(n, numOps, k);
      && CanRead([c, d], n, l) && Has(c + d, n, k)
      && Element([c, d][l.source], n, l.index) == Element(c + d, n, k)
  {
    ElementOfConcat(c, d, numOps, n, k);
  }

  lemma FlatOfRegister(numOps: nat, destRegs: nat, n: nat, op: nat, e: nat, r: nat)
    requires (numOps == 1 || numOps == 4) && op < numOps && r < destRegs && e < n
    ensures var k := (op + r * numOps) * n + e;
      && k < (numOps * destRegs) * n && k / n == op + r * numOps && k % n == e
      && OpIndex(numOps, k / n) == op && Slot(numOps, k / n) == r
  {
    RegisterNumber(numOps, destRegs, op, r);
    WithinGroup(numOps * destRegs, n, op + r * numOps, e);
    ModUnique((op + r * numOps) * n + e, n, op + r * numOps);
  }

  // ---------------------------------------------------------------- zip and split

  lemma ZipLocates(numOps: nat, n: nat, k: nat)
    requires (numOps == 1 || numOps == 4) && n > 0 && n % 2 == 0 && k < 2 * (numOps * n)
    ensures LocateFlat(Zip(n, false), numOps, n, k) == Lane(k % 2, k / 2) && k / 2 < numOps * n
  {
    RegisterOf(numOps, n, k);
    ZipIndex(k / n, OpIndex(numOps, k / n), Slot(numOps, k / n) * numOps, n, n / 2, k % n);
  }

  /** Operation, result and lane of flat element `k` of a two-result instruction. */
  lemma RegisterOf(numOps: nat, n: nat, k: nat)
    requires (numOps == 1 || numOps == 4) && n > 0 && k < 2 * (numOps * n)
    ensures k == (k / n) * n + k % n && k % n < n
    ensures k / n == OpIndex(numOps, k / n) + Slot(numOps, k / n) * numOps
    ensures OpIndex(numOps, k / n) < numOps && Slot(numOps, k / n) < 2
  {
    Twice(numOps, n);
    FlatIndex(2 * numOps, n, k);
  }

  lemma ZipIndex(reg: nat, op: nat, shifted: nat, n: nat, half: nat, e: nat)
    requires n == 2 * half && reg == op + shifted
    ensures (reg * n + e) % 2 == e % 2 && (reg * n + e) / 2 == op * half + e / 2 + shifted * half
  {
    Distribute(op, shifted, half);
    assert reg * n == 2 * (reg * half);
  }

  lemma SplitLocates(numOps: nat, n: nat, k: nat)
    requires (numOps == 1 || numOps == 4) && n > 0 && k < 2 * (numOps * n)
    ensures LocateFlat(Evnodd(n, false), numOps, n, k)
            == FromPair(n, numOps, if k < numOps * n then 2 * k else 2 * (k - numOps * n) + 1)
  {
    RegisterOf(numOps, n, k);
    SplitIndex(numOps, n, OpIndex(numOps, k / n), k % n, k / n, Slot(numOps, k / n));
  }

  lemma SplitIndex(numOps: nat, n: nat, op: nat, e: nat, reg: nat, r: nat)
    requires op < numOps && e < n && r < 2 && reg == op + r * numOps
    ensures var k := reg * n + e;
      && (k < numOps * n <==> r == 0)
      && (op * 2) * n + e * 2 == 2 * (if r == 0 then k else k - numOps * n)
  {
    Twice(op, n);
    WithinGroup(numOps, n, op, e);
    if r == 1 {
      Distribute(op, numOps, n);
    }
  }

  ghost predicate PairSources(n: nat, stripMine: bool, a: Group, b: Group) {
    n > 0 && n % 2 == 0 && Shape(a, NumOps(stripMine), n) && Shape(b, NumOps(stripMine), n)
  }

  lemma ZipReadable(n: nat, stripMine: bool, a: Group, b: Group, op: nat, e: nat, r: nat)
    requires PairSources(n, stripMine, a, b) && op < NumOps(stripMine) && e < n && r < 2
    ensures LaneReadable(ZipOp(n, stripMine, false), [a, b], op, e, r)
  {
    var numOps := NumOps(stripMine);
    FlatOfRegister(numOps, 2, n, op, e, r);
    Twice(numOps, n);
    var k := (op + r * numOps) * n + e;
    ZipLocates(numOps, n, k);
    ShapeHas([a, b][k % 2], numOps, n, k / 2);
  }

  lemma ZipWellFormed(n: nat, stripMine: bool, a: Group, b: Group)
    requires PairSources(n, stripMine, a, b)
    ensures WellFormed(ZipOp(n, stripMine, false), [a, b])
  {
    forall op: nat, e: nat, r: nat | op < NumOps(stripMine) && e < n && r < 2
      ensures LaneReadable(ZipOp(n, stripMine, false), [a, b], op, e, r)
    {
      ZipReadable(n, stripMine, a, b, op, e, r);
    }
  }

  lemma SplitReadable(n: nat, stripMine: bool, a: Group, b: Group, op: nat, e: nat, r: nat)
    requires PairSources(n, stripMine, a, b) && op < NumOps(stripMine) && e < n && r < 2
    ensures LaneReadable(EvnoddOp(n, stripMine, false), [a, b], op, e, r)
  {
    SplitBound(NumOps(stripMine), n, op, e, r);
    PairElement(a, b, NumOps(stripMine), n, (op * 2) * n + e * 2 + r);
  }

  lemma SplitBound(numOps: nat, n: nat, op: nat, e: nat, r: nat)
    requires op < numOps && e < n && r < 2
    ensures 0 <= (op * 2) * n + e * 2 + r < 2 * (numOps * n)
  {
    Twice(op, n);
    WithinGroup(numOps, n, op, e);
    MulMono(0, op, n);
  }

  lemma SplitWellFormed(n: nat, stripMine: bool, a: Group, b: Group)
    requires PairSources(n, stripMine, a, b)
    ensures WellFormed(EvnoddOp(n, stripMine, false), [a, b])
  {
    forall op: nat, e: nat, r: nat | op < NumOps(stripMine) && e < n && r < 2
      ensures LaneReadable(EvnoddOp(n, stripMine, false), [a, b], op, e, r)
    {
      SplitReadable(n, stripMine, a, b, op, e, r);
    }
  }

  /** VZip interleaves: element `k` of the result is element `k / 2` of source `k % 2`. */
  lemma VectorZipElement(n: nat, stripMine: bool, a: Group, b: Group, k: nat)
    requires PairSources(n, stripMine, a, b) && WellFormed(ZipOp(n, stripMine, false), [a, b])
    requires k < 2 * (NumOps(stripMine) * n)
    ensures Has(Registers(ZipOp(n, stripMine, false), [a, b]), n, k) && Has([a, b][k % 2], n, k / 2)
    ensures Element(Registers(ZipOp(n, stripMine, false), [a, b]), n, k) == Element([a, b][k % 2], n, k / 2)
  {
    ZipLocates(NumOps(stripMine), n, k);
    CopyElement(ZipOp(n, stripMine, false), stripMine, n, [a, b], k);
  }

  /** VEvnodd separates: the even elements of the pair first, then the odd ones. */
  lemma VectorSplitElement(n: nat, stripMine: bool, a: Group, b: Group, k: nat)
    requires PairSources(n, stripMine, a, b) && WellFormed(EvnoddOp(n, stripMine, false), [a, b])
    requires k < 2 * (NumOps(stripMine) * n)
    ensures var m := NumOps(stripMine) * n;
      var j := if k < m then 2 * k else 2 * (k - m) + 1;
      && Has(Registers(EvnoddOp(n, stripMine, false), [a, b]), n, k) && Has(a + b, n, j)
      && Element(Registers(EvnoddOp(n, stripMine, false), [a, b]), n, k) == Element(a + b, n, j)
  {
    var m := NumOps(stripMine) * n;
    SplitLocates(NumOps(stripMine), n, k);
    CopyElement(EvnoddOp(n, stripMine, false), stripMine, n, [a, b], k);
    PairElement(a, b, NumOps(stripMine), n, if k < m then 2 * k else 2 * (k - m) + 1);
  }

  lemma Reassemble(z: Group, k: nat)
    requires |z| == 2 * k
    ensures z[..k] + z[k..] == z
  {
  }

  /** Splitting the zipped pair gives the pair back. */
  lemma VectorSplitUndoesZip(n: nat, stripMine: bool, a: Group, b: Group)
    requires PairSources(n, stripMine, a, b)
    ensures WellFormed(ZipOp(n, stripMine, false), [a, b])
    ensures var z, m := Registers(ZipOp(n, stripMine, false), [a, b]), NumOps(stripMine);
      && WellFormed(EvnoddOp(n, stripMine, false), [z[..m], z[m..]])
      && Registers(EvnoddOp(n, stripMine, false), [z[..m], z[m..]]) == a + b
  {
    var m := NumOps(stripMine);
    ZipWellFormed(n, stripMine, a, b);
    var z := Registers(ZipOp(n, stripMine, false), [a, b]);
    SplitWellFormed(n, stripMine, z[..m], z[m..]);
    var w := Registers(EvnoddOp(n, stripMine, false), [z[..m], z[m..]]);
    Twice(m, n);
    forall k: nat | k < (2 * m) * n && Has(w, n, k) && Has(a + b, n, k)
      ensures Element(w, n, k) == Element(a + b, n, k)
    {
      SplitOfZip(n, stripMine, a, b, z, k);
    }
    FlatExtensional(w, a + b, 2 * m, n);
  }

  lemma SplitOfZip(n: nat, stripMine: bool, a: Group, b: Group, z: Group, k: nat)
    requires PairSources(n, stripMine, a, b) && WellFormed(ZipOp(n, stripMine, false), [a, b])
    requires z == Registers(ZipOp(n, stripMine, false), [a, b]) && k < 2 * (NumOps(stripMine) * n)
    requires WellFormed(EvnoddOp(n, stripMine, false), [z[..NumOps(stripMine)], z[NumOps(stripMine)..]])
    ensures var w := Registers(EvnoddOp(n, stripMine, false), [z[..NumOps(stripMine)], z[NumOps(stripMine)..]]);
      Has(w, n, k) && Has(a + b, n, k) && Element(w, n, k) == Element(a + b, n, k)
  {
    var m := NumOps(stripMine);
    Reassemble(z, m);
    VectorSplitElement(n, stripMine, z[..m], z[m..], k);
    VectorZipElement(n, stripMine, a, b, if k < m * n then 2 * k else 2 * (k - m * n) + 1);
    ElementOfConcat(a, b, m, n, k);
  }

  /** Zipping the split pair gives the pair back. */
  lemma VectorZipUndoesSplit(n: nat, stripMine: bool, c: Group, d: Group)
    requires PairSources(n, stripMine, c, d)
    ensures WellFormed(EvnoddOp(n, stripMine, false), [c, d])
    ensures var w, m := Registers(EvnoddOp(n, stripMine, false), [c, d]), NumOps(stripMine);
      && WellFormed(ZipOp(n, stripMine, false), [w[..m], w[m..]])
      && Registers(ZipOp(n, stripMine, false), [w[..m], w[m..]]) == c + d
  {
    var m := NumOps(stripMine);
    SplitWellFormed(n, stripMine, c, d);
    var w := Registers(EvnoddOp(n, stripMine, false), [c, d]);
    ZipWellFormed(n, stripMine, w[..m], w[m..]);
    var z := Registers(ZipOp(n, stripMine, false), [w[..m], w[m..]]);
    Twice(m, n);
    forall k: nat | k < (2 * m) * n && Has(z, n, k) && Has(c + d, n, k)
      ensures Element(z, n, k) == Element(c + d, n, k)
    {
      ZipOfSplit(n, stripMine, c, d, w, k);
    }
    FlatExtensional(z, c + d, 2 * m, n);
  }

  lemma ZipOfSplit(n: nat, stripMine: bool, c: Group, d: Group, w: Group, k: nat)
    requires PairSources(n, stripMine, c, d) && WellFormed(EvnoddOp(n, stripMine, false), [c, d])
    requires w == Registers(EvnoddOp(n, stripMine, false), [c, d]) && k < 2 * (NumOps(stripMine) * n)
    requires WellFormed(ZipOp(n, stripMine, false), [w[..NumOps(stripMine)], w[NumOps(stripMine)..]])
    ensures var z := Registers(ZipOp(n, stripMine, false), [w[..NumOps(stripMine)], w[NumOps(stripMine)..]]);
      Has(z, n, k) && Has(c + d, n, k) && Element(z, n, k) == Element(c + d, n, k)
  {
    var m := NumOps(stripMine);
    Reassemble(w, m);
    VectorZipElement(n, stripMine, w[..m], w[m..], k);
    ZipLocates(m, n, k);
    var j := k / 2 + (if k % 2 == 0 then 0 else m * n);
    ElementOfConcat(w[..m], w[m..], m, n, j);
    VectorSplitElement(n, stripMine, c, d, j);
  }

  // ---------------------------------------------------------------- scalar second operands

  /** A scalar operand stands for a group that repeats it. */
  function Spread(b: Group, scalar: bool, regs: nat, n: nat): (g: Group)
    requires Operand(b, scalar, regs, n)
    ensures Shape(g, regs, n) && (!scalar ==> g == b)
  {
    if scalar then seq(regs, _ => seq(n, _ => b[0][0])) else b
  }

  ghost predicate ReadsAlike(
    g: Getter, src: seq<Group>, h: Getter, to: seq<Group>, numOps: nat, n: nat, op: nat, e: nat, r: nat)
  {
    var l, m := Locate(g, numOps, op, e, r), Locate(h, numOps, op, e, r);
    CanRead(src, n, l) && CanRead(to, n, m) && Element(src[l.source], n, l.index) == Element(to[m.source], n, m.index)
  }

  ghost predicate AllAlike(g: Getter, src: seq<Group>, h: Getter, to: seq<Group>, numOps: nat, n: nat) {
    forall op: nat, e: nat, r: nat | op < numOps && e < n && r < 2 :: ReadsAlike(g, src, h, to, numOps, n, op, e, r)
  }

  /** Copies that read alike leave the same registers. */
  lemma CopiesAlike(o: VectorOp, src: seq<Group>, p: VectorOp, to: seq<Group>, stripMine: bool, n: nat)
    requires IsCopy(o, stripMine, 2, n) && IsCopy(p, stripMine, 2, n) && o.arg1 == o.arg2 && p.arg1 == p.arg2
    requires AllAlike(o.arg1, src, p.arg1, to, o.numOps, n)
    ensures WellFormed(o, src) && WellFormed(p, to) && Registers(o, src) == Registers(p, to)
  {
    forall op: nat, e: nat, r: nat | op < o.numOps && e < n && r < 2
      ensures LaneReadable(o, src, op, e, r) && LaneReadable(p, to, op, e, r)
    {
      assert ReadsAlike(o.arg1, src, p.arg1, to, o.numOps, n, op, e, r);
    }
    forall reg, e | 0 <= reg < o.numOps * 2 && 0 <= e < n
      ensures Registers(o, src)[reg][e] == Registers(p, to)[reg][e]
    {
      Renumber(o.numOps, 2, reg);
      CopyLane(o, stripMine, n, src, reg, e);
      CopyLane(p, stripMine, n, to, reg, e);
      assert ReadsAlike(o.arg1, src, p.arg1, to, o.numOps, n, OpIndex(o.numOps, reg), e, Slot(o.numOps, reg));
    }
    SameLanes(Registers(o, src), Registers(p, to), o.numOps * 2, n);
  }

  lemma SpreadElement(b: Group, regs: nat, n: nat, k: nat)
    requires Operand(b, true, regs, n) && n > 0 && k < regs * n
    ensures Has(Spread(b, true, regs, n), n, k) && Has(b, n, 0) && Element(Spread(b, true, regs, n), n, k) == Element(b, n, 0)
  {
    FlatIndex(regs, n, k);
    ElementAt(b, n, 0, 0);
  }

  ghost predicate PairOperands(n: nat, stripMine: bool, scalar: bool, a: Group, b: Group) {
    n > 0 && n % 2 == 0 && Shape(a, NumOps(stripMine), n) && Operand(b, scalar, NumOps(stripMine), n)
  }

  lemma ZipAlike(n: nat, stripMine: bool, a: Group, b: Group, op: nat, e: nat, r: nat)
    requires PairOperands(n, stripMine, true, a, b) && op < NumOps(stripMine) && e < n && r < 2
    ensures ReadsAlike(Zip(n, true), [a, b], Zip(n, false), [a, Spread(b, true, NumOps(stripMine), n)],
                       NumOps(stripMine), n, op, e, r)
  {
    var c := Spread(b, true, NumOps(stripMine), n);
    var l := Locate(Zip(n, false), NumOps(stripMine), op, e, r);
    ZipReadable(n, stripMine, a, c, op, e, r);
    ZipBound(NumOps(stripMine), n, op, e, r);
    if e % 2 == 1 {
      SpreadElement(b, NumOps(stripMine), n, l.index);
    }
  }

  lemma ZipBound(numOps: nat, n: nat, op: nat, e: nat, r: nat)
    requires (numOps == 1 || numOps == 4) && n > 0 && n % 2 == 0 && op < numOps && e < n && r < 2
    ensures 0 <= Locate(Zip(n, false), numOps, op, e, r).index < numOps * n
  {
    FlatOfRegister(numOps, 2, n, op, e, r);
    Twice(numOps, n);
    ZipLocates(numOps, n, (op + r * numOps) * n + e);
  }

  lemma SplitAlike(n: nat, stripMine: bool, a: Group, b: Group, op: nat, e: nat, r: nat)
    requires PairOperands(n, stripMine, true, a, b) && op < NumOps(stripMine) && e < n && r < 2
    ensures ReadsAlike(Evnodd(n, true), [a, b], Evnodd(n, false), [a, Spread(b, true, NumOps(stripMine), n)],
                       NumOps(stripMine), n, op, e, r)
  {
    var c := Spread(b, true, NumOps(stripMine), n);
    var l := Locate(Evnodd(n, false), NumOps(stripMine), op, e, r);
    SplitBound(NumOps(stripMine), n, op, e, r);
    SplitReadable(n, stripMine, a, c, op, e, r);
    if l.source == 1 {
      SpreadElement(b, NumOps(stripMine), n, l.index);
    }
  }

  /** A zip with a scalar is the zip with the group that repeats it. */
  lemma ZipSpreads(n: nat, stripMine: bool, scalar: bool, a: Group, b: Group)
    requires PairOperands(n, stripMine, scalar, a, b)
    ensures var c := Spread(b, scalar, NumOps(stripMine), n);
      && WellFormed(ZipOp(n, stripMine, scalar), [a, b]) && WellFormed(ZipOp(n, stripMine, false), [a, c])
      && Registers(ZipOp(n, stripMine, scalar), [a, b]) == Registers(ZipOp(n, stripMine, false), [a, c])
  {
    var c := Spread(b, scalar, NumOps(stripMine), n);
    ZipWellFormed(n, stripMine, a, c);
    if scalar {
      forall op: nat, e: nat, r: nat | op < NumOps(stripMine) && e < n && r < 2
        ensures ReadsAlike(Zip(n, true), [a, b], Zip(n, false), [a, c], NumOps(stripMine), n, op, e, r)
      {
        ZipAlike(n, stripMine, a, b, op, e, r);
      }
      CopiesAlike(ZipOp(n, stripMine, true), [a, b], ZipOp(n, stripMine, false), [a, c], stripMine, n);
    }
  }

  lemma SplitSpreads(n: nat, stripMine: bool, scalar: bool, a: Group, b: Group)
    requires PairOperands(n, stripMine, scalar, a, b)
    ensures var c := Spread(b, scalar, NumOps(stripMine), n);
      && WellFormed(EvnoddOp(n, stripMine, scalar), [a, b]) && WellFormed(EvnoddOp(n, stripMine, false), [a, c])
      && Registers(EvnoddOp(n, stripMine, scalar), [a, b]) == Registers(EvnoddOp(n, stripMine, false), [a, c])
  {
    var c := Spread(b, scalar, NumOps(stripMine), n);
    SplitWellFormed(n, stripMine, a, c);
    if scalar {
      forall op: nat, e: nat, r: nat | op < NumOps(stripMine) && e < n && r < 2
        ensures ReadsAlike(Evnodd(n, true), [a, b], Evnodd(n, false), [a, c], NumOps(stripMine), n, op, e, r)
      {
        SplitAlike(n, stripMine, a, b, op, e, r);
      }
      CopiesAlike(EvnoddOp(n, stripMine, true), [a, b], EvnoddOp(n, stripMine, false), [a, c], stripMine, n);
    }
  }

  /** VZip interleaves: element `k` of the result is element `k / 2` of source `k % 2`, where a scalar
      second source repeats. */
  lemma ZipElement(n: nat, stripMine: bool, scalar: bool, a: Group, b: Group, k: nat)
    requires PairOperands(n, stripMine, scalar, a, b) && k < 2 * (NumOps(stripMine) * n)
    ensures WellFormed(ZipOp(n, stripMine, scalar), [a, b])
    ensures var z, c := Registers(ZipOp(n, stripMine, scalar), [a, b]), Spread(b, scalar, NumOps(stripMine), n);
      && Has(z, n, k) && Has([a, c][k % 2], n, k / 2)
      && Element(z, n, k) == Element([a, c][k % 2], n, k / 2)
  {
    ZipSpreads(n, stripMine, scalar, a, b);
    VectorZipElement(n, stripMine, a, Spread(b, scalar, NumOps(stripMine), n), k);
  }

  /** VEvnodd separates: the even elements of the pair first, then the odd ones. */
  lemma SplitElement(n: nat, stripMine: bool, scalar: bool, a: Group, b: Group, k: nat)
    requires PairOperands(n, stripMine, scalar, a, b) && k < 2 * (NumOps(stripMine) * n)
    ensures WellFormed(EvnoddOp(n, stripMine, scalar), [a, b])
    ensures var w, c := Registers(EvnoddOp(n, stripMine, scalar), [a, b]), Spread(b, scalar, NumOps(stripMine), n);
      var m := NumOps(stripMine) * n;
      var j := if k < m then 2 * k else 2 * (k - m) + 1;
      Has(w, n, k) && Has(a + c, n, j) && Element(w, n, k) == Element(a + c, n, j)
  {
    SplitSpreads(n, stripMine, scalar, a, b);
    VectorSplitElement(n, stripMine, a, Spread(b, scalar, NumOps(stripMine), n), k);
  }

  /** Splitting the zipped pair gives the pair back. */
  lemma SplitUndoesZip(n: nat, stripMine: bool, scalar: bool, a: Group, b: Group)
    requires PairOperands(n, stripMine, scalar, a, b)
    ensures WellFormed(ZipOp(n, stripMine, scalar), [a, b])
    ensures var z, m := Registers(ZipOp(n, stripMine, scalar), [a, b]), NumOps(stripMine);
      && WellFormed(EvnoddOp(n, stripMine, false), [z[..m], z[m..]])
      && Registers(EvnoddOp(n, stripMine, false), [z[..m], z[m..]]) == a + Spread(b, scalar, m, n)
  {
    ZipSpreads(n, stripMine, scalar, a, b);
    VectorSplitUndoesZip(n, stripMine, a, Spread(b, scalar, NumOps(stripMine), n));
  }

  /** Zipping the split pair gives the pair back. */
  lemma ZipUndoesSplit(n: nat, stripMine: bool, scalar: bool, c: Group, d: Group)
    requires PairOperands(n, stripMine, scalar, c, d)
    ensures WellFormed(EvnoddOp(n, stripMine, scalar), [c, d])
    ensures var w, m := Registers(EvnoddOp(n, stripMine, scalar), [c, d]), NumOps(stripMine);
      && WellFormed(ZipOp(n, stripMine, false), [w[..m], w[m..]])
      && Registers(ZipOp(n, stripMine, false), [w[..m], w[m..]]) == c + Spread(d, scalar, m, n)
  {
    SplitSpreads(n, stripMine, scalar, c, d);
    VectorZipUndoesSplit(n, stripMine, c, Spread(d, scalar, NumOps(stripMine), n));
  }

  // ---------------------------------------------------------------- slides

  ghost predicate SlideSources(n: nat, stripMine: bool, index: nat, a: Group, b: Group) {
    n > 0 && index <= n && Shape(a, NumOps(stripMine), n) && Shape(b, NumOps(stripMine), n)
  }

  lemma NextLocates(n: nat, index: nat, k: nat)
    requires n > 0 && index <= n && k < 4 * n
    ensures LocateFlat(SlideNext(n, true, index), 4, n, k) == FromPair(n, 4, k + index)
  {
    FlatIndex(4, n, k);
  }

  lemma PreviousLocates(n: nat, index: nat, k: nat)
    requires n > 0 && index <= n && k < 4 * n
    ensures LocateFlat(SlidePrevious(n, true, index), 4, n, k) == FromPair(n, 4, 4 * n + k - index)
  {
    FlatIndex(4, n, k);
  }

  lemma VerticalLocates(numOps: nat, n: nat, index: nat, op: nat, e: nat)
    requires n > 0 && index <= n && op < numOps && e < n
    ensures Locate(SlideNext(n, false, index), numOps, op, e, 0)
            == if e + index < n then Lane(0, op * n + (e + index)) else Lane(1, op * n + (e + index - n))
    ensures Locate(SlidePrevious(n, false, index), numOps, op, e, 0)
            == if e < index then Lane(0, op * n + (n + e - index)) else Lane(1, op * n + (e - index))
  {
  }

  lemma SlideReadsPair(n: nat, index: nat, op: nat, e: nat)
    requires n > 0 && index <= n && op < 4 && e < n
    ensures var k := op * n + e;
      && k < 4 * n
      && Locate(SlideNext(n, true, index), 4, op, e, 0) == FromPair(n, 4, k + index)
      && Locate(SlidePrevious(n, true, index), 4, op, e, 0) == FromPair(n, 4, 4 * n + k - index)
  {
    FlatOfRegister(4, 1, n, op, e, 0);
    NextLocates(n, index, op * n + e);
    PreviousLocates(n, index, op * n + e);
  }

  lemma SlideReadable(n: nat, index: nat, a: Group, b: Group, op: nat, e: nat)
    requires SlideSources(n, true, index, a, b) && op < 4 && e < n
    ensures LaneReadable(SlideOp(n, true, SlideNext(n, true, index)), [a, b], op, e, 0)
    ensures LaneReadable(SlideOp(n, true, SlidePrevious(n, true, index)), [a, b], op, e, 0)
  {
    var k := op * n + e;
    SlideReadsPair(n, index, op, e);
    PairElement(a, b, 4, n, k + index);
    PairElement(a, b, 4, n, 4 * n + k - index);
    RescaleValues(e, 1);
    CommonReads([a, b], 1, false, 4, n, 1, 1, op, e, 0);
  }

  lemma SlideWellFormed(n: nat, index: nat, a: Group, b: Group)
    requires SlideSources(n, true, index, a, b)
    ensures WellFormed(SlideOp(n, true, SlideNext(n, true, index)), [a, b])
    ensures WellFormed(SlideOp(n, true, SlidePrevious(n, true, index)), [a, b])
  {
    var o, p := SlideOp(n, true, SlideNext(n, true, index)), SlideOp(n, true, SlidePrevious(n, true, index));
    forall op: nat, e: nat, r: nat | op < 4 && e < n && r < 1
      ensures LaneReadable(o, [a, b], op, e, r) && LaneReadable(p, [a, b], op, e, r)
    {
      SlideReadable(n, index, a, b, op, e);
    }
  }

  lemma CopyOfPair(o: VectorOp, n: nat, a: Group, b: Group, k: nat, at: nat)
    requires IsCopy(o, true, 1, n) && WellFormed(o, [a, b]) && Shape(a, 4, n) && Shape(b, 4, n)
    requires k < 4 * n && at < 2 * (4 * n) && LocateFlat(o.arg1, 4, n, k) == FromPair(n, 4, at)
    ensures Has(a + b, n, at) && Has(Registers(o, [a, b]), n, k)
    ensures Element(Registers(o, [a, b]), n, k) == Element(a + b, n, at)
  {
    PairElement(a, b, 4, n, at);
    CopyElement(o, true, n, [a, b], k);
  }

  /** Horizontal slides read a window of the concatenated groups: at offset `index`, or `index`
      elements before the second group. */
  lemma NextWindow(n: nat, index: nat, a: Group, b: Group, k: nat)
    requires SlideSources(n, true, index, a, b) && k < 4 * n
    requires WellFormed(SlideOp(n, true, SlideNext(n, true, index)), [a, b])
    ensures var next := Registers(SlideOp(n, true, SlideNext(n, true, index)), [a, b]);
      Has(a + b, n, k + index) && Has(next, n, k) && Element(next, n, k) == Element(a + b, n, k + index)
  {
    NextLocates(n, index, k);
    CopyOfPair(SlideOp(n, true, SlideNext(n, true, index)), n, a, b, k, k + index);
  }

  lemma PreviousWindow(n: nat, index: nat, a: Group, b: Group, k: nat)
    requires SlideSources(n, true, index, a, b) && k < 4 * n
    requires WellFormed(SlideOp(n, true, SlidePrevious(n, true, index)), [a, b])
    ensures var previous := Registers(SlideOp(n, true, SlidePrevious(n, true, index)), [a, b]);
      Has(a + b, n, 4 * n + k - index) && Has(previous, n, k) && Element(previous, n, k) == Element(a + b, n, 4 * n + k - index)
  {
    PreviousLocates(n, index, k);
    CopyOfPair(SlideOp(n, true, SlidePrevious(n, true, index)), n, a, b, k, 4 * n + k - index);
  }

  /** The four registers of a horizontal slide. */
  function SlideHn(n: nat, index: nat, a: Group, b: Group): (g: Group)
    requires SlideSources(n, true, index, a, b)
    ensures Shape(g, 4, n)
  {
    SlideWellFormed(n, index, a, b);
    Registers(SlideOp(n, true, SlideNext(n, true, index)), [a, b])
  }

  function SlideHp(n: nat, index: nat, a: Group, b: Group): (g: Group)
    requires SlideSources(n, true, index, a, b)
    ensures Shape(g, 4, n)
  {
    SlideWellFormed(n, index, a, b);
    Registers(SlideOp(n, true, SlidePrevious(n, true, index)), [a, b])
  }

  lemma NextElement(n: nat, index: nat, a: Group, b: Group, k: nat)
    requires SlideSources(n, true, index, a, b) && k < 4 * n
    ensures Has(a + b, n, k + index)
    ensures Has(SlideHn(n, index, a, b), n, k) && Element(SlideHn(n, index, a, b), n, k) == Element(a + b, n, k + index)
  {
    SlideWellFormed(n, index, a, b);
    NextWindow(n, index, a, b, k);
  }

  lemma SlideElements(n: nat, index: nat, a: Group, b: Group, k: nat)
    requires SlideSources(n, true, index, a, b) && k < 4 * n
    ensures Has(a + b, n, k + index) && Has(a + b, n, 4 * n + k - index)
    ensures Has(SlideHn(n, index, a, b), n, k) && Element(SlideHn(n, index, a, b), n, k) == Element(a + b, n, k + index)
    ensures Has(SlideHp(n, index, a, b), n, k) && Element(SlideHp(n, index, a, b), n, k) == Element(a + b, n, 4 * n + k - index)
  {
    SlideWellFormed(n, index, a, b);
    NextElement(n, index, a, b, k);
    PreviousWindow(n, index, a, b, k);
  }

  lemma SlideNextTwice(n: nat, i: nat, j: nat, a: Group, b: Group, c: Group, k: nat)
    requires i + j <= n && SlideSources(n, true, i, a, b) && SlideSources(n, true, i, b, c) && k < 4 * n
    ensures var x, y := SlideHn(n, i, a, b), SlideHn(n, i, b, c);
      Has(x + y, n, k + j) && Has(a + b, n, k + i + j) && Element(x + y, n, k + j) == Element(a + b, n, k + i + j)
  {
    ElementOfConcat(SlideHn(n, i, a, b), SlideHn(n, i, b, c), 4, n, k + j);
    if k + j < 4 * n {
      NextElement(n, i, a, b, k + j);
    } else {
      NextElement(n, i, b, c, k + j - 4 * n);
      ElementOfConcat(a, b, 4, n, k + i + j);
      ElementOfConcat(b, c, 4, n, k + j - 4 * n + i);
    }
  }

  /** On three consecutive groups, sliding next by `i` and then by `j` is sliding by `i + j`. */
  lemma SlideNextComposes(n: nat, i: nat, j: nat, a: Group, b: Group, c: Group)
    requires i + j <= n && SlideSources(n, true, i, a, b) && SlideSources(n, true, i, b, c)
    ensures SlideHn(n, j, SlideHn(n, i, a, b), SlideHn(n, i, b, c)) == SlideHn(n, i + j, a, b)
  {
    var x, y := SlideHn(n, i, a, b), SlideHn(n, i, b, c);
    var left, right := SlideHn(n, j, x, y), SlideHn(n, i + j, a, b);
    forall k: nat | k < 4 * n && Has(left, n, k) && Has(right, n, k)
      ensures Element(left, n, k) == Element(right, n, k)
    {
      SlideComposedAt(n, i, j, a, b, c, k);
    }
    FlatExtensional(left, right, 4, n);
  }

  lemma SlideComposedAt(n: nat, i: nat, j: nat, a: Group, b: Group, c: Group, k: nat)
    requires i + j <= n && SlideSources(n, true, i, a, b) && SlideSources(n, true, i, b, c) && k < 4 * n
    ensures var left, right := SlideHn(n, j, SlideHn(n, i, a, b), SlideHn(n, i, b, c)), SlideHn(n, i + j, a, b);
      Has(left, n, k) && Has(right, n, k) && Element(left, n, k) == Element(right, n, k)
  {
    NextElement(n, j, SlideHn(n, i, a, b), SlideHn(n, i, b, c), k);
    NextElement(n, i + j, a, b, k);
    SlideNextTwice(n, i, j, a, b, c, k);
  }

  /** On three consecutive groups, sliding previous undoes sliding next: the middle group is back. */
  lemma SlidePreviousUndoesNext(n: nat, i: nat, a: Group, b: Group, c: Group)
    requires SlideSources(n, true, i, a, b) && SlideSources(n, true, i, b, c)
    ensures SlideHp(n, i, SlideHn(n, i, a, b), SlideHn(n, i, b, c)) == b
  {
    var x, y := SlideHn(n, i, a, b), SlideHn(n, i, b, c);
    var back := SlideHp(n, i, x, y);
    forall k: nat | k < 4 * n && Has(back, n, k) && Has(b, n, k)
      ensures Element(back, n, k) == Element(b, n, k)
    {
      SlideElements(n, i, x, y, k);
      SlideNextThenPrevious(n, i, a, b, c, k);
    }
    FlatExtensional(back, b, 4, n);
  }

  lemma SlideNextThenPrevious(n: nat, i: nat, a: Group, b: Group, c: Group, k: nat)
    requires SlideSources(n, true, i, a, b) && SlideSources(n, true, i, b, c) && k < 4 * n
    ensures var x, y := SlideHn(n, i, a, b), SlideHn(n, i, b, c);
      Has(x + y, n, 4 * n + k - i) && Has(b, n, k) && Element(x + y, n, 4 * n + k - i) == Element(b, n, k)
  {
    ElementOfConcat(SlideHn(n, i, a, b), SlideHn(n, i, b, c), 4, n, 4 * n + k - i);
    if k < i {
      SlideElements(n, i, a, b, 4 * n + k - i);
      ElementOfConcat(a, b, 4, n, 4 * n + k);
    } else {
      SlideElements(n, i, b, c, k - i);
      ElementOfConcat(b, c, 4, n, k);
    }
  }

  // ---------------------------------------------------------------- vertical slides

  lemma VerticalNextReads(n: nat, stripMine: bool, index: nat, a: Group, b: Group, op: nat, e: nat)
    requires SlideSources(n, stripMine, index, a, b) && op < NumOps(stripMine) && e < n
    ensures Reads(SlideNext(n, false, index), NumOps(stripMine), n, [a, b], op, e, 0, (a[op] + b[op])[e + index])
  {
    VerticalLocates(NumOps(stripMine), n, index, op, e);
    if e + index < n {
      ElementAt(a, n, op, e + index);
    } else {
      ElementAt(b, n, op, e + index - n);
    }
  }

  lemma VerticalPreviousReads(n: nat, stripMine: bool, index: nat, a: Group, b: Group, op: nat, e: nat)
    requires SlideSources(n, stripMine, index, a, b) && op < NumOps(stripMine) && e < n
    ensures Reads(SlidePrevious(n, false, index), NumOps(stripMine), n, [a, b], op, e, 0, (a[op] + b[op])[n + e - index])
  {
    VerticalLocates(NumOps(stripMine), n, index, op, e);
    if e < index {
      ElementAt(a, n, op, n + e - index);
    } else {
      ElementAt(b, n, op, e - index);
    }
  }

  lemma VerticalReads(n: nat, stripMine: bool, index: nat, a: Group, b: Group, op: nat, e: nat)
    requires SlideSources(n, stripMine, index, a, b) && op < NumOps(stripMine) && e < n
    ensures Reads(SlideNext(n, false, index), NumOps(stripMine), n, [a, b], op, e, 0, (a[op] + b[op])[e + index])
    ensures Reads(SlidePrevious(n, false, index), NumOps(stripMine), n, [a, b], op, e, 0, (a[op] + b[op])[n + e - index])
    ensures Reads(Common(1, false, n, 1, 1), NumOps(stripMine), n, [a, b], op, e, 0, b[op][e])
  {
    VerticalNextReads(n, stripMine, index, a, b, op, e);
    VerticalPreviousReads(n, stripMine, index, a, b, op, e);
    RescaleValues(e, 1);
    ElementAt(b, n, op, e);
  }

  lemma VerticalWellFormed(n: nat, stripMine: bool, index: nat, a: Group, b: Group)
    requires SlideSources(n, stripMine, index, a, b)
    ensures WellFormed(SlideOp(n, stripMine, SlideNext(n, false, index)), [a, b])
    ensures WellFormed(SlideOp(n, stripMine, SlidePrevious(n, false, index)), [a, b])
  {
    var o := SlideOp(n, stripMine, SlideNext(n, false, index));
    var p := SlideOp(n, stripMine, SlidePrevious(n, false, index));
    forall op: nat, e: nat, r: nat | op < o.numOps && e < n && r < 1
      ensures LaneReadable(o, [a, b], op, e, r) && LaneReadable(p, [a, b], op, e, r)
    {
      VerticalReads(n, stripMine, index, a, b, op, e);
    }
  }

  function SlideVn(n: nat, stripMine: bool, index: nat, a: Group, b: Group): (g: Group)
    requires SlideSources(n, stripMine, index, a, b)
    ensures Shape(g, NumOps(stripMine), n)
  {
    VerticalWellFormed(n, stripMine, index, a, b);
    Registers(SlideOp(n, stripMine, SlideNext(n, false, index)), [a, b])
  }

  function SlideVp(n: nat, stripMine: bool, index: nat, a: Group, b: Group): (g: Group)
    requires SlideSources(n, stripMine, index, a, b)
    ensures Shape(g, NumOps(stripMine), n)
  {
    VerticalWellFormed(n, stripMine, index, a, b);
    Registers(SlideOp(n, stripMine, SlidePrevious(n, false, index)), [a, b])
  }

  /** Vertical slides window each register pair on its own. */
  lemma VerticalWindows(n: nat, stripMine: bool, index: nat, a: Group, b: Group, op: nat)
    requires SlideSources(n, stripMine, index, a, b) && op < NumOps(stripMine)
    ensures SlideVn(n, stripMine, index, a, b)[op] == (a[op] + b[op])[index..index + n]
    ensures SlideVp(n, stripMine, index, a, b)[op] == (a[op] + b[op])[n - index..2 * n - index]
  {
    VerticalWellFormed(n, stripMine, index, a, b);
    var o := SlideOp(n, stripMine, SlideNext(n, false, index));
    var p := SlideOp(n, stripMine, SlidePrevious(n, false, index));
    forall e: nat | e < n
      ensures SlideVn(n, stripMine, index, a, b)[op][e] == (a[op] + b[op])[e + index]
      ensures SlideVp(n, stripMine, index, a, b)[op][e] == (a[op] + b[op])[n + e - index]
    {
      VerticalReads(n, stripMine, index, a, b, op, e);
      RegisterLane(o, [a, b], op, e, 0, (a[op] + b[op])[e + index], b[op][e]);
      RegisterLane(p, [a, b], op, e, 0, (a[op] + b[op])[n + e - index], b[op][e]);
    }
  }

  lemma WindowOfWindows(a: seq<int>, b: seq<int>, c: seq<int>, n: nat, i: nat)
    requires |a| == |b| == |c| == n && i <= n
    ensures ((a + b)[i..i + n] + (b + c)[i..i + n])[n - i..2 * n - i] == b
  {
    var x, y := (a + b)[i..i + n], (b + c)[i..i + n];
    forall e: nat | e < n
      ensures (x + y)[n - i + e] == b[e]
    {
      if e < i {
        assert x[n - i + e] == (a + b)[n + e];
      } else {
        assert y[e - i] == (b + c)[e];
      }
    }
  }

  lemma VerticalPreviousUndoesNext(n: nat, stripMine: bool, i: nat, a: Group, b: Group, c: Group)
    requires SlideSources(n, stripMine, i, a, b) && SlideSources(n, stripMine, i, b, c)
    ensures SlideVp(n, stripMine, i, SlideVn(n, stripMine, i, a, b), SlideVn(n, stripMine, i, b, c)) == b
  {
    var x, y := SlideVn(n, stripMine, i, a, b), SlideVn(n, stripMine, i, b, c);
    forall op: nat | op < NumOps(stripMine)
      ensures SlideVp(n, stripMine, i, x, y)[op] == b[op]
    {
      VerticalWindows(n, stripMine, i, a, b, op);
      VerticalWindows(n, stripMine, i, b, c, op);
      VerticalWindows(n, stripMine, i, x, y, op);
      WindowOfWindows(a[op], b[op], c[op], n, i);
    }
  }
}
