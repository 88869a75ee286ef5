/** The depthwise convolution `VDwconv`: three windowed Hadamard products accumulated in the order
    the quad narrowing reads back. */
module Depthwise {
  import opened Words
  import opened LaneArith
  import opened VectorLanes
  import opened LaneLayout
  import opened Convolution

  /** Command fields. The biases are signed 9-bit fields. Sparsity 3 is not executed. */
  datatype DwCmd = DwCmd(sparsity: nat, regbase: nat, sbias1: int, sdata1: bool, sbias2: int, sdata2: bool) {
    predicate Executes() {
      sparsity < 3 && regbase < 16 && -256 <= sbias1 < 256 && -256 <= sbias2 < 256
    }
  }

  /** The three activation registers selected by the register base. */
  function Selected(regbase: nat): (nat, nat, nat)
    requires regbase < 16
  {
    if regbase <= 6 then (regbase, regbase + 1, regbase + 2)
    else if regbase == 7 then (1, 0, 2)
    else if regbase <= 11 then (2 * regbase - 15, 2 * regbase - 14, 0)
    else (2 * regbase - 22, 0, 1)
  }

  /** Every selection names three different registers of the nine. */
  lemma SelectedDistinct(regbase: nat)
    requires regbase < 16
    ensures var s := Selected(regbase); s.0 < 9 && s.1 < 9 && s.2 < 9 && s.0 != s.1 && s.0 != s.2 && s.1 != s.2
  {
  }

  method SelectRegisters(regbase: nat) returns (s: array<nat>)
    requires regbase < 16
    ensures fresh(s) && s.Length == 3 && (s[0], s[1], s[2]) == Selected(regbase)
  {
    s := new nat[3];
    match regbase {
      case 7 =>
        s[0], s[1], s[2] := 1, 0, 2;
      case 8 | 9 | 10 | 11 =>
        s[0] := 2 * regbase - 15;
        s[1] := s[0] + 1;
        s[2] := 0;
      case 12 | 13 | 14 | 15 =>
        s[0] := 2 * regbase - 22;
        s[1] := 0;
        s[2] := 1;
      case _ =>
        s[0] := regbase;
        s[1] := regbase + 1;
        s[2] := regbase + 2;
    }
  }

  /** Activation window `r` as bytes: a whole register, or a window of the concatenated registers at
      word offset 7 + r (sparsity 1) or r (sparsity 2). */
  function Window(sparsity: nat, v0: ByteRegister, v1: ByteRegister, v2: ByteRegister, r: nat): (w: seq<Byte>)
    requires sparsity < 3 && r < 3
    ensures |w| == REGISTER_BYTES
  {
    if sparsity == 0 then [v0, v1, v2][r]
    else if sparsity == 1 then (v0 + v1 + v2)[4 * (7 + r)..4 * (7 + r) + REGISTER_BYTES]
    else (v0 + v1)[4 * r..4 * r + REGISTER_BYTES]
  }

  /** Copies fill the buffer from the left; what is already there stays. */
  method Memcpy(dst: array<Byte>, offset: nat, src: seq<Byte>, from: nat, count: nat)
    requires offset + count <= dst.Length && from + count <= |src|
    modifies dst
    ensures dst[..offset + count] == old(dst[..offset]) + src[from..from + count]
  {
    for i := 0 to count
      invariant dst[..offset] == old(dst[..offset])
      invariant dst[offset..offset + i] == src[from..from + i]
    {
      dst[offset + i] := src[from + i];
    }
    assert dst[..offset + count] == dst[..offset] + dst[offset..offset + count];
  }

  method GatherDense(a: array<Byte>, v0: ByteRegister, v1: ByteRegister, v2: ByteRegister)
    requires a.Length == 3 * REGISTER_BYTES
    modifies a
    ensures a[..96] == Windows(0, v0, v1, v2)
  {
    Memcpy(a, 0, v0, 0, 8 * 4);
    Memcpy(a, 8 * 4, v1, 0, 8 * 4);
    Memcpy(a, 16 * 4, v2, 0, 8 * 4);
  }

  lemma AroundWindows(v0: ByteRegister, v1: ByteRegister, v2: ByteRegister)
    ensures v0[28..32] + v1[0..28] == Window(1, v0, v1, v2, 0)
    ensures v1[0..32] == Window(1, v0, v1, v2, 1)
    ensures v1[4..32] + v2[0..4] == Window(1, v0, v1, v2, 2)
  {
  }

  method GatherAround(a: array<Byte>, v0: ByteRegister, v1: ByteRegister, v2: ByteRegister)
    requires a.Length == 3 * REGISTER_BYTES
    modifies a
    ensures a[..96] == Windows(1, v0, v1, v2)
  {
    AroundWindows(v0, v1, v2);
    Memcpy(a, 0, v0, 7 * 4, 4);
    Memcpy(a, 1 * 4, v1, 0, 7 * 4);
    Memcpy(a, 8 * 4, v1, 0, 8 * 4);
    Memcpy(a, 16 * 4, v1, 1 * 4, 7 * 4);
    Memcpy(a, 23 * 4, v2, 0, 4);
    Regroup5(v0[28..32], v1[0..28], v1[0..32], v1[4..32], v2[0..4]);
  }

  lemma Regroup5<T>(a: seq<T>, b: seq<T>, c: seq<T>, d: seq<T>, e: seq<T>)
    ensures ((((a + b) + c) + d) + e) == ((a + b) + c) + (d + e)
    ensures [] + a == a
  {
  }

  lemma ForwardWindows(v0: ByteRegister, v1: ByteRegister, v2: ByteRegister)
    ensures v0[0..32] == Window(2, v0, v1, v2, 0)
    ensures v0[4..32] + v1[0..4] == Window(2, v0, v1, v2, 1)
    ensures v0[8..32] + (v1[0..4] + v1[4..8]) == Window(2, v0, v1, v2, 2)
  {
  }

  method GatherForward(a: array<Byte>, v0: ByteRegister, v1: ByteRegister, v2: ByteRegister)
    requires a.Length == 3 * REGISTER_BYTES
    modifies a
    ensures a[..96] == Windows(2, v0, v1, v2)
  {
    ForwardWindows(v0, v1, v2);
    Memcpy(a, 0, v0, 0, 8 * 4);
    Memcpy(a, 8 * 4, v0, 1 * 4, 7 * 4);
    Memcpy(a, 15 * 4, v1, 0, 4);
    Memcpy(a, 16 * 4, v0, 2 * 4, 6 * 4);
    Memcpy(a, 22 * 4, v1, 0, 4);
    Memcpy(a, 23 * 4, v1, 4, 4);
    Regroup6(v0[0..32], v0[4..32], v1[0..4], v0[8..32], v1[0..4], v1[4..8]);
  }

  lemma Regroup6<T>(a: seq<T>, b: seq<T>, c: seq<T>, d: seq<T>, e: seq<T>, f: seq<T>)
    ensures (((((a + b) + c) + d) + e) + f) == (a + (b + c)) + (d + (e + f))
    ensures [] + a == a
  {
  }

  function Windows(sparsity: nat, v0: ByteRegister, v1: ByteRegister, v2: ByteRegister): (w: seq<Byte>)
    requires sparsity < 3
    ensures |w| == 96
  {
    Window(sparsity, v0, v1, v2, 0) + Window(sparsity, v0, v1, v2, 1) + Window(sparsity, v0, v1, v2, 2)
  }

  /** The windows are gathered by copies into one buffer of 24 words. */
  method Gather(sparsity: nat, v0: ByteRegister, v1: ByteRegister, v2: ByteRegister) returns (a: array<Byte>)
    requires sparsity < 3
    ensures fresh(a) && a.Length == 96 && a[..96] == Windows(sparsity, v0, v1, v2)
  {
    a := new Byte[3 * REGISTER_BYTES];
    match sparsity {
      case 0 => GatherDense(a, v0, v1, v2);
      case 1 => GatherAround(a, v0, v1, v2);
      case _ => GatherForward(a, v0, v1, v2);
    }
  }

  /** The biased product of lane `e` in window `r`. */
  function DwTerm(cmd: DwCmd, a: seq<Byte>, b: ByteRegister, e: nat): int
    requires |a| == REGISTER_BYTES && e < REGISTER_BYTES
  {
    (DataByte(cmd.sdata1, a[e]) + cmd.sbias1) * (DataByte(cmd.sdata2, b[e]) + cmd.sbias2)
  }

  ghost predicate DwSources(cmd: DwCmd, vs1: seq<ByteRegister>, vs3: seq<ByteRegister>) {
    cmd.Executes() && |vs1| == 9 && |vs3| == 3
  }

  function DwWindow(cmd: DwCmd, vs1: seq<ByteRegister>, r: nat): (w: seq<Byte>)
    requires cmd.Executes() && |vs1| == 9 && r < 3
    ensures |w| == REGISTER_BYTES
  {
    var s := Selected(cmd.regbase);
    Window(cmd.sparsity, vs1[s.0], vs1[s.1], vs1[s.2], r)
  }

  /** The products by window and lane. */
  function DwProducts(cmd: DwCmd, vs1: seq<ByteRegister>, vs3: seq<ByteRegister>): (nat, nat) -> int
    requires DwSources(cmd, vs1, vs3)
  {
    (r: nat, e: nat) => if r < 3 && e < REGISTER_BYTES then DwTerm(cmd, DwWindow(cmd, vs1, r), vs3[r], e) else 0
  }

  /** What lane `e` gains: one product per window. */
  function DwSum(t: (nat, nat) -> int, e: nat): int {
    t(0, e) + t(1, e) + t(2, e)
  }

  /** The selection as a table. */
  lemma SelectionTable(regbase: nat)
    requires regbase < 16
    ensures Selected(regbase)
            == [(0, 1, 2), (1, 2, 3), (2, 3, 4), (3, 4, 5), (4, 5, 6), (5, 6, 7), (6, 7, 8), (1, 0, 2),
                (1, 2, 0), (3, 4, 0), (5, 6, 0), (7, 8, 0), (2, 0, 1), (4, 0, 1), (6, 0, 1), (8, 0, 1)][regbase]
  {
  }

  /** Byte `e` of window `r` in the concatenation of the selected registers. */
  lemma WindowByte(sparsity: nat, v0: ByteRegister, v1: ByteRegister, v2: ByteRegister, r: nat, e: nat)
    requires sparsity < 3 && r < 3 && e < REGISTER_BYTES
    ensures var p := if sparsity == 0 then 32 * r + e else if sparsity == 1 then 28 + 4 * r + e else 4 * r + e;
      Window(sparsity, v0, v1, v2, r)[e] == [v0, v1, v2][p / 32][p % 32]
  {
  }

  /** What lane `e` gains, from the raw bytes: three products of an activation byte and a weight byte, each read in
      two's complement where its own flag says so and with its own bias. The activation bytes are lane `e` of the
      three selected registers, or of windows of their concatenation that start one word apart. */
  lemma DwSumFromBytes(cmd: DwCmd, vs1: seq<ByteRegister>, vs3: seq<ByteRegister>, e: nat, s: seq<nat>, t: nat -> int)
    requires DwSources(cmd, vs1, vs3) && e < REGISTER_BYTES && |s| == 3 && s[0] < 9 && s[1] < 9 && s[2] < 9
    requires s == [[0, 1, 2], [1, 2, 3], [2, 3, 4], [3, 4, 5], [4, 5, 6], [5, 6, 7], [6, 7, 8], [1, 0, 2],
                   [1, 2, 0], [3, 4, 0], [5, 6, 0], [7, 8, 0], [2, 0, 1], [4, 0, 1], [6, 0, 1], [8, 0, 1]][cmd.regbase]
    requires forall r: nat {:trigger vs3[r], t(r)} | r < 3 ::
               var p := if cmd.sparsity == 0 then 32 * r + e else if cmd.sparsity == 1 then 28 + 4 * r + e else 4 * r + e;
               var u, v := vs1[s[p / 32]][p % 32], vs3[r][e];
               t(r) == ((if cmd.sdata1 && u >= 128 then u - 256 else u) + cmd.sbias1)
                       * ((if cmd.sdata2 && v >= 128 then v - 256 else v) + cmd.sbias2)
    ensures DwSum(DwProducts(cmd, vs1, vs3), e) == t(0) + t(1) + t(2)
  {
    SelectionTable(cmd.regbase);
    forall r: nat | r < 3
      ensures t(r) == DwProducts(cmd, vs1, vs3)(r, e)
    {
      LaneProduct(cmd, vs1, vs3, e, s, r, t(r));
    }
  }

  lemma LaneProduct(cmd: DwCmd, vs1: seq<ByteRegister>, vs3: seq<ByteRegister>, e: nat, s: seq<nat>, r: nat, product: int)
    requires DwSources(cmd, vs1, vs3) && e < REGISTER_BYTES && |s| == 3 && s[0] < 9 && s[1] < 9 && s[2] < 9 && r < 3
    requires Selected(cmd.regbase) == (s[0], s[1], s[2])
    requires var p := if cmd.sparsity == 0 then 32 * r + e else if cmd.sparsity == 1 then 28 + 4 * r + e else 4 * r + e;
      var u, v := vs1[s[p / 32]][p % 32], vs3[r][e];
      product == ((if cmd.sdata1 && u >= 128 then u - 256 else u) + cmd.sbias1)
                 * ((if cmd.sdata2 && v >= 128 then v - 256 else v) + cmd.sbias2)
    ensures DwProducts(cmd, vs1, vs3)(r, e) == product
  {
    WindowByte(cmd.sparsity, vs1[s[0]], vs1[s[1]], vs1[s[2]], r, e);
    var p := if cmd.sparsity == 0 then 32 * r + e else if cmd.sparsity == 1 then 28 + 4 * r + e else 4 * r + e;
    ThreeRegisters(vs1, s, p / 32);
    assert DwWindow(cmd, vs1, r)[e] == vs1[s[p / 32]][p % 32];
    assert DwProducts(cmd, vs1, vs3)(r, e) == DwTerm(cmd, DwWindow(cmd, vs1, r), vs3[r], e);
  }

  lemma ThreeRegisters(vs1: seq<ByteRegister>, s: seq<nat>, q: nat)
    requires |vs1| == 9 && |s| == 3 && s[0] < 9 && s[1] < 9 && s[2] < 9 && q < 3
    ensures [vs1[s[0]], vs1[s[1]], vs1[s[2]]][q] == vs1[s[q]]
  {
  }

  // ---------------------------------------------------------------- accumulator order

  /** The register, out of four, that lane `e` accumulates in. */
  function DwInterleave(e: nat): (q: nat)
    ensures q < 4
  {
    match e % 4
    case 0 => 0
    case 1 => 2
    case 2 => 1
    case _ => 3
  }

  function DwCell(e: nat): (c: nat)
    requires e < REGISTER_BYTES
    ensures c < 32
  {
    8 * DwInterleave(e) + e / 4
  }

  lemma DwCellsDistinct(e: nat, d: nat)
    requires e < REGISTER_BYTES && d < REGISTER_BYTES
    ensures DwCell(e) == DwCell(d) ==> e == d
  {
    assert DwCell(e) / 8 == DwInterleave(e) && DwCell(e) % 8 == e / 4;
    assert DwCell(d) / 8 == DwInterleave(d) && DwCell(d) % 8 == d / 4;
  }

  type Cells = nat -> nat

  ghost predicate Placement(cell: Cells) {
    && (forall e: nat | e < REGISTER_BYTES :: cell(e) < 32)
    && forall e: nat, d: nat | e < REGISTER_BYTES && d < REGISTER_BYTES && cell(e) == cell(d) :: e == d
  }

  function DwCells(): Cells {
    (e: nat) => if e < REGISTER_BYTES then DwCell(e) else 0
  }

  lemma DwCellsArePlacement()
    ensures Placement(DwCells())
  {
    forall e: nat, d: nat | e < REGISTER_BYTES && d < REGISTER_BYTES && DwCells()(e) == DwCells()(d)
      ensures e == d
    {
      DwCellsDistinct(e, d);
    }
  }

  // ---------------------------------------------------------------- the instruction

  /** What lane `e` has gained before step (r, i). */
  function DwDone(t: (nat, nat) -> int, e: nat, r: nat, i: nat): int {
    (if r > 0 || e < i then t(0, e) else 0)
    + (if r > 1 || (r == 1 && e < i) then t(1, e) else 0)
    + (if r > 2 || (r == 2 && e < i) then t(2, e) else 0)
  }

  ghost predicate DwProgress(acc: array<Word>, before: seq<Word>, cell: Cells, t: (nat, nat) -> int, r: nat, i: nat)
    requires acc.Length == |before| == 32 && Placement(cell)
    reads acc
  {
    forall e: nat | e < REGISTER_BYTES :: acc[cell(e)] == Wrap(before[cell(e)] + DwDone(t, e, r, i))
  }

  /** Every lane's cell gains the lane's sum, modulo 2^32. */
  ghost predicate DwAccumulates(cell: Cells, t: (nat, nat) -> int, before: seq<Word>, after: seq<Word>)
    requires Placement(cell)
  {
    && |before| == |after| == 32
    && forall e: nat | e < REGISTER_BYTES :: after[cell(e)] == Wrap(before[cell(e)] + DwSum(t, e))
  }

  method AddLane(acc: array<Word>, ghost before: seq<Word>, ghost cell: Cells, ghost t: (nat, nat) -> int,
                 r: nat, i: nat, c: nat, product: int)
    requires acc.Length == |before| == 32 && Placement(cell) && r < 3 && i < REGISTER_BYTES
    requires c == cell(i) && product == t(r, i) && DwProgress(acc, before, cell, t, r, i)
    modifies acc
    ensures DwProgress(acc, before, cell, t, r, i + 1)
  {
    acc[c] := Wrap(acc[c] + product);
    forall e: nat | e < REGISTER_BYTES
      ensures acc[cell(e)] == Wrap(before[cell(e)] + DwDone(t, e, r, i + 1))
    {
      WrapAdd(before[cell(e)] + DwDone(t, e, r, i), t(r, e));
    }
  }

  method ComputeTerm(cmd: DwCmd, a: seq<Byte>, b: ByteRegister, i: nat) returns (product: int)
    requires |a| == REGISTER_BYTES && i < REGISTER_BYTES
    ensures product == DwTerm(cmd, a, b, i)
  {
    var x := DataByte(cmd.sdata1, a[i]);
    var y := DataByte(cmd.sdata2, b[i]);
    x := x + cmd.sbias1;
    y := y + cmd.sbias2;
    product := x * y;
  }

  method AccumulateWindow(cmd: DwCmd, a: seq<Byte>, b: ByteRegister, acc: array<Word>, ghost before: seq<Word>,
                          ghost t: (nat, nat) -> int, r: nat)
    requires acc.Length == |before| == 32 && Placement(DwCells()) && r < 3 && |a| == REGISTER_BYTES
    requires forall e: nat | e < REGISTER_BYTES :: t(r, e) == DwTerm(cmd, a, b, e)
    requires DwProgress(acc, before, DwCells(), t, r, 0)
    modifies acc
    ensures DwProgress(acc, before, DwCells(), t, r + 1, 0)
  {
    for i := 0 to REGISTER_BYTES
      invariant DwProgress(acc, before, DwCells(), t, r, i)
    {
      var product := ComputeTerm(cmd, a, b, i);
      AddLane(acc, before, DwCells(), t, r, i, 8 * DwInterleave(i) + i / 4, product);
    }
  }

  method AccumulateWindows(cmd: DwCmd, vs1: seq<ByteRegister>, vs3: seq<ByteRegister>, a: array<Byte>, acc: array<Word>)
    requires DwSources(cmd, vs1, vs3) && acc.Length == 32 && a.Length == 96
    requires a[..96] == DwWindow(cmd, vs1, 0) + DwWindow(cmd, vs1, 1) + DwWindow(cmd, vs1, 2)
    modifies acc
    ensures Placement(DwCells()) && DwAccumulates(DwCells(), DwProducts(cmd, vs1, vs3), old(acc[..]), acc[..])
  {
    DwCellsArePlacement();
    ghost var before := acc[..];
    for r := 0 to 3
      invariant DwProgress(acc, before, DwCells(), DwProducts(cmd, vs1, vs3), r, 0)
    {
      WindowProducts(cmd, vs1, vs3, r);
      AccumulateWindow(cmd, WindowAt(a, cmd, vs1, r), vs3[r], acc, before, DwProducts(cmd, vs1, vs3), r);
    }
    ProgressEnds(acc, before, DwCells(), DwProducts(cmd, vs1, vs3));
  }

  lemma WindowProducts(cmd: DwCmd, vs1: seq<ByteRegister>, vs3: seq<ByteRegister>, r: nat)
    requires DwSources(cmd, vs1, vs3) && r < 3
    ensures forall e: nat | e < REGISTER_BYTES :: DwProducts(cmd, vs1, vs3)(r, e) == DwTerm(cmd, DwWindow(cmd, vs1, r), vs3[r], e)
  {
  }

  lemma ProgressEnds(acc: array<Word>, before: seq<Word>, cell: Cells, t: (nat, nat) -> int)
    requires acc.Length == |before| == 32 && Placement(cell) && DwProgress(acc, before, cell, t, 3, 0)
    ensures DwAccumulates(cell, t, before, acc[..])
  {
  }

  function WindowAt(a: array<Byte>, ghost cmd: DwCmd, ghost vs1: seq<ByteRegister>, r: nat): (w: seq<Byte>)
    requires cmd.Executes() && |vs1| == 9 && r < 3 && a.Length == 96
    requires a[..96] == DwWindow(cmd, vs1, 0) + DwWindow(cmd, vs1, 1) + DwWindow(cmd, vs1, 2)
    reads a
    ensures w == DwWindow(cmd, vs1, r)
  {
    a[32 * r..32 * r + 32]
  }

  /** The instruction. With `writeAcc` the four accumulator registers are also copied out. */
  method VDwconv(writeAcc: bool, cmd: DwCmd, vs1: seq<ByteRegister>, vs3: seq<ByteRegister>, acc: array<Word>)
    returns (vd: seq<seq<Word>>)
    requires DwSources(cmd, vs1, vs3) && acc.Length == 32
    modifies acc
    ensures Placement(DwCells()) && DwAccumulates(DwCells(), DwProducts(cmd, vs1, vs3), old(acc[..]), acc[..])
    ensures vd == if writeAcc then DwRegisters(acc[..]) else []
  {
    var s := SelectRegisters(cmd.regbase);
    SelectedDistinct(cmd.regbase);
    var a := Gather(cmd.sparsity, vs1[s[0]], vs1[s[1]], vs1[s[2]]);
    AccumulateWindows(cmd, vs1, vs3, a, acc);
    if writeAcc {
      vd := ReadRegisters(acc);
    } else {
      vd := [];
    }
  }

  /** The accumulator as four registers of eight words. */
  function DwRegisters(acc: seq<Word>): (regs: seq<seq<Word>>)
    requires |acc| == 32
    ensures |regs| == 4 && forall k | 0 <= k < 4 :: |regs[k]| == 8
  {
    [acc[0..8], acc[8..16], acc[16..24], acc[24..32]]
  }

  method ReadRegisters(acc: array<Word>) returns (vd: seq<seq<Word>>)
    requires acc.Length == 32
    ensures vd == DwRegisters(acc[..])
  {
    vd := [];
    for i := 0 to 4
      invariant |vd| == i && forall k | 0 <= k < i :: vd[k] == acc[..][8 * k..8 * k + 8]
    {
      var dest := [];
      for j := 0 to 8
        invariant dest == acc[..][8 * i..8 * i + j]
      {
        dest := dest + [acc[i * 8 + j]];
      }
      vd := vd + [dest];
    }
  }

  // ---------------------------------------------------------------- reading back

  /** The quad narrowing of the written registers returns the lanes in element order. */
  lemma DepthwiseInElementOrder(t: (nat, nat) -> int, before: seq<Word>, after: seq<Word>, isSigned: bool,
                                round: bool, shift: int, e: nat)
    requires Placement(DwCells()) && DwAccumulates(DwCells(), t, before, after) && e < REGISTER_BYTES
    ensures var src := [WordGroup(DwRegisters(after), isSigned), [[shift]]];
      var o := NarrowingOp(LANES, 1, 4, false, true, QuadShift(isSigned, round));
      var lane := Wrap(before[DwCell(e)] + DwSum(t, e));
      && WellFormed(o, src)
      && Registers(o, src)[0][e]
         == VSrans(LaneType(8, isSigned), 32, round, if isSigned then Signed(lane) else lane, shift)
  {
    var g := WordGroup(DwRegisters(after), isSigned);
    NarrowingWellFormed(LANES, 1, 4, false, true, QuadShift(isSigned, round), g, [[shift]]);
    NarrowingLane(LANES, 1, 4, false, true, QuadShift(isSigned, round), g, [[shift]], 0, e);
    DwLane(after, isSigned, e);
    assert DwCells()(e) == DwCell(e);
  }

  /** The wide lane that the quad narrowing reads for lane `e`. */
  lemma DwLane(after: seq<Word>, isSigned: bool, e: nat)
    requires |after| == 32 && e < REGISTER_BYTES
    ensures WideGroup(4, e) < 4
    ensures WordGroup(DwRegisters(after), isSigned)[WideGroup(4, e)][e / 4]
            == if isSigned then Signed(after[DwCell(e)]) else after[DwCell(e)]
  {
    SameRegister(after, e);
  }

  lemma SameRegister(after: seq<Word>, e: nat)
    requires |after| == 32 && e < REGISTER_BYTES
    ensures WideGroup(4, e) < 4
    ensures DwRegisters(after)[WideGroup(4, e)][e / 4] == after[DwCell(e)]
  {
  }
}
