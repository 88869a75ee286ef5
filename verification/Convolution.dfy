/** The outer-product convolution `VConv`, the accumulator read-out `VcGet`, and the end-to-end claim
    that the quad narrowing brings the interleaved accumulators back into row-major order. */
module Convolution {
  import opened Words
  import opened LaneArith
  import opened VectorLanes
  import opened LaneLayout

  const LANES := 8        // 32-bit lanes of a 256-bit register
  const REGISTER_BYTES := 32

  /** Accumulator register of word 0, 1, 2, 3 within its block of four: (ee, oe, eo, oo). */
  function ConvInterleave(q: nat): (r: nat)
    ensures r < 4
  {
    match q
    case 0 => 0
    case 1 => 2
    case 2 => 1
    case _ => 3
  }

  type ByteRegister = r: seq<Byte> | |r| == 32 witness seq(32, _ => 0)
  type Matrix = seq<seq<Word>>

  /** The fields of the convolution command. The biases are raw 9-bit fields. */
  datatype ConvCmd = ConvCmd(mode: nat, start: nat, stop: nat, sbias1: nat, sdata1: bool, sbias2: nat, sdata2: bool) {
    predicate Fields() {
      mode < 4 && start < 32 && stop < 32 && sbias1 < 512 && sbias2 < 512
    }

    /** The commands the instruction executes; all others trap. */
    predicate Executes() {
      mode == 0 && start <= stop && stop < LANES
    }
  }

  /** Sign extension of a 9-bit field: shift left and arithmetically right by 23. */
  function SignExtend9(b: nat): int
    requires b < 512
  {
    Signed(Wrap(b * 0x80_0000)) / 0x80_0000
  }

  lemma SignExtend9Value(b: nat)
    requires b < 512
    ensures SignExtend9(b) == if b < 256 then b else b - 512
  {
  }

  function DataByte(isSigned: bool, b: Byte): int {
    if isSigned && b >= 128 then b - 256 else b
  }

  /** Data bytes and bias fields are read in two's complement, data bytes only where the command says so. */
  lemma FactorsAreCasts(isSigned: bool, b: Byte, bias: nat)
    requires bias < 512
    ensures DataByte(isSigned, b) == LaneType(8, isSigned).Cast(b)
    ensures SignExtend9(bias) == Int(9).Cast(bias)
  {
    Pow2Values();
    SignExtend9Value(bias);
    var d := DataByte(isSigned, b);
    assert d % 256 == b;
    CastIsCongruent(LaneType(8, isSigned), b, d);
    CastIsCongruent(Int(9), bias, SignExtend9(bias));
  }

  ghost predicate Sources(cmd: ConvCmd, narrow: seq<ByteRegister>, wide: seq<ByteRegister>) {
    cmd.Fields() && cmd.Executes() && |narrow| == LANES && |wide| > cmd.stop - cmd.start
  }

  /** The product added at step (k, i, j). */
  function Term(cmd: ConvCmd, narrow: seq<ByteRegister>, wide: seq<ByteRegister>, k: nat, i: nat, j: nat): int
    requires Sources(cmd, narrow, wide) && cmd.start <= k <= cmd.stop && i < LANES && j < REGISTER_BYTES
  {
    (DataByte(cmd.sdata1, narrow[i][4 * k + j % 4]) + SignExtend9(cmd.sbias1))
    * (DataByte(cmd.sdata2, wide[k - cmd.start][j]) + SignExtend9(cmd.sbias2))
  }

  /** The products by step, narrow register and wide byte. */
  type Products = (nat, nat, nat) -> int

  function ConvProducts(cmd: ConvCmd, narrow: seq<ByteRegister>, wide: seq<ByteRegister>): Products
    requires Sources(cmd, narrow, wide)
  {
    (k: nat, i: nat, j: nat) =>
      if cmd.start <= k <= cmd.stop && i < LANES && j < REGISTER_BYTES then Term(cmd, narrow, wide, k, i, j) else 0
  }

  /** Sum of the first `b` of the four products of row `i`, word `w` at step `k`. */
  function WordSum(t: Products, k: nat, i: nat, w: nat, b: nat): int {
    if b == 0 then 0 else WordSum(t, k, i, w, b - 1) + t(k, i, 4 * w + b - 1)
  }

  /** Sum of all products of row `i`, word `w` over the steps from `start` up to, not including, `k`. */
  function StepSum(t: Products, start: nat, i: nat, w: nat, k: nat): int
    decreases k
  {
    if k <= start then 0 else StepSum(t, start, i, w, k - 1) + WordSum(t, k - 1, i, w, 4)
  }

  /** Entry (i, w) of the product matrix: the sum over k in [start, stop] and b < 4 of
      (narrow[i][4k+b] + sbias1) * (wide_k[4w+b] + sbias2). */
  function ConvSum(cmd: ConvCmd, narrow: seq<ByteRegister>, wide: seq<ByteRegister>, i: nat, w: nat): int
    requires Sources(cmd, narrow, wide)
  {
    StepSum(ConvProducts(cmd, narrow, wide), cmd.start, i, w, cmd.stop + 1)
  }

  /** The sum over `n` steps of four values each. */
  function Total(t: (nat, nat) -> int, n: nat): int {
    if n == 0 then 0 else Total(t, n - 1) + (t(n - 1, 0) + t(n - 1, 1) + t(n - 1, 2) + t(n - 1, 3))
  }

  /** `t` lists the four products of each step for row `i`, word `w`. */
  ghost predicate Lists(t: (nat, nat) -> int, p: Products, start: nat, i: nat, w: nat, d: nat) {
    t(d, 0) == p(start + d, i, 4 * w) && t(d, 1) == p(start + d, i, 4 * w + 1)
    && t(d, 2) == p(start + d, i, 4 * w + 2) && t(d, 3) == p(start + d, i, 4 * w + 3)
  }

  lemma {:induction false} StepSumIsTotal(p: Products, t: (nat, nat) -> int, start: nat, i: nat, w: nat, d: nat)
    requires forall h: nat | h < d :: Lists(t, p, start, i, w, h)
    ensures StepSum(p, start, i, w, start + d) == Total(t, d)
  {
    if d > 0 {
      StepSumIsTotal(p, t, start, i, w, d - 1);
      OneStep(p, start, i, w, start + d);
      assert Lists(t, p, start, i, w, d - 1);
    }
  }

  lemma OneStep(p: Products, start: nat, i: nat, w: nat, k: nat)
    requires k > start
    ensures StepSum(p, start, i, w, k)
            == StepSum(p, start, i, w, k - 1)
               + (p(k - 1, i, 4 * w) + p(k - 1, i, 4 * w + 1) + p(k - 1, i, 4 * w + 2) + p(k - 1, i, 4 * w + 3))
  {
    FourSum(p, k - 1, i, w);
  }

  lemma FourSum(p: Products, k: nat, i: nat, w: nat)
    ensures WordSum(p, k, i, w, 4) == p(k, i, 4 * w) + p(k, i, 4 * w + 1) + p(k, i, 4 * w + 2) + p(k, i, 4 * w + 3)
  {
    NextProduct(p, k, i, w, 0);
    NextProduct(p, k, i, w, 1);
    NextProduct(p, k, i, w, 2);
    NextProduct(p, k, i, w, 3);
  }

  lemma NextProduct(p: Products, k: nat, i: nat, w: nat, b: nat)
    ensures WordSum(p, k, i, w, b + 1) == WordSum(p, k, i, w, b) + p(k, i, 4 * w + b)
  {
  }

  /** Entry (i, w) from the raw bytes: bytes 4 * start and up of narrow register `i` times the four bytes of word
      `w` of each wide register, every byte read in two's complement where its own flag says so and biased by
      its own 9-bit field. */
  lemma ConvSumFromBytes(cmd: ConvCmd, narrow: seq<ByteRegister>, wide: seq<ByteRegister>, i: nat, w: nat,
                         bias1: int, bias2: int, t: (nat, nat) -> int)
    requires Sources(cmd, narrow, wide) && i < LANES && w < LANES
    requires bias1 == (if cmd.sbias1 < 256 then cmd.sbias1 else cmd.sbias1 - 512)
    requires bias2 == (if cmd.sbias2 < 256 then cmd.sbias2 else cmd.sbias2 - 512)
    requires forall d: nat, b: nat {:trigger wide[d], t(d, b)} | d <= cmd.stop - cmd.start && b < 4 ::
               var u, v := narrow[i][4 * (cmd.start + d) + b], wide[d][4 * w + b];
               t(d, b) == ((if cmd.sdata1 && u >= 128 then u - 256 else u) + bias1)
                          * ((if cmd.sdata2 && v >= 128 then v - 256 else v) + bias2)
    ensures ConvSum(cmd, narrow, wide, i, w) == Total(t, cmd.stop - cmd.start + 1)
  {
    AllStepsFromBytes(cmd, narrow, wide, i, w, bias1, bias2, t);
    SumOfSteps(cmd, narrow, wide, i, w, t);
  }

  lemma SumOfSteps(cmd: ConvCmd, narrow: seq<ByteRegister>, wide: seq<ByteRegister>, i: nat, w: nat, t: (nat, nat) -> int)
    requires Sources(cmd, narrow, wide) && i < LANES && w < LANES
    requires forall d: nat | d < cmd.stop - cmd.start + 1 :: Lists(t, ConvProducts(cmd, narrow, wide), cmd.start, i, w, d)
    ensures ConvSum(cmd, narrow, wide, i, w) == Total(t, cmd.stop - cmd.start + 1)
  {
    StepSumIsTotal(ConvProducts(cmd, narrow, wide), t, cmd.start, i, w, cmd.stop - cmd.start + 1);
  }

  lemma AllStepsFromBytes(cmd: ConvCmd, narrow: seq<ByteRegister>, wide: seq<ByteRegister>, i: nat, w: nat,
                          bias1: int, bias2: int, t: (nat, nat) -> int)
    requires Sources(cmd, narrow, wide) && i < LANES && w < LANES
    requires bias1 == (if cmd.sbias1 < 256 then cmd.sbias1 else cmd.sbias1 - 512)
    requires bias2 == (if cmd.sbias2 < 256 then cmd.sbias2 else cmd.sbias2 - 512)
    requires forall d: nat, b: nat {:trigger wide[d], t(d, b)} | d <= cmd.stop - cmd.start && b < 4 ::
               var u, v := narrow[i][4 * (cmd.start + d) + b], wide[d][4 * w + b];
               t(d, b) == ((if cmd.sdata1 && u >= 128 then u - 256 else u) + bias1)
                          * ((if cmd.sdata2 && v >= 128 then v - 256 else v) + bias2)
    ensures forall d: nat | d < cmd.stop - cmd.start + 1 :: Lists(t, ConvProducts(cmd, narrow, wide), cmd.start, i, w, d)
  {
    forall d: nat | d < cmd.stop - cmd.start + 1
      ensures Lists(t, ConvProducts(cmd, narrow, wide), cmd.start, i, w, d)
    {
      StepFromBytes(cmd, narrow, wide, i, w, bias1, bias2, t, d);
    }
  }

  lemma StepFromBytes(cmd: ConvCmd, narrow: seq<ByteRegister>, wide: seq<ByteRegister>, i: nat, w: nat,
                      bias1: int, bias2: int, t: (nat, nat) -> int, d: nat)
    requires Sources(cmd, narrow, wide) && i < LANES && w < LANES && d <= cmd.stop - cmd.start
    requires bias1 == (if cmd.sbias1 < 256 then cmd.sbias1 else cmd.sbias1 - 512)
    requires bias2 == (if cmd.sbias2 < 256 then cmd.sbias2 else cmd.sbias2 - 512)
    requires forall b: nat | b < 4 ::
               var u, v := narrow[i][4 * (cmd.start + d) + b], wide[d][4 * w + b];
               t(d, b) == ((if cmd.sdata1 && u >= 128 then u - 256 else u) + bias1)
                          * ((if cmd.sdata2 && v >= 128 then v - 256 else v) + bias2)
    ensures Lists(t, ConvProducts(cmd, narrow, wide), cmd.start, i, w, d)
  {
    forall b: nat | b < 4
      ensures t(d, b) == ConvProducts(cmd, narrow, wide)(cmd.start + d, i, 4 * w + b)
    {
      ProductFromBytes(cmd, narrow, wide, i, w, bias1, bias2, d, b, t(d, b));
    }
    assert t(d, 0) == ConvProducts(cmd, narrow, wide)(cmd.start + d, i, 4 * w + 0);
  }

  lemma ProductFromBytes(cmd: ConvCmd, narrow: seq<ByteRegister>, wide: seq<ByteRegister>, i: nat, w: nat,
                         bias1: int, bias2: int, d: nat, b: nat, product: int)
    requires Sources(cmd, narrow, wide) && i < LANES && w < LANES && d <= cmd.stop - cmd.start && b < 4
    requires bias1 == (if cmd.sbias1 < 256 then cmd.sbias1 else cmd.sbias1 - 512)
    requires bias2 == (if cmd.sbias2 < 256 then cmd.sbias2 else cmd.sbias2 - 512)
    requires var u, v := narrow[i][4 * (cmd.start + d) + b], wide[d][4 * w + b];
      product == ((if cmd.sdata1 && u >= 128 then u - 256 else u) + bias1)
                 * ((if cmd.sdata2 && v >= 128 then v - 256 else v) + bias2)
    ensures ConvProducts(cmd, narrow, wide)(cmd.start + d, i, 4 * w + b) == product
  {
    var u, v := narrow[i][4 * (cmd.start + d) + b], wide[d][4 * w + b];
    SignExtend9Value(cmd.sbias1);
    SignExtend9Value(cmd.sbias2);
    assert (4 * w + b) % 4 == b;
    ProductOfFactors(cmd, narrow, wide, i, cmd.start + d, 4 * w + b, DataByte(cmd.sdata1, u), bias1,
                     DataByte(cmd.sdata2, v), bias2);
  }

  lemma ProductOfFactors(cmd: ConvCmd, narrow: seq<ByteRegister>, wide: seq<ByteRegister>, i: nat, k: nat, j: nat,
                         c1: int, c2: int, d1: int, d2: int)
    requires Sources(cmd, narrow, wide) && cmd.start <= k <= cmd.stop && i < LANES && j < REGISTER_BYTES
    requires c1 == DataByte(cmd.sdata1, narrow[i][4 * k + j % 4]) && c2 == SignExtend9(cmd.sbias1)
    requires d1 == DataByte(cmd.sdata2, wide[k - cmd.start][j]) && d2 == SignExtend9(cmd.sbias2)
    ensures ConvProducts(cmd, narrow, wide)(k, i, j) == (c1 + c2) * (d1 + d2)
  {
  }

  // ---------------------------------------------------------------- the accumulator layout

  /** The accumulator cell of row `i`, word `word`. */
  function AccRow(i: nat, word: nat): (p: nat)
    requires i < LANES && word < LANES
    ensures p < LANES
  {
    (i / 4) * 4 + ConvInterleave(word % 4)
  }

  function AccCol(i: nat, word: nat): (q: nat)
    requires i < LANES && word < LANES
    ensures q < LANES
  {
    (i % 4) * 2 + word / 4
  }

  /** The row and word kept in accumulator cell (p, q). */
  function CellRow(p: nat, q: nat): (i: nat)
    requires p < LANES && q < LANES
    ensures i < LANES
  {
    (p / 4) * 4 + q / 2
  }

  function CellWord(p: nat, q: nat): (word: nat)
    requires p < LANES && q < LANES
    ensures word < LANES
  {
    (q % 2) * 4 + ConvInterleave(p % 4)
  }

  lemma DigitsOf(a: nat, c: nat, base: nat)
    requires base in {2, 4} && c < base
    ensures (a * base + c) / base == a && (a * base + c) % base == c
  {
    if base == 2 {
      assert a * 2 == a * base;
    } else {
      assert a * 4 == a * base;
    }
  }

  lemma InterleaveInvolution(q: nat)
    requires q < 4
    ensures ConvInterleave(ConvInterleave(q)) == q
  {
  }

  /** Each cell holds one matrix entry ... */
  lemma EntryOfCell(i: nat, word: nat)
    requires i < LANES && word < LANES
    ensures CellRow(AccRow(i, word), AccCol(i, word)) == i && CellWord(AccRow(i, word), AccCol(i, word)) == word
  {
    InterleaveInvolution(word % 4);
    DigitsOf(i / 4, ConvInterleave(word % 4), 4);
    DigitsOf(i % 4, word / 4, 2);
  }

  /** ... and each entry has one cell: the map is a bijection of the 8x8 grid. */
  lemma CellOfEntry(p: nat, q: nat)
    requires p < LANES && q < LANES
    ensures AccRow(CellRow(p, q), CellWord(p, q)) == p && AccCol(CellRow(p, q), CellWord(p, q)) == q
  {
    InterleaveInvolution(p % 4);
    DigitsOf(p / 4, q / 2, 4);
    DigitsOf(q % 2, ConvInterleave(p % 4), 4);
  }

  lemma DistinctCells(i: nat, word: nat, r: nat, w: nat)
    requires i < LANES && word < LANES && r < LANES && w < LANES
    ensures AccRow(i, word) == AccRow(r, w) && AccCol(i, word) == AccCol(r, w) ==> i == r && word == w
  {
    EntryOfCell(i, word);
    EntryOfCell(r, w);
  }

  // ---------------------------------------------------------------- the instruction

  /** What the cell of row `r`, word `w` has received before step (k, i, j). */
  function Done(t: Products, start: nat, r: nat, w: nat, k: nat, i: nat, j: nat): int {
    StepSum(t, start, r, w, k) +
    if r < i then WordSum(t, k, r, w, 4)
    else if r > i || j <= 4 * w then 0
    else WordSum(t, k, r, w, if j >= 4 * w + 4 then 4 else j - 4 * w)
  }

  lemma DoneStep(t: Products, start: nat, r: nat, w: nat, k: nat, i: nat, j: nat)
    ensures Done(t, start, r, w, k, i, j + 1)
            == Done(t, start, r, w, k, i, j) + if r == i && w == j / 4 then t(k, i, j) else 0
  {
    if r == i && w == j / 4 {
      var b := j + 1 - 4 * w;
      assert WordSum(t, k, r, w, b) == WordSum(t, k, r, w, b - 1) + t(k, r, j);
    }
  }

  lemma DoneCarry(t: Products, start: nat, r: nat, w: nat, k: nat, i: nat)
    requires start <= k && r < LANES && w < LANES
    ensures Done(t, start, r, w, start, 0, 0) == 0
    ensures Done(t, start, r, w, k, i, REGISTER_BYTES) == Done(t, start, r, w, k, i + 1, 0)
    ensures Done(t, start, r, w, k, LANES, 0) == Done(t, start, r, w, k + 1, 0, 0)
  {
  }

  ghost predicate IsSquare(m: Matrix) {
    |m| == LANES && forall p | 0 <= p < LANES :: |m[p]| == LANES
  }

  ghost predicate Square(acc: array2<Word>, before: Matrix) {
    acc.Length0 == acc.Length1 == LANES && IsSquare(before)
  }

  /** A placement of the 8x8 matrix entries in distinct accumulator cells. */
  type CellMap = (nat, nat) -> (nat, nat)

  ghost predicate Grid(cell: CellMap) {
    && (forall i: nat, w: nat | i < LANES && w < LANES :: cell(i, w).0 < LANES && cell(i, w).1 < LANES)
    && forall i: nat, w: nat, r: nat, v: nat | i < LANES && w < LANES && r < LANES && v < LANES && cell(i, w) == cell(r, v) ::
         i == r && w == v
  }

  function ConvCell(): CellMap {
    (i: nat, w: nat) => if i < LANES && w < LANES then (AccRow(i, w), AccCol(i, w)) else (0, 0)
  }

  lemma ConvCellIsGrid()
    ensures Grid(ConvCell())
  {
    forall i: nat, w: nat, r: nat, v: nat | i < LANES && w < LANES && r < LANES && v < LANES && ConvCell()(i, w) == ConvCell()(r, v)
      ensures i == r && w == v
    {
      DistinctCells(i, w, r, v);
    }
  }

  /** The content of the cell of row `r`, word `w` before step (k, i, j). */
  function CellValue(before: Matrix, cell: CellMap, t: Products, start: nat, r: nat, w: nat, k: nat, i: nat, j: nat): Word
    requires IsSquare(before) && Grid(cell) && r < LANES && w < LANES
  {
    Wrap(before[cell(r, w).0][cell(r, w).1] + Done(t, start, r, w, k, i, j))
  }

  ghost predicate Progress(acc: array2<Word>, before: Matrix, cell: CellMap, t: Products, start: nat, k: nat, i: nat, j: nat)
    requires Square(acc, before) && Grid(cell)
    reads acc
  {
    forall r: nat, w: nat | r < LANES && w < LANES ::
      acc[cell(r, w).0, cell(r, w).1] == CellValue(before, cell, t, start, r, w, k, i, j)
  }

  lemma CellStep(before: Matrix, cell: CellMap, t: Products, start: nat, r: nat, w: nat, k: nat, i: nat, j: nat)
    requires IsSquare(before) && Grid(cell) && r < LANES && w < LANES
    ensures var value := CellValue(before, cell, t, start, r, w, k, i, j);
      CellValue(before, cell, t, start, r, w, k, i, j + 1) == if r == i && w == j / 4 then Wrap(value + t(k, i, j)) else value
  {
    DoneStep(t, start, r, w, k, i, j);
    WrapAdd(before[cell(r, w).0][cell(r, w).1] + Done(t, start, r, w, k, i, j), t(k, i, j));
  }

  function View(acc: array2<Word>): Matrix
    reads acc
  {
    seq(acc.Length0, p requires 0 <= p < acc.Length0 reads acc =>
      seq(acc.Length1, q requires 0 <= q < acc.Length1 reads acc => acc[p, q]))
  }

  /** Every cell gains its matrix entry, modulo 2^32. */
  ghost predicate Accumulates(cell: CellMap, entry: (nat, nat) -> int, before: Matrix, after: Matrix)
    requires Grid(cell)
  {
    && IsSquare(before) && IsSquare(after)
    && forall i: nat, w: nat | i < LANES && w < LANES ::
         after[cell(i, w).0][cell(i, w).1] == Wrap(before[cell(i, w).0][cell(i, w).1] + entry(i, w))
  }

  function ConvEntries(cmd: ConvCmd, narrow: seq<ByteRegister>, wide: seq<ByteRegister>): (nat, nat) -> int
    requires Sources(cmd, narrow, wide)
  {
    (i: nat, w: nat) => ConvSum(cmd, narrow, wide, i, w)
  }

  /** Since the entries cover all cells, that determines the whole new state. */
  lemma AccumulatesDeterministic(entry: (nat, nat) -> int, before: Matrix, x: Matrix, y: Matrix)
    requires Grid(ConvCell()) && Accumulates(ConvCell(), entry, before, x) && Accumulates(ConvCell(), entry, before, y)
    ensures x == y
  {
    forall p: nat | p < LANES
      ensures x[p] == y[p]
    {
      forall q: nat | q < LANES
        ensures x[p][q] == y[p][q]
      {
        CellOfEntry(p, q);
        var c := ConvCell()(CellRow(p, q), CellWord(p, q));
        assert x[c.0][c.1] == y[c.0][c.1];
      }
    }
  }

  method VConv(cmd: ConvCmd, narrow: seq<ByteRegister>, wide: seq<ByteRegister>, acc: array2<Word>) returns (trapped: bool)
    requires cmd.Fields() && acc.Length0 == acc.Length1 == LANES && |narrow| == LANES
    requires cmd.Executes() ==> |wide| > cmd.stop - cmd.start
    modifies acc
    ensures trapped <==> cmd.mode != 0 || cmd.start > cmd.stop || cmd.stop >= 8
    ensures trapped ==> View(acc) == old(View(acc))
    ensures !trapped ==> Grid(ConvCell()) && Accumulates(ConvCell(), ConvEntries(cmd, narrow, wide), old(View(acc)), View(acc))
  {
    if cmd.mode != 0 || cmd.start > cmd.stop || cmd.start >= LANES || cmd.stop >= LANES {
      return true;
    }
    trapped := false;
    var accumulator := CopyOf(acc);
    AccumulateProducts(cmd, narrow, wide, accumulator);
    CopyTo(accumulator, acc);
  }

  method CopyOf(acc: array2<Word>) returns (c: array2<Word>)
    requires acc.Length0 == acc.Length1 == LANES
    ensures fresh(c) && c.Length0 == c.Length1 == LANES && View(c) == View(acc)
  {
    c := new Word[LANES, LANES]((p, q) requires 0 <= p < LANES && 0 <= q < LANES reads acc => acc[p, q]);
    assert forall p | 0 <= p < LANES :: View(c)[p] == View(acc)[p];
  }

  method CopyTo(c: array2<Word>, acc: array2<Word>)
    requires acc.Length0 == acc.Length1 == LANES == c.Length0 == c.Length1
    modifies acc
    ensures View(acc) == old(View(c))
  {
    ghost var source := View(c);
    forall p, q | 0 <= p < LANES && 0 <= q < LANES {
      acc[p, q] := c[p, q];
    }
    assert forall p | 0 <= p < LANES :: View(acc)[p] == source[p];
  }

  lemma Start(accumulator: array2<Word>, before: Matrix, cell: CellMap, t: Products, start: nat)
    requires Square(accumulator, before) && Grid(cell)
    requires forall p, q | 0 <= p < LANES && 0 <= q < LANES :: accumulator[p, q] == before[p][q]
    ensures Progress(accumulator, before, cell, t, start, start, 0, 0)
  {
    forall r: nat, w: nat | r < LANES && w < LANES
      ensures accumulator[cell(r, w).0, cell(r, w).1] == CellValue(before, cell, t, start, r, w, start, 0, 0)
    {
      DoneCarry(t, start, r, w, start, 0);
    }
  }

  lemma FinalCells(accumulator: array2<Word>, before: Matrix, cell: CellMap, t: Products, start: nat,
                   end: nat, entry: (nat, nat) -> int)
    requires Square(accumulator, before) && Grid(cell)
    requires Progress(accumulator, before, cell, t, start, end, 0, 0)
    requires forall i: nat, w: nat :: entry(i, w) == StepSum(t, start, i, w, end)
    ensures Accumulates(cell, entry, before, View(accumulator))
  {
    forall i: nat, w: nat | i < LANES && w < LANES
      ensures View(accumulator)[cell(i, w).0][cell(i, w).1] == Wrap(before[cell(i, w).0][cell(i, w).1] + entry(i, w))
    {
      assert accumulator[cell(i, w).0, cell(i, w).1] == CellValue(before, cell, t, start, i, w, end, 0, 0);
    }
  }

  method AccumulateProducts(cmd: ConvCmd, narrow: seq<ByteRegister>, wide: seq<ByteRegister>, accumulator: array2<Word>)
    requires Sources(cmd, narrow, wide) && accumulator.Length0 == accumulator.Length1 == LANES
    modifies accumulator
    ensures Grid(ConvCell())
    ensures Accumulates(ConvCell(), ConvEntries(cmd, narrow, wide), old(View(accumulator)), View(accumulator))
  {
    ghost var before, cell, t := View(accumulator), ConvCell(), ConvProducts(cmd, narrow, wide);
    ConvCellIsGrid();
    Start(accumulator, before, cell, t, cmd.start);
    AccumulateSteps(cmd, narrow, wide, accumulator, before);
    FinalCells(accumulator, before, cell, t, cmd.start, cmd.stop + 1, ConvEntries(cmd, narrow, wide));
  }

  method AccumulateSteps(cmd: ConvCmd, narrow: seq<ByteRegister>, wide: seq<ByteRegister>,
                         accumulator: array2<Word>, ghost before: Matrix)
    requires Sources(cmd, narrow, wide) && Square(accumulator, before) && Grid(ConvCell())
    requires Progress(accumulator, before, ConvCell(), ConvProducts(cmd, narrow, wide), cmd.start, cmd.start, 0, 0)
    modifies accumulator
    ensures Progress(accumulator, before, ConvCell(), ConvProducts(cmd, narrow, wide), cmd.start, cmd.stop + 1, 0, 0)
  {
    for k := cmd.start to cmd.stop + 1
      invariant Progress(accumulator, before, ConvCell(), ConvProducts(cmd, narrow, wide), cmd.start, k, 0, 0)
    {
      AccumulateStep(cmd, narrow, wide, accumulator, before, k);
    }
  }

  method AccumulateStep(cmd: ConvCmd, narrow: seq<ByteRegister>, wide: seq<ByteRegister>,
                        accumulator: array2<Word>, ghost before: Matrix, k: nat)
    requires Sources(cmd, narrow, wide) && Square(accumulator, before) && Grid(ConvCell()) && cmd.start <= k <= cmd.stop
    requires Progress(accumulator, before, ConvCell(), ConvProducts(cmd, narrow, wide), cmd.start, k, 0, 0)
    modifies accumulator
    ensures Progress(accumulator, before, ConvCell(), ConvProducts(cmd, narrow, wide), cmd.start, k + 1, 0, 0)
  {
    ghost var t, cell := ConvProducts(cmd, narrow, wide), ConvCell();
    for i := 0 to LANES
      invariant Progress(accumulator, before, cell, t, cmd.start, k, i, 0)
    {
      AccumulateRow(cmd, narrow, wide, accumulator, before, k, i);
    }
    NextStep(accumulator, before, cell, t, cmd.start, k);
  }

  method AccumulateRow(cmd: ConvCmd, narrow: seq<ByteRegister>, wide: seq<ByteRegister>,
                       accumulator: array2<Word>, ghost before: Matrix, k: nat, i: nat)
    requires Sources(cmd, narrow, wide) && Square(accumulator, before) && Grid(ConvCell())
    requires cmd.start <= k <= cmd.stop && i < LANES
    requires Progress(accumulator, before, ConvCell(), ConvProducts(cmd, narrow, wide), cmd.start, k, i, 0)
    modifies accumulator
    ensures Progress(accumulator, before, ConvCell(), ConvProducts(cmd, narrow, wide), cmd.start, k, i + 1, 0)
  {
    ghost var t, cell := ConvProducts(cmd, narrow, wide), ConvCell();
    for j := 0 to REGISTER_BYTES
      invariant Progress(accumulator, before, cell, t, cmd.start, k, i, j)
    {
      var product := ComputeProduct(cmd, narrow, wide, k, i, j);
      AddProduct(accumulator, before, cell, t, cmd.start, k, i, j, product);
    }
    NextRow(accumulator, before, cell, t, cmd.start, k, i);
  }

  method ComputeProduct(cmd: ConvCmd, narrow: seq<ByteRegister>, wide: seq<ByteRegister>, k: nat, i: nat, j: nat)
    returns (product: int)
    requires Sources(cmd, narrow, wide) && cmd.start <= k <= cmd.stop && i < LANES && j < REGISTER_BYTES
    ensures product == ConvProducts(cmd, narrow, wide)(k, i, j)
  {
    var sdata1 := DataByte(cmd.sdata1, narrow[i][4 * k + j % 4]);
    var sdata2 := DataByte(cmd.sdata2, wide[k - cmd.start][j]);
    product := (sdata1 + SignExtend9(cmd.sbias1)) * (sdata2 + SignExtend9(cmd.sbias2));
  }

  lemma NextRow(accumulator: array2<Word>, before: Matrix, cell: CellMap, t: Products, start: nat, k: nat, i: nat)
    requires start <= k && Square(accumulator, before) && Grid(cell)
    requires Progress(accumulator, before, cell, t, start, k, i, REGISTER_BYTES)
    ensures Progress(accumulator, before, cell, t, start, k, i + 1, 0)
  {
    forall r: nat, w: nat | r < LANES && w < LANES
      ensures accumulator[cell(r, w).0, cell(r, w).1] == CellValue(before, cell, t, start, r, w, k, i + 1, 0)
    {
      DoneCarry(t, start, r, w, k, i);
    }
  }

  lemma NextStep(accumulator: array2<Word>, before: Matrix, cell: CellMap, t: Products, start: nat, k: nat)
    requires start <= k && Square(accumulator, before) && Grid(cell)
    requires Progress(accumulator, before, cell, t, start, k, LANES, 0)
    ensures Progress(accumulator, before, cell, t, start, k + 1, 0, 0)
  {
    forall r: nat, w: nat | r < LANES && w < LANES
      ensures accumulator[cell(r, w).0, cell(r, w).1] == CellValue(before, cell, t, start, r, w, k + 1, 0, 0)
    {
      DoneCarry(t, start, r, w, k, LANES);
    }
  }

  /** One accumulation into the interleaved cell. */
  method AddProduct(accumulator: array2<Word>, ghost before: Matrix, ghost cell: CellMap, ghost t: Products,
                    ghost start: nat, ghost k: nat, i: nat, j: nat, product: int)
    requires i < LANES && j < REGISTER_BYTES && Square(accumulator, before) && Grid(cell) && cell == ConvCell()
    requires Progress(accumulator, before, cell, t, start, k, i, j) && product == t(k, i, j)
    modifies accumulator
    ensures Progress(accumulator, before, cell, t, start, k, i, j + 1)
  {
    var word := j / 4;
    AddToCell(accumulator, before, cell, t, start, k, i, j, AccRow(i, word), AccCol(i, word), product);
  }

  method AddToCell(accumulator: array2<Word>, ghost before: Matrix, ghost cell: CellMap, ghost t: Products,
                   ghost start: nat, ghost k: nat, ghost i: nat, ghost j: nat, row: nat, col: nat, product: int)
    requires i < LANES && j < REGISTER_BYTES && Square(accumulator, before) && Grid(cell) && cell(i, j / 4) == (row, col)
    requires Progress(accumulator, before, cell, t, start, k, i, j) && product == t(k, i, j)
    modifies accumulator
    ensures Progress(accumulator, before, cell, t, start, k, i, j + 1)
  {
    accumulator[row, col] := Wrap(accumulator[row, col] + product);
    forall r: nat, w: nat | r < LANES && w < LANES
      ensures accumulator[cell(r, w).0, cell(r, w).1] == CellValue(before, cell, t, start, r, w, k, i, j + 1)
    {
      CellStep(before, cell, t, start, r, w, k, i, j);
    }
  }

  /** Copies the accumulators to vector registers and clears them. */
  method VcGet(acc: array2<Word>) returns (vd: Matrix)
    requires acc.Length0 == acc.Length1 == LANES
    modifies acc
    ensures vd == old(View(acc))
    ensures forall p, q | 0 <= p < LANES && 0 <= q < LANES :: acc[p, q] == 0
  {
    vd := [];
    for op := 0 to LANES
      invariant vd == old(View(acc))[..op]
      invariant forall p, q | 0 <= p < LANES && 0 <= q < LANES :: acc[p, q] == if p < op then 0 else old(acc[p, q])
    {
      var dest := [];
      for i := 0 to LANES
        invariant dest == old(View(acc))[op][..i]
      {
        dest := dest + [acc[op, i]];
      }
      assert dest == old(View(acc))[op];
      vd := vd + [dest];
      forall q | 0 <= q < LANES {
        acc[op, q] := 0;
      }
    }
  }

  // ---------------------------------------------------------------- end to end

  /** No sum of products leaves the 32-bit range: 32 products of two biased 9-bit factors. */
  lemma TermBound(cmd: ConvCmd, narrow: seq<ByteRegister>, wide: seq<ByteRegister>, k: nat, i: nat, j: nat)
    requires Sources(cmd, narrow, wide) && cmd.start <= k <= cmd.stop && i < LANES && j < REGISTER_BYTES
    ensures -260100 <= Term(cmd, narrow, wide, k, i, j) <= 260100
  {
    SignExtend9Value(cmd.sbias1);
    SignExtend9Value(cmd.sbias2);
    BiasedProduct(DataByte(cmd.sdata1, narrow[i][4 * k + j % 4]) + SignExtend9(cmd.sbias1),
                  DataByte(cmd.sdata2, wide[k - cmd.start][j]) + SignExtend9(cmd.sbias2));
  }

  lemma BiasedProduct(x: int, y: int)
    requires -384 <= x <= 510 && -384 <= y <= 510
    ensures -260100 <= x * y <= 260100
  {
    UnsignedProduct(Abs(x), Abs(y), 510);
    Signs(x, y);
  }

  ghost predicate Bounded(t: Products) {
    forall k: nat, i: nat, j: nat :: -260100 <= t(k, i, j) <= 260100
  }

  lemma {:induction false} WordSumBound(t: Products, k: nat, i: nat, w: nat, b: nat)
    requires Bounded(t)
    ensures -260100 * b <= WordSum(t, k, i, w, b) <= 260100 * b
  {
    if b > 0 {
      WordSumBound(t, k, i, w, b - 1);
    }
  }

  lemma {:induction false} StepSumBound(t: Products, start: nat, i: nat, w: nat, k: nat)
    requires Bounded(t)
    ensures -1040400 * k <= StepSum(t, start, i, w, k) <= 1040400 * k
  {
    if k > start {
      StepSumBound(t, start, i, w, k - 1);
      WordSumBound(t, k - 1, i, w, 4);
    }
  }

  function ZeroMatrix(): (m: Matrix)
    ensures IsSquare(m) && forall p, q | 0 <= p < LANES && 0 <= q < LANES :: m[p][q] == 0
  {
    seq(LANES, p => seq(LANES, q => 0))
  }

  /** Registers of 32-bit words as narrowing sources of either signedness. */
  function WordGroup(m: Matrix, isSigned: bool): (g: Group)
    ensures |g| == |m| && forall p | 0 <= p < |m| :: |g[p]| == |m[p]|
    ensures forall p, q | 0 <= p < |m| && 0 <= q < |m[p]| :: g[p][q] == if isSigned then Signed(m[p][q]) else m[p][q]
  {
    seq(|m|, p requires 0 <= p < |m| =>
      seq(|m[p]|, q requires 0 <= q < |m[p]| => if isSigned then Signed(m[p][q]) else m[p][q]))
  }

  /** VSrans from 32 to 8 bits. */
  function QuadShift(isSigned: bool, round: bool): (int, int) -> int {
    (x, s) => VSrans(LaneType(8, isSigned), 32, round, x, s)
  }

  /** VConv on cleared accumulators, VcGet, then a quad narrowing of registers 0..3 or 4..7: lane
      8 * (i % 4) + w holds entry (i, w) of the product, rounded, shifted and clamped. */
  lemma ConvolutionInRowMajorOrder(cmd: ConvCmd, narrow: seq<ByteRegister>, wide: seq<ByteRegister>, acc: Matrix,
                                   round: bool, shift: int, i: nat, w: nat)
    requires Sources(cmd, narrow, wide) && i < LANES && w < LANES
    requires Grid(ConvCell()) && Accumulates(ConvCell(), ConvEntries(cmd, narrow, wide), ZeroMatrix(), acc)
    ensures var src := [Block(WordGroup(acc, true), i / 4), [[shift]]];
      var o := NarrowingOp(LANES, 1, 4, false, true, QuadShift(true, round));
      && WellFormed(o, src)
      && Registers(o, src)[0][8 * (i % 4) + w]
         == Clamp(Int(8), ShiftRight(round, ConvSum(cmd, narrow, wide, i, w), shift % 32))
  {
    NarrowedCell(acc, true, round, shift, i, w);
    EntryInCell(cmd, narrow, wide, acc, i, w);
    VSransIsClampedShift(Int(8), 32, round, ConvSum(cmd, narrow, wide, i, w), shift);
  }

  lemma EntryInCell(cmd: ConvCmd, narrow: seq<ByteRegister>, wide: seq<ByteRegister>, acc: Matrix, i: nat, w: nat)
    requires Sources(cmd, narrow, wide) && i < LANES && w < LANES
    requires Grid(ConvCell()) && Accumulates(ConvCell(), ConvEntries(cmd, narrow, wide), ZeroMatrix(), acc)
    ensures Signed(acc[AccRow(i, w)][AccCol(i, w)]) == ConvSum(cmd, narrow, wide, i, w)
  {
    ConvSumFits(cmd, narrow, wide, i, w);
    ClearedCell(ConvCell(), ConvEntries(cmd, narrow, wide), acc, i, w, AccRow(i, w), AccCol(i, w));
  }

  /** On cleared accumulators an entry's cell holds the entry. */
  lemma ClearedCell(cell: CellMap, entries: (nat, nat) -> int, acc: Matrix, i: nat, w: nat, row: nat, col: nat)
    requires i < LANES && w < LANES && Grid(cell) && cell(i, w) == (row, col) && Accumulates(cell, entries, ZeroMatrix(), acc)
    ensures row < LANES && col < LANES && IsSquare(acc) && acc[row][col] == Wrap(entries(i, w))
  {
  }

  /** No matrix entry overflows: on cleared accumulators a cell holds the exact sum. */
  lemma ConvSumFits(cmd: ConvCmd, narrow: seq<ByteRegister>, wide: seq<ByteRegister>, i: nat, w: nat)
    requires Sources(cmd, narrow, wide)
    ensures Signed(Wrap(ConvSum(cmd, narrow, wide, i, w))) == ConvSum(cmd, narrow, wide, i, w)
  {
    var t := ConvProducts(cmd, narrow, wide);
    forall k: nat, x: nat, j: nat
      ensures -260100 <= t(k, x, j) <= 260100
    {
      if cmd.start <= k <= cmd.stop && x < LANES && j < REGISTER_BYTES {
        TermBound(cmd, narrow, wide, k, x, j);
      }
    }
    StepSumBound(t, cmd.start, i, w, cmd.stop + 1);
    SignedOfWrap(ConvSum(cmd, narrow, wide, i, w));
  }

  /** Where the quad narrowing finds entry (i, w) of any accumulator content. */
  lemma NarrowedCell(acc: Matrix, isSigned: bool, round: bool, shift: int, i: nat, w: nat)
    requires IsSquare(acc) && i < LANES && w < LANES
    ensures var src := [Block(WordGroup(acc, isSigned), i / 4), [[shift]]];
      var o := NarrowingOp(LANES, 1, 4, false, true, QuadShift(isSigned, round));
      && WellFormed(o, src)
      && Registers(o, src)[0][8 * (i % 4) + w]
         == VSrans(LaneType(8, isSigned), 32, round, WordGroup(acc, isSigned)[AccRow(i, w)][AccCol(i, w)], shift)
  {
    QuadCell(i, w);
    var g := Block(WordGroup(acc, isSigned), i / 4);
    NarrowingWellFormed(LANES, 1, 4, false, true, QuadShift(isSigned, round), g, [[shift]]);
    NarrowingLane(LANES, 1, 4, false, true, QuadShift(isSigned, round), g, [[shift]], 0, 8 * (i % 4) + w);
  }

  /** Registers 0..3 or 4..7 of the read-out. */
  function Block(g: Group, half: nat): Group
    requires |g| == LANES && half < 2
  {
    g[4 * half..4 * half + 4]
  }

  /** The narrowing instruction reads lane 8 * (i % 4) + w from the cell the convolution wrote. */
  lemma QuadCell(i: nat, w: nat)
    requires i < LANES && w < LANES
    ensures var e := 8 * (i % 4) + w;
      && e < 32 && e / 4 == AccCol(i, w)
      && WideGroup(4, e) < 4 && 4 * (i / 4) + WideGroup(4, e) == AccRow(i, w)
  {
  }
}
