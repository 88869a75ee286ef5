/** The two loops the generators emit: the control-hazard countdown and the memory fill of the
    preamble, with its nonzero pseudo-random words. */
module GeneratedLoops {
  import opened Words
  import opened Rv32
  import opened Sandbox
  import opened TrapHandler
  import opened XorshiftStep

  // ---------------------------------------------------------------- constant load of the engine

  /** The engine's constant load keeps the addition when the upper part is zero. */
  function LiCode(rd: Reg, v: Word): seq<Instr> {
    if Lower(v) != 0 || Upper(v) == 0 then [Lui(rd, Upper(v)), Addi(rd, rd, Lower(v))] else [Lui(rd, Upper(v))]
  }

  lemma LiLoads(rd: Reg, v: Word, m: Machine)
    requires rd != 0
    ensures StraightLine(LiCode(rd, v)) && Effect(LiCode(rd, v), m) == m.(x := m.x[rd := v])
  {
    if Lower(v) != 0 || Upper(v) == 0 {
      PairLoads(rd, Upper(v), Lower(v), v, m);
    } else {
      UpperLower(v);
      Exec1(Lui(rd, Upper(v)), m);
    }
  }

  lemma PairLoads(rd: Reg, upper: Imm20, lower: Imm12, v: Word, m: Machine)
    requires rd != 0 && upper == Upper(v) && lower == Lower(v)
    ensures StraightLine([Lui(rd, upper), Addi(rd, rd, lower)])
    ensures Effect([Lui(rd, upper), Addi(rd, rd, lower)], m) == m.(x := m.x[rd := v])
  {
    UpperLower(v);
    Exec2(Lui(rd, upper), Addi(rd, rd, lower), m);
  }

  // ---------------------------------------------------------------- control hazard

  function Nops(n: nat): (code: seq<Instr>)
    ensures |code| == n
  {
    if n == 0 then [] else [Addi(ZERO, ZERO, 0)] + Nops(n - 1)
  }

  lemma {:induction false} NopsDoNothing(n: nat, m: Machine)
    ensures StraightLine(Nops(n)) && Effect(Nops(n), m) == m
  {
    if n > 0 {
      Exec1(Addi(ZERO, ZERO, 0), m);
      NopsDoNothing(n - 1, m);
      Compose([Addi(ZERO, ZERO, 0)], Nops(n - 1), m, m, m);
    }
  }

  /** Distances whose branches are encodable. */
  predicate HazardDistance(dist: nat) {
    4 * dist + 12 < 0x1000
  }

  function HazardCode(dist: nat): (code: seq<Instr>)
    requires HazardDistance(dist)
    ensures |code| == dist + 5
  {
    [Addi(T0, ZERO, 2), Addi(T1, ZERO, 0)] + [Beq(T0, T1, 4 * dist + 12)] + CountDown(dist)
    + [Bne(T0, T1, -(4 * dist + 8))]
  }

  function CountDown(dist: nat): (code: seq<Instr>)
    ensures |code| == dist + 1
  {
    Nops(dist) + [Addi(T0, T0, -1)]
  }

  lemma CountDownEffect(dist: nat, m: Machine)
    requires m.x[T0] > 0
    ensures StraightLine(CountDown(dist)) && Effect(CountDown(dist), m) == m.(x := m.x[T0 := m.x[T0] - 1])
  {
    NopsDoNothing(dist, m);
    Exec1(Addi(T0, T0, -1), m);
    Compose(Nops(dist), [Addi(T0, T0, -1)], m, m, m.(x := m.x[T0 := m.x[T0] - 1]));
  }

  ghost predicate HazardAt(code: seq<Instr>, k: nat, dist: nat)
    requires HazardDistance(dist)
  {
    k + dist + 5 <= |code| && 4 * |code| < WORD && code[k..k + dist + 5] == HazardCode(dist)
  }

  lemma HazardLayout(code: seq<Instr>, k: nat, dist: nat)
    requires HazardDistance(dist) && HazardAt(code, k, dist)
    ensures code[k..k + 2] == [Addi(T0, ZERO, 2), Addi(T1, ZERO, 0)] && code[k + 2] == Beq(T0, T1, 4 * dist + 12)
    ensures code[k + 3..k + 3 + (dist + 1)] == CountDown(dist)
    ensures code[k + 4 + dist] == Bne(T0, T1, -(4 * dist + 8))
  {
    var h := HazardCode(dist);
    Pieces([Addi(T0, ZERO, 2), Addi(T1, ZERO, 0)], Beq(T0, T1, 4 * dist + 12), CountDown(dist), Bne(T0, T1, -(4 * dist + 8)));
    SubSlice(code, h, k, 0, 2);
    SubSlice(code, h, k, 3, 4 + dist);
    assert code[k + 2] == code[k..k + dist + 5][2];
    assert code[k + 4 + dist] == code[k..k + dist + 5][4 + dist];
  }

  lemma Pieces(a: seq<Instr>, i: Instr, b: seq<Instr>, j: Instr)
    ensures var h := a + [i] + b + [j];
      h[0..|a|] == a && h[|a|] == i && h[|a| + 1..|a| + 1 + |b|] == b && h[|a| + 1 + |b|] == j
  {
  }

  lemma SubSlice(code: seq<Instr>, h: seq<Instr>, k: nat, lo: nat, hi: nat)
    requires k + |h| <= |code| && code[k..k + |h|] == h && lo <= hi <= |h|
    ensures code[k + lo..k + hi] == h[lo..hi]
  {
    forall i | lo <= i < hi
      ensures code[k + i] == h[i]
    {
      assert code[k..k + |h|][i] == code[k + i];
    }
  }

  /** At the loop head with `count` in t0. */
  ghost predicate AtHead(m: Machine, k: nat, count: Word) {
    m.status == Running && m.pc == 4 * (k + 2) && ZeroRegister(m.x) && m.x[T0] == count && m.x[T1] == 0
  }

  lemma HazardEnter(code: seq<Instr>, k: nat, dist: nat, m: Machine, count: Word)
    requires HazardDistance(dist) && HazardAt(code, k, dist) && AtHead(m, k, count) && count > 0
    ensures Run(code, m, 1) == m.(pc := 4 * (k + 3))
  {
    HazardLayout(code, k, dist);
    RunOne(code, m, k + 2);
  }

  lemma HazardBody(code: seq<Instr>, k: nat, dist: nat, m: Machine)
    requires HazardDistance(dist) && HazardAt(code, k, dist) && m.x[T0] > 0 && m.status == Running && m.pc == 4 * (k + 3)
    ensures Run(code, m, dist + 1) == m.(pc := 4 * (k + 4 + dist), x := m.x[T0 := m.x[T0] - 1])
  {
    HazardLayout(code, k, dist);
    CountDownEffect(dist, m);
    RunEffect(code, CountDown(dist), m, k + 3);
  }

  lemma HazardReturn(code: seq<Instr>, k: nat, dist: nat, m: Machine)
    requires HazardDistance(dist) && HazardAt(code, k, dist) && m.status == Running && m.pc == 4 * (k + 4 + dist)
    ensures Run(code, m, 1) == m.(pc := if m.x[T0] == m.x[T1] then 4 * (k + 5 + dist) else 4 * (k + 2))
  {
    HazardLayout(code, k, dist);
    RunOne(code, m, k + 4 + dist);
  }

  function AfterIteration(k: nat, dist: nat, m: Machine, count: Word): Machine
    requires count > 0 && 4 * (k + 5 + dist) < WORD
  {
    m.(x := m.x[T0 := count - 1], pc := if count == 1 then 4 * (k + 5 + dist) else 4 * (k + 2))
  }

  function AfterBody(k: nat, dist: nat, m: Machine, count: Word): Machine
    requires count > 0 && 4 * (k + 5 + dist) < WORD
  {
    m.(x := m.x[T0 := count - 1], pc := 4 * (k + 4 + dist))
  }

  lemma HazardEnterAndCount(code: seq<Instr>, k: nat, dist: nat, m: Machine, count: Word)
    requires HazardDistance(dist) && HazardAt(code, k, dist) && AtHead(m, k, count) && count > 0
    ensures Run(code, m, dist + 2) == AfterBody(k, dist, m, count)
  {
    var m1 := m.(pc := 4 * (k + 3));
    HazardEnter(code, k, dist, m, count);
    HazardBody(code, k, dist, m1);
    RunChain(code, m, 1, m1, dist + 1, AfterBody(k, dist, m, count));
  }

  lemma HazardIteration(code: seq<Instr>, k: nat, dist: nat, m: Machine, count: Word)
    requires HazardDistance(dist) && HazardAt(code, k, dist) && AtHead(m, k, count) && count > 0
    ensures Run(code, m, dist + 3) == AfterIteration(k, dist, m, count)
  {
    HazardEnterAndCount(code, k, dist, m, count);
    HazardReturn(code, k, dist, AfterBody(k, dist, m, count));
    RunChain(code, m, dist + 2, AfterBody(k, dist, m, count), 1, AfterIteration(k, dist, m, count));
  }

  function HazardSteps(count: nat, dist: nat): nat {
    if count == 0 then 0 else dist + 3 + HazardSteps(count - 1, dist)
  }

  ghost predicate CountsDown(code: seq<Instr>, k: nat, dist: nat, m: Machine)
    requires 4 * (k + 5 + dist) < WORD
  {
    m.x[T0] > 0 && AtHead(m, k, m.x[T0]) ==> Run(code, m, dist + 3) == AfterIteration(k, dist, m, m.x[T0])
  }

  lemma HazardCountsDown(code: seq<Instr>, k: nat, dist: nat, m: Machine)
    requires HazardDistance(dist) && HazardAt(code, k, dist)
    ensures CountsDown(code, k, dist, m)
  {
    if m.x[T0] > 0 && AtHead(m, k, m.x[T0]) {
      HazardIteration(code, k, dist, m, m.x[T0]);
    }
  }

  /** The loop ends for every count, just behind itself, with the counter at zero. */
  lemma {:induction false} HazardLoop(code: seq<Instr>, k: nat, dist: nat, m: Machine, count: Word)
    requires 4 * (k + 5 + dist) < WORD && forall n: Machine :: CountsDown(code, k, dist, n)
    requires 0 < count && AtHead(m, k, count)
    ensures Run(code, m, HazardSteps(count, dist)) == m.(x := m.x[T0 := 0], pc := 4 * (k + 5 + dist))
    decreases count as int
  {
    assert CountsDown(code, k, dist, m);
    var m1 := AfterIteration(k, dist, m, count);
    if count == 1 {
      assert HazardSteps(1, dist) == dist + 3 + HazardSteps(0, dist);
    } else {
      var rest: Word := count - 1;
      HazardLoop(code, k, dist, m1, rest);
      RunChain(code, m, dist + 3, m1, HazardSteps(rest, dist), m1.(x := m1.x[T0 := 0], pc := 4 * (k + 5 + dist)));
      assert m1.x[T0 := 0] == m.x[T0 := 0];
    }
  }

  function HazardEntry(k: nat, m: Machine): Machine
    requires 4 * (k + 2) < WORD
  {
    m.(pc := 4 * (k + 2), x := m.x[T0 := 2][T1 := 0])
  }

  /** The state behind the loop: beq_pc + 4 * dist + 12 with t0 = t1 = 0, nothing else changed. */
  function HazardExit(k: nat, dist: nat, m: Machine): Machine
    requires 4 * (k + 5 + dist) < WORD
  {
    var beqPc := 4 * (k + 2);
    m.(pc := beqPc + 4 * dist + 12, x := m.x[T0 := 0][T1 := 0])
  }

  lemma EntryToExit(k: nat, dist: nat, m: Machine)
    requires 4 * (k + 5 + dist) < WORD && ZeroRegister(m.x) && m.status == Running
    ensures var n := HazardEntry(k, m);
      AtHead(n, k, 2) && n.(x := n.x[T0 := 0], pc := 4 * (k + 5 + dist)) == HazardExit(k, dist, m)
  {
    assert m.x[T0 := 2][T1 := 0][T0 := 0] == m.x[T0 := 0][T1 := 0];
  }

  /** The emitted sequence ends for every encodable distance. */
  lemma ControlHazardTerminates(code: seq<Instr>, k: nat, dist: nat, m: Machine)
    requires HazardDistance(dist) && HazardAt(code, k, dist)
    requires m.status == Running && m.pc == 4 * k && ZeroRegister(m.x)
    ensures exists steps: nat :: Run(code, m, steps) == HazardExit(k, dist, m)
  {
    HazardStart(code, k, dist, m);
    EntryToExit(k, dist, m);
    forall n: Machine
      ensures CountsDown(code, k, dist, n)
    {
      HazardCountsDown(code, k, dist, n);
    }
    HazardLoop(code, k, dist, HazardEntry(k, m), 2);
    RunChain(code, m, 2, HazardEntry(k, m), HazardSteps(2, dist), HazardExit(k, dist, m));
  }

  lemma HazardStart(code: seq<Instr>, k: nat, dist: nat, m: Machine)
    requires HazardDistance(dist) && HazardAt(code, k, dist)
    requires m.status == Running && m.pc == 4 * k && ZeroRegister(m.x)
    ensures Run(code, m, 2) == HazardEntry(k, m)
  {
    HazardLayout(code, k, dist);
    Exec2(Addi(T0, ZERO, 2), Addi(T1, ZERO, 0), m);
    RunEffect(code, [Addi(T0, ZERO, 2), Addi(T1, ZERO, 0)], m, k);
  }

  // ---------------------------------------------------------------- the preamble's memory fill

  /** The word written in iteration `i` of a generator that starts from `seed`. */
  function Stream(next: Word -> Word, seed: Word, i: nat): Word
    decreases i
  {
    if i == 0 then seed else Stream(next, next(seed), i - 1)
  }

  lemma {:induction false} StreamStep(next: Word -> Word, seed: Word, i: nat)
    ensures Stream(next, seed, i + 1) == next(Stream(next, seed, i))
    decreases i
  {
    if i > 0 {
      StreamStep(next, next(seed), i - 1);
    }
  }

  lemma {:induction false} StreamIsNonzero(next: Word -> Word, seed: Word, i: nat)
    requires seed != 0 && forall s: Word | s != 0 :: next(s) != 0
    ensures Stream(next, seed, i) != 0
    decreases i
  {
    if i > 0 {
      StreamIsNonzero(next, next(seed), i - 1);
    }
  }

  function XorPair(up: bool, sh: nat): seq<Instr> {
    [if up then Slli(T3, T1, sh) else Srli(T3, T1, sh)] + [Xor(T1, T1, T3)]
  }

  function XorshiftCode(): seq<Instr> {
    XorPair(true, 13) + XorPair(false, 17) + XorPair(true, 5)
  }

  function AdvanceCode(): seq<Instr> {
    [Addi(T0, T0, 4)] + [Addi(T2, T2, -1)]
  }

  /** The loop body behind its store. */
  function BodyCode(): (code: seq<Instr>)
    ensures |code| == 8
  {
    XorshiftCode() + AdvanceCode()
  }

  function FillCode(): (code: seq<Instr>)
    ensures |code| == 10
  {
    [Sw(T1, T0, 0)] + BodyCode() + [Bne(T2, ZERO, -36)]
  }

  lemma XorPairSets(up: bool, sh: nat, x: Registers)
    ensures AllAlu(XorPair(up, sh))
    ensures var t := if up then ShiftLeft(x[T1], sh) else ShiftDown(x[T1], sh);
      AluRun(XorPair(up, sh), x) == x[T1 := XorWord(x[T1], t)][T3 := t]
  {
    var t := if up then ShiftLeft(x[T1], sh) else ShiftDown(x[T1], sh);
    var i := if up then Slli(T3, T1, sh) else Srli(T3, T1, sh);
    AluAppend([i], [Xor(T1, T1, T3)], x);
    assert x[T3 := t][T1 := XorWord(x[T1], t)] == x[T1 := XorWord(x[T1], t)][T3 := t];
  }

  lemma XorPairTwice(up: bool, sh: nat, x: Registers, a: Word, u: Word)
    ensures AllAlu(XorPair(up, sh))
    ensures var t := if up then ShiftLeft(a, sh) else ShiftDown(a, sh);
      AluRun(XorPair(up, sh), x[T1 := a][T3 := u]) == x[T1 := XorWord(a, t)][T3 := t]
  {
    var t := if up then ShiftLeft(a, sh) else ShiftDown(a, sh);
    XorPairSets(up, sh, x[T1 := a][T3 := u]);
    assert x[T1 := a][T3 := u][T1 := XorWord(a, t)][T3 := t] == x[T1 := XorWord(a, t)][T3 := t];
  }

  /** The six register instructions compute the generator step in t1; t3 is scratch. */
  lemma XorshiftSets(x: Registers) returns (t: Word)
    ensures AllAlu(XorshiftCode()) && AluRun(XorshiftCode(), x) == x[T1 := Xorshift(x[T1])][T3 := t]
  {
    var s := x[T1];
    var u := ShiftLeft(s, 13);
    var a := XorWord(s, u);
    var v := ShiftDown(a, 17);
    var b := XorWord(a, v);
    t := ShiftLeft(b, 5);
    XorPairSets(true, 13, x);
    XorPairTwice(false, 17, x, a, u);
    XorPairTwice(true, 5, x, b, v);
    AluAppend(XorPair(true, 13), XorPair(false, 17), x);
    AluAppend(XorPair(true, 13) + XorPair(false, 17), XorPair(true, 5), x);
  }

  /** What one iteration does to the registers. */
  ghost predicate Advances(next: Word -> Word, x: Registers, y: Registers) {
    && y[T0] == Plus(x[T0], 4) && y[T1] == next(x[T1]) && y[T2] == Plus(x[T2], -1)
    && forall r: Reg | r !in {T0, T1, T2, T3} :: y[r] == x[r]
  }

  lemma BodyAdvances(x: Registers)
    ensures AllAlu(BodyCode()) && Advances(Xorshift, x, AluRun(BodyCode(), x))
  {
    var t := XorshiftSets(x);
    StepThenCount(x, Xorshift(x[T1]), t);
  }

  lemma StepThenCount(x: Registers, s: Word, t: Word)
    requires AllAlu(XorshiftCode()) && AluRun(XorshiftCode(), x) == x[T1 := s][T3 := t]
    ensures AllAlu(BodyCode())
    ensures AluRun(BodyCode(), x) == x[T1 := s][T3 := t][T0 := Plus(x[T0], 4)][T2 := Plus(x[T2], -1)]
  {
    AluAppend(XorshiftCode(), AdvanceCode(), x);
    AluAppend([Addi(T0, T0, 4)], [Addi(T2, T2, -1)], x[T1 := s][T3 := t]);
  }

  ghost predicate FillAt(code: seq<Instr>, k: nat) {
    k + 10 <= |code| && 4 * |code| < WORD && code[k..k + 10] == FillCode()
  }

  /** The state after an iteration whose registers became `y`. */
  function AfterFill(k: nat, m: Machine, y: Registers): Machine
    requires 4 * (k + 10) < WORD
  {
    m.(x := y, mem := StoreWord(m.mem, m.x[T0], m.x[T1]), pc := if y[T2] == 0 then 4 * (k + 10) else 4 * k)
  }

  lemma StoreEffect(m: Machine)
    ensures Effect([Sw(T1, T0, 0)], m) == m.(mem := StoreWord(m.mem, m.x[T0], m.x[T1]))
  {
    Exec1(Sw(T1, T0, 0), m);
  }

  lemma FillBodyEffect(m: Machine, y: Registers)
    requires AllAlu(BodyCode()) && y == AluRun(BodyCode(), m.x)
    ensures StraightLine([Sw(T1, T0, 0)] + BodyCode())
    ensures Effect([Sw(T1, T0, 0)] + BodyCode(), m) == m.(x := y, mem := StoreWord(m.mem, m.x[T0], m.x[T1]))
  {
    var m1 := m.(mem := StoreWord(m.mem, m.x[T0], m.x[T1]));
    StoreEffect(m);
    AluBlock(BodyCode(), m1);
    Compose([Sw(T1, T0, 0)], BodyCode(), m, m1, m1.(x := y));
  }

  lemma FillLayout(code: seq<Instr>, k: nat)
    requires FillAt(code, k)
    ensures code[k..k + 9] == [Sw(T1, T0, 0)] + BodyCode() && code[k + 9] == Bne(T2, ZERO, -36)
  {
    var body := [Sw(T1, T0, 0)] + BodyCode();
    SubSlice(code, body + [Bne(T2, ZERO, -36)], k, 0, 9);
    assert (body + [Bne(T2, ZERO, -36)])[0..9] == body;
    assert code[k + 9] == code[k..k + 10][9];
  }

  /** The state in front of the closing branch. */
  function BeforeBranch(k: nat, m: Machine, y: Registers): Machine
    requires 4 * (k + 10) < WORD
  {
    m.(x := y, mem := StoreWord(m.mem, m.x[T0], m.x[T1]), pc := 4 * (k + 9))
  }

  lemma RunBody(code: seq<Instr>, k: nat, m: Machine, y: Registers)
    requires FillAt(code, k) && m.status == Running && m.pc == 4 * k
    requires AllAlu(BodyCode()) && y == AluRun(BodyCode(), m.x)
    ensures Run(code, m, 9) == BeforeBranch(k, m, y)
  {
    FillLayout(code, k);
    FillBodyEffect(m, y);
    RunEffect(code, [Sw(T1, T0, 0)] + BodyCode(), m, k);
  }

  lemma RunBranch(code: seq<Instr>, k: nat, m: Machine, n: Machine)
    requires FillAt(code, k) && m.status == Running && m.pc == 4 * (k + 9) && ZeroRegister(m.x)
    requires n == m.(pc := if m.x[T2] == 0 then 4 * (k + 10) else 4 * k)
    ensures Run(code, m, 1) == n
  {
    FillLayout(code, k);
    RunOne(code, m, k + 9);
    FillBranch(k, m, n);
  }

  lemma FillIteration(code: seq<Instr>, k: nat, m: Machine, y: Registers)
    requires FillAt(code, k) && m.status == Running && m.pc == 4 * k
    requires AllAlu(BodyCode()) && y == AluRun(BodyCode(), m.x) && ZeroRegister(y)
    ensures Run(code, m, 10) == AfterFill(k, m, y)
  {
    RunBody(code, k, m, y);
    RunBranch(code, k, BeforeBranch(k, m, y), AfterFill(k, m, y));
    RunChain(code, m, 9, BeforeBranch(k, m, y), 1, AfterFill(k, m, y));
  }

  lemma FillBranch(k: nat, m: Machine, n: Machine)
    requires 4 * (k + 10) < WORD && m.pc == 4 * (k + 9) && ZeroRegister(m.x)
    requires n == m.(pc := if m.x[T2] == 0 then 4 * (k + 10) else 4 * k)
    ensures Exec(Bne(T2, ZERO, -36), m) == n
  {
  }

  /** The stores of `count` iterations from address `a` and word `s`. */
  function FillEntries(next: Word -> Word, a: Word, s: Word, count: nat): (e: seq<(Word, Word)>)
    ensures |e| == count
    decreases count
  {
    if count == 0 then [] else [(a, s)] + FillEntries(next, Plus(a, 4), next(s), count - 1)
  }

  lemma {:induction false} FillEntry(next: Word -> Word, a: Word, s: Word, count: nat, i: nat)
    requires i < count && a as int + 4 * count <= WORD
    ensures FillEntries(next, a, s, count)[i] == (a + 4 * i, Stream(next, s, i))
    decreases count
  {
    if i > 0 {
      FillEntry(next, a + 4, next(s), count - 1, i - 1);
    }
  }

  /** At the loop head: address, word and remaining count in t0, t1 and t2. */
  ghost predicate Filling(m: Machine, k: nat, a: Word, s: Word, count: Word) {
    m.status == Running && m.pc == 4 * k && ZeroRegister(m.x) && m.x[T0] == a && m.x[T1] == s && m.x[T2] == count
  }

  /** The loop's result: the stores of the remaining iterations, only the loop registers changed. */
  ghost predicate Filled(m: Machine, n: Machine, k: nat, entries: seq<(Word, Word)>) {
    && n.mem == StoreAll(m.mem, entries) && n.pc as int == 4 * (k + 10) && n.status == Running
    && forall r: Reg | r !in {T0, T1, T2, T3} :: n.x[r] == m.x[r]
  }

  lemma FilledStep(next: Word -> Word, m: Machine, m1: Machine, n: Machine, k: nat, a: Word, s: Word, count: Word)
    requires count > 0 && Advances(next, m.x, m1.x) && m1.mem == StoreWord(m.mem, a, s)
    requires Filled(m1, n, k, FillEntries(next, Plus(a, 4), next(s), count - 1))
    ensures Filled(m, n, k, FillEntries(next, a, s, count))
  {
    var e := FillEntries(next, a, s, count);
    assert e[1..] == FillEntries(next, Plus(a, 4), next(s), count - 1);
  }

  function Repeat(step: Machine -> Machine, m: Machine, count: nat): Machine
    decreases count
  {
    if count == 0 then m else Repeat(step, step(m), count - 1)
  }

  lemma {:induction false} RunRepeats(code: seq<Instr>, step: Machine -> Machine, m: Machine, count: nat)
    requires forall n: Machine :: step(n) == Run(code, n, 10)
    ensures Run(code, m, 10 * count) == Repeat(step, m, count)
    decreases count
  {
    if count > 0 {
      RunAdd(code, m, 10, 10 * (count - 1));
      RunRepeats(code, step, step(m), count - 1);
    }
  }

  /** From the loop head, one iteration does one store and one advance, and stays or leaves. */
  ghost predicate Iterates(next: Word -> Word, k: nat, m: Machine, n: Machine) {
    m.status == Running && m.pc as int == 4 * k && ZeroRegister(m.x) && m.x[T2] > 0 ==>
      && n.mem == StoreWord(m.mem, m.x[T0], m.x[T1]) && Advances(next, m.x, n.x) && n.status == Running
      && n.pc as int == if m.x[T2] == 1 then 4 * (k + 10) else 4 * k
  }

  lemma FillIterates(code: seq<Instr>, k: nat, m: Machine)
    requires FillAt(code, k)
    ensures Iterates(Xorshift, k, m, Run(code, m, 10))
  {
    if m.status == Running && m.pc as int == 4 * k && ZeroRegister(m.x) && m.x[T2] > 0 {
      BodyAdvances(m.x);
      FillIteration(code, k, m, AluRun(BodyCode(), m.x));
    }
  }

  lemma {:induction false} FillLoop(
    next: Word -> Word, step: Machine -> Machine, k: nat, m: Machine, a: Word, s: Word, count: Word)
    requires forall n: Machine :: Iterates(next, k, n, step(n))
    requires Filling(m, k, a, s, count) && count > 0
    ensures Filled(m, Repeat(step, m, count), k, FillEntries(next, a, s, count))
    decreases count as int
  {
    var m1 := step(m);
    var rest: Word := count - 1;
    assert Iterates(next, k, m, m1);
    assert Repeat(step, m, count) == Repeat(step, m1, rest);
    if rest == 0 {
      assert FillEntries(next, Plus(a, 4), next(s), 0) == [];
    } else {
      FillLoop(next, step, k, m1, Plus(a, 4), next(s), rest);
    }
    FilledStep(next, m, m1, Repeat(step, m1, rest), k, a, s, count);
  }

  lemma FillApart(next: Word -> Word, a: Word, s: Word, count: nat)
    requires a as int + 4 * count <= WORD && count <= 0x4000
    ensures AllApart(FillEntries(next, a, s, count))
  {
    var e := FillEntries(next, a, s, count);
    forall i, j | 0 <= i < j < |e|
      ensures Apart(e[j].0, e[i].0)
    {
      FillEntry(next, a, s, count, i);
      FillEntry(next, a, s, count, j);
    }
  }

  lemma FillRuns(code: seq<Instr>, k: nat, m: Machine, seed: Word)
    requires FillAt(code, k) && Filling(m, k, 0x1_0000, seed, 8192)
    ensures Filled(m, Run(code, m, 81920), k, FillEntries(Xorshift, 0x1_0000, seed, 8192))
  {
    var step := (n: Machine) => Run(code, n, 10);
    forall n: Machine
      ensures Iterates(Xorshift, k, n, step(n))
    {
      FillIterates(code, k, n);
    }
    FillLoop(Xorshift, step, k, m, 0x1_0000, seed, 8192);
    RunRepeats(code, step, m, 8192);
  }

  lemma FilledReads(next: Word -> Word, m: Memory, n: Memory, a: Word, seed: Word, count: nat, i: nat)
    requires i < count <= 0x4000 && a as int + 4 * count <= WORD && n == StoreAll(m, FillEntries(next, a, seed, count))
    ensures LoadWord(n, a + 4 * i) == Stream(next, seed, i)
  {
    FillApart(next, a, seed, count);
    FillEntry(next, a, seed, count, i);
    StoreAllReads(m, FillEntries(next, a, seed, count), i);
  }

  lemma {:induction false} StreamInjective(next: Word -> Word, a: Word, b: Word, i: nat)
    requires (forall s: Word, r: Word | next(s) == next(r) :: s == r) && Stream(next, a, i) == Stream(next, b, i)
    ensures a == b
    decreases i
  {
    if i > 0 {
      StreamInjective(next, next(a), next(b), i - 1);
    }
  }

  /** Different seeds give different words at every place of the filled memory. */
  lemma SeedsDiffer(a: Word, b: Word, i: nat)
    requires a != b
    ensures Stream(Xorshift, a, i) != Stream(Xorshift, b, i)
  {
    forall s: Word, r: Word | Xorshift(s) == Xorshift(r)
      ensures s == r
    {
      XorshiftInjective(s, r);
    }
    if Stream(Xorshift, a, i) == Stream(Xorshift, b, i) {
      StreamInjective(Xorshift, a, b, i);
    }
  }

  lemma XorshiftStreamIsNonzero(seed: Word, i: nat)
    requires seed != 0
    ensures Stream(Xorshift, seed, i) != 0
  {
    forall s: Word | s != 0
      ensures Xorshift(s) != 0
    {
      XorshiftKeepsNonzero(s);
    }
    StreamIsNonzero(Xorshift, seed, i);
  }

  /** The preamble's loop: every word of [0x10000, 0x18000) ends up holding its own nonzero element of
      the stream, and only the four loop registers change. */
  lemma FillTerminates(code: seq<Instr>, k: nat, m: Machine, seed: Word)
    requires FillAt(code, k) && Filling(m, k, 0x1_0000, seed, 8192) && seed != 0
    ensures var n := Run(code, m, 81920);
      && n.pc as int == 4 * (k + 10) && n.status == Running
      && (forall r: Reg | r !in {T0, T1, T2, T3} :: n.x[r] == m.x[r])
      && forall i: nat | i < 8192 :: LoadWord(n.mem, 0x1_0000 + 4 * i) == Stream(Xorshift, seed, i) != 0
  {
    FillRuns(code, k, m, seed);
    FilledMemory(m.mem, Run(code, m, 81920).mem, seed);
  }

  lemma FilledMemory(m: Memory, n: Memory, seed: Word)
    requires n == StoreAll(m, FillEntries(Xorshift, 0x1_0000, seed, 8192)) && seed != 0
    ensures forall i: nat | i < 8192 :: LoadWord(n, 0x1_0000 + 4 * i) == Stream(Xorshift, seed, i) != 0
  {
    forall i: nat | i < 8192
      ensures LoadWord(n, 0x1_0000 + 4 * i) == Stream(Xorshift, seed, i) != 0
    {
      FilledWord(m, n, seed, i);
    }
  }

  lemma FilledWord(m: Memory, n: Memory, seed: Word, i: nat)
    requires n == StoreAll(m, FillEntries(Xorshift, 0x1_0000, seed, 8192)) && seed != 0 && i < 8192
    ensures LoadWord(n, 0x1_0000 + 4 * i) == Stream(Xorshift, seed, i) != 0
  {
    FilledReads(Xorshift, m, n, 0x1_0000, seed, 8192, i);
    XorshiftStreamIsNonzero(seed, i);
  }
}
