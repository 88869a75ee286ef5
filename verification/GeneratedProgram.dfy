/** A whole generated program: what its preamble establishes from reset, and where every later trap
    ends, for every body between the preamble and the padding. */
module GeneratedProgram {
  import opened Words
  import opened Rv32
  import opened MemoryRegions
  import opened Sandbox
  import opened SandboxedAccess
  import opened TrapHandler
  import opened XorshiftStep
  import opened GeneratedLoops
  import opened IsgEngine

  // ---------------------------------------------------------------- the preamble's start

  function SeedWord(draw: Word): Word {
    if draw == 0 then 1 else draw
  }

  function VectorCode(): (code: seq<Instr>)
    ensures |code| == 2
  {
    [Addi(T0, ZERO, 4), Csrrw(ZERO, Mtvec, T0)]
  }

  function ArgumentCode(seed: Word): seq<Instr> {
    LiCode(T0, 0x1_0000) + LiCode(T1, seed) + LiCode(T2, 8192)
  }

  function StartCode(seed: Word): seq<Instr> {
    VectorCode() + ArgumentCode(seed)
  }

  method EmitPreambleStart(engine: Engine, draw: Word)
    requires Code(engine.lines) == []
    modifies engine`lines
    ensures Code(engine.lines) == HandlerCode() + StartCode(if draw == 0 then 1 else draw) + FillCode()
  {
    engine.EmitTrapHandler();
    engine.SetupTrapHandler(4);
    EmitArguments(engine, draw);
    Join(HandlerCode(), VectorCode(), ArgumentCode(SeedWord(draw)));
    engine.EmitFillLoop();
  }

  method EmitArguments(engine: Engine, draw: Word)
    modifies engine`lines
    ensures Code(engine.lines) == old(Code(engine.lines)) + ArgumentCode(SeedWord(draw))
  {
    ghost var base := Code(engine.lines);
    var seed := draw;
    if seed == 0 {
      seed := 1;
    }
    engine.EmitLi(T0, 0x1_0000);
    engine.EmitLi(T1, seed);
    Join(base, LiCode(T0, 0x1_0000), LiCode(T1, seed));
    engine.EmitLi(T2, 8192);
    Join(base, LiCode(T0, 0x1_0000) + LiCode(T1, seed), LiCode(T2, 8192));
  }

  function WithArguments(m: Machine, seed: Word): Machine {
    m.(x := m.x[T0 := 0x1_0000][T1 := seed][T2 := 8192])
  }

  lemma ArgumentEffect(seed: Word, m: Machine)
    ensures StraightLine(ArgumentCode(seed)) && Effect(ArgumentCode(seed), m) == WithArguments(m, seed)
  {
    var m1 := m.(x := m.x[T0 := 0x1_0000]);
    var m2 := m1.(x := m1.x[T1 := seed]);
    LiLoads(T0, 0x1_0000, m);
    LiLoads(T1, seed, m1);
    LiLoads(T2, 8192, m2);
    Compose(LiCode(T0, 0x1_0000), LiCode(T1, seed), m, m1, m2);
    Compose(LiCode(T0, 0x1_0000) + LiCode(T1, seed), LiCode(T2, 8192), m, m2, WithArguments(m, seed));
  }

  lemma VectorEffect(m: Machine)
    requires ZeroRegister(m.x)
    ensures StraightLine(VectorCode()) && Effect(VectorCode(), m) == m.(x := m.x[T0 := 4], mtvec := 4)
  {
    Exec2(Addi(T0, ZERO, 4), Csrrw(ZERO, Mtvec, T0), m);
  }

  lemma StartEffect(seed: Word, m: Machine)
    requires ZeroRegister(m.x)
    ensures StraightLine(StartCode(seed)) && Effect(StartCode(seed), m) == WithArguments(m.(mtvec := 4), seed)
  {
    var m1 := m.(x := m.x[T0 := 4], mtvec := 4);
    VectorEffect(m);
    ArgumentEffect(seed, m1);
    assert m.x[T0 := 4][T0 := 0x1_0000] == m.x[T0 := 0x1_0000];
    Compose(VectorCode(), ArgumentCode(seed), m, m1, WithArguments(m.(mtvec := 4), seed));
  }

  /** A program whose preamble was emitted with this seed. */
  ghost predicate HasPreamble(code: seq<Instr>, seed: Word) {
    4 * |code| < WORD && HandlerCode() + StartCode(seed) + FillCode() <= code
  }

  lemma PreambleLayout(code: seq<Instr>, handler: seq<Instr>, start: seq<Instr>, fill: seq<Instr>)
    requires handler + start + fill <= code
    ensures code[..|handler|] == handler && code[|handler|..|handler| + |start|] == start
    ensures |handler| + |start| + |fill| <= |code|
    ensures code[|handler| + |start|..|handler| + |start| + |fill|] == fill
  {
    var whole := handler + start + fill;
    assert code[..|whole|] == whole;
    assert code[..|handler|] == whole[..|handler|];
    assert code[|handler|..|handler| + |start|] == whole[|handler|..|handler| + |start|];
    assert code[|handler| + |start|..|whole|] == whole[|handler| + |start|..|whole|];
  }

  /** From reset, the first jump skips the handler. */
  lemma SkipHandler(code: seq<Instr>, m: Machine)
    requires 28 <= |code| && 4 * |code| < WORD && code[..28] == HandlerCode()
    requires m.pc == 0 && m.status == Running
    ensures Run(code, m, 1) == m.(pc := 4 * 28)
  {
    HandlerLayout();
    assert code[0] == code[..28][0];
    RunOne(code, m, 0);
  }

  function AtFill(m: Machine, seed: Word): Machine
    requires 4 * (28 + |StartCode(seed)|) < WORD
  {
    WithArguments(m.(mtvec := 4, pc := 4 * (28 + |StartCode(seed)|)), seed)
  }

  lemma RunToFill(code: seq<Instr>, m: Machine, seed: Word)
    requires HasPreamble(code, seed) && m.pc == 0 && m.status == Running && ZeroRegister(m.x)
    ensures 4 * (28 + |StartCode(seed)|) < WORD
    ensures Run(code, m, 1 + |StartCode(seed)|) == AtFill(m, seed)
    ensures FillAt(code, 28 + |StartCode(seed)|)
  {
    PreambleLayout(code, HandlerCode(), StartCode(seed), FillCode());
    SkipHandler(code, m);
    StartEffect(seed, m.(pc := 4 * 28));
    RunEffect(code, StartCode(seed), m.(pc := 4 * 28), 28);
    RunChain(code, m, 1, m.(pc := 4 * 28), |StartCode(seed)|, AtFill(m, seed));
  }

  /** What the preamble's first part has established when it is done. */
  ghost predicate Prepared(m: Machine, n: Machine, k: nat, seed: Word) {
    && n.pc as int == 4 * k && n.status == Running
    && (forall r: Reg | r !in {T0, T1, T2, T3} :: n.x[r] == m.x[r])
    && forall i: nat | i < 8192 :: LoadWord(n.mem, 0x1_0000 + 4 * i) == Stream(Xorshift, seed, i) != 0
  }

  lemma FillPrepares(code: seq<Instr>, k: nat, m: Machine, start: Machine, seed: Word)
    requires FillAt(code, k) && Filling(start, k, 0x1_0000, seed, 8192) && seed != 0
    requires forall r: Reg | r !in {T0, T1, T2, T3} :: start.x[r] == m.x[r]
    ensures Prepared(m, Run(code, start, 81920), k + 10, seed)
  {
    FillTerminates(code, k, start, seed);
  }

  lemma AtFillIsFilling(m: Machine, k: nat, n: Machine, seed: Word)
    requires 4 * k < WORD && n == WithArguments(m.(mtvec := 4, pc := 4 * k), seed)
    requires m.status == Running && ZeroRegister(m.x)
    ensures Filling(n, k, 0x1_0000, seed, 8192) && forall r: Reg | r !in {T0, T1, T2, T3} :: n.x[r] == m.x[r]
  {
  }

  /** From reset, every word of [0x10000, 0x18000) is filled with its own nonzero element of the
      generator's stream, and only the four loop registers change. */
  lemma PreambleFillsMemory(code: seq<Instr>, m: Machine, draw: Word, seed: Word)
    requires seed == if draw == 0 then 1 else draw
    requires HasPreamble(code, SeedWord(draw)) && m.pc == 0 && m.status == Running && ZeroRegister(m.x)
    ensures exists steps: nat :: Prepared(m, Run(code, m, steps), 38 + |StartCode(seed)|, seed)
  {
    PreambleRuns(code, m, seed);
  }

  /** The filled memory by itself: the first word is the seed, and each further one is the generator's step of
      the word in front of it. */
  lemma FilledWords(m: Machine, n: Machine, k: nat, seed: Word, i: nat)
    requires Prepared(m, n, k, seed) && i < 8191
    ensures LoadWord(n.mem, 0x1_0000) == seed
    ensures LoadWord(n.mem, 0x1_0000 + 4 * (i + 1)) == Xorshift(LoadWord(n.mem, 0x1_0000 + 4 * i))
  {
    assert LoadWord(n.mem, 0x1_0000 + 4 * 0) == Stream(Xorshift, seed, 0);
    assert LoadWord(n.mem, 0x1_0000 + 4 * i) == Stream(Xorshift, seed, i);
    assert LoadWord(n.mem, 0x1_0000 + 4 * (i + 1)) == Stream(Xorshift, seed, i + 1);
    StreamStep(Xorshift, seed, i);
  }

  lemma PreambleRuns(code: seq<Instr>, m: Machine, seed: Word)
    requires HasPreamble(code, seed) && m.pc == 0 && m.status == Running && ZeroRegister(m.x) && seed != 0
    ensures exists steps: nat :: Prepared(m, Run(code, m, steps), 38 + |StartCode(seed)|, seed)
  {
    RunToFill(code, m, seed);
    FillFollows(code, m, 28 + |StartCode(seed)|, AtFill(m, seed), seed, 1 + |StartCode(seed)|, 81920);
  }

  /** The fill loop runs behind whatever led to it. */
  lemma FillFollows(code: seq<Instr>, m: Machine, k: nat, start: Machine, seed: Word, before: nat, fill: nat)
    requires FillAt(code, k) && Run(code, m, before) == start && fill == 81920 && seed != 0
    requires 4 * k < WORD && start == WithArguments(m.(mtvec := 4, pc := 4 * k), seed) && m.status == Running && ZeroRegister(m.x)
    ensures Prepared(m, Run(code, m, before + fill), k + 10, seed)
  {
    AtFillIsFilling(m, k, start, seed);
    FillPrepares(code, k, m, start, seed);
    RunAdd(code, m, before, fill);
  }

  // ---------------------------------------------------------------- traps of a finished program

  /** The hart's trap entry. */
  function TakeTrap(m: Machine, cause: Word, value: Word): Machine {
    m.(pc := m.mtvec, mepc := m.pc, mcause := cause, mtval := value)
  }

  /** A finished program that starts with the handler. */
  ghost predicate Finished(code: seq<Instr>, body: seq<Instr>) {
    28 <= |body| <= 2047 && body[..28] == HandlerCode() && code == Padded(body)
  }

  lemma FinishedLayout(code: seq<Instr>, body: seq<Instr>)
    requires Finished(code, body)
    ensures |code| == 2048 && code[..28] == HandlerCode() && code[2047] == Mpause
  {
    assert code[..28] == body[..28];
  }

  function Handled(t: Machine): Machine {
    t.(pc := 0x1FFC, mepc := 0x1FFC, mtval := t.mscratch, mem := Logged(t))
  }

  lemma EndOfProgram(code: seq<Instr>, n: Machine)
    requires |code| == 2048 && code[2047] == Mpause && n.pc == 0x1FFC && n.status == Running
    ensures Run(code, n, 1) == n.(status := Stopped)
  {
    RunOne(code, n, 2047);
  }

  lemma TrapReturns(code: seq<Instr>, t: Machine)
    requires |code| == 2048 && code[..28] == HandlerCode()
    requires t.pc == 4 && t.status == Running && ZeroRegister(t.x) && t.mcause != 3
    ensures Run(code, t, 26) == Handled(t)
  {
    HandlerReturns(code, t);
  }

  /** Wherever the program traps, for any cause but a breakpoint, it comes to rest at the final mpause
      with every x register and mscratch as they were at the trap. */
  lemma TrapEndsAtMpause(code: seq<Instr>, body: seq<Instr>, m: Machine, cause: Word, value: Word)
    requires Finished(code, body) && m.mtvec == 4 && m.status == Running && ZeroRegister(m.x) && cause != 3
    ensures var t := TakeTrap(m, cause, value);
      Run(code, t, 27) == Handled(t).(status := Stopped)
  {
    var t := TakeTrap(m, cause, value);
    FinishedLayout(code, body);
    TrapReturns(code, t);
    EndOfProgram(code, Handled(t));
    RunChain(code, t, 26, Handled(t), 1, Handled(t).(status := Stopped));
  }

  /** A body of at most 8188 bytes that falls through its end runs the padding to the same place. */
  lemma PaddingEndsAtMpause(code: seq<Instr>, body: seq<Instr>, m: Machine)
    requires Finished(code, body) && m.status == Running && m.pc == 4 * |body|
    ensures Run(code, m, 2048 - |body|) == m.(pc := 0x1FFC, status := Stopped)
  {
    var n := 2047 - |body|;
    FinishedLayout(code, body);
    NopsDoNothing(n, m);
    assert code[|body|..|body| + n] == Nops(n);
    RunEffect(code, Nops(n), m, |body|);
    EndOfProgram(code, m.(pc := 0x1FFC));
    RunChain(code, m, n, m.(pc := 0x1FFC), 1, m.(pc := 0x1FFC, status := Stopped));
  }

  // ---------------------------------------------------------------- emitted accesses

  /** `block` was emitted behind `before`, and the finished program holds it there. */
  lemma EmittedBlockStays(code: seq<Instr>, body: seq<Instr>, before: seq<Instr>, block: seq<Instr>)
    requires |body| <= 2047 && code == Padded(body) && before + block <= body
    ensures |code| == 2048 && |before| + |block| <= |code| && code[|before|..|before| + |block|] == block
  {
    assert code[..|body|] == body;
    assert code[..|before + block|] == body[..|before + block|] == before + block;
    assert code[|before|..|before| + |block|] == code[..|before + block|][|before|..];
  }

  /** Wherever a finished program comes to a load emitted with sandboxing on, in whatever state: it
      reads one word that the default regions permit, and goes on behind the load with nothing but the
      destination, the scratch registers and the save area changed. */
  lemma EmittedLoadRuns(
    code: seq<Instr>, body: seq<Instr>, before: seq<Instr>, rd: Reg, rs1: Reg, imm: Word, m: Machine)
    requires |body| <= 2047 && code == Padded(body) && before + LoadWith(true, rd, rs1, imm) <= body
    requires m.status == Running && m.pc == 4 * |before| && ZeroRegister(m.x)
    ensures var size, t := |LoadWith(true, rd, rs1, imm)|, Target(m.x, rs1, imm);
      && |before| + size <= 2048
      && Run(code, m, size) == Loaded(rd, rs1, imm, m).(pc := 4 * (|before| + size))
      && Sandboxed(t, 4) && HasPermission(DefaultRegions(), t, 4, READ)
  {
    EmittedBlockStays(code, body, before, LoadWith(true, rd, rs1, imm));
    SandboxedLoadCode(rd, rs1, imm);
    SandboxedLoad(rd, rs1, imm, m);
    RunEffect(code, LoadWith(true, rd, rs1, imm), m, |before|);
  }

  /** The same for a store: the only bytes that change are the stored word's, in a region that permits
      it, and those of the save area. */
  lemma EmittedStoreRuns(
    code: seq<Instr>, body: seq<Instr>, before: seq<Instr>, rs2: Reg, rs1: Reg, imm: Word, m: Machine)
    requires |body| <= 2047 && code == Padded(body) && before + StoreWith(true, rs2, rs1, imm) <= body
    requires m.status == Running && m.pc == 4 * |before| && ZeroRegister(m.x)
    ensures var size, t := |StoreWith(true, rs2, rs1, imm)|, Target(m.x, rs1, imm);
      && |before| + size <= 2048
      && Run(code, m, size) == Stored(rs2, rs1, imm, m).(pc := 4 * (|before| + size))
      && Sandboxed(t, 4) && HasPermission(DefaultRegions(), t, 4, WRITE)
      && forall at: Word :: Offset(Plus(m.x[SP], -16), at) >= 16 && Offset(t, at) >= 4 ==>
           Run(code, m, size).mem[at] == m.mem[at]
  {
    EmittedBlockStays(code, body, before, StoreWith(true, rs2, rs1, imm));
    SandboxedStoreCode(rs2, rs1, imm);
    SandboxedStore(rs2, rs1, imm, m);
    RunEffect(code, StoreWith(true, rs2, rs1, imm), m, |before|);
  }
}
