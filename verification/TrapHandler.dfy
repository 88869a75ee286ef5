/** The trap handler at the start of every generated program: it logs the trap, redirects the return
    to the end of the program and restores what it used. */
module TrapHandler {
  import opened Words
  import opened Rv32
  import opened Sandbox

  const T0: Reg := 5

  // ---------------------------------------------------------------- running blocks of a program

  lemma RunEffect(code: seq<Instr>, block: seq<Instr>, m: Machine, k: nat)
    requires m.status == Running && m.pc == 4 * k && k + |block| <= |code| && 4 * |code| < WORD
    requires StraightLine(block) && code[k..k + |block|] == block
    ensures Run(code, m, |block|) == Effect(block, m).(pc := 4 * (k + |block|))
  {
    forall i | 0 <= i < |block|
      ensures FallsThrough(block[i]) && code[k + i] == block[i]
    {
      assert code[k..k + |block|][i] == code[k + i];
    }
    RunBlock(code, block, m, k);
  }

  lemma RunChain(code: seq<Instr>, m: Machine, a: nat, m1: Machine, b: nat, m2: Machine)
    requires Run(code, m, a) == m1 && Run(code, m1, b) == m2
    ensures Run(code, m, a + b) == m2
  {
    RunAdd(code, m, a, b);
  }

  lemma RunOne(code: seq<Instr>, m: Machine, k: nat)
    requires m.status == Running && m.pc == 4 * k && k < |code| && 4 * |code| < WORD
    ensures Run(code, m, 1) == Exec(code[k], m)
  {
    FetchAt(code, k);
    assert Run(code, m, 1) == Run(code, Step(code, m), 0);
  }

  // ---------------------------------------------------------------- a list of word stores

  function StoreAll(m: Memory, entries: seq<(Word, Word)>): Memory
    decreases |entries|
  {
    if entries == [] then m else StoreAll(StoreWord(m, entries[0].0, entries[0].1), entries[1..])
  }

  ghost predicate AllApart(entries: seq<(Word, Word)>) {
    forall i, j | 0 <= i < j < |entries| :: Apart(entries[j].0, entries[i].0)
  }

  lemma {:induction false} StoreAllKeeps(m: Memory, entries: seq<(Word, Word)>, a: Word)
    requires forall j | 0 <= j < |entries| :: Apart(entries[j].0, a)
    ensures LoadWord(StoreAll(m, entries), a) == LoadWord(m, a)
    decreases |entries|
  {
    if entries != [] {
      LoadAfterOtherStore(m, entries[0].0, a, entries[0].1);
      StoreAllKeeps(StoreWord(m, entries[0].0, entries[0].1), entries[1..], a);
    }
  }

  /** Stores to separate words are all readable afterwards. */
  lemma {:induction false} StoreAllReads(m: Memory, entries: seq<(Word, Word)>, i: nat)
    requires AllApart(entries) && i < |entries|
    ensures LoadWord(StoreAll(m, entries), entries[i].0) == entries[i].1
    decreases |entries|
  {
    var n := StoreWord(m, entries[0].0, entries[0].1);
    if i == 0 {
      LoadAfterStore(m, entries[0].0, entries[0].1);
      StoreAllKeeps(n, entries[1..], entries[0].0);
    } else {
      StoreAllReads(n, entries[1..], i - 1);
    }
  }

  lemma {:induction false} StoreAllFrame(m: Memory, entries: seq<(Word, Word)>, at: Word)
    requires forall j | 0 <= j < |entries| :: Offset(entries[j].0, at) >= 4
    ensures StoreAll(m, entries)[at] == m[at]
    decreases |entries|
  {
    if entries != [] {
      StoreFrame(m, entries[0].0, entries[0].1, at);
      StoreAllFrame(StoreWord(m, entries[0].0, entries[0].1), entries[1..], at);
    }
  }

  lemma {:induction false} StoreAllAppend(m: Memory, a: seq<(Word, Word)>, e: (Word, Word))
    ensures StoreAll(m, a + [e]) == StoreWord(StoreAll(m, a), e.0, e.1)
    decreases |a|
  {
    if a != [] {
      assert (a + [e])[1..] == a[1..] + [e];
      StoreAllAppend(StoreWord(m, a[0].0, a[0].1), a[1..], e);
    }
  }

  // ---------------------------------------------------------------- the handler

  function Prologue(): seq<Instr> {
    [Csrrw(T0, Mscratch, T0), Csrrw(T0, Mtval, T0), Lui(T0, 0x10)] + [Sw(T1, T0, 4), Sw(T2, T0, 8)]
  }

  function LogCsr(c: Csr, offset: Imm12): seq<Instr> {
    [Csrrs(T1, c, ZERO), Sw(T1, T0, offset)]
  }

  function LogCode(): seq<Instr> {
    LogCsr(Mscratch, 0) + LogCsr(Mtval, 20) + LogCsr(Mcause, 12) + LogCsr(Mepc, 16)
  }

  function TestCode(): seq<Instr> {
    [Lw(T1, T0, 12), Addi(T2, ZERO, 3)]
  }

  function RedirectCode(): seq<Instr> {
    [Lui(T1, 0x2), Addi(T1, T1, -4), Csrrw(ZERO, Mepc, T1)]
  }

  function EpilogueCode(): seq<Instr> {
    [Lw(T1, T0, 20), Csrrw(ZERO, Mscratch, T1)] + [Lw(T1, T0, 4), Lw(T2, T0, 8), Lw(T0, T0, 0)]
  }

  /** The first 28 words of every generated program. */
  function HandlerCode(): (code: seq<Instr>)
    ensures |code| == 28
  {
    [Jal(ZERO, 0x70)] + Prologue() + LogCode() + TestCode() + [Beq(T1, T2, 20)] + RedirectCode()
    + [Jal(ZERO, 8), Ebreak] + EpilogueCode() + [Mret]
  }

  /** The trap log: t0, t1, t2, mcause, mepc and mscratch at 0x10000..0x10017. */
  function LogEntries(m: Machine): seq<(Word, Word)> {
    [(0x1_0004, m.x[T1]), (0x1_0008, m.x[T2]), (0x1_0000, m.x[T0]), (0x1_0014, m.mscratch), (0x1_000C, m.mcause),
     (0x1_0010, m.mepc)]
  }

  function Logged(m: Machine): Memory {
    StoreAll(m.mem, LogEntries(m))
  }

  lemma LogApart(m: Machine)
    ensures AllApart(LogEntries(m))
  {
    var e := LogEntries(m);
    forall i, j | 0 <= i < j < |e|
      ensures Apart(e[j].0, e[i].0)
    {
      assert e[i].0 != e[j].0 && (e[i].0 - e[j].0) % 4 == 0;
    }
  }

  lemma LogReads(m: Machine)
    ensures LoadWord(Logged(m), 0x1_0000) == m.x[T0] && LoadWord(Logged(m), 0x1_0004) == m.x[T1]
    ensures LoadWord(Logged(m), 0x1_0008) == m.x[T2] && LoadWord(Logged(m), 0x1_000C) == m.mcause
    ensures LoadWord(Logged(m), 0x1_0010) == m.mepc && LoadWord(Logged(m), 0x1_0014) == m.mscratch
  {
    var e := LogEntries(m);
    LogApart(m);
    StoreAllReads(m.mem, e, 0);
    StoreAllReads(m.mem, e, 1);
    StoreAllReads(m.mem, e, 2);
    StoreAllReads(m.mem, e, 3);
    StoreAllReads(m.mem, e, 4);
    StoreAllReads(m.mem, e, 5);
  }

  /** The log is all that the handler writes. */
  lemma LogFrame(m: Machine, at: Word)
    requires at < 0x1_0000 || 0x1_0018 <= at
    ensures Logged(m)[at] == m.mem[at]
  {
    StoreAllFrame(m.mem, LogEntries(m), at);
  }

  // ---------------------------------------------------------------- section by section

  lemma PrologueEffect(m: Machine)
    requires ZeroRegister(m.x)
    ensures StraightLine(Prologue())
    ensures Effect(Prologue(), m)
            == m.(x := m.x[T0 := 0x1_0000], mscratch := m.x[T0], mtval := m.mscratch,
                  mem := StoreAll(m.mem, LogEntries(m)[..2]))
  {
    var first, second := [Csrrw(T0, Mscratch, T0), Csrrw(T0, Mtval, T0), Lui(T0, 0x10)], [Sw(T1, T0, 4), Sw(T2, T0, 8)];
    var m1 := m.(x := m.x[T0 := 0x1_0000], mscratch := m.x[T0], mtval := m.mscratch);
    PrologueFirst(m);
    PrologueSecond(m1);
    FirstTwoEntries(m);
    Compose(first, second, m, m1, m1.(mem := StoreAll(m.mem, LogEntries(m)[..2])));
  }

  lemma FirstTwoEntries(m: Machine)
    ensures StoreAll(m.mem, LogEntries(m)[..2]) == StoreWord(StoreWord(m.mem, 0x1_0004, m.x[T1]), 0x1_0008, m.x[T2])
  {
    var e := LogEntries(m);
    StoreAllAppend(m.mem, [e[0]], e[1]);
    StoreAllAppend(m.mem, [], e[0]);
    assert e[..2] == [e[0]] + [e[1]] && [e[0]] == [] + [e[0]];
  }

  lemma PrologueFirst(m: Machine)
    ensures Effect([Csrrw(T0, Mscratch, T0), Csrrw(T0, Mtval, T0), Lui(T0, 0x10)], m)
            == m.(x := m.x[T0 := 0x1_0000], mscratch := m.x[T0], mtval := m.mscratch)
  {
    Exec3(Csrrw(T0, Mscratch, T0), Csrrw(T0, Mtval, T0), Lui(T0, 0x10), m);
    assert m.x[T0 := m.mscratch][T0 := m.mtval][T0 := 0x1_0000] == m.x[T0 := 0x1_0000];
  }

  lemma PrologueSecond(m: Machine)
    requires m.x[T0] == 0x1_0000
    ensures Effect([Sw(T1, T0, 4), Sw(T2, T0, 8)], m)
            == m.(mem := StoreWord(StoreWord(m.mem, 0x1_0004, m.x[T1]), 0x1_0008, m.x[T2]))
  {
    Exec2(Sw(T1, T0, 4), Sw(T2, T0, 8), m);
  }

  lemma LogCsrEffect(c: Csr, offset: Imm12, m: Machine)
    requires ZeroRegister(m.x) && m.x[T0] == 0x1_0000 && 0 <= offset
    ensures StraightLine(LogCsr(c, offset))
    ensures Effect(LogCsr(c, offset), m)
            == m.(x := m.x[T1 := ReadCsr(m, c)], mem := StoreWord(m.mem, 0x1_0000 + offset, ReadCsr(m, c)))
  {
    Exec2(Csrrs(T1, c, ZERO), Sw(T1, T0, offset), m);
  }

  /** A state in which the first `k` words of `m`'s log are written. */
  ghost predicate Logging(m: Machine, n: Machine, k: nat)
    requires k <= 6
  {
    && ZeroRegister(n.x) && n.x[T0] == 0x1_0000 && n.mem == StoreAll(m.mem, LogEntries(m)[..k])
    && n.mscratch == m.x[T0] && n.mtval == m.mscratch && n.mcause == m.mcause && n.mepc == m.mepc
  }

  function LogNext(m: Machine, n: Machine, k: nat): Machine
    requires k < 6
  {
    n.(x := n.x[T1 := LogEntries(m)[k].1], mem := StoreAll(m.mem, LogEntries(m)[..k + 1]))
  }

  lemma LogEffect(m: Machine, n: Machine)
    requires Logging(m, n, 2)
    ensures StraightLine(LogCode())
    ensures Effect(LogCode(), n) == n.(x := n.x[T1 := m.mepc], mem := Logged(m))
  {
    var m1 := LogNext(m, n, 2);
    var m2 := LogNext(m, m1, 3);
    var m3 := LogNext(m, m2, 4);
    LogStep(Mscratch, 0, n, m, 2);
    LogStep(Mtval, 20, m1, m, 3);
    LogStep(Mcause, 12, m2, m, 4);
    LogStep(Mepc, 16, m3, m, 5);
    Compose(LogCsr(Mscratch, 0), LogCsr(Mtval, 20), n, m1, m2);
    Compose(LogCsr(Mscratch, 0) + LogCsr(Mtval, 20), LogCsr(Mcause, 12), n, m2, m3);
    Compose(LogCsr(Mscratch, 0) + LogCsr(Mtval, 20) + LogCsr(Mcause, 12), LogCsr(Mepc, 16), n, m3, LogNext(m, m3, 5));
    LogDone(m, n);
  }

  lemma LogDone(m: Machine, n: Machine)
    ensures LogNext(m, LogNext(m, LogNext(m, LogNext(m, n, 2), 3), 4), 5) == n.(x := n.x[T1 := m.mepc], mem := Logged(m))
  {
    assert LogEntries(m)[..6] == LogEntries(m);
    Overwritten(n.x, m.x[T0], m.mscratch);
    Overwritten(n.x, m.mscratch, m.mcause);
    Overwritten(n.x, m.mcause, m.mepc);
  }

  lemma Overwritten(x: Registers, v: Word, w: Word)
    ensures x[T1 := v][T1 := w] == x[T1 := w]
  {
  }

  lemma LogStep(c: Csr, offset: Imm12, n: Machine, m: Machine, k: nat)
    requires 2 <= k < 6 && Logging(m, n, k) && 0 <= offset
    requires LogEntries(m)[k] == (0x1_0000 + offset, ReadCsr(n, c))
    ensures StraightLine(LogCsr(c, offset)) && Effect(LogCsr(c, offset), n) == LogNext(m, n, k)
    ensures Logging(m, LogNext(m, n, k), k + 1)
  {
    var e := LogEntries(m);
    LogCsrEffect(c, offset, n);
    StoreAllAppend(m.mem, e[..k], e[k]);
    assert e[..k + 1] == e[..k] + [e[k]];
  }

  lemma TestEffect(n: Machine, cause: Word)
    requires ZeroRegister(n.x) && n.x[T0] == 0x1_0000 && LoadWord(n.mem, 0x1_000C) == cause
    ensures StraightLine(TestCode())
    ensures Effect(TestCode(), n) == n.(x := n.x[T1 := cause][T2 := 3])
  {
    Exec2(Lw(T1, T0, 12), Addi(T2, ZERO, 3), n);
  }

  lemma RedirectEffect(n: Machine)
    requires ZeroRegister(n.x)
    ensures StraightLine(RedirectCode())
    ensures Effect(RedirectCode(), n) == n.(x := n.x[T1 := 0x1FFC], mepc := 0x1FFC)
  {
    Exec3(Lui(T1, 0x2), Addi(T1, T1, -4), Csrrw(ZERO, Mepc, T1), n);
    assert n.x[T1 := 0x2000][T1 := 0x1FFC] == n.x[T1 := 0x1FFC];
  }

  lemma ScratchReload(n: Machine, v: Word)
    requires n.x[T0] == 0x1_0000 && LoadWord(n.mem, 0x1_0014) == v
    ensures StraightLine([Lw(T1, T0, 20), Csrrw(ZERO, Mscratch, T1)])
    ensures Effect([Lw(T1, T0, 20), Csrrw(ZERO, Mscratch, T1)], n) == n.(x := n.x[T1 := v], mscratch := v)
  {
    LoadFromLog(n, T1, 20, v);
    Exec2(Lw(T1, T0, 20), Csrrw(ZERO, Mscratch, T1), n);
  }

  lemma EpilogueEffect(n: Machine, v: Word, a: Word, b: Word, c: Word)
    requires n.x[T0] == 0x1_0000 && LoadWord(n.mem, 0x1_0014) == v && LoadWord(n.mem, 0x1_0004) == a
    requires LoadWord(n.mem, 0x1_0008) == b && LoadWord(n.mem, 0x1_0000) == c
    ensures StraightLine(EpilogueCode())
    ensures Effect(EpilogueCode(), n) == n.(x := n.x[T1 := a][T2 := b][T0 := c], mscratch := v)
  {
    var first, second := [Lw(T1, T0, 20), Csrrw(ZERO, Mscratch, T1)], [Lw(T1, T0, 4), Lw(T2, T0, 8), Lw(T0, T0, 0)];
    var n1 := n.(x := n.x[T1 := v], mscratch := v);
    ScratchReload(n, v);
    Reload(n1, a, b, c);
    Overwritten(n.x, v, a);
    Compose(first, second, n, n1, n.(x := n.x[T1 := a][T2 := b][T0 := c], mscratch := v));
  }

  lemma LoadFromLog(n: Machine, rd: Reg, offset: Imm12, v: Word)
    requires rd != 0 && n.x[T0] == 0x1_0000 && offset >= 0 && LoadWord(n.mem, 0x1_0000 + offset) == v
    ensures Exec(Lw(rd, T0, offset), n) == n.(pc := Plus(n.pc, 4), x := n.x[rd := v])
  {
  }

  lemma Reload(n: Machine, a: Word, b: Word, c: Word)
    requires n.x[T0] == 0x1_0000
    requires LoadWord(n.mem, 0x1_0004) == a && LoadWord(n.mem, 0x1_0008) == b && LoadWord(n.mem, 0x1_0000) == c
    ensures Effect([Lw(T1, T0, 4), Lw(T2, T0, 8), Lw(T0, T0, 0)], n) == n.(x := n.x[T1 := a][T2 := b][T0 := c])
  {
    var n1 := n.(pc := Plus(n.pc, 4), x := n.x[T1 := a]);
    var n2 := n.(pc := Plus(n1.pc, 4), x := n1.x[T2 := b]);
    LoadFromLog(n, T1, 4, a);
    LoadFromLog(n1, T2, 8, b);
    LoadFromLog(n2, T0, 0, c);
    Exec3(Lw(T1, T0, 4), Lw(T2, T0, 8), Lw(T0, T0, 0), n);
  }

  // ---------------------------------------------------------------- running the handler

  lemma HandlerLayout()
    ensures HandlerCode()[0] == Jal(ZERO, 0x70)
    ensures HandlerCode()[1..6] == Prologue() && HandlerCode()[6..14] == LogCode() && HandlerCode()[14..16] == TestCode()
    ensures HandlerCode()[16] == Beq(T1, T2, 20) && HandlerCode()[17..20] == RedirectCode()
    ensures HandlerCode()[20] == Jal(ZERO, 8) && HandlerCode()[21] == Ebreak
    ensures HandlerCode()[22..27] == EpilogueCode() && HandlerCode()[27] == Mret
  {
  }

  lemma BlockAt(code: seq<Instr>, k: nat, n: nat)
    requires k + n <= 28 <= |code| && code[..28] == HandlerCode()
    ensures code[k..k + n] == HandlerCode()[k..k + n]
  {
    assert code[..28][k..k + n] == code[k..k + n];
  }

  /** A program that starts with the handler, entered at the handler by a trap. */
  ghost predicate Trapped(code: seq<Instr>, m: Machine) {
    && 28 <= |code| && 4 * |code| < WORD && code[..28] == HandlerCode()
    && m.pc == 4 && m.status == Running && ZeroRegister(m.x)
  }

  /** The state after the log is written, at the cause test. */
  function AfterLog(m: Machine): Machine {
    m.(pc := 0x40, x := m.x[T0 := 0x1_0000][T1 := m.mcause][T2 := 3], mscratch := m.x[T0], mtval := m.mscratch,
       mem := Logged(m))
  }

  function AfterPrologue(m: Machine): Machine {
    m.(pc := 0x18, x := m.x[T0 := 0x1_0000], mscratch := m.x[T0], mtval := m.mscratch,
       mem := StoreAll(m.mem, LogEntries(m)[..2]))
  }

  function AfterStores(m: Machine): Machine {
    AfterPrologue(m).(pc := 0x38, x := m.x[T0 := 0x1_0000][T1 := m.mepc], mem := Logged(m))
  }

  lemma RunPrologue(code: seq<Instr>, m: Machine)
    requires Trapped(code, m)
    ensures Run(code, m, 5) == AfterPrologue(m)
  {
    HandlerLayout();
    BlockAt(code, 1, 5);
    PrologueEffect(m);
    RunEffect(code, Prologue(), m, 1);
  }

  lemma RunStores(code: seq<Instr>, m: Machine)
    requires Trapped(code, m)
    ensures Run(code, AfterPrologue(m), 8) == AfterStores(m)
  {
    HandlerLayout();
    BlockAt(code, 6, 8);
    LogEffect(m, AfterPrologue(m));
    RunEffect(code, LogCode(), AfterPrologue(m), 6);
  }

  lemma RunTest(code: seq<Instr>, m: Machine)
    requires Trapped(code, m)
    ensures Run(code, AfterStores(m), 2) == AfterLog(m)
  {
    HandlerLayout();
    BlockAt(code, 14, 2);
    LogReads(m);
    TestEffect(AfterStores(m), m.mcause);
    RunEffect(code, TestCode(), AfterStores(m), 14);
    Overwritten(m.x[T0 := 0x1_0000], m.mepc, m.mcause);
  }

  lemma RunToTest(code: seq<Instr>, m: Machine)
    requires Trapped(code, m)
    ensures Run(code, m, 15) == AfterLog(m)
  {
    RunPrologue(code, m);
    RunStores(code, m);
    RunTest(code, m);
    RunChain(code, m, 5, AfterPrologue(m), 8, AfterStores(m));
    RunChain(code, m, 13, AfterStores(m), 2, AfterLog(m));
  }

  function AfterRedirect(m: Machine): Machine {
    AfterLog(m).(pc := 0x50, x := m.x[T0 := 0x1_0000][T1 := 0x1FFC][T2 := 3], mepc := 0x1FFC)
  }

  function AfterRestore(m: Machine): Machine {
    m.(pc := 0x6C, mepc := 0x1FFC, mtval := m.mscratch, mem := Logged(m))
  }

  lemma RunBranch(code: seq<Instr>, m: Machine)
    requires Trapped(code, m) && m.mcause != 3
    ensures Run(code, AfterLog(m), 1) == AfterLog(m).(pc := 0x44)
  {
    HandlerLayout();
    assert code[16] == HandlerCode()[16];
    RunOne(code, AfterLog(m), 16);
  }

  lemma RunRedirect(code: seq<Instr>, m: Machine)
    requires Trapped(code, m)
    ensures Run(code, AfterLog(m).(pc := 0x44), 3) == AfterRedirect(m)
  {
    HandlerLayout();
    BlockAt(code, 17, 3);
    RedirectFrom(m);
    RunEffect(code, RedirectCode(), AfterLog(m).(pc := 0x44), 17);
  }

  lemma RedirectFrom(m: Machine)
    requires ZeroRegister(m.x)
    ensures StraightLine(RedirectCode()) && Effect(RedirectCode(), AfterLog(m).(pc := 0x44)) == AfterRedirect(m).(pc := 0x44)
  {
    RedirectEffect(AfterLog(m).(pc := 0x44));
    assert m.x[T0 := 0x1_0000][T1 := m.mcause][T2 := 3][T1 := 0x1FFC] == m.x[T0 := 0x1_0000][T1 := 0x1FFC][T2 := 3];
  }

  lemma RunJump(code: seq<Instr>, m: Machine)
    requires Trapped(code, m)
    ensures Run(code, AfterRedirect(m), 1) == AfterRedirect(m).(pc := 0x58)
  {
    HandlerLayout();
    assert code[20] == HandlerCode()[20];
    RunOne(code, AfterRedirect(m), 20);
  }

  lemma RestoreFrom(m: Machine)
    ensures StraightLine(EpilogueCode())
    ensures Effect(EpilogueCode(), AfterRedirect(m).(pc := 0x58)) == AfterRestore(m).(pc := 0x58)
  {
    LogReads(m);
    EpilogueEffect(AfterRedirect(m).(pc := 0x58), m.mscratch, m.x[T1], m.x[T2], m.x[T0]);
    Restored(m.x);
  }

  lemma RunRestore(code: seq<Instr>, m: Machine)
    requires Trapped(code, m)
    ensures Run(code, AfterRedirect(m).(pc := 0x58), 5) == AfterRestore(m)
  {
    HandlerLayout();
    BlockAt(code, 22, 5);
    RestoreFrom(m);
    RunEffect(code, EpilogueCode(), AfterRedirect(m).(pc := 0x58), 22);
  }

  lemma RunReturn(code: seq<Instr>, m: Machine)
    requires Trapped(code, m)
    ensures Run(code, AfterRestore(m), 1) == AfterRestore(m).(pc := 0x1FFC)
  {
    HandlerLayout();
    assert code[27] == HandlerCode()[27];
    RunOne(code, AfterRestore(m), 27);
  }

  /** Every trap but a breakpoint: registers and mscratch are as before, the log is written, and the
      program continues at 0x1FFC. (mtval holds the saved mscratch.) */
  lemma HandlerReturns(code: seq<Instr>, m: Machine)
    requires Trapped(code, m) && m.mcause != 3
    ensures Run(code, m, 26) == m.(pc := 0x1FFC, mepc := 0x1FFC, mtval := m.mscratch, mem := Logged(m))
  {
    RunToTest(code, m);
    RunBranch(code, m);
    RunRedirect(code, m);
    RunJump(code, m);
    RunRestore(code, m);
    RunReturn(code, m);
    RunChain(code, m, 15, AfterLog(m), 1, AfterLog(m).(pc := 0x44));
    RunChain(code, m, 16, AfterLog(m).(pc := 0x44), 3, AfterRedirect(m));
    RunChain(code, m, 19, AfterRedirect(m), 1, AfterRedirect(m).(pc := 0x58));
    RunChain(code, m, 20, AfterRedirect(m).(pc := 0x58), 5, AfterRestore(m));
    RunChain(code, m, 25, AfterRestore(m), 1, AfterRestore(m).(pc := 0x1FFC));
  }

  lemma Restored(x: Registers)
    ensures x[T0 := 0x1_0000][T1 := 0x1FFC][T2 := 3][T1 := x[T1]][T2 := x[T2]][T0 := x[T0]] == x
  {
  }

  /** A breakpoint stops at the handler's own ebreak, with the log written. */
  lemma HandlerStopsOnBreakpoint(code: seq<Instr>, m: Machine)
    requires Trapped(code, m) && m.mcause == 3
    ensures Run(code, m, 17) == AfterLog(m).(pc := 0x54, status := Stopped)
  {
    HandlerLayout();
    assert code[16] == HandlerCode()[16] && code[21] == HandlerCode()[21];
    RunToTest(code, m);
    var m0 := AfterLog(m);
    RunOne(code, m0, 16);
    RunOne(code, m0.(pc := 0x54), 21);
    RunAdd(code, m, 15, 1);
    RunAdd(code, m, 16, 1);
  }
}
