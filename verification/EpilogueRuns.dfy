/** What the finalized binary does when it runs into its epilogue, for every binary, every recorded
    final state and every machine state at the end of the program proper. */
module EpilogueRuns {
  import opened Words
  import opened Digits
  import opened Rv32
  import opened Sandbox
  import opened TrapHandler
  import opened Encodings
  import opened Epilogue

  // ---------------------------------------------------------------- one block

  /** The register a check compares holds its golden value. */
  predicate Matches(m: Machine, c: Check) {
    match c
    case XCheck(r, g) => m.x[r] == g
    case FCheck(r, g) => m.f[r] == g
    case VCheck(r, g) => m.v[r] == g
  }

  /** The scratch registers are not checked themselves. */
  predicate Checkable(c: Check) {
    c.XCheck? ==> c.reg < 30
  }

  predicate AllCheckable(cs: seq<Check>) {
    forall i | 0 <= i < |cs| :: Checkable(cs[i])
  }

  function Golden(rd: Reg, g: Word): seq<Instr> {
    [Lui(rd, Upper(g)), Addi(rd, rd, Lower(g))]
  }

  /** The upper and lower parts rebuild every golden value. */
  lemma GoldenRebuilt(rd: Reg, g: Word, m: Machine)
    requires rd != 0
    ensures StraightLine(Golden(rd, g)) && Effect(Golden(rd, g), m) == m.(x := m.x[rd := g])
  {
    UpperLower(g);
    Exec2(Lui(rd, Upper(g)), Addi(rd, rd, Lower(g)), m);
  }

  /** The part of a block in front of its branch. */
  function Front(c: Check): (code: seq<Instr>)
    ensures |code| == |Block(c)| - 2
  {
    match c
    case XCheck(r, g) => Golden(X31, g)
    case FCheck(r, g) => [FmvXW(X31, r)] + Golden(X30, g)
    case VCheck(r, g) => [VmvXS(X31, r)] + Golden(X30, g)
  }

  function Branch(c: Check): Instr {
    if c.XCheck? then Beq(c.reg, X31, 8) else Beq(X31, X30, 8)
  }

  lemma BlockParts(c: Check)
    ensures Block(c) == Front(c) + [Branch(c), Ebreak]
  {
  }

  /** The state at a block's branch. */
  function AtBranch(m: Machine, c: Check): Machine {
    match c
    case XCheck(r, g) => m.(x := m.x[X31 := g])
    case FCheck(r, g) => m.(x := m.x[X31 := m.f[r]][X30 := g])
    case VCheck(r, g) => m.(x := m.x[X31 := m.v[r]][X30 := g])
  }

  lemma FrontEffect(m: Machine, c: Check)
    ensures StraightLine(Front(c)) && Effect(Front(c), m) == AtBranch(m, c)
  {
    match c
    case XCheck(r, g) => GoldenRebuilt(X31, g, m);
    case FCheck(r, g) =>
      var m1 := m.(x := m.x[X31 := m.f[r]]);
      Exec1(FmvXW(X31, r), m);
      GoldenRebuilt(X30, g, m1);
      Compose([FmvXW(X31, r)], Golden(X30, g), m, m1, AtBranch(m, c));
    case VCheck(r, g) =>
      var m1 := m.(x := m.x[X31 := m.v[r]]);
      Exec1(VmvXS(X31, r), m);
      GoldenRebuilt(X30, g, m1);
      Compose([VmvXS(X31, r)], Golden(X30, g), m, m1, AtBranch(m, c));
  }

  lemma BranchTaken(m: Machine, c: Check, pc: Word)
    requires Checkable(c) && pc as int + 8 < WORD
    ensures Exec(Branch(c), AtBranch(m, c).(pc := pc)) == AtBranch(m, c).(pc := if Matches(m, c) then pc + 8 else pc + 4)
  {
  }

  /** `block` sits at word `k` of the program. */
  ghost predicate At(code: seq<Instr>, k: nat, block: seq<Instr>) {
    k + |block| <= |code| && 4 * |code| < WORD && code[k..k + |block|] == block
  }

  lemma AtParts(code: seq<Instr>, k: nat, a: seq<Instr>, b: seq<Instr>)
    requires At(code, k, a + b)
    ensures At(code, k, a) && At(code, k + |a|, b)
  {
    assert code[k..k + |a|] == (a + b)[..|a|];
    assert code[k + |a|..k + |a| + |b|] == (a + b)[|a|..];
  }

  lemma RunPart(code: seq<Instr>, k: nat, m: Machine, front: seq<Instr>, branch: Instr, p: Machine)
    requires At(code, k, front + [branch, Ebreak]) && m.status == Running && m.pc == 4 * k
    requires StraightLine(front) && Effect(front, m) == p
    ensures Run(code, m, |front|) == p.(pc := 4 * (k + |front|))
    ensures code[k + |front|] == branch && code[k + |front| + 1] == Ebreak
  {
    AtParts(code, k, front, [branch, Ebreak]);
    RunEffect(code, front, m, k);
    var tail := code[k + |front|..k + |front| + 2];
    assert tail[0] == code[k + |front|] && tail[1] == code[k + |front| + 1];
  }

  function Stop(m: Machine): Machine {
    m.(status := Stopped)
  }

  lemma RunThenStep(code: seq<Instr>, m: Machine, f: nat, n: Machine, p: Machine)
    requires Run(code, m, f) == n && Step(code, n) == p
    ensures Run(code, m, f + 1) == p
  {
    RunAdd(code, m, f, 1);
    assert Run(code, n, 1) == Run(code, Step(code, n), 0);
  }

  lemma BreakStops(code: seq<Instr>, j: nat, m: Machine)
    requires 4 * |code| < WORD && j < |code| && code[j] == Ebreak && m.status == Running && m.pc == 4 * j
    ensures Step(code, m) == Stop(m)
  {
    StepAt(code, m, j);
  }

  /** From the branch on: over the ebreak to word `end`, or into it. */
  lemma Guarded(code: seq<Instr>, m: Machine, p: Machine, f: nat, passes: bool, end: nat, n: Machine)
    requires 4 * |code| < WORD && 2 <= end <= |code| && code[end - 1] == Ebreak && p.status == Running
    requires Run(code, m, f) == n && Step(code, n) == p.(pc := if passes then 4 * end else 4 * (end - 1))
    ensures passes ==> Run(code, m, f + 1) == p.(pc := 4 * end)
    ensures !passes ==> Run(code, m, f + 2) == Stop(p.(pc := 4 * (end - 1)))
  {
    var q := p.(pc := if passes then 4 * end else 4 * (end - 1));
    RunThenStep(code, m, f, n, q);
    if !passes {
      BreakStops(code, end - 1, q);
      RunThenStep(code, m, f + 1, q, Stop(q));
    }
  }

  /** Straight-line code, a branch over one ebreak, and the ebreak. */
  lemma PartRuns(
    code: seq<Instr>, k: nat, m: Machine, front: seq<Instr>, branch: Instr, p: Machine, passes: bool, end: nat, f: nat)
    requires At(code, k, front + [branch, Ebreak]) && m.status == Running && m.pc == 4 * k
    requires StraightLine(front) && Effect(front, m) == p && p.status == Running
    requires f == |front| && end == k + f + 2 && 4 * end < WORD
    requires Exec(branch, p.(pc := 4 * (end - 2))) == p.(pc := if passes then 4 * end else 4 * (end - 1))
    ensures passes ==> Run(code, m, f + 1) == p.(pc := 4 * end)
    ensures !passes ==> Run(code, m, f + 2) == Stop(p.(pc := 4 * (end - 1)))
  {
    RunPart(code, k, m, front, branch, p);
    StepAt(code, p.(pc := 4 * (end - 2)), end - 2);
    Guarded(code, m, p, f, passes, end, p.(pc := 4 * (end - 2)));
  }

  /** A matching block falls out behind itself; any other stops at its ebreak. */
  lemma BlockRuns(code: seq<Instr>, k: nat, m: Machine, c: Check)
    requires At(code, k, Block(c)) && m.status == Running && m.pc == 4 * k && Checkable(c)
    ensures Matches(m, c) ==> Run(code, m, |Block(c)| - 1) == AtBranch(m, c).(pc := 4 * (k + |Block(c)|))
    ensures !Matches(m, c) ==> Run(code, m, |Block(c)|) == Stop(AtBranch(m, c).(pc := 4 * (k + |Block(c)| - 1)))
  {
    var size := |Block(c)|;
    BlockParts(c);
    FrontEffect(m, c);
    BranchTaken(m, c, 4 * (k + size - 2));
    PartRuns(code, k, m, Front(c), Branch(c), AtBranch(m, c), Matches(m, c), k + size, size - 2);
  }

  // ---------------------------------------------------------------- all blocks

  /** The first check that does not match, or the number of checks. */
  function FirstMismatch(m: Machine, cs: seq<Check>): (i: nat)
    ensures i <= |cs|
    ensures forall j | 0 <= j < i :: Matches(m, cs[j])
    ensures i < |cs| ==> !Matches(m, cs[i])
    decreases |cs|
  {
    if cs == [] || !Matches(m, cs[0]) then 0 else 1 + FirstMismatch(m, cs[1..])
  }

  /** Nothing but the two scratch registers, the pc and the status differs. */
  ghost predicate OnlyScratch(m: Machine, n: Machine) {
    && n == m.(x := n.x, pc := n.pc, status := n.status)
    && forall r: Reg | r < 30 :: n.x[r] == m.x[r]
  }

  /** Where the checks come to an end. */
  function EndOfChecks(m: Machine, k: nat, cs: seq<Check>): nat {
    var i := FirstMismatch(m, cs);
    if i == |cs| then k + |Code(cs)| else k + |Code(cs[..i])| + |Block(cs[i])| - 1
  }

  ghost predicate Outcome(m: Machine, n: Machine, k: nat, cs: seq<Check>) {
    && OnlyScratch(m, n) && n.pc as int == 4 * EndOfChecks(m, k, cs)
    && n.status == if FirstMismatch(m, cs) == |cs| then Running else Stopped
  }

  lemma {:induction false} MismatchStable(m: Machine, n: Machine, cs: seq<Check>)
    requires OnlyScratch(m, n) && AllCheckable(cs)
    ensures FirstMismatch(n, cs) == FirstMismatch(m, cs)
    decreases |cs|
  {
    if cs != [] {
      assert Checkable(cs[0]);
      MismatchStable(m, n, cs[1..]);
    }
  }

  lemma PrefixStep(cs: seq<Check>, i: nat)
    requires i < |cs|
    ensures Code(cs[..i + 1]) == Block(cs[0]) + Code(cs[1..][..i])
  {
    assert cs[..i + 1] == [cs[0]] + cs[1..][..i];
    assert ([cs[0]] + cs[1..][..i])[1..] == cs[1..][..i];
  }

  lemma {:induction false} EndStep(m: Machine, n: Machine, k: nat, cs: seq<Check>)
    requires cs != [] && OnlyScratch(m, n) && AllCheckable(cs) && Matches(m, cs[0])
    ensures FirstMismatch(m, cs) == 1 + FirstMismatch(n, cs[1..])
    ensures EndOfChecks(m, k, cs) == EndOfChecks(n, k + |Block(cs[0])|, cs[1..])
  {
    MismatchStable(m, n, cs[1..]);
    PrefixStep(cs, FirstMismatch(m, cs[1..]));
  }

  lemma ScratchOf(m: Machine, c: Check)
    ensures OnlyScratch(m, AtBranch(m, c))
  {
  }

  lemma OutcomeEmpty(m: Machine, k: nat)
    requires m.status == Running && m.pc as int == 4 * k
    ensures Outcome(m, m, k, [])
  {
  }

  lemma {:induction false} OutcomeStep(m: Machine, n: Machine, p: Machine, k: nat, cs: seq<Check>)
    requires cs != [] && OnlyScratch(m, n) && AllCheckable(cs) && Matches(m, cs[0])
    requires Outcome(n, p, k + |Block(cs[0])|, cs[1..])
    ensures Outcome(m, p, k, cs)
  {
    EndStep(m, n, k, cs);
  }

  lemma OutcomeStop(m: Machine, n: Machine, k: nat, cs: seq<Check>)
    requires cs != [] && OnlyScratch(m, n) && !Matches(m, cs[0])
    requires n.pc as int == 4 * (k + |Block(cs[0])| - 1) && n.status == Stopped
    ensures Outcome(m, n, k, cs)
  {
    assert FirstMismatch(m, cs) == 0;
    assert cs[..0] == [];
  }

  /** Entered at word `k` with `block` there. */
  ghost predicate Entered(code: seq<Instr>, k: nat, m: Machine, block: seq<Instr>) {
    At(code, k, block) && m.status == Running && m.pc as int == 4 * k
  }

  ghost predicate Reaches(code: seq<Instr>, m: Machine, n: Machine) {
    exists steps: nat :: Run(code, m, steps) == n
  }

  lemma ReachesIn(code: seq<Instr>, m: Machine, steps: nat, n: Machine)
    requires Run(code, m, steps) == n
    ensures Reaches(code, m, n)
  {
  }

  lemma ReachesOn(code: seq<Instr>, m: Machine, n: Machine, p: Machine)
    requires Reaches(code, m, n) && Reaches(code, n, p)
    ensures Reaches(code, m, p)
  {
    var i: nat :| Run(code, m, i) == n;
    var j: nat :| Run(code, n, j) == p;
    RunChain(code, m, i, n, j, p);
    ReachesIn(code, m, i + j, p);
  }

  lemma {:induction false} PassCase(code: seq<Instr>, k: nat, m: Machine, cs: seq<Check>) returns (n: Machine)
    requires cs != [] && Entered(code, k, m, Code(cs)) && Checkable(cs[0]) && Matches(m, cs[0])
    ensures Reaches(code, m, n) && OnlyScratch(m, n)
    ensures Entered(code, k + |Block(cs[0])|, n, Code(cs[1..]))
  {
    CodeUnfolds(cs);
    n := PassBlock(code, k, m, cs[0], Code(cs[1..]));
  }

  lemma CodeUnfolds(cs: seq<Check>)
    requires cs != []
    ensures Code(cs) == Block(cs[0]) + Code(cs[1..])
  {
  }

  lemma PassBlock(code: seq<Instr>, k: nat, m: Machine, c: Check, rest: seq<Instr>) returns (n: Machine)
    requires Entered(code, k, m, Block(c) + rest) && Checkable(c) && Matches(m, c)
    ensures Reaches(code, m, n) && OnlyScratch(m, n) && Entered(code, k + |Block(c)|, n, rest)
  {
    AtParts(code, k, Block(c), rest);
    BlockRuns(code, k, m, c);
    ScratchOf(m, c);
    n := AtBranch(m, c).(pc := 4 * (k + |Block(c)|));
    ReachesIn(code, m, |Block(c)| - 1, n);
  }

  lemma {:induction false} StopCase(code: seq<Instr>, k: nat, m: Machine, cs: seq<Check>) returns (n: Machine)
    requires cs != [] && Entered(code, k, m, Code(cs)) && Checkable(cs[0]) && !Matches(m, cs[0])
    ensures Reaches(code, m, n) && Outcome(m, n, k, cs)
  {
    AtParts(code, k, Block(cs[0]), Code(cs[1..]));
    BlockRuns(code, k, m, cs[0]);
    ScratchOf(m, cs[0]);
    n := Stop(AtBranch(m, cs[0]).(pc := 4 * (k + |Block(cs[0])| - 1)));
    ReachesIn(code, m, |Block(cs[0])|, n);
    OutcomeStop(m, n, k, cs);
  }

  /** Running the blocks ends behind them when every register matches, and at the ebreak of the first
      mismatching block otherwise; only x30 and x31 are clobbered. */
  lemma {:induction false} BlocksRun(code: seq<Instr>, k: nat, m: Machine, cs: seq<Check>) returns (p: Machine)
    requires Entered(code, k, m, Code(cs)) && AllCheckable(cs)
    ensures Reaches(code, m, p) && Outcome(m, p, k, cs)
    decreases |cs|
  {
    if cs == [] {
      p := m;
      ReachesIn(code, m, 0, m);
      OutcomeEmpty(m, k);
    } else {
      assert Checkable(cs[0]);
      if Matches(m, cs[0]) {
        var n := PassCase(code, k, m, cs);
        p := BlocksRun(code, k + |Block(cs[0])|, n, cs[1..]);
        ReachesOn(code, m, n, p);
        OutcomeStep(m, n, p, k, cs);
      } else {
        p := StopCase(code, k, m, cs);
      }
    }
  }

  // ---------------------------------------------------------------- the finalized binary

  function Program(bin: seq<Byte>): (code: seq<Instr>)
    ensures |code| == |bin| / 4
  {
    seq(|bin| / 4, k requires 0 <= k < |bin| / 4 => Decode(ReadWord(bin, 4 * k)))
  }

  lemma {:induction false} NopStartAligned(bin: seq<Byte>, end: nat)
    requires end <= |bin| && end % 4 == 0
    ensures NopStart(bin, end) % 4 == 0
    decreases end
  {
    if end >= 4 {
      NopStartAligned(bin, end - 4);
    }
  }

  /** Only padding is overwritten: every word from the padding's start on was nop or mpause, and the
      word in front of it was not. */
  lemma {:induction false} NopStartIsPadding(bin: seq<Byte>, end: nat, j: nat)
    requires end <= |bin| && 0 < j && NopStart(bin, end) + 4 * j <= end
    ensures IsPadding(ReadWord(bin, end - 4 * j))
    ensures var start := NopStart(bin, end);
      start >= 4 ==> !IsPadding(ReadWord(bin, start - 4))
    decreases end
  {
    if j == 1 {
      NopStartStops(bin, end);
    } else {
      NopStartIsPadding(bin, end - 4, j - 1);
    }
  }

  lemma {:induction false} NopStartStops(bin: seq<Byte>, end: nat)
    requires end <= |bin|
    ensures var start := NopStart(bin, end);
      start >= 4 ==> !IsPadding(ReadWord(bin, start - 4))
    decreases end
  {
    if end >= 4 && IsPadding(ReadWord(bin, end - 4)) {
      NopStartStops(bin, end - 4);
    }
  }

  /** The checks that are written from `start` on: as many as fit. */
  function Written(bin: seq<Byte>, start: nat, checks: seq<Check>): seq<Check> {
    checks[..Fitting(Blocks(checks), |bin| - start)]
  }

  function Place(bin: seq<Byte>, start: nat, words: seq<Word>): (r: seq<Byte>)
    requires start + 4 * |words| <= |bin|
    ensures |r| == |bin|
  {
    var end := start + 4 * |words|;
    var put := PutWords(bin, start, words);
    if end + 4 <= |bin| then PutWord(put, end, MPAUSE_WORD) else put
  }

  /** The words of the checks that fit are placed, no block partially. */
  lemma {:induction false} FinalizedWords(bin: seq<Byte>, start: nat, checks: seq<Check>)
    requires start <= |bin|
    ensures var words := Flatten(Blocks(Written(bin, start, checks)));
      start + 4 * |words| <= |bin| && FinalizeWith(bin, start, Blocks(checks)) == Place(bin, start, words)
  {
    FittingPlaced(bin, start, Blocks(checks));
    BlocksPrefix(checks, Fitting(Blocks(checks), |bin| - start));
  }

  lemma {:induction false} FittingPlaced(bin: seq<Byte>, start: nat, blocks: seq<seq<Word>>)
    requires start <= |bin|
    ensures var words := Flatten(blocks[..Fitting(blocks, |bin| - start)]);
      start + 4 * |words| <= |bin| && FinalizeWith(bin, start, blocks) == Place(bin, start, words)
  {
    EmitIsFitting(Cursor(bin, start), blocks);
  }

  lemma {:induction false} BlocksPrefix(checks: seq<Check>, n: nat)
    requires n <= |checks|
    ensures Blocks(checks)[..n] == Blocks(checks[..n])
  {
    if n == 0 {
      assert Blocks(checks)[..0] == [] == Blocks(checks[..0]);
    } else {
      var rest := checks[1..];
      BlocksPrefix(rest, n - 1);
      BlocksOfPrefix(checks, n);
      assert Blocks(checks)[..n] == [BlockWords(checks[0])] + Blocks(rest)[..n - 1];
    }
  }

  lemma {:induction false} BlocksOfPrefix(checks: seq<Check>, n: nat)
    requires 0 < n <= |checks|
    ensures Blocks(checks[..n]) == [BlockWords(checks[0])] + Blocks(checks[1..][..n - 1])
  {
    assert checks[..n][1..] == checks[1..][..n - 1] && checks[..n][0] == checks[0];
  }

  /** The words followed by one more are one longer list of words. */
  lemma FinalWords(bin: seq<Byte>, start: nat, words: seq<Word>, w: Word)
    requires start + 4 * |words| + 4 <= |bin|
    ensures PutWord(PutWords(bin, start, words), start + 4 * |words|, w) == PutWords(bin, start, words + [w])
  {
    PutWordsAppend(bin, start, words, [w]);
    PutOne(PutWords(bin, start, words), start + 4 * |words|, w, []);
    assert [w] == [w] + [];
  }

  lemma PlaceFrame(bin: seq<Byte>, start: nat, words: seq<Word>)
    requires start + 4 * |words| <= |bin|
    ensures Place(bin, start, words)[..start] == bin[..start]
  {
    forall i | 0 <= i < start
      ensures Place(bin, start, words)[i] == bin[i]
    {
      PutWordsFrame(bin, start, words, i);
    }
  }

  /** The length and every byte in front of the padding stay as they were. */
  lemma PrefixUnchanged(bin: seq<Byte>, t: Terminal)
    ensures |Finalized(bin, t)| == |bin|
    ensures Finalized(bin, t)[..NopStart(bin, |bin|)] == bin[..NopStart(bin, |bin|)]
  {
    FinalizeKeeps(bin, NopStart(bin, |bin|), AllChecks(t));
  }

  lemma FinalizeKeeps(bin: seq<Byte>, start: nat, checks: seq<Check>)
    requires start <= |bin|
    ensures |FinalizeWith(bin, start, Blocks(checks))| == |bin|
    ensures FinalizeWith(bin, start, Blocks(checks))[..start] == bin[..start]
  {
    FinalizedWords(bin, start, checks);
    PlaceFrame(bin, start, Flatten(Blocks(Written(bin, start, checks))));
  }

  lemma ProgramOfWords(bin: seq<Byte>, k: nat, words: seq<Word>)
    requires 4 * k + 4 * |words| <= |bin|
    ensures k + |words| <= |bin| / 4 && Program(PutWords(bin, 4 * k, words))[k..k + |words|] == DecodeAll(words)
  {
    var slice, goal := Program(PutWords(bin, 4 * k, words))[k..k + |words|], DecodeAll(words);
    forall i | 0 <= i < |words|
      ensures slice[i] == goal[i]
    {
      PlacedWord(bin, k, words, i);
    }
  }

  lemma PlacedWord(bin: seq<Byte>, k: nat, words: seq<Word>, i: nat)
    requires 4 * k + 4 * |words| <= |bin| && i < |words|
    ensures k + i < |bin| / 4 && Program(PutWords(bin, 4 * k, words))[k + i] == Decode(words[i])
  {
    PutWordsReads(bin, 4 * k, words, i);
    WordOfProgram(PutWords(bin, 4 * k, words), k + i);
  }

  lemma WordOfProgram(bin: seq<Byte>, j: nat)
    requires 4 * j + 4 <= |bin|
    ensures j < |bin| / 4 && Program(bin)[j] == Decode(ReadWord(bin, 4 * j))
  {
  }

  /** Word `k` on holds `block`, and an mpause behind it where there is room. */
  ghost predicate Placed(code: seq<Instr>, k: nat, block: seq<Instr>) {
    && k + |block| <= |code| && code[k..k + |block|] == block
    && (k + |block| < |code| ==> code[k + |block|] == Mpause)
  }

  lemma PlacedAt(bin: seq<Byte>, k: nat, n: nat, words: seq<Word>)
    requires |bin| == 4 * n && k + |words| <= n
    ensures Placed(Program(Place(bin, 4 * k, words)), k, DecodeAll(words))
  {
    if k + |words| < n {
      FinalWords(bin, 4 * k, words, MPAUSE_WORD);
      PlacedWithEnd(bin, k, n, words, Program(Place(bin, 4 * k, words)));
    } else {
      ProgramOfWords(bin, k, words);
    }
  }

  lemma PlacedWithEnd(bin: seq<Byte>, k: nat, n: nat, words: seq<Word>, code: seq<Instr>)
    requires |bin| == 4 * n && k + |words| < n && code == Program(PutWords(bin, 4 * k, words + [MPAUSE_WORD]))
    ensures Placed(code, k, DecodeAll(words))
  {
    ProgramOfWords(bin, k, words + [MPAUSE_WORD]);
    EndsInMpause(code, k, words, words + [MPAUSE_WORD]);
  }

  lemma EndsInMpause(code: seq<Instr>, k: nat, words: seq<Word>, all: seq<Word>)
    requires all == words + [MPAUSE_WORD] && k + |all| <= |code| && code[k..k + |all|] == DecodeAll(all)
    ensures Placed(code, k, DecodeAll(words))
  {
    LastOfSlice(code, k, words);
  }

  /** The finalized program holds the written blocks at the padding's start. */
  lemma FinalizedCode(bin: seq<Byte>, k: nat, n: nat, checks: seq<Check>)
    requires |bin| == 4 * n && k <= n
    ensures Placed(Program(FinalizeWith(bin, 4 * k, Blocks(checks))), k, Code(Written(bin, 4 * k, checks)))
  {
    var cs := Written(bin, 4 * k, checks);
    FinalizedWords(bin, 4 * k, checks);
    CodeOfBlocks(cs);
    PlacedAt(bin, k, n, Flatten(Blocks(cs)));
  }

  lemma LastOfSlice(code: seq<Instr>, k: nat, words: seq<Word>)
    requires k + |words| + 1 <= |code| && code[k..k + |words| + 1] == DecodeAll(words + [MPAUSE_WORD])
    ensures code[k..k + |words|] == DecodeAll(words) && code[k + |words|] == Mpause
  {
    var all := code[k..k + |words| + 1];
    assert code[k..k + |words|] == all[..|words|];
    assert all[|words|] == Decode(MPAUSE_WORD);
  }

  lemma AllAreCheckable(t: Terminal)
    ensures AllCheckable(AllChecks(t))
  {
    XChecksAreX(t, 1);
    OthersAreFAndV(t, 0);
    forall i | 0 <= i < |AllChecks(t)|
      ensures Checkable(AllChecks(t)[i])
    {
      assert AllChecks(t)[i] in AllChecks(t);
    }
  }

  /** The state at rest: the run stopped there and stays. */
  ghost predicate RestsAt(code: seq<Instr>, m: Machine, n: Machine) {
    n.status == Stopped && Reaches(code, m, n)
  }

  lemma {:induction false} StoppedStays(code: seq<Instr>, m: Machine, n: nat)
    requires m.status == Stopped
    ensures Run(code, m, n) == m
    decreases n
  {
    if n > 0 {
      StoppedStays(code, m, n - 1);
    }
  }

  /** A run has at most one state at rest. */
  lemma RestIsUnique(code: seq<Instr>, m: Machine, n: Machine, p: Machine)
    requires RestsAt(code, m, n) && RestsAt(code, m, p)
    ensures n == p
  {
    var i: nat :| Run(code, m, i) == n;
    var j: nat :| Run(code, m, j) == p;
    if i <= j {
      RunAdd(code, m, i, j - i);
      StoppedStays(code, n, j - i);
    } else {
      RunAdd(code, m, j, i - j);
      StoppedStays(code, p, i - j);
    }
  }

  /** Behind the blocks the program is at its mpause, or out of code. */
  lemma EndStops(code: seq<Instr>, j: nat, n: Machine)
    requires 4 * |code| < WORD && j <= |code| && (j < |code| ==> code[j] == Mpause)
    requires n.status == Running && n.pc == 4 * j
    ensures Run(code, n, 1) == Stop(n)
  {
    assert Run(code, n, 1) == Run(code, Step(code, n), 0);
    if j < |code| {
      FetchAt(code, j);
    }
  }

  /** The run's resting place and what it has changed. */
  ghost predicate Rest(m: Machine, n: Machine, k: nat, cs: seq<Check>) {
    n.status == Stopped && OnlyScratch(m, n) && n.pc as int == 4 * EndOfChecks(m, k, cs)
  }

  lemma {:induction false} CodeRests(code: seq<Instr>, k: nat, m: Machine, cs: seq<Check>) returns (n: Machine)
    requires Placed(code, k, Code(cs)) && 4 * |code| < WORD && AllCheckable(cs) && m.status == Running && m.pc == 4 * k
    ensures RestsAt(code, m, n) && Rest(m, n, k, cs)
  {
    PlacedEntered(code, k, m, Code(cs));
    var p := BlocksRun(code, k, m, cs);
    n := OutcomeToRest(code, k, m, p, cs, Code(cs));
  }

  lemma {:induction false} OutcomeToRest(code: seq<Instr>, k: nat, m: Machine, p: Machine, cs: seq<Check>, block: seq<Instr>)
    returns (n: Machine)
    requires Reaches(code, m, p) && Outcome(m, p, k, cs) && block == Code(cs)
    requires Placed(code, k, block) && 4 * |code| < WORD
    ensures RestsAt(code, m, n) && Rest(m, n, k, cs)
  {
    OutcomeRests(m, p, k, cs);
    n := RestAfter(code, k + |block|, m, p, FirstMismatch(m, cs) == |cs|);
  }

  lemma PlacedEntered(code: seq<Instr>, k: nat, m: Machine, block: seq<Instr>)
    requires Placed(code, k, block) && 4 * |code| < WORD && m.status == Running && m.pc == 4 * k
    ensures Entered(code, k, m, block)
  {
  }

  lemma OutcomeRests(m: Machine, p: Machine, k: nat, cs: seq<Check>)
    requires Outcome(m, p, k, cs)
    ensures Rest(m, Stop(p), k, cs)
    ensures if FirstMismatch(m, cs) == |cs| then p.status == Running && p.pc as int == 4 * (k + |Code(cs)|)
            else p.status == Stopped
  {
  }

  /** A run that is still going behind the blocks stops with its next step. */
  lemma RestAfter(code: seq<Instr>, j: nat, m: Machine, p: Machine, passed: bool) returns (n: Machine)
    requires Reaches(code, m, p) && 4 * |code| < WORD
    requires j <= |code| && (j < |code| ==> code[j] == Mpause)
    requires if passed then p.status == Running && p.pc == 4 * j else p.status == Stopped
    ensures RestsAt(code, m, n) && n == Stop(p)
  {
    n := Stop(p);
    if passed {
      EndStops(code, j, p);
      ReachesIn(code, p, 1, n);
      ReachesOn(code, m, p, n);
    }
  }

  /** The finalized program, entered where its padding used to start, comes to rest behind the blocks
      exactly when every register with a written block holds its golden value, and otherwise at the
      ebreak of the first block whose register does not; only x30 and x31 are clobbered on the way. */
  lemma EpilogueDecides(bin: seq<Byte>, t: Terminal, m: Machine) returns (n: Machine)
    requires |bin| % 4 == 0 && |bin| < WORD && m.status == Running && m.pc == NopStart(bin, |bin|)
    ensures var k := NopStart(bin, |bin|) / 4;
      Decided(Program(Finalized(bin, t)), m, n, k, Written(bin, NopStart(bin, |bin|), AllChecks(t)))
  {
    NopStartAligned(bin, |bin|);
    AllAreCheckable(t);
    n := Decides(bin, NopStart(bin, |bin|) / 4, |bin| / 4, AllChecks(t), m);
  }

  /** The one state at rest of a run over the blocks of `cs` at word `k`. */
  ghost predicate Decided(code: seq<Instr>, m: Machine, n: Machine, k: nat, cs: seq<Check>) {
    && RestsAt(code, m, n) && Rest(m, n, k, cs)
    && (forall p: Machine | RestsAt(code, m, p) :: p == n)
    && (n.pc as int == 4 * (k + |Code(cs)|) <==> forall c | c in cs :: Matches(m, c))
  }

  lemma Decides(bin: seq<Byte>, k: nat, words: nat, checks: seq<Check>, m: Machine) returns (n: Machine)
    requires |bin| == 4 * words < WORD && k <= words && AllCheckable(checks) && m.status == Running && m.pc == 4 * k
    ensures Decided(Program(FinalizeWith(bin, 4 * k, Blocks(checks))), m, n, k, Written(bin, 4 * k, checks))
  {
    var cs := Written(bin, 4 * k, checks);
    var code := Program(FinalizeWith(bin, 4 * k, Blocks(checks)));
    FinalizeKeeps(bin, 4 * k, checks);
    FinalizedCode(bin, k, words, checks);
    n := CodeRests(code, k, m, cs);
    EndMeansAllMatch(m, k, cs);
    forall p: Machine | RestsAt(code, m, p)
      ensures p == n
    {
      RestIsUnique(code, m, p, n);
    }
  }

  lemma EndMeansAllMatch(m: Machine, k: nat, cs: seq<Check>)
    ensures EndOfChecks(m, k, cs) == k + |Code(cs)| <==> forall c | c in cs :: Matches(m, c)
  {
    var i := FirstMismatch(m, cs);
    if i < |cs| {
      assert cs[i] in cs;
      PrefixIsShorter(cs, i);
    }
  }

  lemma {:induction false} PrefixIsShorter(cs: seq<Check>, i: nat)
    requires i < |cs|
    ensures |Code(cs[..i])| + |Block(cs[i])| <= |Code(cs)|
    decreases |cs|
  {
    if i > 0 {
      PrefixIsShorter(cs[1..], i - 1);
      PrefixStep(cs, i - 1);
    }
  }

  // ---------------------------------------------------------------- in terms of the recorded state

  /** As many blocks are written as fit: the next one would not. */
  lemma {:induction false} FittingIsGreatest(blocks: seq<seq<Word>>, space: nat)
    ensures var n := Fitting(blocks, space);
      && 4 * |Flatten(blocks[..n])| <= space
      && (n < |blocks| ==> 4 * |Flatten(blocks[..n + 1])| > space)
    decreases |blocks|
  {
    if blocks != [] {
      if 4 * |blocks[0]| <= space {
        var rest := blocks[1..];
        var n := Fitting(rest, space - 4 * |blocks[0]|);
        FittingIsGreatest(rest, space - 4 * |blocks[0]|);
        FlattenPrefix(blocks, n);
        if n < |rest| {
          FlattenPrefix(blocks, n + 1);
        }
      } else {
        FlattenPrefix(blocks, 0);
        assert blocks[1..][..0] == [];
      }
    }
  }

  /** All blocks are written when their words fit. */
  lemma AllWritten(bin: seq<Byte>, start: nat, checks: seq<Check>)
    requires start + 4 * |Code(checks)| <= |bin|
    ensures Written(bin, start, checks) == checks
  {
    var blocks := Blocks(checks);
    var n := Fitting(blocks, |bin| - start);
    CodeOfBlocks(checks);
    FittingIsGreatest(blocks, |bin| - start);
    if n < |blocks| {
      FlattenMonotone(blocks, n + 1);
    }
  }

  lemma {:induction false} FlattenMonotone<T>(parts: seq<seq<T>>, n: nat)
    requires n <= |parts|
    ensures |Flatten(parts[..n])| <= |Flatten(parts)|
    decreases |parts|
  {
    if n > 0 {
      FlattenMonotone(parts[1..], n - 1);
      FlattenPrefix(parts, n - 1);
    }
  }

  /** The checks hold exactly when the machine's registers are the recorded ones. */
  lemma MatchesRecorded(t: Terminal, m: Machine)
    ensures (forall c | c in AllChecks(t) :: Matches(m, c))
            <==> (forall r: Reg | 1 <= r < 30 && XName(r) in t.registers :: m.x[r] == t.registers[XName(r)])
                 && (forall r: Reg | FName(r) in t.registers :: m.f[r] == t.registers[FName(r)])
                 && (forall r: Reg | r in t.vectors && 4 <= |t.vectors[r]| :: m.v[r] == LittleEndian(t.vectors[r], 0, 4))
  {
    if forall c | c in AllChecks(t) :: Matches(m, c) {
      forall r: Reg | 1 <= r < 30 && XName(r) in t.registers ensures m.x[r] == t.registers[XName(r)] {
        ChecksAreRecorded(t, r, t.registers[XName(r)]);
        assert Matches(m, XCheck(r, t.registers[XName(r)]));
      }
      forall r: Reg | FName(r) in t.registers ensures m.f[r] == t.registers[FName(r)] {
        ChecksAreRecorded(t, r, t.registers[FName(r)]);
        assert Matches(m, FCheck(r, t.registers[FName(r)]));
      }
      forall r: Reg | r in t.vectors && 4 <= |t.vectors[r]| ensures m.v[r] == LittleEndian(t.vectors[r], 0, 4) {
        ReadWordIsLittleEndian(t.vectors[r], 0);
        ChecksAreRecorded(t, r, ReadWord(t.vectors[r], 0));
        assert Matches(m, VCheck(r, ReadWord(t.vectors[r], 0)));
      }
    }
    forall c | c in AllChecks(t)
      ensures match c
              case XCheck(r, g) => 1 <= r < 30 && XName(r) in t.registers && t.registers[XName(r)] == g
              case FCheck(r, g) => FName(r) in t.registers && t.registers[FName(r)] == g
              case VCheck(r, g) => r in t.vectors && 4 <= |t.vectors[r]| && LittleEndian(t.vectors[r], 0, 4) == g
    {
      ChecksAreRecorded(t, c.reg, c.golden);
    }
  }

  /** Where all blocks fit, the run comes to its one rest, behind the last block exactly when x1 to x29, the F
      registers and the first elements of the V registers are the recorded ones wherever one is recorded. */
  lemma RecordedStateDecides(bin: seq<Byte>, t: Terminal, m: Machine) returns (n: Machine)
    requires |bin| % 4 == 0 && |bin| < WORD && m.status == Running && m.pc == NopStart(bin, |bin|)
    ensures RestsAt(Program(Finalized(bin, t)), m, n) && forall p: Machine | RestsAt(Program(Finalized(bin, t)), m, p) :: p == n
    ensures n == m.(x := n.x, pc := n.pc, status := Stopped) && forall r: Reg | r < 30 :: n.x[r] == m.x[r]
    ensures var end := NopStart(bin, |bin|) + 4 * |Code(AllChecks(t))|;
      end <= |bin| ==>
        (n.pc == end
         <==> (forall r: Reg | 1 <= r < 30 && XName(r) in t.registers :: m.x[r] == t.registers[XName(r)])
              && (forall r: Reg | FName(r) in t.registers :: m.f[r] == t.registers[FName(r)])
              && (forall r: Reg | r in t.vectors && 4 <= |t.vectors[r]| :: m.v[r] == LittleEndian(t.vectors[r], 0, 4)))
  {
    n := EpilogueDecides(bin, t, m);
    NopStartAligned(bin, |bin|);
    if NopStart(bin, |bin|) + 4 * |Code(AllChecks(t))| <= |bin| {
      AllWritten(bin, NopStart(bin, |bin|), AllChecks(t));
      MatchesRecorded(t, m);
    }
  }
}
