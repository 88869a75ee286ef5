/** The sequence generator's engine: an assembly buffer that the emitters append to, the running
    program counter over it, and the final layout of a generated program. */
module IsgEngine {
  import opened Words
  import opened Rv32
  import Encodings
  import opened Sandbox
  import opened SandboxedAccess
  import opened TrapHandler
  import opened GeneratedLoops

  /** A line of assembly text, by what it occupies in memory. */
  datatype Line = Comment | Label | Directive | Data(word: Word) | Inst(instr: Instr)

  function DataInstr(w: Word): Instr {
    if w == MPAUSE_WORD then Mpause else Illegal
  }

  /** A data word is executed as mpause exactly when it decodes to it. */
  lemma DataDecodes(w: Word)
    ensures DataInstr(w) == Mpause <==> Encodings.Decode(w) == Mpause
    ensures DataInstr(w) == Mpause || DataInstr(w) == Illegal
  {
    if Encodings.Decode(w) == Mpause {
      Encodings.EncodeUndoesDecode(w);
    }
  }

  function Emitted(line: Line): seq<Instr> {
    match line
    case Inst(i) => [i]
    case Data(w) => [DataInstr(w)]
    case _ => []
  }

  /** The program words of a listing, in order. */
  function Code(lines: seq<Line>): seq<Instr>
    decreases |lines|
  {
    if lines == [] then [] else Code(lines[..|lines| - 1]) + Emitted(lines[|lines| - 1])
  }

  lemma CodeAppend(lines: seq<Line>, line: Line)
    ensures Code(lines + [line]) == Code(lines) + Emitted(line)
  {
    assert (lines + [line])[..|lines|] == lines;
  }

  lemma Join(base: seq<Instr>, a: seq<Instr>, b: seq<Instr>)
    ensures (base + a) + b == base + (a + b)
  {
  }

  /** Padding, and the word that ends every program. */
  function Padded(code: seq<Instr>): seq<Instr>
    requires |code| <= 2047
  {
    code + Nops(2047 - |code|) + [Mpause]
  }

  lemma {:induction false} NopsGrow(n: nat)
    ensures Nops(n) + [Addi(ZERO, ZERO, 0)] == Nops(n + 1)
  {
    if n > 0 {
      NopsGrow(n - 1);
      assert Nops(n) + [Addi(ZERO, ZERO, 0)] == [Addi(ZERO, ZERO, 0)] + (Nops(n - 1) + [Addi(ZERO, ZERO, 0)]);
    }
  }

  lemma BodyWords()
    ensures BodyCode()
            == [Slli(T3, T1, 13), Xor(T1, T1, T3), Srli(T3, T1, 17), Xor(T1, T1, T3), Slli(T3, T1, 5), Xor(T1, T1, T3),
                Addi(T0, T0, 4), Addi(T2, T2, -1)]
  {
  }

  lemma LogWords()
    ensures LogCode()
            == [Csrrs(T1, Mscratch, ZERO), Sw(T1, T0, 0), Csrrs(T1, Mtval, ZERO), Sw(T1, T0, 20),
                Csrrs(T1, Mcause, ZERO), Sw(T1, T0, 12), Csrrs(T1, Mepc, ZERO), Sw(T1, T0, 16)]
  {
  }

  /** The handler's sections in their order. */
  lemma HandlerParts()
    ensures HandlerCode() == [Jal(ZERO, 0x70)] + (Prologue() + LogCode()) + RedirectPart() + (EpilogueCode() + [Mret])
  {
  }

  /** From the cause test to the handler's own breakpoint. */
  function RedirectPart(): (code: seq<Instr>)
    ensures |code| == 8
  {
    TestCode() + [Beq(T1, T2, 20)] + RedirectCode() + [Jal(ZERO, 8), Ebreak]
  }

  function HazardHead(dist: nat): (code: seq<Instr>)
    requires HazardDistance(dist)
    ensures |code| == 3
  {
    [Addi(T0, ZERO, 2), Addi(T1, ZERO, 0)] + [Beq(T0, T1, 4 * dist + 12)]
  }

  /** The masking sequence for a word, or nothing. */
  function Mask(strict: bool): seq<Instr> {
    if strict then MaskCode(4) else []
  }

  function LoadWith(strict: bool, rd: Reg, rs1: Reg, imm: Word): seq<Instr> {
    LoadConstant(LoadScratch(rs1), imm) + [Add(T6, rs1, LoadScratch(rs1))] + Mask(strict) + [Lw(rd, T6, 0)]
  }

  function StoreWith(strict: bool, rs2: Reg, rs1: Reg, imm: Word): seq<Instr> {
    var scratch := StoreScratch(rs2, rs1);
    [Lui(scratch, Upper(imm)), Addi(scratch, scratch, Lower(imm))] + [Add(T6, rs1, scratch), Addi(T4, rs2, 0)]
    + Mask(strict) + [Sw(T4, T6, 0)]
  }

  /** With sandboxing on, the emitted accesses are the sandboxed ones. */
  lemma SandboxedLoadCode(rd: Reg, rs1: Reg, imm: Word)
    ensures LoadWith(true, rd, rs1, imm) == LoadCode(rd, rs1, imm)
  {
  }

  lemma SandboxedStoreCode(rs2: Reg, rs1: Reg, imm: Word)
    ensures StoreWith(true, rs2, rs1, imm) == StoreCode(rs2, rs1, imm)
  {
  }

  /** With sandboxing off, the emitted load reads the word at rs1 + imm itself ... */
  lemma PlainLoad(rd: Reg, rs1: Reg, imm: Word, m: Machine, a: Word)
    requires ZeroRegister(m.x) && a == (m.x[rs1] + imm) % 0x1_0000_0000
    ensures Effect(LoadWith(false, rd, rs1, imm), m)
            == m.(x := Write(m.x[LoadScratch(rs1) := imm][T6 := a], rd, LoadWord(m.mem, a)))
  {
    var front := LoadConstant(LoadScratch(rs1), imm) + [Add(T6, rs1, LoadScratch(rs1))];
    var n := m.(x := m.x[LoadScratch(rs1) := imm][T6 := a]);
    LoadPrologue(rd, rs1, imm, m);
    LoadThroughT6(rd, n, a);
    Compose(front, [Lw(rd, T6, 0)], m, n, n.(x := Write(n.x, rd, LoadWord(n.mem, a))));
    assert LoadWith(false, rd, rs1, imm) == front + [Lw(rd, T6, 0)];
  }

  /** ... and the emitted store writes there, again the address itself where t6 is to be stored. */
  lemma PlainStore(rs2: Reg, rs1: Reg, imm: Word, m: Machine, a: Word, v: Word)
    requires ZeroRegister(m.x) && a == (m.x[rs1] + imm) % 0x1_0000_0000 && v == if rs2 == 31 then a else m.x[rs2]
    ensures Effect(StoreWith(false, rs2, rs1, imm), m)
            == m.(x := m.x[StoreScratch(rs2, rs1) := imm][T6 := a][T4 := v], mem := StoreWord(m.mem, a, v))
  {
    var scratch := StoreScratch(rs2, rs1);
    var front := [Lui(scratch, Upper(imm)), Addi(scratch, scratch, Lower(imm))] + [Add(T6, rs1, scratch), Addi(T4, rs2, 0)];
    var n := m.(x := m.x[scratch := imm][T6 := a][T4 := v]);
    StorePrologue(rs2, rs1, imm, m);
    StoreTail(n, a, v);
    Compose(front, [Sw(T4, T6, 0)], m, n, n.(mem := StoreWord(n.mem, a, v)));
    assert StoreWith(false, rs2, rs1, imm) == front + [Sw(T4, T6, 0)];
  }

  class Engine {
    var lines: seq<Line>
    var strictSandboxing: bool

    constructor ()
      ensures lines == [] && strictSandboxing
    {
      lines := [];
      strictSandboxing := true;
    }

    method Append(line: Line)
      modifies this`lines
      ensures lines == old(lines) + [line] && Code(lines) == old(Code(lines)) + Emitted(line)
    {
      CodeAppend(lines, line);
      lines := lines + [line];
    }

    method EmitInstruction(i: Instr)
      modifies this`lines
      ensures lines == old(lines) + [Inst(i)] && Code(lines) == old(Code(lines)) + [i]
    {
      Append(Inst(i));
    }

    /** Emits one instruction after the other. */
    method EmitAll(block: seq<Instr>)
      modifies this`lines
      ensures Code(lines) == old(Code(lines)) + block
    {
      for i := 0 to |block|
        invariant Code(lines) == old(Code(lines)) + block[..i]
      {
        EmitInstruction(block[i]);
        Join(old(Code(lines)), block[..i], [block[i]]);
        assert block[..i + 1] == block[..i] + [block[i]];
      }
      assert block[..|block|] == block;
    }

    /** Emits `block` behind what the caller has emitted since `base`. */
    method Extend(ghost base: seq<Instr>, ghost done: seq<Instr>, block: seq<Instr>)
      requires Code(lines) == base + done
      modifies this`lines
      ensures Code(lines) == base + (done + block)
    {
      EmitAll(block);
      Join(base, done, block);
    }

    /** The byte address of the next word, by a walk over the listing. */
    method CurrentPc() returns (pc: nat)
      ensures pc == 4 * |Code(lines)|
    {
      pc := 0;
      var i := 0;
      while i < |lines|
        invariant i <= |lines| && pc == 4 * |Code(lines[..i])|
      {
        assert lines[..i + 1][..i] == lines[..i];
        match lines[i] {
          case Comment =>
          case Label =>
          case Directive =>
          case Data(_) => pc := pc + 4;
          case Inst(_) => pc := pc + 4;
        }
        i := i + 1;
      }
      assert lines[..|lines|] == lines;
    }

    method EmitLi(rd: Reg, v: Word)
      modifies this`lines
      ensures Code(lines) == old(Code(lines)) + LiCode(rd, v)
    {
      EmitInstruction(Lui(rd, Upper(v)));
      if Lower(v) != 0 || Upper(v) == 0 {
        EmitInstruction(Addi(rd, rd, Lower(v)));
      }
    }

    // -------------------------------------------------------------- branches to absolute targets

    /** The assembler turns the absolute target into an offset from the branch's own address. */
    method EmitBeq(rs1: Reg, rs2: Reg, target: nat)
      requires -0x1000 <= target - 4 * |Code(lines)| < 0x1000
      modifies this`lines
      ensures Code(lines) == old(Code(lines)) + [Beq(rs1, rs2, target - 4 * |old(Code(lines))|)]
    {
      var pc := CurrentPc();
      EmitInstruction(Beq(rs1, rs2, target - pc));
    }

    method EmitBne(rs1: Reg, rs2: Reg, target: nat)
      requires -0x1000 <= target - 4 * |Code(lines)| < 0x1000
      modifies this`lines
      ensures Code(lines) == old(Code(lines)) + [Bne(rs1, rs2, target - 4 * |old(Code(lines))|)]
    {
      var pc := CurrentPc();
      EmitInstruction(Bne(rs1, rs2, target - pc));
    }

    method EmitJal(rd: Reg, target: nat)
      requires -0x10_0000 <= target - 4 * |Code(lines)| < 0x10_0000
      modifies this`lines
      ensures Code(lines) == old(Code(lines)) + [Jal(rd, target - 4 * |old(Code(lines))|)]
    {
      var pc := CurrentPc();
      EmitInstruction(Jal(rd, target - pc));
    }

    // -------------------------------------------------------------- the masking sequence

    method EmitConstant(rd: Reg, v: Word)
      modifies this`lines
      ensures Code(lines) == old(Code(lines)) + LoadConstant(rd, v)
    {
      EmitInstruction(Lui(rd, Upper(v)));
      if Lower(v) != 0 {
        EmitInstruction(Addi(rd, rd, Lower(v)));
      }
    }

    method EmitSave()
      modifies this`lines
      ensures Code(lines) == old(Code(lines)) + SaveCode()
    {
      ghost var base := Code(lines);
      EmitAll([Addi(SP, SP, -16), Sw(T1, SP, 0), Sw(T2, SP, 4)]);
      Extend(base, [Addi(SP, SP, -16), Sw(T1, SP, 0), Sw(T2, SP, 4)], [Sw(T3, SP, 8), Sw(T5, SP, 12)]);
    }

    method EmitSelect()
      modifies this`lines
      ensures Code(lines) == old(Code(lines)) + SelectCode()
    {
      ghost var base := Code(lines);
      EmitAll([Srli(T5, T6, 29), Slli(T5, T5, 29), Lui(T1, 0x2_0000)]);
      Extend(base, [Srli(T5, T6, 29), Slli(T5, T5, 29), Lui(T1, 0x2_0000)],
             [And(T5, T5, T1), Sltiu(T1, T5, 1), Sub(T3, ZERO, T1)]);
    }

    method EmitSpan(o: Word)
      modifies this`lines
      ensures Code(lines) == old(Code(lines)) + SpanCode(o)
    {
      ghost var base := Code(lines);
      ghost var diff := LoadConstant(T2, Plus(Span2(o), -(Span1(o) as int)));
      EmitConstant(T2, Plus(Span2(o), -(Span1(o) as int)));
      Extend(base, diff, [And(T2, T2, T3)]);
      EmitConstant(T1, Span2(o));
      Join(base, diff + [And(T2, T2, T3)], LoadConstant(T1, Span2(o)));
      Extend(base, diff + [And(T2, T2, T3)] + LoadConstant(T1, Span2(o)), [Sub(T2, T1, T2)]);
    }

    method EmitBase()
      modifies this`lines
      ensures Code(lines) == old(Code(lines)) + BaseCode()
    {
      ghost var base := Code(lines);
      EmitAll([Lui(T1, 0x10), And(T1, T1, T3), Or(T5, T5, T1)]);
      Extend(base, [Lui(T1, 0x10), And(T1, T1, T3), Or(T5, T5, T1)], [Sub(T6, T6, T5)]);
    }

    method EmitReduce()
      modifies this`lines
      ensures Code(lines) == old(Code(lines)) + ReduceCode()
    {
      EmitAll([Sltiu(T1, T2, 1), Add(T2, T2, T1), Remu(T6, T6, T2)]);
    }

    method EmitReserve()
      modifies this`lines
      ensures Code(lines) == old(Code(lines)) + ReserveCode()
    {
      ghost var base := Code(lines);
      ghost var low := [Sltiu(T1, T6, RESERVED), Sub(T1, ZERO, T1), And(T1, T1, T3)];
      ghost var gap := [Addi(T2, ZERO, RESERVED), Sub(T2, T2, T6), And(T2, T2, T1)];
      EmitAll([Sltiu(T1, T6, RESERVED), Sub(T1, ZERO, T1), And(T1, T1, T3)]);
      Extend(base, low, [Addi(T2, ZERO, RESERVED), Sub(T2, T2, T6), And(T2, T2, T1)]);
      Extend(base, low + gap, [Add(T6, T6, T2)]);
    }

    method EmitRestore()
      modifies this`lines
      ensures Code(lines) == old(Code(lines)) + RestoreCode()
    {
      ghost var base := Code(lines);
      EmitAll([Lw(T1, SP, 0), Lw(T2, SP, 4), Lw(T3, SP, 8)]);
      Extend(base, [Lw(T1, SP, 0), Lw(T2, SP, 4), Lw(T3, SP, 8)], [Lw(T5, SP, 12), Addi(SP, SP, 16)]);
    }

    method EmitTail(ghost base: seq<Instr>, ghost done: seq<Instr>, reserve: bool)
      requires Code(lines) == base + done
      modifies this`lines
      ensures Code(lines) == base + (done + (if reserve then ReserveCode() else []) + [Add(T6, T6, T5)])
    {
      if reserve {
        EmitReserve();
        Join(base, done, ReserveCode());
      }
      Extend(base, done + (if reserve then ReserveCode() else []), [Add(T6, T6, T5)]);
    }

    method EmitCompute(o: Word)
      modifies this`lines
      ensures Code(lines) == old(Code(lines)) + ComputeCode(o)
    {
      ghost var base := Code(lines);
      EmitSelect();
      EmitSpan(o);
      Join(base, SelectCode(), SpanCode(o));
      EmitBase();
      Join(base, SelectCode() + SpanCode(o), BaseCode());
      EmitReduce();
      Join(base, SelectCode() + SpanCode(o) + BaseCode(), ReduceCode());
      ghost var done := SelectCode() + SpanCode(o) + BaseCode() + ReduceCode();
      EmitTail(base, done, Span1(o) > RESERVED);
    }

    /** Nothing is emitted when sandboxing is off. */
    method EmitDynamicMask(o: Word)
      modifies this`lines
      ensures Code(lines) == old(Code(lines)) + (if strictSandboxing then MaskCode(o) else [])
    {
      if !strictSandboxing {
        return;
      }
      ghost var base := Code(lines);
      EmitSave();
      EmitCompute(o);
      Join(base, SaveCode(), ComputeCode(o));
      EmitRestore();
      Join(base, SaveCode() + ComputeCode(o), RestoreCode());
    }

    /** The access itself, masked when sandboxing is on. */
    method EmitAccess(ghost base: seq<Instr>, ghost done: seq<Instr>, access: Instr)
      requires Code(lines) == base + done
      modifies this`lines
      ensures Code(lines) == base + (done + Mask(strictSandboxing) + [access])
    {
      EmitDynamicMask(4);
      Join(base, done, Mask(strictSandboxing));
      Extend(base, done + Mask(strictSandboxing), [access]);
    }

    method EmitLoad(rd: Reg, rs1: Reg, imm: Word)
      modifies this`lines
      ensures Code(lines) == old(Code(lines)) + LoadWith(strictSandboxing, rd, rs1, imm)
    {
      ghost var base := Code(lines);
      var scratch := if rs1 == T6 then T1 else T6;
      EmitConstant(scratch, imm);
      Extend(base, LoadConstant(scratch, imm), [Add(T6, rs1, scratch)]);
      EmitAccess(base, LoadConstant(scratch, imm) + [Add(T6, rs1, scratch)], Lw(rd, T6, 0));
    }

    method EmitStore(rs2: Reg, rs1: Reg, imm: Word)
      modifies this`lines
      ensures Code(lines) == old(Code(lines)) + StoreWith(strictSandboxing, rs2, rs1, imm)
    {
      ghost var base := Code(lines);
      var scratch := T1;
      if rs1 == T1 || rs2 == T1 {
        scratch := if rs1 == T2 || rs2 == T2 then T3 else T2;
      }
      EmitAll([Lui(scratch, Upper(imm)), Addi(scratch, scratch, Lower(imm))]);
      Extend(base, [Lui(scratch, Upper(imm)), Addi(scratch, scratch, Lower(imm))],
             [Add(T6, rs1, scratch), Addi(T4, rs2, 0)]);
      EmitAccess(base, [Lui(scratch, Upper(imm)), Addi(scratch, scratch, Lower(imm))]
                       + [Add(T6, rs1, scratch), Addi(T4, rs2, 0)], Sw(T4, T6, 0));
    }

    // -------------------------------------------------------------- loops

    method EmitNops(n: nat)
      modifies this`lines
      ensures Code(lines) == old(Code(lines)) + Nops(n)
    {
      for i := 0 to n
        invariant Code(lines) == old(Code(lines)) + Nops(i)
      {
        NopsGrow(i);
        EmitInstruction(Addi(ZERO, ZERO, 0));
      }
    }

    method EmitCountDown(dist: nat)
      modifies this`lines
      ensures Code(lines) == old(Code(lines)) + CountDown(dist)
    {
      ghost var base := Code(lines);
      EmitNops(dist);
      Extend(base, Nops(dist), [Addi(T0, T0, -1)]);
    }

    /** A branch back to `target`, behind what the caller has emitted since `base`. */
    method EmitBack(ghost base: seq<Instr>, ghost done: seq<Instr>, rs1: Reg, rs2: Reg, target: nat, ghost offset: Offset21)
      requires Code(lines) == base + done && target - 4 * (|base| + |done|) == offset && -0x1000 <= offset < 0
      modifies this`lines
      ensures Code(lines) == base + (done + [Bne(rs1, rs2, offset)])
    {
      EmitBne(rs1, rs2, target);
      Join(base, done, [Bne(rs1, rs2, offset)]);
    }

    /** The exit branch, over the countdown and the branch back. */
    method EmitExit(dist: nat) returns (beqPc: nat)
      requires HazardDistance(dist)
      modifies this`lines
      ensures beqPc == 4 * |old(Code(lines))| + 8
      ensures Code(lines) == old(Code(lines)) + HazardHead(dist)
    {
      ghost var base := Code(lines);
      EmitAll([Addi(T0, ZERO, 2), Addi(T1, ZERO, 0)]);
      beqPc := CurrentPc();
      EmitBeq(T0, T1, beqPc + dist * 4 + 12);
      Join(base, [Addi(T0, ZERO, 2), Addi(T1, ZERO, 0)], [Beq(T0, T1, 4 * dist + 12)]);
    }

    method EmitControlHazard(dist: nat)
      requires HazardDistance(dist)
      modifies this`lines
      ensures Code(lines) == old(Code(lines)) + HazardCode(dist)
    {
      ghost var base := Code(lines);
      var beqPc := EmitExit(dist);
      EmitCountDown(dist);
      Join(base, HazardHead(dist), CountDown(dist));
      EmitBack(base, HazardHead(dist) + CountDown(dist), T0, T1, beqPc, -(4 * dist + 8));
    }

    method EmitFillBody()
      modifies this`lines
      ensures Code(lines) == old(Code(lines)) + ([Sw(T1, T0, 0)] + BodyCode())
    {
      ghost var base := Code(lines);
      EmitAll([Sw(T1, T0, 0)]);
      Extend(base, [Sw(T1, T0, 0)],
             [Slli(T3, T1, 13), Xor(T1, T1, T3), Srli(T3, T1, 17), Xor(T1, T1, T3), Slli(T3, T1, 5), Xor(T1, T1, T3),
              Addi(T0, T0, 4), Addi(T2, T2, -1)]);
      BodyWords();
    }

    method EmitFillLoop()
      modifies this`lines
      ensures Code(lines) == old(Code(lines)) + FillCode()
    {
      ghost var base := Code(lines);
      var loopStart := CurrentPc();
      Append(Label);
      EmitFillBody();
      EmitBack(base, [Sw(T1, T0, 0)] + BodyCode(), T2, ZERO, loopStart, -36);
    }

    // -------------------------------------------------------------- the preamble

    method EmitLogging()
      modifies this`lines
      ensures Code(lines) == old(Code(lines)) + (Prologue() + LogCode())
    {
      ghost var base := Code(lines);
      EmitAll([Csrrw(T0, Mscratch, T0), Csrrw(T0, Mtval, T0), Lui(T0, 0x10)]);
      Extend(base, [Csrrw(T0, Mscratch, T0), Csrrw(T0, Mtval, T0), Lui(T0, 0x10)], [Sw(T1, T0, 4), Sw(T2, T0, 8)]);
      LogWords();
      Extend(base, Prologue(),
             [Csrrs(T1, Mscratch, ZERO), Sw(T1, T0, 0), Csrrs(T1, Mtval, ZERO), Sw(T1, T0, 20),
              Csrrs(T1, Mcause, ZERO), Sw(T1, T0, 12), Csrrs(T1, Mepc, ZERO), Sw(T1, T0, 16)]);
    }

    method EmitRedirect()
      modifies this`lines
      ensures Code(lines) == old(Code(lines)) + RedirectPart()
    {
      ghost var base := Code(lines);
      EmitAll([Lw(T1, T0, 12), Addi(T2, ZERO, 3)]);
      var pc := CurrentPc();
      EmitBeq(T1, T2, pc + 20);
      Join(base, TestCode(), [Beq(T1, T2, 20)]);
      Extend(base, TestCode() + [Beq(T1, T2, 20)], [Lui(T1, 0x2), Addi(T1, T1, -4), Csrrw(ZERO, Mepc, T1)]);
      var next := CurrentPc();
      EmitJal(ZERO, next + 8);
      Join(base, TestCode() + [Beq(T1, T2, 20)] + RedirectCode(), [Jal(ZERO, 8)]);
      Extend(base, TestCode() + [Beq(T1, T2, 20)] + RedirectCode() + [Jal(ZERO, 8)], [Ebreak]);
      Join(TestCode() + [Beq(T1, T2, 20)] + RedirectCode(), [Jal(ZERO, 8)], [Ebreak]);
      assert [Jal(ZERO, 8)] + [Ebreak] == [Jal(ZERO, 8), Ebreak];
    }

    method EmitEpilogue()
      modifies this`lines
      ensures Code(lines) == old(Code(lines)) + (EpilogueCode() + [Mret])
    {
      ghost var base := Code(lines);
      EmitAll([Lw(T1, T0, 20), Csrrw(ZERO, Mscratch, T1)]);
      Extend(base, [Lw(T1, T0, 20), Csrrw(ZERO, Mscratch, T1)], [Lw(T1, T0, 4), Lw(T2, T0, 8), Lw(T0, T0, 0)]);
      Extend(base, EpilogueCode(), [Mret]);
    }

    method EmitHead()
      requires Code(lines) == []
      modifies this`lines
      ensures Code(lines) == [Jal(ZERO, 0x70)]
    {
      Append(Comment);
      Append(Directive);
      Append(Directive);
      Append(Label);
      EmitJal(ZERO, 0x70);
    }

    /** The head of the preamble, at the start of the listing. */
    method EmitTrapHandler()
      requires Code(lines) == []
      modifies this`lines
      ensures Code(lines) == HandlerCode()
    {
      EmitHead();
      EmitLogging();
      EmitRedirect();
      EmitEpilogue();
      HandlerParts();
    }

    method SetupTrapHandler(address: Imm12)
      modifies this`lines
      ensures Code(lines) == old(Code(lines)) + [Addi(T0, ZERO, address), Csrrw(ZERO, Mtvec, T0)]
    {
      EmitInstruction(Addi(T0, ZERO, address));
      EmitInstruction(Csrrw(ZERO, Mtvec, T0));
    }

    // -------------------------------------------------------------- the finished program

    /** The listing is closed, padded to the last word of the 8 KB instruction memory, and ended there. */
    method Build() returns (built: seq<Line>)
      requires 4 * |Code(lines)| <= 8188
      ensures Code(built) == Padded(Code(lines)) && lines <= built
    {
      CodeAppend(lines, Label);
      CodeAppend(lines + [Label], Comment);
      built := lines + [Label] + [Comment];
      var pc := CurrentPc();
      built := Pad(built, pc, Code(lines), 2047 - |Code(lines)|);
      CodeAppend(built, Data(MPAUSE_WORD));
      built := built + [Data(MPAUSE_WORD)];
    }
  }

  ghost predicate PaddedBy(start: seq<Line>, built: seq<Line>, code: seq<Instr>, n: nat) {
    start <= built && Code(built) == code + Nops(n)
  }

  lemma PadStart(start: seq<Line>, code: seq<Instr>)
    requires Code(start) == code
    ensures PaddedBy(start, start, code, 0)
  {
  }

  lemma PadStep(start: seq<Line>, built: seq<Line>, code: seq<Instr>, n: nat)
    requires PaddedBy(start, built, code, n)
    ensures PaddedBy(start, built + [Inst(Addi(ZERO, ZERO, 0))], code, n + 1)
  {
    NopsGrow(n);
    CodeAppend(built, Inst(Addi(ZERO, ZERO, 0)));
    Join(code, Nops(n), [Addi(ZERO, ZERO, 0)]);
  }

  method Pad(start: seq<Line>, startPc: nat, ghost code: seq<Instr>, ghost missing: nat) returns (built: seq<Line>)
    requires Code(start) == code && startPc + 4 * missing == 8188
    ensures PaddedBy(start, built, code, missing)
  {
    var pc := startPc;
    built := start;
    ghost var n: nat := 0;
    PadStart(start, code);
    while pc < 8188
      invariant n <= missing && pc == startPc + 4 * n && PaddedBy(start, built, code, n)
    {
      PadStep(start, built, code, n);
      built := built + [Inst(Addi(ZERO, ZERO, 0))];
      pc := pc + 4;
      n := n + 1;
    }
  }
}
