/** The RV32 subset that the generators emit: one instruction at a time over registers, five CSRs and
    a byte memory with wrapping addresses. Code is fetched from its own store. */
module Rv32 {
  import opened Words
  import opened Digits

  type Reg = r: nat | r < 32
  type Registers = x: seq<Word> | |x| == 32 witness seq(32, _ => 0)
  type Memory = m: seq<Byte> | |m| == 0x1_0000_0000 witness seq(0x1_0000_0000, _ => 0)

  /** Immediate operands by their encodable ranges. */
  type Imm20 = i: int | 0 <= i < 0x10_0000
  type Imm12 = i: int | -0x800 <= i < 0x800
  type Offset21 = i: int | -0x10_0000 <= i < 0x10_0000

  datatype Csr = Mscratch | Mtval | Mcause | Mepc | Mtvec

  datatype Instr =
    | Lui(rd: Reg, imm: Imm20)
    | Addi(rd: Reg, rs1: Reg, simm: Imm12)
    | Sltiu(rd: Reg, rs1: Reg, simm: Imm12)
    | Slli(rd: Reg, rs1: Reg, sh: nat)
    | Srli(rd: Reg, rs1: Reg, sh: nat)
    | Add(rd: Reg, rs1: Reg, rs2: Reg)
    | Sub(rd: Reg, rs1: Reg, rs2: Reg)
    | And(rd: Reg, rs1: Reg, rs2: Reg)
    | Or(rd: Reg, rs1: Reg, rs2: Reg)
    | Xor(rd: Reg, rs1: Reg, rs2: Reg)
    | Remu(rd: Reg, rs1: Reg, rs2: Reg)
    | Lw(rd: Reg, rs1: Reg, simm: Imm12)
    | Sw(rs2: Reg, rs1: Reg, simm: Imm12)
    | Beq(rs1: Reg, rs2: Reg, offset: Offset21)
    | Bne(rs1: Reg, rs2: Reg, offset: Offset21)
    | Jal(rd: Reg, offset: Offset21)
    | Csrrw(rd: Reg, csr: Csr, rs1: Reg)
    | Csrrs(rd: Reg, csr: Csr, rs1: Reg)
    | FmvXW(rd: Reg, fs1: Reg)
    | VmvXS(rd: Reg, vs2: Reg)
    | Mret
    | Ebreak
    | Mpause
    | Illegal

  /** The custom instruction that ends a program. */
  const MPAUSE_WORD: Word := 0x0800_0073

  datatype Status = Running | Stopped

  /** `v` is element 0 of each vector register under a 32-bit element width. */
  datatype Machine = Machine(
    pc: Word, x: Registers, f: Registers, v: Registers,
    mscratch: Word, mtval: Word, mcause: Word, mepc: Word, mtvec: Word,
    mem: Memory, status: Status)

  // ---------------------------------------------------------------- memory

  function LowByte(x: int): Byte {
    x % 0x100
  }

  function LoadWord(m: Memory, a: Word): Word {
    (m[a] as int) + 0x100 * (m[Plus(a, 1)] as int) + 0x1_0000 * (m[Plus(a, 2)] as int) + 0x100_0000 * (m[Plus(a, 3)] as int)
  }

  /** Words are little-endian, and go round at the end of the address space. */
  lemma LoadWordIsLittleEndian(m: Memory, a: Word)
    ensures LoadWord(m, a)
            == LittleEndian([m[a], m[(a + 1) % 0x1_0000_0000], m[(a + 2) % 0x1_0000_0000], m[(a + 3) % 0x1_0000_0000]], 0, 4)
  {
    FourBytes([m[a], m[(a + 1) % 0x1_0000_0000], m[(a + 2) % 0x1_0000_0000], m[(a + 3) % 0x1_0000_0000]], 0);
  }

  function StoreWord(m: Memory, a: Word, w: Word): Memory {
    m[a := LowByte(w)][Plus(a, 1) := LowByte(w / 0x100)][Plus(a, 2) := LowByte(w / 0x1_0000)]
     [Plus(a, 3) := LowByte(w / 0x100_0000)]
  }

  lemma BytesOfWord(w: Word)
    ensures (LowByte(w) as int) + 0x100 * (LowByte(w / 0x100) as int) + 0x1_0000 * (LowByte(w / 0x1_0000) as int)
            + 0x100_0000 * (LowByte(w / 0x100_0000) as int) == w
  {
    var q1 := w / 0x100;
    var q2 := q1 / 0x100;
    var q3 := q2 / 0x100;
    assert w / 0x1_0000 == q2;
    assert w / 0x100_0000 == q3;
  }

  /** Offset of `b` from `a` around the address space. */
  function Offset(a: Word, b: Word): Word {
    if a <= b then b - a else b - a + WORD
  }

  lemma OffsetMeaning(a: Word, b: Word, i: nat)
    requires i < 4
    ensures b == Plus(a, i) <==> Offset(a, b) == i
  {
  }

  lemma LoadAfterStore(m: Memory, a: Word, w: Word)
    ensures LoadWord(StoreWord(m, a, w), a) == w
  {
    BytesOfWord(w);
    assert a != Plus(a, 1) && a != Plus(a, 2) && a != Plus(a, 3);
    assert Plus(a, 1) != Plus(a, 2) && Plus(a, 1) != Plus(a, 3) && Plus(a, 2) != Plus(a, 3);
  }

  lemma StoreFrame(m: Memory, a: Word, w: Word, b: Word)
    requires Offset(a, b) >= 4
    ensures StoreWord(m, a, w)[b] == m[b]
  {
    OffsetMeaning(a, b, 0);
    OffsetMeaning(a, b, 1);
    OffsetMeaning(a, b, 2);
    OffsetMeaning(a, b, 3);
  }

  /** Words four or more bytes apart, in either direction around the address space. */
  predicate Apart(a: Word, b: Word) {
    4 <= Offset(a, b) <= 0xFFFF_FFFC
  }

  lemma OffsetOfNext(a: Word, b: Word, j: nat)
    requires Apart(a, b) && j < 4
    ensures Offset(a, Plus(b, j)) >= 4
  {
  }

  lemma LoadAfterOtherStore(m: Memory, a: Word, b: Word, w: Word)
    requires Apart(a, b)
    ensures LoadWord(StoreWord(m, a, w), b) == LoadWord(m, b)
  {
    StoreFrame(m, a, w, b);
    OffsetOfNext(a, b, 1);
    StoreFrame(m, a, w, Plus(b, 1));
    OffsetOfNext(a, b, 2);
    StoreFrame(m, a, w, Plus(b, 2));
    OffsetOfNext(a, b, 3);
    StoreFrame(m, a, w, Plus(b, 3));
  }

  // ---------------------------------------------------------------- instructions

  function Write(x: Registers, rd: Reg, w: Word): Registers {
    if rd == 0 then x else x[rd := w]
  }

  /** The register file as read: x0 is zero. */
  ghost predicate ZeroRegister(x: Registers) {
    x[0] == 0
  }

  function ReadCsr(m: Machine, c: Csr): Word {
    match c
    case Mscratch => m.mscratch
    case Mtval => m.mtval
    case Mcause => m.mcause
    case Mepc => m.mepc
    case Mtvec => m.mtvec
  }

  function WriteCsr(m: Machine, c: Csr, w: Word): Machine {
    match c
    case Mscratch => m.(mscratch := w)
    case Mtval => m.(mtval := w)
    case Mcause => m.(mcause := w)
    case Mepc => m.(mepc := w)
    case Mtvec => m.(mtvec := w)
  }

  function RemU(a: Word, b: Word): Word {
    if b == 0 then a else Remainder(a, b)
  }

  function Remainder(a: Word, b: Word): (r: Word)
    requires b > 0
    ensures r < b
  {
    DivMod(a, b);
    a % b
  }

  function ShiftDown(a: Word, sh: nat): (r: Word)
    ensures r as int == (a as int) / Pow2(sh)
  {
    MulUnit(Pow2(sh), a as int + 1);
    assert (a as int + 1) * Pow2(sh) == Pow2(sh) * (a as int + 1);
    DivBounds(a, Pow2(sh), 0, a as int + 1);
    (a as int) / Pow2(sh)
  }

  /** The destination register's new value for the register-to-register instructions. */
  function Alu(i: Instr, x: Registers): Word
    requires IsAlu(i)
  {
    match i
    case Lui(_, imm) => imm * 0x1000
    case Addi(_, rs1, simm) => Plus(x[rs1], simm)
    case Sltiu(_, rs1, simm) => if x[rs1] < Plus(0, simm) then 1 else 0
    case Slli(_, rs1, sh) => Wrap((x[rs1] as int) * Pow2(sh))
    case Srli(_, rs1, sh) => ShiftDown(x[rs1], sh)
    case Add(_, rs1, rs2) => Plus(x[rs1], x[rs2])
    case Sub(_, rs1, rs2) => Plus(x[rs1], -(x[rs2] as int))
    case And(_, rs1, rs2) => BitAnd(x[rs1], x[rs2])
    case Or(_, rs1, rs2) => OrWord(x[rs1], x[rs2])
    case Xor(_, rs1, rs2) => XorWord(x[rs1], x[rs2])
    case Remu(_, rs1, rs2) => RemU(x[rs1], x[rs2])
  }

  predicate IsAlu(i: Instr) {
    i.Lui? || i.Addi? || i.Sltiu? || i.Slli? || i.Srli? || i.Add? || i.Sub? || i.And? || i.Or? || i.Xor? || i.Remu?
  }

  function Exec(i: Instr, m: Machine): Machine {
    var next := m.(pc := Plus(m.pc, 4));
    if IsAlu(i) then next.(x := Write(m.x, i.rd, Alu(i, m.x)))
    else match i
      case Lw(rd, rs1, simm) => next.(x := Write(m.x, rd, LoadWord(m.mem, Plus(m.x[rs1], simm))))
      case Sw(rs2, rs1, simm) => next.(mem := StoreWord(m.mem, Plus(m.x[rs1], simm), m.x[rs2]))
      case Beq(rs1, rs2, offset) => if m.x[rs1] == m.x[rs2] then m.(pc := Plus(m.pc, offset)) else next
      case Bne(rs1, rs2, offset) => if m.x[rs1] != m.x[rs2] then m.(pc := Plus(m.pc, offset)) else next
      case Jal(rd, offset) => m.(pc := Plus(m.pc, offset), x := Write(m.x, rd, Plus(m.pc, 4)))
      case Csrrw(rd, csr, rs1) => WriteCsr(next, csr, m.x[rs1]).(x := Write(m.x, rd, ReadCsr(m, csr)))
      case Csrrs(rd, csr, rs1) =>
        WriteCsr(next, csr, OrWord(ReadCsr(m, csr), m.x[rs1])).(x := Write(m.x, rd, ReadCsr(m, csr)))
      case FmvXW(rd, fs1) => next.(x := Write(m.x, rd, m.f[fs1]))
      case VmvXS(rd, vs2) => next.(x := Write(m.x, rd, m.v[vs2]))
      case Mret => m.(pc := m.mepc)
      case _ => m.(status := Stopped)
  }

  /** Straight-line execution of a block. */
  function ExecAll(code: seq<Instr>, m: Machine): Machine
    decreases |code|
  {
    if code == [] then m else ExecAll(code[1..], Exec(code[0], m))
  }

  lemma {:induction false} ExecAppend(a: seq<Instr>, b: seq<Instr>, m: Machine)
    ensures ExecAll(a + b, m) == ExecAll(b, ExecAll(a, m))
    decreases |a|
  {
    if a == [] {
      assert a + b == b;
    } else {
      assert (a + b)[1..] == a[1..] + b;
      ExecAppend(a[1..], b, Exec(a[0], m));
    }
  }

  lemma ExecCons(i: Instr, rest: seq<Instr>, m: Machine)
    ensures ExecAll([i] + rest, m) == ExecAll(rest, Exec(i, m))
  {
    assert ([i] + rest)[1..] == rest;
  }

  lemma Exec1(i: Instr, m: Machine)
    ensures ExecAll([i], m) == Exec(i, m)
  {
    ExecCons(i, [], m);
    assert [i] + [] == [i];
  }

  lemma Exec2(i: Instr, j: Instr, m: Machine)
    ensures ExecAll([i, j], m) == Exec(j, Exec(i, m))
  {
    ExecCons(i, [j], m);
    assert [i] + [j] == [i, j];
    Exec1(j, Exec(i, m));
  }

  lemma Exec3(i: Instr, j: Instr, k: Instr, m: Machine)
    ensures ExecAll([i, j, k], m) == Exec(k, Exec(j, Exec(i, m)))
  {
    ExecCons(i, [j, k], m);
    assert [i] + [j, k] == [i, j, k];
    Exec2(j, k, Exec(i, m));
  }

  // ---------------------------------------------------------------- programs

  function Fetch(code: seq<Instr>, pc: Word): Instr {
    if pc % 4 == 0 && pc / 4 < |code| then code[pc / 4] else Illegal
  }

  function Step(code: seq<Instr>, m: Machine): Machine {
    if m.status == Stopped then m else Exec(Fetch(code, m.pc), m)
  }

  function Run(code: seq<Instr>, m: Machine, n: nat): Machine
    decreases n
  {
    if n == 0 then m else Run(code, Step(code, m), n - 1)
  }

  lemma {:induction false} RunAdd(code: seq<Instr>, m: Machine, a: nat, b: nat)
    ensures Run(code, m, a + b) == Run(code, Run(code, m, a), b)
    decreases a
  {
    if a > 0 {
      RunAdd(code, Step(code, m), a - 1, b);
    }
  }

  /** What a block does apart from advancing the pc. */
  function Effect(code: seq<Instr>, m: Machine): Machine {
    ExecAll(code, m).(pc := m.pc)
  }

  predicate StraightLine(code: seq<Instr>) {
    forall i | 0 <= i < |code| :: FallsThrough(code[i])
  }

  /** Straight-line code does not look at the pc. */
  lemma {:induction false} PcFree(code: seq<Instr>, m: Machine, q: Word)
    requires StraightLine(code)
    ensures Effect(code, m.(pc := q)) == Effect(code, m).(pc := q)
    decreases |code|
  {
    if code != [] {
      ExecPcFree(code[0], m, q);
      var n := Exec(code[0], m);
      PcFree(code[1..], n, Plus(q, 4));
    }
  }

  lemma ExecPcFree(i: Instr, m: Machine, q: Word)
    requires FallsThrough(i)
    ensures Exec(i, m.(pc := q)) == Exec(i, m).(pc := Plus(q, 4))
  {
  }

  lemma EffectAppend(a: seq<Instr>, b: seq<Instr>, m: Machine)
    requires StraightLine(b)
    ensures Effect(a + b, m) == Effect(b, Effect(a, m))
  {
    ExecAppend(a, b, m);
    PcFree(b, ExecAll(a, m), m.pc);
  }

  lemma Compose(a: seq<Instr>, b: seq<Instr>, m: Machine, m1: Machine, m2: Machine)
    requires StraightLine(a) && StraightLine(b) && Effect(a, m) == m1 && Effect(b, m1) == m2
    ensures StraightLine(a + b) && Effect(a + b, m) == m2
  {
    EffectAppend(a, b, m);
  }

  predicate FallsThrough(i: Instr) {
    IsAlu(i) || i.Lw? || i.Sw? || i.Csrrw? || i.Csrrs? || i.FmvXW? || i.VmvXS?
  }

  lemma ExecFallsThrough(i: Instr, m: Machine)
    requires FallsThrough(i)
    ensures Exec(i, m).pc == Plus(m.pc, 4) && Exec(i, m).status == m.status
  {
  }

  /** A block without jumps, sitting at word `k` of the program, runs as a block. */
  lemma {:induction false} RunBlock(code: seq<Instr>, block: seq<Instr>, m: Machine, k: nat)
    requires m.status == Running && m.pc == 4 * k && k + |block| <= |code| && 4 * |code| < WORD
    requires forall i | 0 <= i < |block| :: FallsThrough(block[i]) && code[k + i] == block[i]
    ensures Run(code, m, |block|) == ExecAll(block, m)
    ensures ExecAll(block, m).pc == 4 * (k + |block|) && ExecAll(block, m).status == Running
    decreases |block|
  {
    if block != [] {
      var rest := block[1..];
      assert code[k + 0] == block[0];
      StepAt(code, m, k);
      ExecFallsThrough(block[0], m);
      forall i | 0 <= i < |rest|
        ensures FallsThrough(rest[i]) && code[k + 1 + i] == rest[i]
      {
        assert rest[i] == block[i + 1] && code[k + (i + 1)] == block[i + 1];
      }
      RunBlock(code, rest, Exec(block[0], m), k + 1);
    }
  }

  lemma StepAt(code: seq<Instr>, m: Machine, k: nat)
    requires k < |code| && 4 * |code| < WORD && m.status == Running && m.pc == 4 * k
    ensures Step(code, m) == Exec(code[k], m)
  {
    FetchAt(code, k);
  }

  lemma FetchAt(code: seq<Instr>, k: nat)
    requires k < |code| && 4 * |code| < WORD
    ensures Fetch(code, 4 * k) == code[k]
  {
  }
}
