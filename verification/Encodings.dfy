/** The 32-bit encodings that the orchestrator writes by hand, assembled with shifts and ors as it does,
    and a decoder that undoes them. */
module Encodings {
  import opened Words
  import opened Digits
  import opened Rv32

  const EBREAK_WORD: Word := 0x0010_0073
  const NOP_WORD: Word := 0x0000_0013

  // ---------------------------------------------------------------- or of disjoint fields

  lemma OrField(h: nat, b: nat, k: nat, p: nat)
    requires p == Pow2(k) && b < p
    ensures BitOr(h * p, b) == h * p + b
  {
    OrDisjoint(h, b, k);
  }

  lemma FieldPowers()
    ensures Pow2(7) == 0x80 && Pow2(8) == 0x100 && Pow2(12) == 0x1000 && Pow2(15) == 0x8000
    ensures Pow2(20) == 0x10_0000 && Pow2(25) == 0x200_0000 && Pow2(6) == 0x40 && Pow2(1) == 2
  {
    Pow2Values();
    Pow2Add(8, 4);
    Pow2Add(12, 8);
    Pow2Add(20, 5);
    assert Pow2(4) == 16 && Pow2(5) == 32 && Pow2(6) == 64;
  }

  /** The six fields of a register-format word, or-ed together from the left. */
  function Assemble(f7: nat, rs2: nat, rs1: nat, f3: nat, rd: nat, op: nat): nat {
    BelowTop(f7 * 0x200_0000, rs2, rs1, f3, rd, op)
  }

  function FieldSum(f7: nat, rs2: nat, rs1: nat, f3: nat, rd: nat, op: nat): nat {
    f7 * 0x200_0000 + rs2 * 0x10_0000 + rs1 * 0x8000 + f3 * 0x1000 + rd * 0x80 + op
  }

  lemma AssembleAdds(f7: nat, rs2: nat, rs1: nat, f3: nat, rd: nat, op: nat)
    requires f7 < 128 && rs2 < 32 && rs1 < 32 && f3 < 8 && rd < 32 && op < 128
    ensures Assemble(f7, rs2, rs1, f3, rd, op) == FieldSum(f7, rs2, rs1, f3, rd, op) < WORD
  {
    FieldPowers();
    OrField(f7, rs2 * 0x10_0000, 25, 0x200_0000);
    var a := f7 * 32 + rs2;
    OrField(a, rs1 * 0x8000, 20, 0x10_0000);
    var b := a * 32 + rs1;
    OrField(b, f3 * 0x1000, 15, 0x8000);
    var c := b * 8 + f3;
    OrField(c, rd * 0x80, 12, 0x1000);
    OrField(c * 32 + rd, op, 7, 0x80);
    Fields((x: nat, y: nat) => BitOr(x, y), f7, rs2, rs1, f3, rd, op, a, b, c);
  }

  /** The same assembly for any operator that adds each of these disjoint fields. */
  lemma Fields(or: (nat, nat) -> nat, f7: nat, rs2: nat, rs1: nat, f3: nat, rd: nat, op: nat, a: nat, b: nat, c: nat)
    requires f7 < 128 && rs2 < 32 && rs1 < 32 && f3 < 8 && rd < 32 && op < 128
    requires a == f7 * 32 + rs2 && b == a * 32 + rs1 && c == b * 8 + f3
    requires or(f7 * 0x200_0000, rs2 * 0x10_0000) == f7 * 0x200_0000 + rs2 * 0x10_0000
    requires or(a * 0x10_0000, rs1 * 0x8000) == a * 0x10_0000 + rs1 * 0x8000
    requires or(b * 0x8000, f3 * 0x1000) == b * 0x8000 + f3 * 0x1000
    requires or(c * 0x1000, rd * 0x80) == c * 0x1000 + rd * 0x80
    requires or((c * 32 + rd) * 0x80, op) == (c * 32 + rd) * 0x80 + op
    ensures or(or(or(or(or(f7 * 0x200_0000, rs2 * 0x10_0000), rs1 * 0x8000), f3 * 0x1000), rd * 0x80), op)
            == FieldSum(f7, rs2, rs1, f3, rd, op) < WORD
  {
  }

  // ---------------------------------------------------------------- the forms used

  /** The low twelve bits of an immediate. */
  function Low12(imm: Imm12): nat {
    imm % 0x1000
  }

  /** The branch offset is scattered over the two outer fields. */
  function BranchHigh(offset: Word): nat {
    (offset / 0x1000 % 2) * 64 + offset / 0x20 % 64
  }

  function BranchLow(offset: Word): nat {
    (offset / 2 % 16) * 2 + offset / 0x800 % 2
  }

  // The words by their fields.

  function LuiWord(rd: Reg, upper: Imm20): Word {
    upper * 0x1000 + rd * 0x80 + 0x37
  }

  function AddiWord(rd: Reg, rs1: Reg, imm: Imm12): Word {
    Low12(imm) * 0x10_0000 + rs1 * 0x8000 + rd * 0x80 + 0x13
  }

  function BeqWord(rs1: Reg, rs2: Reg, offset: Word): Word {
    FieldSum(BranchHigh(offset), rs2, rs1, 0, BranchLow(offset), 0x63)
  }

  function FmvWord(rd: Reg, fs1: Reg): Word {
    FieldSum(0x70, 0, fs1, 0, rd, 0x53)
  }

  function VmvWord(rd: Reg, vs2: Reg): Word {
    FieldSum(0x21, vs2, 0, 2, rd, 0x57)
  }

  // The words as the emitter ors them together.

  function OrLui(rd: nat, upper: nat): (w: nat)
    requires rd < 32 && upper < 0x10_0000
    ensures w == LuiWord(rd, upper)
  {
    FieldPowers();
    OrField(upper, rd * 0x80, 12, 0x1000);
    OrField(upper * 32 + rd, 0x37, 7, 0x80);
    BitOr(BitOr(upper * 0x1000, rd * 0x80), 0x37)
  }

  function OrAddi(rd: nat, rs1: nat, low: nat): (w: nat)
    requires rd < 32 && rs1 < 32 && low < 0x1000
    ensures w == low * 0x10_0000 + rs1 * 0x8000 + rd * 0x80 + 0x13
  {
    ImmediateAdds(low, rs1, rd);
    BitOr(BitOr(BitOr(BitOr(low * 0x10_0000, rs1 * 0x8000), 0), rd * 0x80), 0x13)
  }

  lemma ImmediateAdds(u: nat, rs1: nat, rd: nat)
    requires u < 0x1000 && rs1 < 32 && rd < 32
    ensures BitOr(BitOr(BitOr(BitOr(u * 0x10_0000, rs1 * 0x8000), 0), rd * 0x80), 0x13)
            == u * 0x10_0000 + rs1 * 0x8000 + rd * 0x80 + 0x13 < WORD
  {
    FieldPowers();
    OrField(u, rs1 * 0x8000, 20, 0x10_0000);
    var a := u * 32 + rs1;
    OrField(a, 0, 15, 0x8000);
    OrField(a * 8, rd * 0x80, 12, 0x1000);
    OrField(a * 256 + rd, 0x13, 7, 0x80);
    ImmediateFields((x: nat, y: nat) => BitOr(x, y), u, rs1, rd, a);
  }

  lemma ImmediateFields(or: (nat, nat) -> nat, u: nat, rs1: nat, rd: nat, a: nat)
    requires u < 0x1000 && rs1 < 32 && rd < 32 && a == u * 32 + rs1
    requires or(u * 0x10_0000, rs1 * 0x8000) == a * 0x8000
    requires or(a * 0x8000, 0) == (a * 8) * 0x1000
    requires or((a * 8) * 0x1000, rd * 0x80) == (a * 256 + rd) * 0x80
    requires or((a * 256 + rd) * 0x80, 0x13) == (a * 256 + rd) * 0x80 + 0x13
    ensures or(or(or(or(u * 0x10_0000, rs1 * 0x8000), 0), rd * 0x80), 0x13)
            == u * 0x10_0000 + rs1 * 0x8000 + rd * 0x80 + 0x13 < WORD
  {
  }

  function OrBeq(rs1: nat, rs2: nat, offset: Word): (w: nat)
    requires rs1 < 32 && rs2 < 32
    ensures w == BeqWord(rs1, rs2, offset)
  {
    var bit12, bits5 := offset / 0x1000 % 2, offset / 0x20 % 64;
    var bits1, bit11 := offset / 2 % 16, offset / 0x800 % 2;
    BranchAdds(rs1, rs2, bit12, bits5, bits1, bit11);
    OrBranch(rs1, rs2, bit12, bits5, bits1, bit11)
  }

  function OrBranch(rs1: nat, rs2: nat, b12: nat, b5: nat, b1: nat, b11: nat): nat {
    var fixed := BitOr(BitOr(BitOr(BitOr(b12 * 0x8000_0000, b5 * 0x200_0000), rs2 * 0x10_0000), rs1 * 0x8000), 0);
    BitOr(BitOr(BitOr(fixed, b1 * 0x100), b11 * 0x80), 0x63)
  }

  lemma BranchAdds(rs1: nat, rs2: nat, b12: nat, b5: nat, b1: nat, b11: nat)
    requires rs1 < 32 && rs2 < 32 && b12 < 2 && b5 < 64 && b1 < 16 && b11 < 2
    ensures OrBranch(rs1, rs2, b12, b5, b1, b11) == FieldSum(b12 * 64 + b5, rs2, rs1, 0, b1 * 2 + b11, 0x63) < WORD
  {
    FieldPowers();
    Pow2Values();
    OrField(b12, b5 * 0x200_0000, 31, 0x8000_0000);
    var h := b12 * 64 + b5;
    OrField(h, rs2 * 0x10_0000, 25, 0x200_0000);
    var a := h * 32 + rs2;
    OrField(a, rs1 * 0x8000, 20, 0x10_0000);
    var b := a * 32 + rs1;
    OrField(b, 0, 15, 0x8000);
    OrField(b * 8, b1 * 0x100, 12, 0x1000);
    var c := b * 128 + b1;
    OrField(c, b11 * 0x80, 8, 0x100);
    OrField(c * 2 + b11, 0x63, 7, 0x80);
    BranchFields((x: nat, y: nat) => BitOr(x, y), rs1, rs2, b12, b5, b1, b11, h, a, b, c);
  }

  lemma BranchFields(
    or: (nat, nat) -> nat, rs1: nat, rs2: nat, b12: nat, b5: nat, b1: nat, b11: nat, h: nat, a: nat, b: nat, c: nat)
    requires rs1 < 32 && rs2 < 32 && b12 < 2 && b5 < 64 && b1 < 16 && b11 < 2
    requires h == b12 * 64 + b5 && a == h * 32 + rs2 && b == a * 32 + rs1 && c == b * 128 + b1
    requires or(b12 * 0x8000_0000, b5 * 0x200_0000) == h * 0x200_0000
    requires or(h * 0x200_0000, rs2 * 0x10_0000) == a * 0x10_0000
    requires or(a * 0x10_0000, rs1 * 0x8000) == b * 0x8000
    requires or(b * 0x8000, 0) == (b * 8) * 0x1000
    requires or((b * 8) * 0x1000, b1 * 0x100) == c * 0x100
    requires or(c * 0x100, b11 * 0x80) == (c * 2 + b11) * 0x80
    requires or((c * 2 + b11) * 0x80, 0x63) == (c * 2 + b11) * 0x80 + 0x63
    ensures var fixed := or(or(or(or(b12 * 0x8000_0000, b5 * 0x200_0000), rs2 * 0x10_0000), rs1 * 0x8000), 0);
      or(or(or(fixed, b1 * 0x100), b11 * 0x80), 0x63) == FieldSum(h, rs2, rs1, 0, b1 * 2 + b11, 0x63) < WORD
  {
  }

  function OrFmv(rd: nat, fs1: nat, f7: nat): (w: nat)
    requires rd < 32 && fs1 < 32 && f7 < 128
    ensures w == FieldSum(f7, 0, fs1, 0, rd, 0x53)
  {
    AssembleAdds(f7, 0, fs1, 0, rd, 0x53);
    Assemble(f7, 0, fs1, 0, rd, 0x53)
  }

  /** funct6 and the unmasked bit share the top field. */
  function OrVmv(rd: nat, vs2: nat, f6: nat, unmasked: nat): (w: nat)
    requires rd < 32 && vs2 < 32 && f6 < 64 && unmasked < 2
    ensures w == FieldSum(f6 * 2 + unmasked, vs2, 0, 2, rd, 0x57)
  {
    TopAdds(f6, unmasked);
    AssembleAdds(f6 * 2 + unmasked, vs2, 0, 2, rd, 0x57);
    BelowTop(BitOr(f6 * 0x400_0000, unmasked * 0x200_0000), vs2, 0, 2, rd, 0x57)
  }

  function BelowTop(top: nat, rs2: nat, rs1: nat, f3: nat, rd: nat, op: nat): nat {
    BitOr(BitOr(BitOr(BitOr(BitOr(top, rs2 * 0x10_0000), rs1 * 0x8000), f3 * 0x1000), rd * 0x80), op)
  }

  lemma TopAdds(f6: nat, unmasked: nat)
    requires f6 < 64 && unmasked < 2
    ensures BitOr(f6 * 0x400_0000, unmasked * 0x200_0000) == (f6 * 2 + unmasked) * 0x200_0000
  {
    FieldPowers();
    Pow2Add(25, 1);
    OrField(f6, unmasked * 0x200_0000, 26, 0x400_0000);
  }

  // ---------------------------------------------------------------- decoding

  function SignExtend12(u: nat): Imm12
    requires u < 0x1000
  {
    if u < 0x800 then u else u - 0x1000
  }

  /** The scattered branch offset, put together and sign extended. */
  function BranchOffset(high: nat, low: nat): int
    requires high < 128 && low < 32
  {
    var u := (high / 64) * 0x1000 + (low % 2) * 0x800 + (high % 64) * 0x20 + (low / 2) * 2;
    if u < 0x1000 then u else u - 0x2000
  }

  function Decode(w: Word): Instr {
    var op, rd, f3 := w % 128, w / 0x80 % 32, w / 0x1000 % 8;
    var rs1, rs2, f7 := w / 0x8000 % 32, w / 0x10_0000 % 32, w / 0x200_0000;
    if w == EBREAK_WORD then Ebreak
    else if w == MPAUSE_WORD then Mpause
    else if op == 0x37 then Lui(rd, w / 0x1000)
    else if op == 0x13 && f3 == 0 then Addi(rd, rs1, SignExtend12(w / 0x10_0000))
    else if op == 0x63 && f3 == 0 then Beq(rs1, rs2, BranchOffset(f7, rd))
    else if op == 0x53 && f7 == 0x70 && rs2 == 0 && f3 == 0 then FmvXW(rd, rs1)
    else if op == 0x57 && f7 == 0x21 && rs1 == 0 && f3 == 2 then VmvXS(rd, rs2)
    else Illegal
  }

  predicate Encodable(i: Instr) {
    || i.Lui? || i.Addi? || i.FmvXW? || i.VmvXS? || i.Ebreak? || i.Mpause?
    || (i.Beq? && -0x1000 <= i.offset < 0x1000 && i.offset % 2 == 0)
  }

  function Encode(i: Instr): Word
    requires Encodable(i)
  {
    match i
    case Lui(rd, imm) => LuiWord(rd, imm)
    case Addi(rd, rs1, simm) => AddiWord(rd, rs1, simm)
    case Beq(rs1, rs2, offset) => BeqWord(rs1, rs2, Plus(0, offset))
    case FmvXW(rd, fs1) => FmvWord(rd, fs1)
    case VmvXS(rd, vs2) => VmvWord(rd, vs2)
    case Ebreak => EBREAK_WORD
    case Mpause => MPAUSE_WORD
  }

  lemma FieldsOf(w: Word, f7: nat, rs2: nat, rs1: nat, f3: nat, rd: nat, op: nat)
    requires f7 < 128 && rs2 < 32 && rs1 < 32 && f3 < 8 && rd < 32 && op < 128
    requires w == FieldSum(f7, rs2, rs1, f3, rd, op)
    ensures w % 128 == op && w / 0x80 % 32 == rd && w / 0x1000 % 8 == f3
    ensures w / 0x8000 % 32 == rs1 && w / 0x10_0000 % 32 == rs2 && w / 0x200_0000 == f7
    ensures w / 0x1000 == f7 * 8192 + rs2 * 256 + rs1 * 8 + f3 && w / 0x10_0000 == f7 * 32 + rs2
  {
    var a := f7 * 32 + rs2;
    var b := a * 32 + rs1;
    var c := b * 8 + f3;
    var d := c * 32 + rd;
    assert w == d * 128 + op;
    assert w / 128 == d;
    assert w / 0x1000 == d / 32 == c;
    assert w / 0x8000 == c / 8 == b;
    assert w / 0x10_0000 == b / 32 == a;
    assert w / 0x200_0000 == a / 32 == f7;
  }

  lemma BranchParts(offset: int)
    requires -0x1000 <= offset < 0x1000 && offset % 2 == 0
    ensures BranchHigh(Plus(0, offset)) < 128 && BranchLow(Plus(0, offset)) < 32
    ensures BranchOffset(BranchHigh(Plus(0, offset)), BranchLow(Plus(0, offset))) == offset
  {
    LowOffset(offset);
    PartsOf(Plus(0, offset), offset);
  }

  lemma PartsOf(u: Word, offset: int)
    requires -0x1000 <= offset < 0x1000 && u % 2 == 0 && u % 0x2000 == if offset >= 0 then offset else offset + 0x2000
    ensures BranchHigh(u) < 128 && BranchLow(u) < 32 && BranchOffset(BranchHigh(u), BranchLow(u)) == offset
  {
    BitsOfOffset(u);
    Gathered(u / 0x1000 % 2, u / 0x20 % 64, u / 2 % 16, u / 0x800 % 2, offset);
  }

  lemma LowOffset(offset: int)
    requires -0x1000 <= offset < 0x1000 && offset % 2 == 0
    ensures Plus(0, offset) % 2 == 0 && Plus(0, offset) % 0x2000 == if offset >= 0 then offset else offset + 0x2000
  {
  }

  lemma Gathered(b12: nat, b5: nat, b1: nat, b11: nat, offset: int)
    requires b12 < 2 && b5 < 64 && b1 < 16 && b11 < 2 && -0x1000 <= offset < 0x1000
    requires b12 * 0x1000 + b11 * 0x800 + b5 * 0x20 + b1 * 2 == if offset >= 0 then offset else offset + 0x2000
    ensures b12 * 64 + b5 < 128 && b1 * 2 + b11 < 32 && BranchOffset(b12 * 64 + b5, b1 * 2 + b11) == offset
  {
    Scattered(b12, b5, b1, b11);
  }

  lemma Scattered(b12: nat, b5: nat, b1: nat, b11: nat)
    requires b12 < 2 && b5 < 64 && b1 < 16 && b11 < 2
    ensures (b12 * 64 + b5) / 64 == b12 && (b12 * 64 + b5) % 64 == b5
    ensures (b1 * 2 + b11) / 2 == b1 && (b1 * 2 + b11) % 2 == b11
  {
  }

  /** The four bit groups of an even 13-bit offset. */
  lemma BitsOfOffset(u: Word)
    requires u % 2 == 0
    ensures (u / 0x1000 % 2) * 0x1000 + (u / 0x800 % 2) * 0x800 + (u / 0x20 % 64) * 0x20 + (u / 2 % 16) * 2 == u % 0x2000
  {
    var a := u / 2;
    var b := a / 16;
    var c := b / 64;
    var d := c / 2;
    assert u / 0x20 == b && u / 0x800 == c && u / 0x1000 == d;
    assert u / 0x2000 == d / 2;
    assert u == ((((d / 2) * 2 + d % 2) * 2 + c % 2) * 64 + b % 64) * 32 + (a % 16) * 2;
  }

  lemma DecodeLui(w: Word, rd: Reg, imm: Imm20, f7: nat, rs2: nat, rs1: nat, f3: nat)
    requires f7 < 128 && rs2 < 32 && rs1 < 32 && f3 < 8 && imm == f7 * 8192 + rs2 * 256 + rs1 * 8 + f3
    requires w == imm * 0x1000 + rd * 0x80 + 0x37
    ensures Decode(w) == Lui(rd, imm)
  {
    FieldsOf(w, f7, rs2, rs1, f3, rd, 0x37);
  }

  lemma UpperFields(imm: Imm20)
    ensures imm / 8192 < 128 && imm == (imm / 8192) * 8192 + (imm / 256 % 32) * 256 + (imm / 8 % 32) * 8 + imm % 8
  {
    var a := imm / 8;
    var b := a / 32;
    assert imm / 256 == b && imm / 8192 == b / 32;
  }

  lemma DecodeAddi(w: Word, rd: Reg, rs1: Reg, imm: Imm12)
    requires w == Low12(imm) * 0x10_0000 + (rs1 as nat) * 0x8000 + (rd as nat) * 0x80 + 0x13
    ensures Decode(w) == Addi(rd, rs1, imm)
  {
    var u := Low12(imm);
    FieldsOf(w, u / 32, u % 32, rs1, 0, rd, 0x13);
  }

  lemma DecodeBeq(w: Word, rs1: Reg, rs2: Reg, high: nat, low: nat, offset: int)
    requires high < 128 && low < 32 && BranchOffset(high, low) == offset && -0x1000 <= offset < 0x1000
    requires w == FieldSum(high, rs2, rs1, 0, low, 0x63)
    ensures Decode(w) == Beq(rs1, rs2, offset)
  {
    FieldsOf(w, high, rs2, rs1, 0, low, 0x63);
  }

  lemma DecodeMoves(w: Word, v: Word, rd: Reg, rs: Reg)
    requires w == FieldSum(0x70, 0, rs, 0, rd, 0x53) && v == FieldSum(0x21, rs, 0, 2, rd, 0x57)
    ensures Decode(w) == FmvXW(rd, rs) && Decode(v) == VmvXS(rd, rs)
  {
    FieldsOf(w, 0x70, 0, rs, 0, rd, 0x53);
    FieldsOf(v, 0x21, rs, 0, 2, rd, 0x57);
  }

  lemma DecodeUpper(rd: Reg, imm: Imm20)
    ensures Decode(LuiWord(rd, imm)) == Lui(rd, imm)
  {
    UpperFields(imm);
    DecodeLui(LuiWord(rd, imm), rd, imm, imm / 8192, imm / 256 % 32, imm / 8 % 32, imm % 8);
  }

  lemma DecodeLower(rd: Reg, rs1: Reg, imm: Imm12)
    ensures Decode(AddiWord(rd, rs1, imm)) == Addi(rd, rs1, imm)
  {
    DecodeAddi(AddiWord(rd, rs1, imm), rd, rs1, imm);
  }

  lemma DecodeBranch(rs1: Reg, rs2: Reg, offset: int)
    requires -0x1000 <= offset < 0x1000 && offset % 2 == 0
    ensures Decode(BeqWord(rs1, rs2, Plus(0, offset))) == Beq(rs1, rs2, offset)
  {
    BranchParts(offset);
    DecodeBeq(BeqWord(rs1, rs2, Plus(0, offset)), rs1, rs2, BranchHigh(Plus(0, offset)), BranchLow(Plus(0, offset)), offset);
  }

  lemma DecodeMove(rd: Reg, rs: Reg)
    ensures Decode(FmvWord(rd, rs)) == FmvXW(rd, rs) && Decode(VmvWord(rd, rs)) == VmvXS(rd, rs)
  {
    DecodeMoves(FmvWord(rd, rs), VmvWord(rd, rs), rd, rs);
  }

  /** Decoding undoes encoding for every form the orchestrator writes. */
  lemma DecodeUndoesEncode(i: Instr)
    requires Encodable(i)
    ensures Decode(Encode(i)) == i
  {
    match i
    case Lui(rd, imm) => DecodeUpper(rd, imm);
    case Addi(rd, rs1, simm) => DecodeLower(rd, rs1, simm);
    case Beq(rs1, rs2, offset) => DecodeBranch(rs1, rs2, offset);
    case FmvXW(rd, fs1) => DecodeMove(rd, fs1);
    case VmvXS(rd, vs2) => DecodeMove(rd, vs2);
    case Ebreak =>
    case Mpause =>
  }

  // ---------------------------------------------------------------- the formats of the architecture

  /** The encodings in the fields that the architecture assigns to each format: U, I and B format, and the two
      register moves with their constant bits. */
  lemma EncodingFields(i: Instr, w: Word)
    requires Encodable(i) && w == Encode(i)
    ensures i.Lui? ==> w % 128 == 0x37 && w / 0x80 % 32 == i.rd && w / 0x1000 == i.imm
    ensures i.Addi? ==>
              w % 128 == 0x13 && w / 0x80 % 32 == i.rd && w / 0x1000 % 8 == 0 && w / 0x8000 % 32 == i.rs1
              && w / 0x10_0000 == i.simm % 0x1000
    ensures i.Beq? ==>
              w % 128 == 0x63 && w / 0x1000 % 8 == 0 && w / 0x8000 % 32 == i.rs1 && w / 0x10_0000 % 32 == i.rs2
              && w / 0x8000_0000 == i.offset / 0x1000 % 2 && w / 0x80 % 2 == i.offset / 0x800 % 2
              && w / 0x200_0000 % 64 == i.offset / 0x20 % 64 && w / 0x100 % 16 == i.offset / 2 % 16
    ensures i.FmvXW? ==> w == 0xE000_0053 + 0x8000 * i.fs1 + 0x80 * i.rd
    ensures i.VmvXS? ==> w == 0x4200_2057 + 0x10_0000 * i.vs2 + 0x80 * i.rd
    ensures (i.Ebreak? ==> w == 0x0010_0073) && (i.Mpause? ==> w == 0x0800_0073)
  {
    match i
    case Lui(rd, imm) =>
      UpperFields(imm);
      FieldsOf(w, imm / 8192, imm / 256 % 32, imm / 8 % 32, imm % 8, rd, 0x37);
    case Addi(rd, rs1, simm) => FieldsOf(w, Low12(simm) / 32, Low12(simm) % 32, rs1, 0, rd, 0x13);
    case Beq(rs1, rs2, offset) =>
      var u := Plus(0, offset);
      BranchParts(offset);
      FieldsOf(w, BranchHigh(u), rs2, rs1, 0, BranchLow(u), 0x63);
      BranchBits(w, u, offset);
    case _ =>
  }

  lemma BranchBits(w: Word, u: Word, offset: int)
    requires -0x1000 <= offset < 0x1000 && u == Plus(0, offset)
    requires w / 0x200_0000 == BranchHigh(u) && w / 0x80 % 32 == BranchLow(u)
    ensures w / 0x8000_0000 == offset / 0x1000 % 2 && w / 0x80 % 2 == offset / 0x800 % 2
    ensures w / 0x200_0000 % 64 == offset / 0x20 % 64 && w / 0x100 % 16 == offset / 2 % 16
  {
    Scattered(u / 0x1000 % 2, u / 0x20 % 64, u / 2 % 16, u / 0x800 % 2);
    OuterBits(w);
    if offset < 0 {
      SameDigits(u, offset, 0x8_0000);
    }
  }

  lemma OuterBits(w: Word)
    ensures w / 0x8000_0000 == (w / 0x200_0000) / 64
    ensures w / 0x100 % 16 == (w / 0x80 % 32) / 2 && w / 0x80 % 2 == (w / 0x80 % 32) % 2
  {
    QuotientOfQuotient(w, 0x200_0000, 64);
    QuotientOfQuotient(w, 0x80, 2);
    FiveBits(w / 0x80);
  }

  lemma FiveBits(d: nat)
    ensures d / 2 % 16 == (d % 32) / 2 && d % 2 == (d % 32) % 2
  {
    SameDigit(d, d % 32, 16 * (d / 32), 2, d / 32, 16);
  }

  /** Numbers that differ by a multiple of 2^13 have the same bits below bit 13. */
  lemma SameDigits(v: int, u: int, h: int)
    requires v == u + h * 0x2000
    ensures v / 0x1000 % 2 == u / 0x1000 % 2 && v / 0x800 % 2 == u / 0x800 % 2
    ensures v / 0x20 % 64 == u / 0x20 % 64 && v / 2 % 16 == u / 2 % 16
  {
    SameDigit(v, u, 2 * h, 0x1000, h, 2);
    SameDigit(v, u, 4 * h, 0x800, 2 * h, 2);
    SameDigit(v, u, 0x100 * h, 0x20, 4 * h, 64);
    SameDigit(v, u, 0x1000 * h, 2, 0x100 * h, 16);
  }

  lemma SameDigit(v: int, u: int, c: int, p: int, k: int, n: int)
    requires p > 0 && n > 0 && v == u + c * p && c == k * n
    ensures v / p % n == u / p % n
  {
    DivMod(u, p);
    Distribute(u / p, c, p);
    ModUnique(v, p, u / p + c);
    DivMod(u / p, n);
    Distribute(u / p / n, k, n);
    ModUnique(u / p + c, n, u / p / n + k);
  }

  /** The decoder accepts no other words: what it decodes encodes to the same word. */
  lemma EncodeUndoesDecode(w: Word)
    requires Decode(w) != Illegal
    ensures Encodable(Decode(w)) && Encode(Decode(w)) == w
  {
    SixFields(w);
    if Decode(w).Beq? {
      BranchPartsBack(w / 0x200_0000, w / 0x80 % 32);
    } else if Decode(w).Addi? {
      LowBack(w / 0x10_0000);
    }
  }

  lemma LowBack(u: nat)
    requires u < 0x1000
    ensures Low12(SignExtend12(u)) == u
  {
  }

  lemma SixFields(w: Word)
    ensures w / 0x200_0000 < 128
    ensures w == FieldSum(w / 0x200_0000, w / 0x10_0000 % 32, w / 0x8000 % 32, w / 0x1000 % 8, w / 0x80 % 32, w % 128)
    ensures w == w / 0x1000 * 0x1000 + w / 0x80 % 32 * 0x80 + w % 128
    ensures w / 0x8000 == w / 0x10_0000 * 32 + w / 0x8000 % 32
    ensures w == w / 0x8000 * 0x8000 + w / 0x1000 % 8 * 0x1000 + w / 0x80 % 32 * 0x80 + w % 128
  {
    var d := w / 0x80;
    var c := d / 32;
    var b := c / 8;
    var a := b / 32;
    assert w / 0x1000 == c && w / 0x8000 == b && w / 0x10_0000 == a && w / 0x200_0000 == a / 32;
  }

  lemma BranchPartsBack(high: nat, low: nat)
    requires high < 128 && low < 32
    ensures var offset := BranchOffset(high, low);
      && -0x1000 <= offset < 0x1000 && offset % 2 == 0
      && BranchHigh(Plus(0, offset)) == high && BranchLow(Plus(0, offset)) == low
  {
    var u := (high / 64) * 0x1000 + (low % 2) * 0x800 + (high % 64) * 0x20 + (low / 2) * 2;
    OffsetDigits(u, high / 64, low % 2, high % 64, low / 2);
    LowOffset(BranchOffset(high, low));
    var v := Plus(0, BranchOffset(high, low));
    SameDigits(v, u, v / 0x2000);
  }

  lemma OffsetDigits(u: nat, b12: nat, b11: nat, b5: nat, b1: nat)
    requires b12 < 2 && b11 < 2 && b5 < 64 && b1 < 16 && u == b12 * 0x1000 + b11 * 0x800 + b5 * 0x20 + b1 * 2
    ensures u < 0x2000 && u % 2 == 0
    ensures u / 0x1000 % 2 == b12 && u / 0x800 % 2 == b11 && u / 0x20 % 64 == b5 && u / 2 % 16 == b1
  {
    assert u / 0x800 == b12 * 2 + b11 && u / 0x20 == (b12 * 2 + b11) * 64 + b5 && u / 2 == ((b12 * 2 + b11) * 64 + b5) * 16 + b1;
  }
}
