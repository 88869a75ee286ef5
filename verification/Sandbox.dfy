/** The address-masking sequence emitted before every sandboxed access, and what it computes for
    every address, access size and machine state. */
module Sandbox {
  import opened Words
  import opened Rv32
  import opened MemoryRegions

  const RESERVED := 512     // log area at the start of the DTCM

  // Registers by their ABI names.
  const ZERO: Reg := 0
  const SP: Reg := 2
  const T1: Reg := 6
  const T2: Reg := 7
  const T3: Reg := 28
  const T4: Reg := 29
  const T5: Reg := 30
  const T6: Reg := 31

  // ---------------------------------------------------------------- loading a constant

  function Upper(v: Word): Imm20 {
    Plus(v, 0x800) / 0x1000
  }

  function Lower(v: Word): Imm12 {
    UpperLower(v);
    Signed(Plus(v, -(Upper(v) * 0x1000)))
  }

  /** The two parts of every constant rebuild it. */
  lemma UpperLower(v: Word)
    ensures -0x800 <= Signed(Plus(v, -(Upper(v) * 0x1000))) < 0x800
    ensures Plus(Upper(v) * 0x1000, Signed(Plus(v, -(Upper(v) * 0x1000)))) == v
  {
    var s := Plus(v, 0x800);
    assert Upper(v) * 0x1000 == s - s % 0x1000;
  }

  /** The two-instruction constant load; the addition is left out when it would add nothing. */
  function LoadConstant(rd: Reg, v: Word): seq<Instr> {
    if Lower(v) != 0 then [Lui(rd, Upper(v)), Addi(rd, rd, Lower(v))] else [Lui(rd, Upper(v))]
  }

  // ---------------------------------------------------------------- blocks of ALU instructions

  function Set(i: Instr, x: Registers): Registers
    requires IsAlu(i)
  {
    Write(x, i.rd, Alu(i, x))
  }

  function AluRun(block: seq<Instr>, x: Registers): Registers
    requires forall k | 0 <= k < |block| :: IsAlu(block[k])
    decreases |block|
  {
    if block == [] then x else AluRun(block[1..], Set(block[0], x))
  }

  predicate AllAlu(block: seq<Instr>) {
    forall k | 0 <= k < |block| :: IsAlu(block[k])
  }

  /** A block of ALU instructions changes the registers and, apart from the pc, nothing else. */
  lemma {:induction false} AluBlock(block: seq<Instr>, m: Machine)
    requires AllAlu(block)
    ensures StraightLine(block) && Effect(block, m) == m.(x := AluRun(block, m.x))
    decreases |block|
  {
    if block != [] {
      AluStep(block[0], m);
      AluBlock(block[1..], m.(pc := Plus(m.pc, 4), x := Set(block[0], m.x)));
    }
  }

  lemma AluStep(i: Instr, m: Machine)
    requires IsAlu(i)
    ensures Exec(i, m) == m.(pc := Plus(m.pc, 4), x := Set(i, m.x))
  {
  }

  lemma {:induction false} AluAppend(a: seq<Instr>, b: seq<Instr>, x: Registers)
    requires AllAlu(a) && AllAlu(b)
    ensures AllAlu(a + b) && AluRun(a + b, x) == AluRun(b, AluRun(a, x))
    decreases |a|
  {
    if a == [] {
      assert a + b == b;
    } else {
      assert (a + b)[1..] == a[1..] + b;
      AluAppend(a[1..], b, Set(a[0], x));
    }
  }

  lemma Alu1(i: Instr, x: Registers)
    requires IsAlu(i)
    ensures AluRun([i], x) == Set(i, x)
  {
  }

  lemma Alu3(i: Instr, j: Instr, k: Instr, x: Registers)
    requires IsAlu(i) && IsAlu(j) && IsAlu(k)
    ensures AluRun([i, j, k], x) == Set(k, Set(j, Set(i, x)))
  {
    AluAppend([i], [j, k], x);
    assert [i] + [j, k] == [i, j, k];
    AluAppend([j], [k], Set(i, x));
    assert [j] + [k] == [j, k];
  }

  lemma LoadConstantSets(rd: Reg, v: Word, x: Registers)
    requires rd != 0
    ensures AllAlu(LoadConstant(rd, v)) && AluRun(LoadConstant(rd, v), x) == x[rd := v]
  {
    UpperLower(v);
    if Lower(v) != 0 {
      AluAppend([Lui(rd, Upper(v))], [Addi(rd, rd, Lower(v))], x);
      assert LoadConstant(rd, v) == [Lui(rd, Upper(v))] + [Addi(rd, rd, Lower(v))];
    }
  }

  // ---------------------------------------------------------------- the emitted sequence

  function Span1(o: Word): (s: Word)
    ensures s > 0
  {
    if 0x8000 > o then 0x8000 - o + 1 else 1
  }

  function Span2(o: Word): (s: Word)
    ensures s > 0
  {
    if 0x40_0000 > o then 0x40_0000 - o + 1 else 1
  }

  function SaveCode(): seq<Instr> {
    [Addi(SP, SP, -16), Sw(T1, SP, 0), Sw(T2, SP, 4)] + [Sw(T3, SP, 8), Sw(T5, SP, 12)]
  }

  function SelectCode(): seq<Instr> {
    [Srli(T5, T6, 29), Slli(T5, T5, 29), Lui(T1, 0x2_0000)] + [And(T5, T5, T1), Sltiu(T1, T5, 1), Sub(T3, ZERO, T1)]
  }

  function SpanCode(o: Word): seq<Instr> {
    LoadConstant(T2, Plus(Span2(o), -(Span1(o) as int))) + [And(T2, T2, T3)] + LoadConstant(T1, Span2(o)) + [Sub(T2, T1, T2)]
  }

  function BaseCode(): seq<Instr> {
    [Lui(T1, 0x10), And(T1, T1, T3), Or(T5, T5, T1)] + [Sub(T6, T6, T5)]
  }

  function ReduceCode(): seq<Instr> {
    [Sltiu(T1, T2, 1), Add(T2, T2, T1), Remu(T6, T6, T2)]
  }

  function ReserveCode(): seq<Instr> {
    [Sltiu(T1, T6, RESERVED), Sub(T1, ZERO, T1), And(T1, T1, T3)]
    + [Addi(T2, ZERO, RESERVED), Sub(T2, T2, T6), And(T2, T2, T1)] + [Add(T6, T6, T2)]
  }

  function ComputeCode(o: Word): seq<Instr> {
    SelectCode() + SpanCode(o) + BaseCode() + ReduceCode()
    + (if Span1(o) > RESERVED then ReserveCode() else []) + [Add(T6, T6, T5)]
  }

  function RestoreCode(): seq<Instr> {
    [Lw(T1, SP, 0), Lw(T2, SP, 4), Lw(T3, SP, 8)] + [Lw(T5, SP, 12), Addi(SP, SP, 16)]
  }

  function MaskCode(o: Word): seq<Instr> {
    SaveCode() + ComputeCode(o) + RestoreCode()
  }

  // ---------------------------------------------------------------- what it computes

  predicate InRegion1(a: Word) {
    a / 0x2000_0000 % 2 == 0
  }

  function Base(a: Word): Word {
    if InRegion1(a) then 0x1_0000 else 0x2000_0000
  }

  function Span(a: Word, o: Word): (s: Word)
    ensures s > 0
  {
    if InRegion1(a) then Span1(o) else Span2(o)
  }

  function Reduced(a: Word, o: Word): (r: Word)
    ensures r < Span(a, o)
  {
    Remainder(Plus(a, -(Base(a) as int)), Span(a, o))
  }

  /** The sandboxed address: reduced into the region, and out of the log area where there is room. */
  function MaskedAddress(a: Word, o: Word): Word {
    var r := Reduced(a, o);
    Plus(Base(a), if InRegion1(a) && Span1(o) > RESERVED && r < RESERVED then RESERVED else r)
  }

  // ---------------------------------------------------------------- section by section

  /** All ones for the first region, zero for the second. */
  function Select(a: Word): Word {
    if InRegion1(a) then 0xFFFF_FFFF else 0
  }

  function Bit29(a: Word): Word {
    if InRegion1(a) then 0 else 0x2000_0000
  }

  lemma AndSelect(v: Word, a: Word)
    ensures BitAnd(v, Select(a)) == if InRegion1(a) then v else 0
  {
    Pow2Values();
    AndOnes(v, 32);
  }

  lemma MaskTopBits(a: Word)
    ensures (a as int) / Pow2(29) == a / 0x2000_0000 < 8
    ensures Wrap((a / 0x2000_0000 as int) * Pow2(29)) == a / 0x2000_0000 * 0x2000_0000
    ensures BitAnd(a / 0x2000_0000 * 0x2000_0000, 0x2000_0000) == Bit29(a)
  {
    Pow2Values();
    AndTopBit(a / 0x2000_0000);
  }

  lemma AndTopBit(h: nat)
    ensures BitAnd(h * 0x2000_0000, 0x2000_0000) == if h % 2 == 0 then 0 else 0x2000_0000
  {
    Pow2Values();
    AndScaled(h, 1, 29);
    AndBit(h);
  }

  lemma SelectSection(x: Registers)
    requires ZeroRegister(x)
    ensures AllAlu(SelectCode())
    ensures AluRun(SelectCode(), x)
            == x[T5 := Bit29(x[T6])][T1 := if InRegion1(x[T6]) then 1 else 0][T3 := Select(x[T6])]
  {
    var y := x[T5 := x[T6] / 0x2000_0000 * 0x2000_0000][T1 := 0x2000_0000];
    AluAppend([Srli(T5, T6, 29), Slli(T5, T5, 29), Lui(T1, 0x2_0000)],
              [And(T5, T5, T1), Sltiu(T1, T5, 1), Sub(T3, ZERO, T1)], x);
    SelectFirst(x);
    SelectSecond(y, x[T6]);
    Overwritten(x, x[T6] / 0x2000_0000 * 0x2000_0000, x[T6]);
  }

  lemma Overwritten(x: Registers, top: Word, a: Word)
    ensures x[T5 := top][T1 := 0x2000_0000][T5 := Bit29(a)][T1 := if InRegion1(a) then 1 else 0][T3 := Select(a)]
            == x[T5 := Bit29(a)][T1 := if InRegion1(a) then 1 else 0][T3 := Select(a)]
  {
  }

  lemma SelectFirst(x: Registers)
    ensures AluRun([Srli(T5, T6, 29), Slli(T5, T5, 29), Lui(T1, 0x2_0000)], x)
            == x[T5 := x[T6] / 0x2000_0000 * 0x2000_0000][T1 := 0x2000_0000]
  {
    var a := x[T6];
    MaskTopBits(a);
    Alu3(Srli(T5, T6, 29), Slli(T5, T5, 29), Lui(T1, 0x2_0000), x);
    assert Set(Srli(T5, T6, 29), x) == x[T5 := a / 0x2000_0000];
    assert Set(Slli(T5, T5, 29), x[T5 := a / 0x2000_0000]) == x[T5 := a / 0x2000_0000 * 0x2000_0000];
  }

  lemma SelectSecond(y: Registers, a: Word)
    requires ZeroRegister(y) && y[T5] == a / 0x2000_0000 * 0x2000_0000 && y[T1] == 0x2000_0000
    ensures AluRun([And(T5, T5, T1), Sltiu(T1, T5, 1), Sub(T3, ZERO, T1)], y)
            == y[T5 := Bit29(a)][T1 := if InRegion1(a) then 1 else 0][T3 := Select(a)]
  {
    MaskTopBits(a);
    Alu3(And(T5, T5, T1), Sltiu(T1, T5, 1), Sub(T3, ZERO, T1), y);
    assert Set(And(T5, T5, T1), y) == y[T5 := Bit29(a)];
    var z := y[T5 := Bit29(a)][T1 := if InRegion1(a) then 1 else 0];
    assert Set(Sltiu(T1, T5, 1), y[T5 := Bit29(a)]) == z;
    assert Set(Sub(T3, ZERO, T1), z) == z[T3 := Select(a)];
  }

  lemma SpanSection(x: Registers, a: Word, o: Word)
    requires x[T3] == Select(a)
    ensures AllAlu(SpanCode(o)) && AluRun(SpanCode(o), x) == x[T2 := Span(a, o)][T1 := Span2(o)]
  {
    var diff := Plus(Span2(o), -(Span1(o) as int));
    AluFour(LoadConstant(T2, diff), And(T2, T2, T3), LoadConstant(T1, Span2(o)), Sub(T2, T1, T2), x);
    LoadConstantSets(T2, diff, x);
    var x2 := x[T2 := if InRegion1(a) then diff else 0];
    SelectSets(x[T2 := diff], T2, T2, a);
    assert x[T2 := diff][T2 := if InRegion1(a) then diff else 0] == x2;
    LoadConstantSets(T1, Span2(o), x2);
    SpanSets(x2[T1 := Span2(o)], a, o);
    assert x2[T1 := Span2(o)][T2 := Span(a, o)] == x[T2 := Span(a, o)][T1 := Span2(o)];
  }

  lemma SelectSets(x: Registers, rd: Reg, rs: Reg, a: Word)
    requires x[T3] == Select(a) && rd != 0
    ensures Set(And(rd, rs, T3), x) == x[rd := if InRegion1(a) then x[rs] else 0]
  {
    AndSelect(x[rs], a);
  }

  lemma SpanSets(x: Registers, a: Word, o: Word)
    requires x[T1] == Span2(o) && x[T2] == if InRegion1(a) then Plus(Span2(o), -(Span1(o) as int)) else 0
    ensures Set(Sub(T2, T1, T2), x) == x[T2 := Span(a, o)]
  {
  }

  lemma AluFour(a: seq<Instr>, i: Instr, b: seq<Instr>, j: Instr, x: Registers)
    requires AllAlu(a) && IsAlu(i) && AllAlu(b) && IsAlu(j)
    ensures AllAlu(a + [i] + b + [j]) && AluRun(a + [i] + b + [j], x) == Set(j, AluRun(b, Set(i, AluRun(a, x))))
  {
    AluAppend(a, [i], x);
    AluAppend(a + [i], b, x);
    AluAppend(a + [i] + b, [j], x);
  }

  lemma BaseSection(x: Registers, a: Word)
    requires x[T3] == Select(a) && x[T5] == Bit29(a) && x[T6] == a
    ensures AllAlu(BaseCode())
    ensures AluRun(BaseCode(), x)
            == x[T1 := if InRegion1(a) then 0x1_0000 else 0][T5 := Base(a)][T6 := Plus(a, -(Base(a) as int))]
  {
    var x2 := x[T1 := if InRegion1(a) then 0x1_0000 else 0];
    AluAppend([Lui(T1, 0x10), And(T1, T1, T3), Or(T5, T5, T1)], [Sub(T6, T6, T5)], x);
    Alu3(Lui(T1, 0x10), And(T1, T1, T3), Or(T5, T5, T1), x);
    SelectSets(x[T1 := 0x1_0000], T1, T1, a);
    assert x[T1 := 0x1_0000][T1 := if InRegion1(a) then 0x1_0000 else 0] == x2;
    BaseSets(x2, a);
    BaseRemoved(x2[T5 := Base(a)], a);
  }

  lemma BaseRemoved(x: Registers, a: Word)
    requires x[T5] == Base(a) && x[T6] == a
    ensures AluRun([Sub(T6, T6, T5)], x) == x[T6 := Plus(a, -(Base(a) as int))]
  {
    Alu1(Sub(T6, T6, T5), x);
  }

  lemma BaseSets(x: Registers, a: Word)
    requires x[T5] == Bit29(a) && x[T1] == if InRegion1(a) then 0x1_0000 else 0
    ensures Set(Or(T5, T5, T1), x) == x[T5 := Base(a)]
  {
  }

  lemma ReduceSection(x: Registers)
    requires x[T2] > 0
    ensures AllAlu(ReduceCode()) && AluRun(ReduceCode(), x) == x[T1 := 0][T6 := Remainder(x[T6], x[T2])]
  {
    Alu3(Sltiu(T1, T2, 1), Add(T2, T2, T1), Remu(T6, T6, T2), x);
    assert Set(Sltiu(T1, T2, 1), x) == x[T1 := 0];
    assert Set(Add(T2, T2, T1), x[T1 := 0]) == x[T1 := 0];
  }

  function Reserve(a: Word, r: Word): Word {
    if InRegion1(a) && r < RESERVED then RESERVED else r
  }

  lemma ReserveSection(x: Registers, a: Word)
    requires ZeroRegister(x) && x[T3] == Select(a)
    ensures AllAlu(ReserveCode())
    ensures var y := AluRun(ReserveCode(), x); y == x[T1 := y[T1]][T2 := y[T2]][T6 := Reserve(a, x[T6])]
  {
    var r := x[T6];
    var mask := LowMask(a, r);
    ReserveFirst(x, a);
    ReserveSecond(x[T1 := mask], r, mask);
    ReserveThird(x[T1 := mask][T2 := if mask == 0 then 0 else Plus(RESERVED, -(r as int))], a, r);
    AluAppend([Sltiu(T1, T6, RESERVED), Sub(T1, ZERO, T1), And(T1, T1, T3)],
              [Addi(T2, ZERO, RESERVED), Sub(T2, T2, T6), And(T2, T2, T1)], x);
    AluAppend([Sltiu(T1, T6, RESERVED), Sub(T1, ZERO, T1), And(T1, T1, T3)]
              + [Addi(T2, ZERO, RESERVED), Sub(T2, T2, T6), And(T2, T2, T1)], [Add(T6, T6, T2)], x);
  }

  /** All ones when the address must be lifted out of the log area. */
  function LowMask(a: Word, r: Word): Word {
    if InRegion1(a) && r < RESERVED then 0xFFFF_FFFF else 0
  }

  lemma ReserveFirst(x: Registers, a: Word)
    requires ZeroRegister(x) && x[T3] == Select(a)
    ensures AluRun([Sltiu(T1, T6, RESERVED), Sub(T1, ZERO, T1), And(T1, T1, T3)], x) == x[T1 := LowMask(a, x[T6])]
  {
    var low: Word := if x[T6] < RESERVED then 0xFFFF_FFFF else 0;
    Alu3(Sltiu(T1, T6, RESERVED), Sub(T1, ZERO, T1), And(T1, T1, T3), x);
    FlagSets(x, RESERVED);
    SelectSets(x[T1 := low], T1, T1, a);
  }

  lemma FlagSets(x: Registers, bound: Imm12)
    requires ZeroRegister(x) && bound >= 0
    ensures Set(Sub(T1, ZERO, T1), Set(Sltiu(T1, T6, bound), x)) == x[T1 := if x[T6] < bound then 0xFFFF_FFFF else 0]
  {
    var flag: Word := if x[T6] < bound then 1 else 0;
    assert Set(Sltiu(T1, T6, bound), x) == x[T1 := flag];
    Negated(flag);
  }

  lemma Negated(flag: Word)
    requires flag <= 1
    ensures Plus(0, -(flag as int)) == if flag == 1 then 0xFFFF_FFFF else 0
  {
  }

  lemma ReserveSecond(x: Registers, r: Word, mask: Word)
    requires ZeroRegister(x) && x[T1] == mask && x[T6] == r && (mask == 0 || mask == 0xFFFF_FFFF)
    ensures AluRun([Addi(T2, ZERO, RESERVED), Sub(T2, T2, T6), And(T2, T2, T1)], x)
            == x[T2 := if mask == 0 then 0 else Plus(RESERVED, -(r as int))]
  {
    var lift := Plus(RESERVED, -(r as int));
    Alu3(Addi(T2, ZERO, RESERVED), Sub(T2, T2, T6), And(T2, T2, T1), x);
    assert Set(Addi(T2, ZERO, RESERVED), x) == x[T2 := RESERVED];
    assert Set(Sub(T2, T2, T6), x[T2 := RESERVED]) == x[T2 := lift];
    AndMask(lift, mask);
  }

  lemma ReserveThird(x: Registers, a: Word, r: Word)
    requires x[T6] == r && x[T2] == if LowMask(a, r) == 0 then 0 else Plus(RESERVED, -(r as int))
    ensures AluRun([Add(T6, T6, T2)], x) == x[T6 := Reserve(a, r)]
  {
    Alu1(Add(T6, T6, T2), x);
  }

  lemma AndMask(v: Word, mask: Word)
    requires mask == 0 || mask == 0xFFFF_FFFF
    ensures BitAnd(v, mask) == if mask == 0 then 0 else v
  {
    Pow2Values();
    AndOnes(v, 32);
  }

  // ---------------------------------------------------------------- the whole sequence

  /** Registers the computation may change. */
  predicate Scratch(r: Reg) {
    r == T1 || r == T2 || r == T3 || r == T5 || r == T6
  }

  lemma AluSix(a: seq<Instr>, b: seq<Instr>, c: seq<Instr>, d: seq<Instr>, e: seq<Instr>, f: seq<Instr>, x: Registers)
    requires AllAlu(a) && AllAlu(b) && AllAlu(c) && AllAlu(d) && AllAlu(e) && AllAlu(f)
    ensures AllAlu(a + b + c + d + e + f)
    ensures AluRun(a + b + c + d + e + f, x) == AluRun(f, AluRun(e, AluRun(d, AluRun(c, AluRun(b, AluRun(a, x))))))
  {
    AluAppend(a, b, x);
    AluAppend(a + b, c, x);
    AluAppend(a + b + c, d, x);
    AluAppend(a + b + c + d, e, x);
    AluAppend(a + b + c + d + e, f, x);
  }

  /** After the base is subtracted: offset in t6, base in t5, span in t2. */
  ghost predicate Prepared(x: Registers, y: Registers, o: Word) {
    && ZeroRegister(y) && y[T6] == Plus(x[T6], -(Base(x[T6]) as int))
    && y[T2] == Span(x[T6], o) && y[T3] == Select(x[T6]) && y[T5] == Base(x[T6])
    && forall r: Reg :: !Scratch(r) ==> y[r] == x[r]
  }

  /** The registers behind the select, span and base sections. */
  function Selected(x: Registers, a: Word): Registers {
    x[T5 := Bit29(a)][T1 := if InRegion1(a) then 1 else 0][T3 := Select(a)]
  }

  function Spanned(x: Registers, a: Word, o: Word): Registers {
    x[T2 := Span(a, o)][T1 := Span2(o)]
  }

  function Based(x: Registers, a: Word): Registers {
    x[T1 := if InRegion1(a) then 0x1_0000 else 0][T5 := Base(a)][T6 := Plus(a, -(Base(a) as int))]
  }

  lemma UpdatesPrepare(x: Registers, a: Word, o: Word)
    requires ZeroRegister(x) && a == x[T6]
    ensures Selected(x, a)[T3] == Select(a)
    ensures var y := Spanned(Selected(x, a), a, o); y[T3] == Select(a) && y[T5] == Bit29(a) && y[T6] == a
    ensures Prepared(x, Based(Spanned(Selected(x, a), a, o), a), o)
  {
  }

  lemma FirstSections(o: Word, x: Registers)
    requires ZeroRegister(x)
    ensures AllAlu(SelectCode()) && AllAlu(SpanCode(o)) && AllAlu(BaseCode())
    ensures Prepared(x, AluRun(BaseCode(), AluRun(SpanCode(o), AluRun(SelectCode(), x))), o)
  {
    var a := x[T6];
    UpdatesPrepare(x, a, o);
    SelectSection(x);
    SpanSection(Selected(x, a), a, o);
    BaseSection(Spanned(Selected(x, a), a, o), a);
  }

  lemma ComputeInSections(o: Word, x: Registers, last: seq<Instr>)
    requires last == if Span1(o) > RESERVED then ReserveCode() else []
    requires AllAlu(SelectCode()) && AllAlu(SpanCode(o)) && AllAlu(BaseCode()) && AllAlu(ReduceCode()) && AllAlu(last)
    ensures AllAlu(ComputeCode(o))
    ensures AluRun(ComputeCode(o), x)
            == AluRun([Add(T6, T6, T5)], AluRun(last, AluRun(ReduceCode(),
                 AluRun(BaseCode(), AluRun(SpanCode(o), AluRun(SelectCode(), x))))))
  {
    AluSix(SelectCode(), SpanCode(o), BaseCode(), ReduceCode(), last, [Add(T6, T6, T5)], x);
  }

  /** The computation leaves the masked address in t6 and only scratch registers changed. */
  lemma ComputeMasks(o: Word, x: Registers)
    requires ZeroRegister(x)
    ensures AllAlu(ComputeCode(o))
    ensures AluRun(ComputeCode(o), x)[T6] == MaskedAddress(x[T6], o)
    ensures forall r: Reg :: !Scratch(r) ==> AluRun(ComputeCode(o), x)[r] == x[r]
  {
    FirstSections(o, x);
    var y := AluRun(BaseCode(), AluRun(SpanCode(o), AluRun(SelectCode(), x)));
    ReduceSection(y);
    LastSections(o, y[T1 := 0][T6 := Reduced(x[T6], o)], x[T6]);
    AluRunEmpty(y[T1 := 0][T6 := Reduced(x[T6], o)]);
    ComputeInSections(o, x, if Span1(o) > RESERVED then ReserveCode() else []);
  }

  lemma AluRunEmpty(x: Registers)
    ensures AluRun([], x) == x
  {
  }

  lemma LastSections(o: Word, x: Registers, a: Word)
    requires ZeroRegister(x) && x[T3] == Select(a) && x[T5] == Base(a) && x[T6] == Reduced(a, o)
    ensures AllAlu(ReserveCode())
    ensures var y := AluRun([Add(T6, T6, T5)], if Span1(o) > RESERVED then AluRun(ReserveCode(), x) else x);
      y[T6] == MaskedAddress(a, o) && forall r: Reg :: !Scratch(r) ==> y[r] == x[r]
  {
    ReserveSection(x, a);
    var y := if Span1(o) > RESERVED then AluRun(ReserveCode(), x) else x;
    Alu1(Add(T6, T6, T5), y);
    assert Plus(y[T6], y[T5]) == Plus(y[T5], y[T6]);
  }
}
