/** The masking sequence with its register save area, and the sandboxed load and store built on it. */
module SandboxedAccess {
  import opened Words
  import opened Rv32
  import opened MemoryRegions
  import opened Sandbox

  // ---------------------------------------------------------------- save and restore

  /** The save area: four words from the lowered stack pointer up. */
  function Saved(m: Memory, s: Word, a: Word, b: Word, c: Word, d: Word): Memory {
    StoreWord(StoreWord(StoreWord(StoreWord(m, s, a), Plus(s, 4), b), Plus(s, 8), c), Plus(s, 12), d)
  }

  lemma SaveAreaApart(s: Word)
    ensures Plus(s, 0) == s
    ensures Apart(Plus(s, 4), s) && Apart(Plus(s, 8), s) && Apart(Plus(s, 12), s)
    ensures Apart(Plus(s, 8), Plus(s, 4)) && Apart(Plus(s, 12), Plus(s, 4)) && Apart(Plus(s, 12), Plus(s, 8))
  {
  }

  lemma SavedWords(m: Memory, s: Word, a: Word, b: Word, c: Word, d: Word)
    ensures LoadWord(Saved(m, s, a, b, c, d), s) == a
    ensures LoadWord(Saved(m, s, a, b, c, d), Plus(s, 4)) == b
    ensures LoadWord(Saved(m, s, a, b, c, d), Plus(s, 8)) == c
    ensures LoadWord(Saved(m, s, a, b, c, d), Plus(s, 12)) == d
  {
    var m1 := StoreWord(m, s, a);
    var m2 := StoreWord(m1, Plus(s, 4), b);
    var m3 := StoreWord(m2, Plus(s, 8), c);
    SaveAreaApart(s);
    LoadAfterStore(m, s, a);
    LoadAfterOtherStore(m1, Plus(s, 4), s, b);
    LoadAfterOtherStore(m2, Plus(s, 8), s, c);
    LoadAfterOtherStore(m3, Plus(s, 12), s, d);
    LoadAfterStore(m1, Plus(s, 4), b);
    LoadAfterOtherStore(m2, Plus(s, 8), Plus(s, 4), c);
    LoadAfterOtherStore(m3, Plus(s, 12), Plus(s, 4), d);
    LoadAfterStore(m2, Plus(s, 8), c);
    LoadAfterOtherStore(m3, Plus(s, 12), Plus(s, 8), d);
    LoadAfterStore(m3, Plus(s, 12), d);
  }

  lemma OutsideSaveArea(s: Word, at: Word)
    requires Offset(s, at) >= 16
    ensures Offset(Plus(s, 4), at) >= 4 && Offset(Plus(s, 8), at) >= 4 && Offset(Plus(s, 12), at) >= 4
  {
  }

  lemma SavedFrame(m: Memory, s: Word, a: Word, b: Word, c: Word, d: Word, at: Word)
    requires Offset(s, at) >= 16
    ensures Saved(m, s, a, b, c, d)[at] == m[at]
  {
    OutsideSaveArea(s, at);
    StoreFrame(m, s, a, at);
    var m1 := StoreWord(m, s, a);
    StoreFrame(m1, Plus(s, 4), b, at);
    var m2 := StoreWord(m1, Plus(s, 4), b);
    StoreFrame(m2, Plus(s, 8), c, at);
    StoreFrame(StoreWord(m2, Plus(s, 8), c), Plus(s, 12), d, at);
  }

  lemma SaveFirst(m: Machine)
    ensures Effect([Addi(SP, SP, -16), Sw(T1, SP, 0), Sw(T2, SP, 4)], m)
            == var s := Plus(m.x[SP], -16);
               m.(x := m.x[SP := s], mem := StoreWord(StoreWord(m.mem, s, m.x[T1]), Plus(s, 4), m.x[T2]))
  {
    assert Plus(Plus(m.x[SP], -16), 0) == Plus(m.x[SP], -16);
    Exec3(Addi(SP, SP, -16), Sw(T1, SP, 0), Sw(T2, SP, 4), m);
  }

  lemma SaveSecond(m: Machine)
    ensures Effect([Sw(T3, SP, 8), Sw(T5, SP, 12)], m)
            == var s := m.x[SP];
               m.(mem := StoreWord(StoreWord(m.mem, Plus(s, 8), m.x[T3]), Plus(s, 12), m.x[T5]))
  {
    Exec2(Sw(T3, SP, 8), Sw(T5, SP, 12), m);
  }

  lemma SaveBlock(m: Machine)
    ensures StraightLine(SaveCode())
    ensures Effect(SaveCode(), m)
            == var s := Plus(m.x[SP], -16);
               m.(x := m.x[SP := s], mem := Saved(m.mem, s, m.x[T1], m.x[T2], m.x[T3], m.x[T5]))
  {
    var first, second := [Addi(SP, SP, -16), Sw(T1, SP, 0), Sw(T2, SP, 4)], [Sw(T3, SP, 8), Sw(T5, SP, 12)];
    var s := Plus(m.x[SP], -16);
    var m1 := m.(x := m.x[SP := s], mem := StoreWord(StoreWord(m.mem, s, m.x[T1]), Plus(s, 4), m.x[T2]));
    SaveFirst(m);
    SaveSecond(m1);
    Compose(first, second, m, m1, m1.(mem := Saved(m.mem, s, m.x[T1], m.x[T2], m.x[T3], m.x[T5])));
  }

  lemma LoadSets(n: Machine, rd: Reg, offset: Imm12, v: Word)
    requires rd != 0 && LoadWord(n.mem, Plus(n.x[SP], offset)) == v
    ensures Exec(Lw(rd, SP, offset), n) == n.(pc := Plus(n.pc, 4), x := n.x[rd := v])
  {
  }

  lemma RestoreFirst(n: Machine, s: Word, a: Word, b: Word, c: Word)
    requires n.x[SP] == s && LoadWord(n.mem, s) == a && LoadWord(n.mem, Plus(s, 4)) == b
    requires LoadWord(n.mem, Plus(s, 8)) == c
    ensures Effect([Lw(T1, SP, 0), Lw(T2, SP, 4), Lw(T3, SP, 8)], n) == n.(x := n.x[T1 := a][T2 := b][T3 := c])
  {
    assert Plus(s, 0) == s;
    var pc1 := Plus(n.pc, 4);
    var n1 := n.(pc := pc1, x := n.x[T1 := a]);
    var n2 := n.(pc := Plus(pc1, 4), x := n1.x[T2 := b]);
    LoadSets(n, T1, 0, a);
    LoadSets(n1, T2, 4, b);
    LoadSets(n2, T3, 8, c);
    Exec3(Lw(T1, SP, 0), Lw(T2, SP, 4), Lw(T3, SP, 8), n);
  }

  lemma RestoreSecond(n: Machine, s: Word, d: Word)
    requires n.x[SP] == s && LoadWord(n.mem, Plus(s, 12)) == d
    ensures Effect([Lw(T5, SP, 12), Addi(SP, SP, 16)], n) == n.(x := n.x[T5 := d][SP := Plus(s, 16)])
  {
    LoadSets(n, T5, 12, d);
    Exec2(Lw(T5, SP, 12), Addi(SP, SP, 16), n);
  }

  lemma RestoreBlock(n: Machine, s: Word, a: Word, b: Word, c: Word, d: Word)
    requires n.x[SP] == s && LoadWord(n.mem, s) == a && LoadWord(n.mem, Plus(s, 4)) == b
    requires LoadWord(n.mem, Plus(s, 8)) == c && LoadWord(n.mem, Plus(s, 12)) == d
    ensures StraightLine(RestoreCode())
    ensures Effect(RestoreCode(), n)
            == n.(x := n.x[T1 := a][T2 := b][T3 := c][T5 := d][SP := Plus(s, 16)])
  {
    var first, second := [Lw(T1, SP, 0), Lw(T2, SP, 4), Lw(T3, SP, 8)], [Lw(T5, SP, 12), Addi(SP, SP, 16)];
    RestoreFirst(n, s, a, b, c);
    RestoreSecond(n.(x := n.x[T1 := a][T2 := b][T3 := c]), s, d);
    Compose(first, second, n, n.(x := n.x[T1 := a][T2 := b][T3 := c]),
            n.(x := n.x[T1 := a][T2 := b][T3 := c][T5 := d][SP := Plus(s, 16)]));
  }

  // ---------------------------------------------------------------- the whole sequence

  function SaveAreaOf(m: Machine): Memory {
    Saved(m.mem, Plus(m.x[SP], -16), m.x[T1], m.x[T2], m.x[T3], m.x[T5])
  }

  /** The registers behind the computation, with the stack pointer lowered. */
  function Computed(o: Word, x: Registers): Registers {
    AluRun(ComputeCode(o), x[SP := Plus(x[SP], -16)])
  }

  lemma SaveThenCompute(o: Word, m: Machine)
    requires ZeroRegister(m.x)
    ensures StraightLine(SaveCode() + ComputeCode(o))
    ensures Effect(SaveCode() + ComputeCode(o), m) == m.(x := Computed(o, m.x), mem := SaveAreaOf(m))
  {
    var m1 := m.(x := m.x[SP := Plus(m.x[SP], -16)], mem := SaveAreaOf(m));
    SaveBlock(m);
    ComputeMasks(o, m1.x);
    AluBlock(ComputeCode(o), m1);
    Compose(SaveCode(), ComputeCode(o), m, m1, m1.(x := Computed(o, m.x)));
  }

  lemma RestoreComputed(o: Word, m: Machine)
    requires ZeroRegister(m.x)
    ensures StraightLine(RestoreCode())
    ensures Effect(RestoreCode(), m.(x := Computed(o, m.x), mem := SaveAreaOf(m)))
            == m.(x := m.x[T6 := MaskedAddress(m.x[T6], o)], mem := SaveAreaOf(m))
  {
    var s := Plus(m.x[SP], -16);
    ComputeMasks(o, m.x[SP := s]);
    SavedWords(m.mem, s, m.x[T1], m.x[T2], m.x[T3], m.x[T5]);
    RestoreBlock(m.(x := Computed(o, m.x), mem := SaveAreaOf(m)), s, m.x[T1], m.x[T2], m.x[T3], m.x[T5]);
    RestoredRegisters(m.x, Computed(o, m.x), s, MaskedAddress(m.x[T6], o));
  }

  lemma MaskEffect(o: Word, m: Machine)
    requires ZeroRegister(m.x)
    ensures StraightLine(MaskCode(o))
    ensures Effect(MaskCode(o), m) == m.(x := m.x[T6 := MaskedAddress(m.x[T6], o)], mem := SaveAreaOf(m))
  {
    SaveThenCompute(o, m);
    RestoreComputed(o, m);
    Compose(SaveCode() + ComputeCode(o), RestoreCode(), m, m.(x := Computed(o, m.x), mem := SaveAreaOf(m)),
            m.(x := m.x[T6 := MaskedAddress(m.x[T6], o)], mem := SaveAreaOf(m)));
  }

  /** For every machine state: t6 ends up masked, every other register is restored, and memory
      changes only in the 16 bytes below the stack pointer. */
  lemma MaskSequence(o: Word, m: Machine)
    requires ZeroRegister(m.x)
    ensures StraightLine(MaskCode(o))
    ensures var n := Effect(MaskCode(o), m);
      && n.(mem := m.mem) == m.(x := m.x[T6 := MaskedAddress(m.x[T6], o)])
      && forall at: Word :: Offset(Plus(m.x[SP], -16), at) >= 16 ==> n.mem[at] == m.mem[at]
  {
    MaskEffect(o, m);
    forall at: Word | Offset(Plus(m.x[SP], -16), at) >= 16
      ensures SaveAreaOf(m)[at] == m.mem[at]
    {
      SavedFrame(m.mem, Plus(m.x[SP], -16), m.x[T1], m.x[T2], m.x[T3], m.x[T5], at);
    }
  }

  lemma RestoredRegisters(x: Registers, y: Registers, s: Word, t: Word)
    requires s == Plus(x[SP], -16) && y[SP] == s && y[T6] == t
    requires forall r: Reg :: r != SP && !Scratch(r) ==> y[r] == x[r]
    ensures y[T1 := x[T1]][T2 := x[T2]][T3 := x[T3]][T5 := x[T5]][SP := Plus(s, 16)] == x[T6 := t]
  {
  }

  // ---------------------------------------------------------------- where the address can be

  /** Inside one of the two writable default regions and clear of the log area. */
  predicate Sandboxed(t: Word, o: Word) {
    (0x1_0200 <= t && t as int + o <= 0x1_8000) || (0x2000_0000 <= t && t as int + o <= 0x2040_0000)
  }

  lemma MaskedAddressSandboxed(a: Word, o: Word)
    requires o <= 0x8000 - RESERVED
    ensures Sandboxed(MaskedAddress(a, o), o)
    ensures InRegion1(a) <==> MaskedAddress(a, o) < 0x2000_0000
  {
  }

  /** An access that is sandboxed already keeps its address. */
  lemma SandboxedIsKept(a: Word, o: Word)
    requires Sandboxed(a, o)
    ensures MaskedAddress(a, o) == a
  {
    assert InRegion1(a) <==> a < 0x2000_0000;
    var d := Plus(a, -(Base(a) as int));
    assert d as int == a as int - Base(a);
    ModUnique(d, Span(a, o), 0);
  }

  /** The sequence sandboxes every address exactly for the sizes that leave room beside the log area;
      beyond that, address 0x10000 is already a counterexample. */
  lemma SandboxExact(o: Word)
    ensures (forall a: Word :: Sandboxed(MaskedAddress(a, o), o)) <==> o <= 0x8000 - RESERVED
  {
    if o <= 0x8000 - RESERVED {
      forall a: Word
        ensures Sandboxed(MaskedAddress(a, o), o)
      {
        MaskedAddressSandboxed(a, o);
      }
    } else {
      ModUnique(0, Span1(o), 0);
      assert MaskedAddress(0x1_0000, o) == 0x1_0000;
      assert !Sandboxed(MaskedAddress(0x1_0000, o), o);
    }
  }

  /** A sandboxed access is permitted, for reading and for writing, by the default regions. */
  lemma SandboxedIsPermitted(t: Word, o: Word)
    requires Sandboxed(t, o) && o > 0
    ensures HasPermission(DefaultRegions(), t, o, READ) && HasPermission(DefaultRegions(), t, o, WRITE)
  {
    var regions := DefaultRegions();
    assert Disjoint(regions);
    DisjointPermission(regions, t, o, READ);
    DisjointPermission(regions, t, o, WRITE);
    var i := if t < 0x2000_0000 then 1 else 2;
    assert regions[i].Contains(t, o);
  }

  // ---------------------------------------------------------------- sandboxed load and store

  /** The scratch register of the emitted load. */
  function LoadScratch(rs1: Reg): Reg {
    if rs1 == T6 then T1 else T6
  }

  function LoadCode(rd: Reg, rs1: Reg, imm: Word): seq<Instr> {
    LoadConstant(LoadScratch(rs1), imm) + [Add(T6, rs1, LoadScratch(rs1))] + MaskCode(4) + [Lw(rd, T6, 0)]
  }

  /** A scratch register of the emitted store, different from both operands. */
  function StoreScratch(rs2: Reg, rs1: Reg): (r: Reg)
    ensures r != rs1 && r != rs2 && r in {T1, T2, T3}
  {
    if rs1 == T1 || rs2 == T1 then (if rs1 == T2 || rs2 == T2 then T3 else T2) else T1
  }

  function StoreCode(rs2: Reg, rs1: Reg, imm: Word): seq<Instr> {
    var scratch := StoreScratch(rs2, rs1);
    [Lui(scratch, Upper(imm)), Addi(scratch, scratch, Lower(imm))] + [Add(T6, rs1, scratch), Addi(T4, rs2, 0)]
    + MaskCode(4) + [Sw(T4, T6, 0)]
  }

  /** The address the access goes to. */
  function Target(x: Registers, rs1: Reg, imm: Word): Word {
    MaskedAddress(Plus(x[rs1], imm), 4)
  }

  lemma LoadPrologue(rd: Reg, rs1: Reg, imm: Word, m: Machine)
    requires ZeroRegister(m.x)
    ensures var scratch := LoadScratch(rs1);
      StraightLine(LoadConstant(scratch, imm) + [Add(T6, rs1, scratch)])
      && Effect(LoadConstant(scratch, imm) + [Add(T6, rs1, scratch)], m)
         == m.(x := m.x[scratch := imm][T6 := Plus(m.x[rs1], imm)])
  {
    var scratch := LoadScratch(rs1);
    LoadConstantSets(scratch, imm, m.x);
    AluAppend(LoadConstant(scratch, imm), [Add(T6, rs1, scratch)], m.x);
    Alu1(Add(T6, rs1, scratch), m.x[scratch := imm]);
    AluBlock(LoadConstant(scratch, imm) + [Add(T6, rs1, scratch)], m);
    assert Plus(imm, m.x[rs1]) == Plus(m.x[rs1], imm);
  }

  /** The state behind the emitted load: the save area written, t6 and the scratch register left over,
      the word loaded, and nothing else changed. */
  function Loaded(rd: Reg, rs1: Reg, imm: Word, m: Machine): Machine {
    var x: Registers := m.x[LoadScratch(rs1) := imm];
    var mem := SaveAreaOf(m.(x := x));
    m.(x := Write(x[T6 := Target(m.x, rs1, imm)], rd, LoadWord(mem, Target(m.x, rs1, imm))), mem := mem)
  }

  /** The emitted load reads a permitted, sandboxed word into `rd`; of the other registers only t6,
      and t1 when t6 is the base, change, and of the memory only the save area. */
  lemma SandboxedLoad(rd: Reg, rs1: Reg, imm: Word, m: Machine)
    requires ZeroRegister(m.x)
    ensures StraightLine(LoadCode(rd, rs1, imm)) && Effect(LoadCode(rd, rs1, imm), m) == Loaded(rd, rs1, imm, m)
    ensures var t := Target(m.x, rs1, imm); Sandboxed(t, 4) && HasPermission(DefaultRegions(), t, 4, READ)
    ensures forall at: Word :: Offset(Plus(m.x[SP], -16), at) >= 16 ==> Loaded(rd, rs1, imm, m).mem[at] == m.mem[at]
  {
    var x: Registers := m.x[LoadScratch(rs1) := imm];
    var t := Target(m.x, rs1, imm);
    LoadPrologue(rd, rs1, imm, m);
    MaskedAddressSandboxed(Plus(m.x[rs1], imm), 4);
    SandboxedIsPermitted(t, 4);
    SaveAreaFrame(m.(x := x));
    MaskedLoad(rd, m.(x := x[T6 := Plus(m.x[rs1], imm)]), t);
    assert x[T6 := Plus(m.x[rs1], imm)][T6 := t] == x[T6 := t];
    Compose(LoadConstant(LoadScratch(rs1), imm) + [Add(T6, rs1, LoadScratch(rs1))], MaskCode(4) + [Lw(rd, T6, 0)],
            m, m.(x := x[T6 := Plus(m.x[rs1], imm)]), Loaded(rd, rs1, imm, m));
    assert LoadCode(rd, rs1, imm)
        == (LoadConstant(LoadScratch(rs1), imm) + [Add(T6, rs1, LoadScratch(rs1))]) + (MaskCode(4) + [Lw(rd, T6, 0)]);
  }

  lemma SaveAreaFrame(m: Machine)
    ensures forall at: Word :: Offset(Plus(m.x[SP], -16), at) >= 16 ==> SaveAreaOf(m)[at] == m.mem[at]
  {
    forall at: Word | Offset(Plus(m.x[SP], -16), at) >= 16
      ensures SaveAreaOf(m)[at] == m.mem[at]
    {
      SavedFrame(m.mem, Plus(m.x[SP], -16), m.x[T1], m.x[T2], m.x[T3], m.x[T5], at);
    }
  }

  lemma MaskedLoad(rd: Reg, m: Machine, t: Word)
    requires ZeroRegister(m.x) && t == MaskedAddress(m.x[T6], 4)
    ensures StraightLine(MaskCode(4) + [Lw(rd, T6, 0)])
    ensures Effect(MaskCode(4) + [Lw(rd, T6, 0)], m)
            == m.(x := Write(m.x[T6 := t], rd, LoadWord(SaveAreaOf(m), t)), mem := SaveAreaOf(m))
  {
    var n := m.(x := m.x[T6 := t], mem := SaveAreaOf(m));
    MaskEffect(4, m);
    LoadThroughT6(rd, n, t);
    Compose(MaskCode(4), [Lw(rd, T6, 0)], m, n, n.(x := Write(n.x, rd, LoadWord(n.mem, t))));
  }

  lemma LoadThroughT6(rd: Reg, n: Machine, t: Word)
    requires n.x[T6] == t
    ensures StraightLine([Lw(rd, T6, 0)])
    ensures Effect([Lw(rd, T6, 0)], n) == n.(x := Write(n.x, rd, LoadWord(n.mem, t)))
  {
    Exec1(Lw(rd, T6, 0), n);
    assert Plus(t, 0) == t;
  }

  lemma StorePrologue(rs2: Reg, rs1: Reg, imm: Word, m: Machine)
    requires ZeroRegister(m.x)
    ensures var scratch := StoreScratch(rs2, rs1);
      StraightLine([Lui(scratch, Upper(imm)), Addi(scratch, scratch, Lower(imm))] + [Add(T6, rs1, scratch), Addi(T4, rs2, 0)])
    ensures var scratch := StoreScratch(rs2, rs1);
      var x1 := m.x[scratch := imm][T6 := Plus(m.x[rs1], imm)];
      Effect([Lui(scratch, Upper(imm)), Addi(scratch, scratch, Lower(imm))] + [Add(T6, rs1, scratch), Addi(T4, rs2, 0)], m)
      == m.(x := x1[T4 := x1[rs2]])
  {
    var scratch := StoreScratch(rs2, rs1);
    var a, b := [Lui(scratch, Upper(imm)), Addi(scratch, scratch, Lower(imm))], [Add(T6, rs1, scratch), Addi(T4, rs2, 0)];
    StoreConstant(scratch, imm, m.x);
    StoreOperands(rs2, rs1, scratch, m.x[scratch := imm]);
    AluAppend(a, b, m.x);
    AluBlock(a + b, m);
    assert Plus(imm, m.x[rs1]) == Plus(m.x[rs1], imm);
  }

  lemma StoreConstant(scratch: Reg, imm: Word, x: Registers)
    requires scratch != 0
    ensures AluRun([Lui(scratch, Upper(imm)), Addi(scratch, scratch, Lower(imm))], x) == x[scratch := imm]
  {
    UpperLower(imm);
    AluAppend([Lui(scratch, Upper(imm))], [Addi(scratch, scratch, Lower(imm))], x);
    assert [Lui(scratch, Upper(imm))] + [Addi(scratch, scratch, Lower(imm))]
        == [Lui(scratch, Upper(imm)), Addi(scratch, scratch, Lower(imm))];
  }

  lemma StoreOperands(rs2: Reg, rs1: Reg, scratch: Reg, x: Registers)
    ensures var y := x[T6 := Plus(x[rs1], x[scratch])];
      AluRun([Add(T6, rs1, scratch), Addi(T4, rs2, 0)], x) == y[T4 := y[rs2]]
  {
    AluAppend([Add(T6, rs1, scratch)], [Addi(T4, rs2, 0)], x);
    assert [Add(T6, rs1, scratch)] + [Addi(T4, rs2, 0)] == [Add(T6, rs1, scratch), Addi(T4, rs2, 0)];
  }

  lemma StoreTail(m: Machine, t: Word, v: Word)
    requires m.x[T6] == t && m.x[T4] == v
    ensures StraightLine([Sw(T4, T6, 0)])
    ensures Effect([Sw(T4, T6, 0)], m) == m.(mem := StoreWord(m.mem, t, v))
  {
    Exec1(Sw(T4, T6, 0), m);
    assert Plus(t, 0) == t;
  }

  /** The value the emitted store writes: the address computation precedes the copy of `rs2`. */
  function StoredValue(x: Registers, rs2: Reg, rs1: Reg, imm: Word): Word {
    if rs2 == T6 then Plus(x[rs1], imm) else x[rs2]
  }

  /** The state behind the emitted store: the save area and the word written, t6, t4 and the scratch
      register left over, and nothing else changed. */
  function Stored(rs2: Reg, rs1: Reg, imm: Word, m: Machine): Machine {
    var v := StoredValue(m.x, rs2, rs1, imm);
    var x: Registers := m.x[StoreScratch(rs2, rs1) := imm][T6 := Target(m.x, rs1, imm)][T4 := v];
    m.(x := x, mem := StoreWord(SaveAreaOf(m.(x := x)), Target(m.x, rs1, imm), v))
  }

  lemma StoreEffect(rs2: Reg, rs1: Reg, imm: Word, m: Machine)
    requires ZeroRegister(m.x)
    ensures StraightLine(StoreCode(rs2, rs1, imm)) && Effect(StoreCode(rs2, rs1, imm), m) == Stored(rs2, rs1, imm, m)
  {
    var scratch := StoreScratch(rs2, rs1);
    var prologue := [Lui(scratch, Upper(imm)), Addi(scratch, scratch, Lower(imm))] + [Add(T6, rs1, scratch), Addi(T4, rs2, 0)];
    var t, v := Target(m.x, rs1, imm), StoredValue(m.x, rs2, rs1, imm);
    var m1 := m.(x := m.x[scratch := imm][T6 := Plus(m.x[rs1], imm)][T4 := v]);
    StorePrologue(rs2, rs1, imm, m);
    MaskedStore(m1, t, v);
    assert m1.x[T6 := t] == m.x[scratch := imm][T6 := t][T4 := v];
    Compose(prologue, MaskCode(4) + [Sw(T4, T6, 0)], m, m1, Stored(rs2, rs1, imm, m));
    assert StoreCode(rs2, rs1, imm) == prologue + (MaskCode(4) + [Sw(T4, T6, 0)]);
  }

  /** The emitted store writes one permitted, sandboxed word on top of the save area. */
  lemma SandboxedStore(rs2: Reg, rs1: Reg, imm: Word, m: Machine)
    requires ZeroRegister(m.x)
    ensures StraightLine(StoreCode(rs2, rs1, imm)) && Effect(StoreCode(rs2, rs1, imm), m) == Stored(rs2, rs1, imm, m)
    ensures var t, n := Target(m.x, rs1, imm), Stored(rs2, rs1, imm, m);
      && Sandboxed(t, 4) && HasPermission(DefaultRegions(), t, 4, WRITE)
      && LoadWord(n.mem, t) == StoredValue(m.x, rs2, rs1, imm)
      && forall at: Word :: Offset(Plus(m.x[SP], -16), at) >= 16 && Offset(t, at) >= 4 ==> n.mem[at] == m.mem[at]
  {
    var t, v := Target(m.x, rs1, imm), StoredValue(m.x, rs2, rs1, imm);
    StoreEffect(rs2, rs1, imm, m);
    MaskedAddressSandboxed(Plus(m.x[rs1], imm), 4);
    SandboxedIsPermitted(t, 4);
    StoredWord(m.(x := m.x[StoreScratch(rs2, rs1) := imm][T6 := t][T4 := v]), t, v);
  }

  lemma MaskedStore(m: Machine, t: Word, v: Word)
    requires ZeroRegister(m.x) && t == MaskedAddress(m.x[T6], 4) && m.x[T4] == v
    ensures StraightLine(MaskCode(4) + [Sw(T4, T6, 0)])
    ensures Effect(MaskCode(4) + [Sw(T4, T6, 0)], m) == m.(x := m.x[T6 := t], mem := StoreWord(SaveAreaOf(m), t, v))
  {
    var n := m.(x := m.x[T6 := t], mem := SaveAreaOf(m));
    MaskEffect(4, m);
    StoreTail(n, t, v);
    Compose(MaskCode(4), [Sw(T4, T6, 0)], m, n, n.(mem := StoreWord(n.mem, t, v)));
  }

  lemma StoredWord(m: Machine, t: Word, v: Word)
    ensures var mem := StoreWord(SaveAreaOf(m), t, v);
      && LoadWord(mem, t) == v
      && forall at: Word :: Offset(Plus(m.x[SP], -16), at) >= 16 && Offset(t, at) >= 4 ==> mem[at] == m.mem[at]
  {
    LoadAfterStore(SaveAreaOf(m), t, v);
    SaveAreaFrame(m);
    forall at: Word | Offset(Plus(m.x[SP], -16), at) >= 16 && Offset(t, at) >= 4
      ensures StoreWord(SaveAreaOf(m), t, v)[at] == m.mem[at]
    {
      StoreFrame(SaveAreaOf(m), t, v, at);
    }
  }

  /** The store writes the register's own value in every state exactly when the register is not t6,
      or is the unchanged base itself. */
  lemma StoreKeepsValueExactly(rs2: Reg, rs1: Reg, imm: Word)
    ensures (forall x: Registers | ZeroRegister(x) :: StoredValue(x, rs2, rs1, imm) == x[rs2])
            <==> rs2 != T6 || (rs1 == T6 && imm == 0)
  {
    if rs2 == T6 && !(rs1 == T6 && imm == 0) {
      var zeros: Registers := seq(32, _ => 0);
      var x: Registers := if rs1 == T6 || imm != 0 then zeros else zeros[T6 := 1];
      assert ZeroRegister(x) && StoredValue(x, rs2, rs1, imm) != x[rs2];
    }
  }

  /** A load whose address is sandboxed as it is loads from that very address. */
  lemma LoadFromSandbox(rd: Reg, rs1: Reg, imm: Word, m: Machine, a: Word)
    requires ZeroRegister(m.x) && rd != 0 && a == (m.x[rs1] + imm) % 0x1_0000_0000 && Sandboxed(a, 4)
    ensures var n := Effect(LoadCode(rd, rs1, imm), m);
      && n.x[rd] == LoadWord(n.mem, a)
      && (forall r: Reg | r != rd && r != 31 && !(r == 6 && rs1 == 31) :: n.x[r] == m.x[r])
      && forall at: Word :: Offset(Plus(m.x[2], -16), at) >= 16 ==> n.mem[at] == m.mem[at]
  {
    SandboxedLoad(rd, rs1, imm, m);
    SandboxedIsKept(a, 4);
    assert Target(m.x, rs1, imm) == a;
    LoadedRegisters(rd, rs1, imm, m);
  }

  lemma LoadedRegisters(rd: Reg, rs1: Reg, imm: Word, m: Machine)
    ensures rd != 0 ==> Loaded(rd, rs1, imm, m).x[rd] == LoadWord(Loaded(rd, rs1, imm, m).mem, Target(m.x, rs1, imm))
    ensures forall r: Reg | r != rd && r != T6 && r != LoadScratch(rs1) :: Loaded(rd, rs1, imm, m).x[r] == m.x[r]
  {
  }

  /** A store whose address is sandboxed as it is stores the register, if not t6, at that very address. */
  lemma StoreToSandbox(rs2: Reg, rs1: Reg, imm: Word, m: Machine, a: Word)
    requires ZeroRegister(m.x) && rs2 != 31 && a == (m.x[rs1] + imm) % 0x1_0000_0000 && Sandboxed(a, 4)
    ensures var n := Effect(StoreCode(rs2, rs1, imm), m);
      && LoadWord(n.mem, a) == m.x[rs2]
      && (forall r: Reg | r !in {6, 7, 28, 29, 31} || (r in {6, 7, 28} && (r == rs1 || r == rs2)) :: n.x[r] == m.x[r])
      && forall at: Word :: Offset(Plus(m.x[2], -16), at) >= 16 && Offset(a, at) >= 4 ==> n.mem[at] == m.mem[at]
  {
    SandboxedStore(rs2, rs1, imm, m);
    SandboxedIsKept(a, 4);
    assert Target(m.x, rs1, imm) == a;
    StoredRegisters(rs2, rs1, imm, m);
  }

  lemma StoredRegisters(rs2: Reg, rs1: Reg, imm: Word, m: Machine)
    ensures forall r: Reg | r != T4 && r != T6 && r != StoreScratch(rs2, rs1) :: Stored(rs2, rs1, imm, m).x[r] == m.x[r]
  {
  }
}
