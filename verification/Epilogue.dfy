/** The self-checking epilogue that the orchestrator overwrites a binary's trailing padding with: one
    block of raw words per register with a golden value. */
module Epilogue {
  import opened Words
  import opened Digits
  import opened Wrappers
  import opened Rv32
  import opened Sandbox
  import opened Encodings

  /** One register with its expected value. */
  datatype Check = XCheck(reg: Reg, golden: Word) | FCheck(reg: Reg, golden: Word) | VCheck(reg: Reg, golden: Word)

  datatype RegName = XName(reg: Reg) | FName(reg: Reg)

  /** The recorded final state; a vector register is recorded as its bytes. */
  datatype Terminal = Terminal(registers: map<RegName, Word>, vectors: map<Reg, seq<Byte>>)

  // ---------------------------------------------------------------- binaries

  function ReadWord(bin: seq<Byte>, pc: nat): Word
    requires pc + 4 <= |bin|
  {
    (bin[pc] as int) + 0x100 * (bin[pc + 1] as int) + 0x1_0000 * (bin[pc + 2] as int) + 0x100_0000 * (bin[pc + 3] as int)
  }

  lemma ReadWordIsLittleEndian(bin: seq<Byte>, pc: nat)
    requires pc + 4 <= |bin|
    ensures ReadWord(bin, pc) == LittleEndian(bin, pc, 4)
  {
    FourBytes(bin, pc);
  }

  function PutWord(bin: seq<Byte>, pc: nat, w: Word): (r: seq<Byte>)
    requires pc + 4 <= |bin|
    ensures |r| == |bin|
  {
    bin[pc := LowByte(w)][pc + 1 := LowByte(w / 0x100)][pc + 2 := LowByte(w / 0x1_0000)][pc + 3 := LowByte(w / 0x100_0000)]
  }

  lemma ReadAfterPut(bin: seq<Byte>, pc: nat, w: Word)
    requires pc + 4 <= |bin|
    ensures ReadWord(PutWord(bin, pc, w), pc) == w
  {
    BytesOfWord(w);
  }

  /** The words of a block, placed one after the other. */
  function PutWords(bin: seq<Byte>, pc: nat, words: seq<Word>): (r: seq<Byte>)
    requires pc + 4 * |words| <= |bin|
    ensures |r| == |bin|
    decreases |words|
  {
    if words == [] then bin else PutWords(PutWord(bin, pc, words[0]), pc + 4, words[1..])
  }

  lemma {:induction false} PutWordsFrame(bin: seq<Byte>, pc: nat, words: seq<Word>, i: nat)
    requires pc + 4 * |words| <= |bin| && i < |bin| && !(pc <= i < pc + 4 * |words|)
    ensures PutWords(bin, pc, words)[i] == bin[i]
    decreases |words|
  {
    if words != [] {
      PutWordsFrame(PutWord(bin, pc, words[0]), pc + 4, words[1..], i);
    }
  }

  lemma {:induction false} PutWordsReads(bin: seq<Byte>, pc: nat, words: seq<Word>, i: nat)
    requires pc + 4 * |words| <= |bin| && i < |words|
    ensures ReadWord(PutWords(bin, pc, words), pc + 4 * i) == words[i]
    decreases |words|
  {
    var one := PutWord(bin, pc, words[0]);
    if i == 0 {
      ReadAfterPut(bin, pc, words[0]);
      PutWordsFrame(one, pc + 4, words[1..], pc);
      PutWordsFrame(one, pc + 4, words[1..], pc + 1);
      PutWordsFrame(one, pc + 4, words[1..], pc + 2);
      PutWordsFrame(one, pc + 4, words[1..], pc + 3);
    } else {
      PutWordsReads(one, pc + 4, words[1..], i - 1);
    }
  }

  lemma {:induction false} PutWordsAppend(bin: seq<Byte>, pc: nat, a: seq<Word>, b: seq<Word>)
    requires pc + 4 * |a| + 4 * |b| <= |bin|
    ensures PutWords(bin, pc, a + b) == PutWords(PutWords(bin, pc, a), pc + 4 * |a|, b)
    decreases |a|
  {
    if a == [] {
      assert a + b == b;
    } else {
      assert (a + b)[1..] == a[1..] + b;
      PutWordsAppend(PutWord(bin, pc, a[0]), pc + 4, a[1..], b);
    }
  }

  // ---------------------------------------------------------------- the blocks

  const X30: Reg := 30
  const X31: Reg := 31

  /** The instructions of a block. */
  function Block(c: Check): (code: seq<Instr>)
    ensures |code| >= 4
  {
    match c
    case XCheck(r, g) =>
      [Lui(X31, Upper(g)), Addi(X31, X31, Lower(g))] + [Beq(r, X31, 8), Ebreak]
    case FCheck(r, g) =>
      [FmvXW(X31, r)] + [Lui(X30, Upper(g)), Addi(X30, X30, Lower(g))] + [Beq(X31, X30, 8), Ebreak]
    case VCheck(r, g) =>
      [VmvXS(X31, r)] + [Lui(X30, Upper(g)), Addi(X30, X30, Lower(g))] + [Beq(X31, X30, 8), Ebreak]
  }

  lemma BlockEncodable(c: Check)
    ensures AllEncodable(Block(c))
  {
  }

  predicate AllEncodable(code: seq<Instr>) {
    forall i | 0 <= i < |code| :: Encodable(code[i])
  }

  function EncodeAll(code: seq<Instr>): (words: seq<Word>)
    requires AllEncodable(code)
    ensures |words| == |code|
    decreases |code|
  {
    if code == [] then [] else [Encode(code[0])] + EncodeAll(code[1..])
  }

  lemma {:induction false} EncodeJoin(a: seq<Instr>, b: seq<Instr>)
    requires AllEncodable(a) && AllEncodable(b)
    ensures AllEncodable(a + b) && EncodeAll(a + b) == EncodeAll(a) + EncodeAll(b)
    decreases |a|
  {
    if a == [] {
      assert a + b == b;
    } else {
      assert (a + b)[0] == a[0] && (a + b)[1..] == a[1..] + b;
      EncodeJoin(a[1..], b);
    }
  }

  function DecodeAll(words: seq<Word>): (code: seq<Instr>)
    ensures |code| == |words| && forall i | 0 <= i < |words| :: code[i] == Decode(words[i])
  {
    seq(|words|, i requires 0 <= i < |words| => Decode(words[i]))
  }

  lemma {:induction false} DecodeAllUndoes(code: seq<Instr>)
    requires AllEncodable(code)
    ensures DecodeAll(EncodeAll(code)) == code
    decreases |code|
  {
    if code != [] {
      DecodeUndoesEncode(code[0]);
      DecodeAllUndoes(code[1..]);
      DecodeJoin([Encode(code[0])], EncodeAll(code[1..]));
    }
  }

  lemma DecodeJoin(a: seq<Word>, b: seq<Word>)
    ensures DecodeAll(a + b) == DecodeAll(a) + DecodeAll(b)
  {
  }

  function BlockWords(c: Check): (words: seq<Word>)
    ensures |words| == if c.XCheck? then 4 else 5
  {
    BlockEncodable(c);
    EncodeAll(Block(c))
  }

  /** The raw words decode to the block's instructions. */
  lemma BlockDecodes(c: Check)
    ensures DecodeAll(BlockWords(c)) == Block(c)
  {
    BlockEncodable(c);
    DecodeAllUndoes(Block(c));
  }

  lemma PutTwo(bin: seq<Byte>, pc: nat, v: Word, w: Word)
    requires pc + 8 <= |bin|
    ensures PutWords(bin, pc, [v, w]) == PutWord(PutWord(bin, pc, v), pc + 4, w)
  {
    PutOne(bin, pc, v, [w]);
    PutOne(PutWord(bin, pc, v), pc + 4, w, []);
    assert [v, w] == [v] + [w] && [w] == [w] + [];
  }

  lemma PutOne(bin: seq<Byte>, pc: nat, v: Word, rest: seq<Word>)
    requires pc + 4 + 4 * |rest| <= |bin|
    ensures PutWords(bin, pc, [v] + rest) == PutWords(PutWord(bin, pc, v), pc + 4, rest)
  {
    assert ([v] + rest)[1..] == rest;
  }

  lemma PairWords(i: Instr, j: Instr, v: Word, w: Word)
    requires Encodable(i) && Encodable(j) && Encode(i) == v && Encode(j) == w
    ensures EncodeAll([i, j]) == [v, w]
  {
    assert [i, j][1..] == [j] && [j][1..] == [];
  }

  lemma PutCodeJoin(bin: seq<Byte>, pc: nat, a: seq<Instr>, b: seq<Instr>)
    requires AllEncodable(a) && AllEncodable(b)
    requires pc + 4 * |a| + 4 * |b| <= |bin|
    ensures PutWords(bin, pc, EncodeAll(a + b)) == PutWords(PutWords(bin, pc, EncodeAll(a)), pc + 4 * |a|, EncodeAll(b))
  {
    EncodeJoin(a, b);
    PutWordsAppend(bin, pc, EncodeAll(a), EncodeAll(b));
  }

  // ---------------------------------------------------------------- which checks, in which order

  // The golden value of register `i` of each kind, if it is checked.

  function XGolden(t: Terminal, i: nat): Option<Word> {
    if i < 30 && XName(i) in t.registers then Some(t.registers[XName(i)]) else None
  }

  function FGolden(t: Terminal, i: nat): Option<Word> {
    if i < 32 && FName(i) in t.registers then Some(t.registers[FName(i)]) else None
  }

  function VGolden(t: Terminal, i: nat): Option<Word> {
    if i < 32 && i in t.vectors && |t.vectors[i]| >= 4 then Some(ReadWord(t.vectors[i], 0)) else None
  }

  function XChecks(t: Terminal, i: nat): seq<Check>
    requires i <= 30
    decreases 30 - i, t
  {
    if i == 30 then []
    else (match XGolden(t, i) case Some(golden) => [XCheck(i, golden)] case None => []) + XChecks(t, i + 1)
  }

  function FChecks(t: Terminal, i: nat): seq<Check>
    requires i <= 32
    decreases 32 - i, t
  {
    if i == 32 then []
    else (match FGolden(t, i) case Some(golden) => [FCheck(i, golden)] case None => []) + FChecks(t, i + 1)
  }

  function VChecks(t: Terminal, i: nat): seq<Check>
    requires i <= 32
    decreases 32 - i, t
  {
    if i == 32 then []
    else (match VGolden(t, i) case Some(golden) => [VCheck(i, golden)] case None => []) + VChecks(t, i + 1)
  }

  /** X registers 1 to 29, then all F registers, then all V registers with at least one element. */
  function AllChecks(t: Terminal): seq<Check> {
    XChecks(t, 1) + FChecks(t, 0) + VChecks(t, 0)
  }

  lemma {:induction false} XChecksAreX(t: Terminal, i: nat)
    requires i <= 30
    ensures forall c | c in XChecks(t, i) :: c.XCheck? && c.reg < 30
    decreases 30 - i, t
  {
    if i < 30 {
      XChecksAreX(t, i + 1);
    }
  }

  lemma {:induction false} OthersAreFAndV(t: Terminal, i: nat)
    requires i <= 32
    ensures forall c | c in FChecks(t, i) :: c.FCheck?
    ensures forall c | c in VChecks(t, i) :: c.VCheck?
    decreases 32 - i, t
  {
    if i < 32 {
      OthersAreFAndV(t, i + 1);
    }
  }

  /** Registers from `i` on, in ascending order. */
  ghost predicate Ascending(cs: seq<Check>, i: nat) {
    && (forall p | 0 <= p < |cs| :: i <= cs[p].reg)
    && forall p, q | 0 <= p < q < |cs| :: cs[p].reg < cs[q].reg
  }

  lemma AscendingFrom(c: Check, rest: seq<Check>, i: nat)
    requires c.reg == i && Ascending(rest, i + 1)
    ensures Ascending([c] + rest, i)
  {
    var cs := [c] + rest;
    assert forall p | 1 <= p < |cs| :: cs[p] == rest[p - 1];
  }

  lemma AscendingFromNext(rest: seq<Check>, i: nat)
    requires Ascending(rest, i + 1)
    ensures Ascending([] + rest, i)
  {
    assert [] + rest == rest;
  }

  lemma Prefixed(c: Check, rest: seq<Check>, d: Check)
    ensures d in [c] + rest <==> d == c || d in rest
  {
  }

  lemma {:induction false} XRecorded(t: Terminal, i: nat, r: Reg, g: Word)
    requires i <= 30
    ensures XCheck(r, g) in XChecks(t, i) <==> i <= r < 30 && XName(r) in t.registers && t.registers[XName(r)] == g
    decreases 30 - i, t
  {
    if i < 30 {
      XRecorded(t, i + 1, r, g);
      match XGolden(t, i)
      case Some(golden) => Prefixed(XCheck(i, golden), XChecks(t, i + 1), XCheck(r, g));
      case None => assert [] + XChecks(t, i + 1) == XChecks(t, i + 1);
    }
  }

  lemma {:induction false} XAscending(t: Terminal, i: nat)
    requires i <= 30
    ensures Ascending(XChecks(t, i), i)
    decreases 30 - i, t
  {
    if i < 30 {
      XAscending(t, i + 1);
      match XGolden(t, i)
      case Some(golden) => AscendingFrom(XCheck(i, golden), XChecks(t, i + 1), i);
      case None => AscendingFromNext(XChecks(t, i + 1), i);
    }
  }

  lemma {:induction false} FRecorded(t: Terminal, i: nat, r: Reg, g: Word)
    requires i <= 32
    ensures FCheck(r, g) in FChecks(t, i) <==> i <= r && FName(r) in t.registers && t.registers[FName(r)] == g
    decreases 32 - i, t
  {
    if i < 32 {
      FRecorded(t, i + 1, r, g);
      match FGolden(t, i)
      case Some(golden) => Prefixed(FCheck(i, golden), FChecks(t, i + 1), FCheck(r, g));
      case None => assert [] + FChecks(t, i + 1) == FChecks(t, i + 1);
    }
  }

  lemma {:induction false} FAscending(t: Terminal, i: nat)
    requires i <= 32
    ensures Ascending(FChecks(t, i), i)
    decreases 32 - i, t
  {
    if i < 32 {
      FAscending(t, i + 1);
      match FGolden(t, i)
      case Some(golden) => AscendingFrom(FCheck(i, golden), FChecks(t, i + 1), i);
      case None => AscendingFromNext(FChecks(t, i + 1), i);
    }
  }

  lemma {:induction false} VRecorded(t: Terminal, i: nat, r: Reg, g: Word)
    requires i <= 32
    ensures VCheck(r, g) in VChecks(t, i)
            <==> i <= r && r in t.vectors && 4 <= |t.vectors[r]| && ReadWord(t.vectors[r], 0) == g
    decreases 32 - i, t
  {
    if i < 32 {
      VRecorded(t, i + 1, r, g);
      match VGolden(t, i)
      case Some(golden) => Prefixed(VCheck(i, golden), VChecks(t, i + 1), VCheck(r, g));
      case None => assert [] + VChecks(t, i + 1) == VChecks(t, i + 1);
    }
  }

  lemma {:induction false} VAscending(t: Terminal, i: nat)
    requires i <= 32
    ensures Ascending(VChecks(t, i), i)
    decreases 32 - i, t
  {
    if i < 32 {
      VAscending(t, i + 1);
      match VGolden(t, i)
      case Some(golden) => AscendingFrom(VCheck(i, golden), VChecks(t, i + 1), i);
      case None => AscendingFromNext(VChecks(t, i + 1), i);
    }
  }

  /** A check is made exactly of what the terminal state records: of x1 to x29 and every F register their
      recorded values, of every V register with a whole first element that element. */
  lemma ChecksAreRecorded(t: Terminal, r: Reg, g: Word)
    ensures XCheck(r, g) in AllChecks(t) <==> 1 <= r < 30 && XName(r) in t.registers && t.registers[XName(r)] == g
    ensures FCheck(r, g) in AllChecks(t) <==> FName(r) in t.registers && t.registers[FName(r)] == g
    ensures VCheck(r, g) in AllChecks(t)
            <==> r in t.vectors && 4 <= |t.vectors[r]| && LittleEndian(t.vectors[r], 0, 4) == g
  {
    XRecorded(t, 1, r, g);
    FRecorded(t, 0, r, g);
    VRecorded(t, 0, r, g);
    if r in t.vectors && 4 <= |t.vectors[r]| {
      ReadWordIsLittleEndian(t.vectors[r], 0);
    }
    XChecksAreX(t, 1);
    OthersAreFAndV(t, 0);
    OneOfThree(XChecks(t, 1), FChecks(t, 0), VChecks(t, 0), XCheck(r, g));
    OneOfThree(XChecks(t, 1), FChecks(t, 0), VChecks(t, 0), FCheck(r, g));
    OneOfThree(XChecks(t, 1), FChecks(t, 0), VChecks(t, 0), VCheck(r, g));
  }

  lemma OneOfThree(x: seq<Check>, f: seq<Check>, v: seq<Check>, c: Check)
    ensures c in x + f + v <==> c in x || c in f || c in v
  {
  }

  /** The checks are made in order: X before F before V, and ascending, so each register once. */
  lemma ChecksInOrder(t: Terminal, p: nat, q: nat)
    requires p < q < |AllChecks(t)|
    ensures var a, b := AllChecks(t)[p], AllChecks(t)[q];
      || (a.XCheck? && !b.XCheck?) || (a.FCheck? && b.VCheck?)
      || (a.reg < b.reg && ((a.XCheck? && b.XCheck?) || (a.FCheck? && b.FCheck?) || (a.VCheck? && b.VCheck?)))
  {
    XAscending(t, 1);
    FAscending(t, 0);
    VAscending(t, 0);
    XChecksAreX(t, 1);
    OthersAreFAndV(t, 0);
    ListsInOrder(XChecks(t, 1), FChecks(t, 0), VChecks(t, 0), p, q);
  }

  lemma ListsInOrder(x: seq<Check>, f: seq<Check>, v: seq<Check>, p: nat, q: nat)
    requires Ascending(x, 1) && Ascending(f, 0) && Ascending(v, 0) && p < q < |x + f + v|
    requires (forall c | c in x :: c.XCheck?) && (forall c | c in f :: c.FCheck?) && (forall c | c in v :: c.VCheck?)
    ensures var a, b := (x + f + v)[p], (x + f + v)[q];
      || (a.XCheck? && !b.XCheck?) || (a.FCheck? && b.VCheck?)
      || (a.reg < b.reg && ((a.XCheck? && b.XCheck?) || (a.FCheck? && b.FCheck?) || (a.VCheck? && b.VCheck?)))
  {
    PickFromThree(x, f, v, p);
    PickFromThree(x, f, v, q);
  }

  lemma PickFromThree(x: seq<Check>, f: seq<Check>, v: seq<Check>, p: nat)
    requires p < |x + f + v|
    ensures (x + f + v)[p] == if p < |x| then x[p] else if p < |x| + |f| then f[p - |x|] else v[p - |x| - |f|]
    ensures if p < |x| then (x + f + v)[p] in x else if p < |x| + |f| then (x + f + v)[p] in f else (x + f + v)[p] in v
  {
  }

  // ---------------------------------------------------------------- writing blocks

  /** A binary with a write position. */
  datatype Cursor = Cursor(bin: seq<Byte>, pc: nat)

  function Put(cur: Cursor, block: seq<Word>): Cursor
    requires cur.pc + 4 * |block| <= |cur.bin|
  {
    Cursor(PutWords(cur.bin, cur.pc, block), cur.pc + 4 * |block|)
  }

  /** Writes blocks until one does not fit. */
  function EmitBlocks(cur: Cursor, blocks: seq<seq<Word>>): Cursor
    decreases |blocks|
  {
    if blocks == [] || cur.pc + 4 * |blocks[0]| > |cur.bin| then cur
    else EmitBlocks(Put(cur, blocks[0]), blocks[1..])
  }

  /** How many blocks fit into `space` bytes. */
  function Fitting(blocks: seq<seq<Word>>, space: int): (n: nat)
    ensures n <= |blocks|
    decreases |blocks|
  {
    if blocks == [] || 4 * |blocks[0]| > space then 0 else 1 + Fitting(blocks[1..], space - 4 * |blocks[0]|)
  }

  function Flatten<T>(parts: seq<seq<T>>): seq<T>
    decreases |parts|
  {
    if parts == [] then [] else parts[0] + Flatten(parts[1..])
  }

  /** No block is written partially: exactly the words of the fitting blocks are placed. */
  lemma {:induction false} EmitIsFitting(cur: Cursor, blocks: seq<seq<Word>>)
    requires cur.pc <= |cur.bin|
    ensures var words := Flatten(blocks[..Fitting(blocks, |cur.bin| - cur.pc)]);
      cur.pc + 4 * |words| <= |cur.bin| && EmitBlocks(cur, blocks) == Put(cur, words)
    decreases |blocks|
  {
    var space := |cur.bin| - cur.pc;
    if blocks != [] && 4 * |blocks[0]| <= space {
      var n := Fitting(blocks[1..], space - 4 * |blocks[0]|);
      EmitIsFitting(Put(cur, blocks[0]), blocks[1..]);
      PutTwice(cur, blocks[0], Flatten(blocks[1..][..n]));
      FlattenPrefix(blocks, n);
    }
  }

  lemma FlattenPrefix<T>(parts: seq<seq<T>>, n: nat)
    requires n < |parts|
    ensures Flatten(parts[..n + 1]) == parts[0] + Flatten(parts[1..][..n])
  {
    assert parts[..n + 1][0] == parts[0] && parts[..n + 1][1..] == parts[1..][..n];
  }

  lemma PutTwice(cur: Cursor, a: seq<Word>, b: seq<Word>)
    requires cur.pc + 4 * |a| + 4 * |b| <= |cur.bin|
    ensures Put(Put(cur, a), b) == Put(cur, a + b)
  {
    PutWordsAppend(cur.bin, cur.pc, a, b);
  }

  /** Emitting list after list is emitting the joined list, when later blocks are not smaller. */
  lemma {:induction false} EmitAppend(cur: Cursor, a: seq<seq<Word>>, b: seq<seq<Word>>)
    requires forall i, j | 0 <= i < |a| && 0 <= j < |b| :: |a[i]| <= |b[j]|
    ensures EmitBlocks(EmitBlocks(cur, a), b) == EmitBlocks(cur, a + b)
    decreases |a|
  {
    if a == [] {
      assert a + b == b;
    } else if cur.pc + 4 * |a[0]| > |cur.bin| {
      assert (a + b)[0] == a[0];
      assert b != [] ==> |a[0]| <= |b[0]|;
    } else {
      assert (a + b)[0] == a[0] && (a + b)[1..] == a[1..] + b;
      EmitAppend(Put(cur, a[0]), a[1..], b);
    }
  }

  lemma EmitOne(cur: Cursor, block: seq<Word>, rest: seq<seq<Word>>)
    ensures EmitBlocks(cur, [block] + rest)
            == if cur.pc + 4 * |block| > |cur.bin| then cur else EmitBlocks(Put(cur, block), rest)
  {
    assert ([block] + rest)[1..] == rest;
  }

  function Blocks(checks: seq<Check>): (blocks: seq<seq<Word>>)
    ensures |blocks| == |checks|
    decreases |checks|
  {
    if checks == [] then [] else [BlockWords(checks[0])] + Blocks(checks[1..])
  }

  lemma {:induction false} BlockAt(checks: seq<Check>, i: nat)
    requires i < |checks|
    ensures Blocks(checks)[i] == BlockWords(checks[i])
  {
    if i > 0 {
      BlockAt(checks[1..], i - 1);
    }
  }

  function Code(checks: seq<Check>): seq<Instr>
    decreases |checks|
  {
    if checks == [] then [] else Block(checks[0]) + Code(checks[1..])
  }

  lemma {:induction false} CodeOfBlocks(checks: seq<Check>)
    ensures DecodeAll(Flatten(Blocks(checks))) == Code(checks)
    decreases |checks|
  {
    if checks != [] {
      BlockDecodes(checks[0]);
      CodeOfBlocks(checks[1..]);
      DecodeJoin(BlockWords(checks[0]), Flatten(Blocks(checks[1..])));
    }
  }

  // ---------------------------------------------------------------- the finalizer

  predicate IsPadding(w: Word) {
    w == MPAUSE_WORD || w == NOP_WORD
  }

  /** Padding words are those that decode to a nop or an mpause. */
  lemma PaddingDecodes(w: Word)
    ensures IsPadding(w) <==> Decode(w) == Addi(0, 0, 0) || Decode(w) == Mpause
  {
    if Decode(w) == Addi(0, 0, 0) || Decode(w) == Mpause {
      EncodeUndoesDecode(w);
    }
  }

  /** The first byte of the trailing run of padding words. */
  function NopStart(bin: seq<Byte>, end: nat): (start: nat)
    requires end <= |bin|
    ensures start <= end
  {
    if end >= 4 && IsPadding(ReadWord(bin, end - 4)) then NopStart(bin, end - 4) else end
  }

  method FindNopStart(binary: array<Byte>) returns (start: nat)
    ensures start == NopStart(binary[..], binary.Length)
  {
    start := binary.Length;
    while start >= 4
      invariant start <= binary.Length && NopStart(binary[..], start) == NopStart(binary[..], binary.Length)
    {
      var inst := ReadWord(binary[..], start - 4);
      if inst == MPAUSE_WORD || inst == NOP_WORD {
        start := start - 4;
      } else {
        break;
      }
    }
  }

  method EmitInst(binary: array<Byte>, pc: nat, inst: Word) returns (next: nat)
    modifies binary
    ensures if pc + 4 <= binary.Length then binary[..] == PutWord(old(binary[..]), pc, inst) && next == pc + 4
            else binary[..] == old(binary[..]) && next == pc
  {
    next := pc;
    if pc + 4 <= binary.Length {
      binary[pc] := LowByte(inst);
      binary[pc + 1] := LowByte(inst / 0x100);
      binary[pc + 2] := LowByte(inst / 0x1_0000);
      binary[pc + 3] := LowByte(inst / 0x100_0000);
      next := pc + 4;
    }
  }

  method EmitPair(binary: array<Byte>, pc: nat, v: Word, w: Word) returns (next: nat)
    requires pc + 8 <= binary.Length
    modifies binary
    ensures next == pc + 8 && binary[..] == PutWords(old(binary[..]), pc, [v, w])
  {
    PutTwo(binary[..], pc, v, w);
    next := EmitInst(binary, pc, v);
    next := EmitInst(binary, next, w);
  }

  /** The upper and lower parts of a golden value, as the emitter computes and combines them. */
  method GoldenWords(scratch: Reg, golden: Word) returns (lui: Word, addi: Word)
    ensures EncodeAll([Lui(scratch, Upper(golden)), Addi(scratch, scratch, Lower(golden))]) == [lui, addi]
  {
    var upper20 := Plus(golden, 0x800) / 0x1000;
    var lower12 := Signed(Plus(golden, -(upper20 * 0x1000)));
    UpperLower(golden);
    var uLower12 := lower12 % 0x1000;
    lui := OrLui(scratch, upper20);
    addi := OrAddi(scratch, scratch, uLower12);
    PairWords(Lui(scratch, Upper(golden)), Addi(scratch, scratch, Lower(golden)), lui, addi);
  }

  method TestWords(rs1: Reg, rs2: Reg, offset: Word) returns (beq: Word)
    requires offset < 0x1000 && offset % 2 == 0
    ensures EncodeAll([Beq(rs1, rs2, offset), Ebreak]) == [beq, EBREAK_WORD]
  {
    beq := OrBeq(rs1, rs2, offset);
    assert Plus(0, offset) == offset;
    PairWords(Beq(rs1, rs2, offset), Ebreak, beq, EBREAK_WORD);
  }

  /** The two instructions that rebuild a golden value in a scratch register. */
  method EmitGolden(binary: array<Byte>, pc: nat, scratch: Reg, golden: Word) returns (next: nat)
    requires pc + 8 <= binary.Length
    modifies binary
    ensures next == pc + 8
    ensures binary[..]
            == PutWords(old(binary[..]), pc, EncodeAll([Lui(scratch, Upper(golden)), Addi(scratch, scratch, Lower(golden))]))
  {
    var lui, addi := GoldenWords(scratch, golden);
    next := EmitPair(binary, pc, lui, addi);
  }

  /** The branch over the block's own ebreak. */
  method EmitTest(binary: array<Byte>, pc: nat, rs1: Reg, rs2: Reg) returns (next: nat)
    requires pc + 8 <= binary.Length
    modifies binary
    ensures next == pc + 8
    ensures binary[..] == PutWords(old(binary[..]), pc, EncodeAll([Beq(rs1, rs2, 8), Ebreak]))
  {
    var beq := TestWords(rs1, rs2, 8);
    next := EmitPair(binary, pc, beq, EBREAK_WORD);
  }

  method EmitX(binary: array<Byte>, pc: nat, i: Reg, golden: Word) returns (next: nat)
    requires pc + 16 <= binary.Length
    modifies binary
    ensures Cursor(binary[..], next) == Put(Cursor(old(binary[..]), pc), BlockWords(XCheck(i, golden)))
  {
    next := EmitGolden(binary, pc, X31, golden);
    next := EmitTest(binary, next, i, X31);
    XPut(old(binary[..]), pc, i, golden);
  }

  lemma XPut(bin: seq<Byte>, pc: nat, i: Reg, g: Word)
    requires pc + 16 <= |bin|
    ensures var load, test := [Lui(X31, Upper(g)), Addi(X31, X31, Lower(g))], [Beq(i, X31, 8), Ebreak];
      && AllEncodable(load) && AllEncodable(test)
      && Put(Cursor(bin, pc), BlockWords(XCheck(i, g)))
         == Cursor(PutWords(PutWords(bin, pc, EncodeAll(load)), pc + 8, EncodeAll(test)), pc + 16)
  {
    PutCodeJoin(bin, pc, [Lui(X31, Upper(g)), Addi(X31, X31, Lower(g))], [Beq(i, X31, 8), Ebreak]);
  }

  /** A move into x31, and the golden value in x30. */
  method EmitOperands(binary: array<Byte>, pc: nat, word: Word, ghost move: Instr, golden: Word) returns (next: nat)
    requires pc + 12 <= binary.Length && Encodable(move) && word == Encode(move)
    modifies binary
    ensures next == pc + 12
    ensures binary[..]
            == PutWords(old(binary[..]), pc, EncodeAll([move] + [Lui(X30, Upper(golden)), Addi(X30, X30, Lower(golden))]))
  {
    next := EmitInst(binary, pc, word);
    PutSingle(old(binary[..]), pc, move);
    next := EmitGolden(binary, next, X30, golden);
    PutCodeJoin(old(binary[..]), pc, [move], [Lui(X30, Upper(golden)), Addi(X30, X30, Lower(golden))]);
  }

  /** A block that first moves a value into x31 with the instruction `move`. */
  method EmitMoved(binary: array<Byte>, pc: nat, word: Word, ghost move: Instr, golden: Word) returns (next: nat)
    requires pc + 20 <= binary.Length && Encodable(move) && word == Encode(move)
    modifies binary
    ensures next == pc + 20
    ensures binary[..]
            == PutWords(old(binary[..]), pc,
                        EncodeAll([move] + [Lui(X30, Upper(golden)), Addi(X30, X30, Lower(golden))] + [Beq(X31, X30, 8), Ebreak]))
  {
    next := EmitOperands(binary, pc, word, move, golden);
    next := EmitTest(binary, next, X31, X30);
    MovedJoin(old(binary[..]), pc, move, golden);
  }

  lemma MovedJoin(bin: seq<Byte>, pc: nat, move: Instr, g: Word)
    requires pc + 20 <= |bin| && Encodable(move)
    ensures var operands, test := [move] + [Lui(X30, Upper(g)), Addi(X30, X30, Lower(g))], [Beq(X31, X30, 8), Ebreak];
      && AllEncodable(operands) && AllEncodable(test)
      && PutWords(bin, pc, EncodeAll(operands + test))
         == PutWords(PutWords(bin, pc, EncodeAll(operands)), pc + 12, EncodeAll(test))
  {
    PutCodeJoin(bin, pc, [move] + [Lui(X30, Upper(g)), Addi(X30, X30, Lower(g))], [Beq(X31, X30, 8), Ebreak]);
  }

  lemma PutSingle(bin: seq<Byte>, pc: nat, i: Instr)
    requires Encodable(i) && pc + 4 <= |bin|
    ensures PutWords(bin, pc, EncodeAll([i])) == PutWord(bin, pc, Encode(i))
  {
    PutOne(bin, pc, Encode(i), []);
    assert [i][1..] == [] && EncodeAll([i]) == [Encode(i)] + [];
  }

  method EmitF(binary: array<Byte>, pc: nat, i: Reg, golden: Word) returns (next: nat)
    requires pc + 20 <= binary.Length
    modifies binary
    ensures Cursor(binary[..], next) == Put(Cursor(old(binary[..]), pc), BlockWords(FCheck(i, golden)))
  {
    var funct7 := 0x70;
    next := EmitMoved(binary, pc, OrFmv(X31, i, funct7), FmvXW(X31, i), golden);
  }

  method EmitV(binary: array<Byte>, pc: nat, i: Reg, golden: Word) returns (next: nat)
    requires pc + 20 <= binary.Length
    modifies binary
    ensures Cursor(binary[..], next) == Put(Cursor(old(binary[..]), pc), BlockWords(VCheck(i, golden)))
  {
    var funct6, unmasked := 0x10, 1;
    next := EmitMoved(binary, pc, OrVmv(X31, i, funct6, unmasked), VmvXS(X31, i), golden);
  }

  ghost predicate XLeft(cur: Cursor, t: Terminal, i: nat, goal: Cursor) {
    i <= 30 && EmitBlocks(cur, Blocks(XChecks(t, i))) == goal
  }

  lemma XStep(cur: Cursor, t: Terminal, i: nat, goal: Cursor)
    requires i < 30 && XLeft(cur, t, i, goal)
    ensures match XGolden(t, i)
            case None => XLeft(cur, t, i + 1, goal)
            case Some(g) =>
              if cur.pc + 16 > |cur.bin| then cur == goal else XLeft(Put(cur, BlockWords(XCheck(i, g))), t, i + 1, goal)
  {
    match XGolden(t, i)
    case None => assert [] + XChecks(t, i + 1) == XChecks(t, i + 1);
    case Some(g) => BlocksStep(cur, XCheck(i, g), XChecks(t, i + 1));
  }

  lemma XEnd(cur: Cursor, t: Terminal, goal: Cursor)
    requires XLeft(cur, t, 30, goal)
    ensures cur == goal
  {
    assert XChecks(t, 30) == [];
  }

  /** One iteration of the loop below; `full` is its break. */
  method AssertXAt(binary: array<Byte>, pc: nat, t: Terminal, i: Reg, ghost goal: Cursor) returns (next: nat, full: bool)
    requires i < 30 && pc <= binary.Length && XLeft(Cursor(binary[..], pc), t, i, goal)
    modifies binary
    ensures next <= binary.Length
    ensures if full then Cursor(binary[..], next) == goal else XLeft(Cursor(binary[..], next), t, i + 1, goal)
  {
    next, full := pc, false;
    var golden := if XName(i) in t.registers then Some(t.registers[XName(i)]) else None;
    XStep(Cursor(binary[..], pc), t, i, goal);
    if golden.Some? {
      if pc + 16 > binary.Length {
        full := true;
      } else {
        next := EmitX(binary, pc, i, golden.value);
      }
    }
  }

  method AssertX(binary: array<Byte>, start: nat, t: Terminal, ghost goal: Cursor) returns (pc: nat)
    requires start <= binary.Length && XLeft(Cursor(binary[..], start), t, 1, goal)
    modifies binary
    ensures Cursor(binary[..], pc) == goal && pc <= binary.Length
  {
    pc := start;
    for i := 1 to 30
      invariant pc <= binary.Length && XLeft(Cursor(binary[..], pc), t, i, goal)
    {
      var full;
      pc, full := AssertXAt(binary, pc, t, i, goal);
      if full {
        return;
      }
    }
    XEnd(Cursor(binary[..], pc), t, goal);
  }

  lemma BlocksStep(cur: Cursor, c: Check, rest: seq<Check>)
    ensures EmitBlocks(cur, Blocks([c] + rest))
            == if cur.pc + 4 * |BlockWords(c)| > |cur.bin| then cur else EmitBlocks(Put(cur, BlockWords(c)), Blocks(rest))
  {
    assert ([c] + rest)[1..] == rest;
    EmitOne(cur, BlockWords(c), Blocks(rest));
  }

  ghost predicate FLeft(cur: Cursor, t: Terminal, i: nat, goal: Cursor) {
    i <= 32 && EmitBlocks(cur, Blocks(FChecks(t, i))) == goal
  }

  lemma FStep(cur: Cursor, t: Terminal, i: nat, goal: Cursor)
    requires i < 32 && FLeft(cur, t, i, goal)
    ensures match FGolden(t, i)
            case None => FLeft(cur, t, i + 1, goal)
            case Some(g) =>
              if cur.pc + 20 > |cur.bin| then cur == goal else FLeft(Put(cur, BlockWords(FCheck(i, g))), t, i + 1, goal)
  {
    match FGolden(t, i)
    case None => assert [] + FChecks(t, i + 1) == FChecks(t, i + 1);
    case Some(g) => BlocksStep(cur, FCheck(i, g), FChecks(t, i + 1));
  }

  lemma FEnd(cur: Cursor, t: Terminal, goal: Cursor)
    requires FLeft(cur, t, 32, goal)
    ensures cur == goal
  {
    assert FChecks(t, 32) == [];
  }

  /** One iteration of the loop below; `full` is its break. */
  method AssertFAt(binary: array<Byte>, pc: nat, t: Terminal, i: Reg, ghost goal: Cursor) returns (next: nat, full: bool)
    requires i < 32 && pc <= binary.Length && FLeft(Cursor(binary[..], pc), t, i, goal)
    modifies binary
    ensures next <= binary.Length
    ensures if full then Cursor(binary[..], next) == goal else FLeft(Cursor(binary[..], next), t, i + 1, goal)
  {
    next, full := pc, false;
    var golden := if FName(i) in t.registers then Some(t.registers[FName(i)]) else None;
    FStep(Cursor(binary[..], pc), t, i, goal);
    if golden.Some? {
      if pc + 20 > binary.Length {
        full := true;
      } else {
        next := EmitF(binary, pc, i, golden.value);
      }
    }
  }

  method AssertF(binary: array<Byte>, start: nat, t: Terminal, ghost goal: Cursor) returns (pc: nat)
    requires start <= binary.Length && FLeft(Cursor(binary[..], start), t, 0, goal)
    modifies binary
    ensures Cursor(binary[..], pc) == goal && pc <= binary.Length
  {
    pc := start;
    for i := 0 to 32
      invariant pc <= binary.Length && FLeft(Cursor(binary[..], pc), t, i, goal)
    {
      var full;
      pc, full := AssertFAt(binary, pc, t, i, goal);
      if full {
        return;
      }
    }
    FEnd(Cursor(binary[..], pc), t, goal);
  }

  method LookUpElement(t: Terminal, i: Reg) returns (golden: Option<Word>)
    ensures golden == VGolden(t, i)
  {
    golden := None;
    if i in t.vectors {
      var bytes := t.vectors[i];
      if |bytes| >= 4 {
        golden := Some(ReadWord(bytes, 0));
      }
    }
  }

  ghost predicate VLeft(cur: Cursor, t: Terminal, i: nat, goal: Cursor) {
    i <= 32 && EmitBlocks(cur, Blocks(VChecks(t, i))) == goal
  }

  lemma VStep(cur: Cursor, t: Terminal, i: nat, goal: Cursor)
    requires i < 32 && VLeft(cur, t, i, goal)
    ensures match VGolden(t, i)
            case None => VLeft(cur, t, i + 1, goal)
            case Some(g) =>
              if cur.pc + 20 > |cur.bin| then cur == goal else VLeft(Put(cur, BlockWords(VCheck(i, g))), t, i + 1, goal)
  {
    match VGolden(t, i)
    case None => assert [] + VChecks(t, i + 1) == VChecks(t, i + 1);
    case Some(g) => BlocksStep(cur, VCheck(i, g), VChecks(t, i + 1));
  }

  lemma VEnd(cur: Cursor, t: Terminal, goal: Cursor)
    requires VLeft(cur, t, 32, goal)
    ensures cur == goal
  {
    assert VChecks(t, 32) == [];
  }

  /** One iteration of the loop below; `full` is its break. */
  method AssertVAt(binary: array<Byte>, pc: nat, t: Terminal, i: Reg, ghost goal: Cursor) returns (next: nat, full: bool)
    requires i < 32 && pc <= binary.Length && VLeft(Cursor(binary[..], pc), t, i, goal)
    modifies binary
    ensures next <= binary.Length
    ensures if full then Cursor(binary[..], next) == goal else VLeft(Cursor(binary[..], next), t, i + 1, goal)
  {
    next, full := pc, false;
    var golden := LookUpElement(t, i);
    VStep(Cursor(binary[..], pc), t, i, goal);
    if golden.Some? {
      if pc + 20 > binary.Length {
        full := true;
      } else {
        next := EmitV(binary, pc, i, golden.value);
      }
    }
  }

  method AssertV(binary: array<Byte>, start: nat, t: Terminal, ghost goal: Cursor) returns (pc: nat)
    requires start <= binary.Length && VLeft(Cursor(binary[..], start), t, 0, goal)
    modifies binary
    ensures Cursor(binary[..], pc) == goal && pc <= binary.Length
  {
    pc := start;
    for i := 0 to 32
      invariant pc <= binary.Length && VLeft(Cursor(binary[..], pc), t, i, goal)
    {
      var full;
      pc, full := AssertVAt(binary, pc, t, i, goal);
      if full {
        return;
      }
    }
    VEnd(Cursor(binary[..], pc), t, goal);
  }

  /** Blocks from `start` on while they fit, and a final mpause where a word is left. */
  function FinalizeWith(bin: seq<Byte>, start: nat, blocks: seq<seq<Word>>): seq<Byte> {
    var cur := EmitBlocks(Cursor(bin, start), blocks);
    if cur.pc + 4 <= |cur.bin| then PutWord(cur.bin, cur.pc, MPAUSE_WORD) else cur.bin
  }

  /** The whole finalizer's effect on the binary: all checks from the padding's start. */
  function Finalized(bin: seq<Byte>, t: Terminal): seq<Byte> {
    FinalizeWith(bin, NopStart(bin, |bin|), Blocks(AllChecks(t)))
  }

  lemma ThreeLists(cur: Cursor, a: seq<Check>, b: seq<Check>, c: seq<Check>)
    requires (forall k | k in a :: k.XCheck?) && (forall k | k in b :: !k.XCheck?) && (forall k | k in c :: !k.XCheck?)
    ensures EmitBlocks(EmitBlocks(EmitBlocks(cur, Blocks(a)), Blocks(b)), Blocks(c)) == EmitBlocks(cur, Blocks(a + b + c))
  {
    BlocksJoin(a, b);
    BlocksJoin(a + b, c);
    BlockSizes(a, b);
    EmitAppend(cur, Blocks(a), Blocks(b));
    BlockSizes(a + b, c);
    EmitAppend(cur, Blocks(a + b), Blocks(c));
  }

  lemma BlockSizes(a: seq<Check>, b: seq<Check>)
    requires forall k | k in b :: !k.XCheck?
    ensures forall i, j | 0 <= i < |a| && 0 <= j < |b| :: |Blocks(a)[i]| <= |Blocks(b)[j]|
  {
    forall i, j | 0 <= i < |a| && 0 <= j < |b|
      ensures |Blocks(a)[i]| <= |Blocks(b)[j]|
    {
      BlockAt(a, i);
      BlockAt(b, j);
      assert b[j] in b;
    }
  }

  lemma {:induction false} BlocksJoin(a: seq<Check>, b: seq<Check>)
    ensures Blocks(a + b) == Blocks(a) + Blocks(b)
    decreases |a|
  {
    if a == [] {
      assert a + b == b;
    } else {
      assert (a + b)[0] == a[0] && (a + b)[1..] == a[1..] + b;
      BlocksJoin(a[1..], b);
    }
  }

  method Finalize(binary: array<Byte>, t: Terminal)
    modifies binary
    ensures binary[..] == Finalized(old(binary[..]), t)
  {
    var nopStart := FindNopStart(binary);
    XChecksAreX(t, 1);
    OthersAreFAndV(t, 0);
    ThreeLists(Cursor(binary[..], nopStart), XChecks(t, 1), FChecks(t, 0), VChecks(t, 0));
    ghost var x := EmitBlocks(Cursor(binary[..], nopStart), Blocks(XChecks(t, 1)));
    ghost var f := EmitBlocks(x, Blocks(FChecks(t, 0)));
    ghost var v := EmitBlocks(f, Blocks(VChecks(t, 0)));
    var pc := AssertX(binary, nopStart, t, x);
    pc := AssertF(binary, pc, t, f);
    pc := AssertV(binary, pc, t, v);
    pc := EmitInst(binary, pc, MPAUSE_WORD);
  }
}
