/** The execution tracker's hazard statistics: history-dependent maps updated on every instruction,
    against a declarative reading of the whole trace. */
module ExecutionTracker {
  import opened Words
  import opened Wrappers

  /** What the maps are keyed by: a vector register's number, or any other operand's name. */
  datatype Key = Vector(number: nat) | Named(name: string)

  /** An operand: its printed name and whether a register stands behind it. */
  datatype Operand = Operand(name: string, hasObject: bool)

  /** An executed instruction with its opcode number, the vector length and the group multiplier (in eighths) in force. */
  datatype Instruction = Instruction(
    address: Word, opcode: int, sources: seq<Option<Operand>>, destinations: seq<Option<Operand>>, vl: nat, lmul: nat)

  datatype Event =
    | Executed(opcode: nat) | UnknownOpcode
    | RawHazard(distance: nat)
    | FflagsSideEffect | VstartSideEffect | TrapHandlerCorrupted

  /** What an instruction counts as; `opcodes` is the number of known opcodes. */
  function OpcodeEvent(opcode: int, opcodes: nat): Event {
    if 0 <= opcode < opcodes then Executed(opcode) else UnknownOpcode
  }

  predicate IsOpcodeEvent(e: Event) {
    e.Executed? || e.UnknownOpcode?
  }

  // ---------------------------------------------------------------- register groups

  predicate IsDigit(c: char) {
    '0' <= c <= '9'
  }

  function DigitOf(c: char): nat
    requires IsDigit(c)
  {
    (c as int) - ('0' as int)
  }

  predicate IsNumber(digits: string) {
    |digits| > 0 && forall i | 0 <= i < |digits| :: IsDigit(digits[i])
  }

  /** The value of a decimal numeral. */
  function Number(digits: string): nat
    requires forall i | 0 <= i < |digits| :: IsDigit(digits[i])
    decreases |digits|
  {
    if digits == [] then 0 else 10 * Number(digits[..|digits| - 1]) + DigitOf(digits[|digits| - 1])
  }

  function GroupSize(lmul: nat): (n: nat)
    ensures 1 <= n <= 8
  {
    if lmul == 16 then 2 else if lmul == 32 then 4 else if lmul == 64 then 8 else 1
  }

  /** The group of consecutive registers, wrapping at 32. */
  function Group(first: nat, n: nat): (keys: seq<Key>)
    ensures |keys| == n && forall i | 0 <= i < n :: keys[i] == Vector((first + i) % 32)
  {
    seq(n, i requires 0 <= i < n => Vector((first + i) % 32))
  }

  /** The registers that an operand name stands for. */
  function Expand(name: string, vl: nat, lmul: nat): seq<Key> {
    if |name| > 0 && name[0] == 'v' then
      if vl == 0 then []
      else if IsNumber(name[1..]) then Group(Number(name[1..]), GroupSize(lmul))
      else [Named(name)]
    else [Named(name)]
  }

  /** The vector register with a one- or two-digit number, as the simulator names it, stands for its whole register
      group: one register for each eight eighths, wrapping around behind v31. */
  lemma ExpandedGroup(name: string, n: nat, vl: nat, lmul: nat)
    requires n < 100 && vl > 0
    requires name == if n < 10 then ['v', ('0' as int + n) as char]
                     else ['v', ('0' as int + n / 10) as char, ('0' as int + n % 10) as char]
    ensures var keys := Expand(name, vl, lmul);
      && |keys| == (if lmul in {16, 32, 64} then lmul / 8 else 1)
      && forall i | 0 <= i < |keys| :: keys[i] == Vector((n + i) % 32)
  {
    var digits := name[1..];
    assert forall i | 0 <= i < |digits| :: digits[i] == name[i + 1];
    OneDigit(name[1]);
    if n < 10 {
      assert digits == [name[1]];
    } else {
      assert digits[..1] == [name[1]];
      assert Number(digits) == 10 * Number(digits[..1]) + DigitOf(name[2]);
    }
  }

  lemma OneDigit(c: char)
    requires '0' <= c <= '9'
    ensures Number([c]) == (c as int) - ('0' as int)
  {
    assert [c][..0] == [];
  }

  /** No elements, no registers; other names stand for themselves. */
  lemma ExpandedName(name: string, vl: nat, lmul: nat)
    requires |name| > 0
    ensures name[0] == 'v' && vl == 0 ==> Expand(name, vl, lmul) == []
    ensures name[0] != 'v' ==> Expand(name, vl, lmul) == [Named(name)]
    ensures vl > 0 && name[0] == 'v' && (|name| == 1 || exists i | 1 <= i < |name| :: !('0' <= name[i] <= '9')) ==>
              Expand(name, vl, lmul) == [Named(name)]
  {
    var digits := name[1..];
    if i :| 1 <= i < |name| && !('0' <= name[i] <= '9') {
      assert digits[i - 1] == name[i] && !IsDigit(digits[i - 1]);
    }
  }

  method ExpandVectorReg(name: string, vl: nat, lmul: nat) returns (expanded: seq<Key>)
    ensures expanded == Expand(name, vl, lmul)
  {
    if |name| > 0 && name[0] == 'v' {
      if vl == 0 {
        return [];
      }
      var number := 0;
      var isDigits := true;
      var i := 1;
      while i < |name|
        invariant 1 <= i <= |name| && isDigits
        invariant (forall j | 1 <= j < i :: IsDigit(name[j])) && number == Number(name[1..i])
      {
        if !IsDigit(name[i]) {
          isDigits := false;
          break;
        }
        assert name[1..i + 1][..i - 1] == name[1..i];
        number := number * 10 + DigitOf(name[i]);
        i := i + 1;
      }
      NumberByDigits(name, isDigits && |name| > 1);
      if isDigits && |name| > 1 {
        assert name[1..|name|] == name[1..];
        var size := 1;
        if lmul == 16 {
          size := 2;
        } else if lmul == 32 {
          size := 4;
        } else if lmul == 64 {
          size := 8;
        }
        expanded := [];
        for k := 0 to size
          invariant expanded == Group(number, k)
        {
          expanded := expanded + [Vector((number + k) % 32)];
        }
        return;
      }
    }
    expanded := [Named(name)];
  }

  lemma NumberByDigits(name: string, digits: bool)
    requires |name| > 0
    requires digits <==> |name| > 1 && forall j | 1 <= j < |name| :: IsDigit(name[j])
    ensures digits <==> IsNumber(name[1..])
  {
    if IsNumber(name[1..]) {
      forall j | 1 <= j < |name|
        ensures IsDigit(name[j])
      {
        assert name[1..][j - 1] == name[j];
      }
    }
  }

  // ---------------------------------------------------------------- the declarative reading

  /** The registers of the first `n` operands. */
  function KeysOf(operands: seq<Option<Operand>>, n: nat, vl: nat, lmul: nat): seq<Key>
    requires n <= |operands|
  {
    if n == 0 then []
    else
      var before := KeysOf(operands, n - 1, vl, lmul);
      match operands[n - 1]
      case Some(op) => if op.hasObject then before + Expand(op.name, vl, lmul) else before
      case None => before
  }

  /** The registers of one operand. */
  function OperandKeys(op: Operand, vl: nat, lmul: nat): seq<Key> {
    if op.hasObject then Expand(op.name, vl, lmul) else []
  }

  lemma KeysOfNext(operands: seq<Option<Operand>>, k: nat, vl: nat, lmul: nat, op: Operand)
    requires k < |operands| && operands[k] == Some(op)
    ensures KeysOf(operands, k + 1, vl, lmul) == KeysOf(operands, k, vl, lmul) + OperandKeys(op, vl, lmul)
  {
  }

  lemma KeyOfLast(operands: seq<Option<Operand>>, k: nat, vl: nat, lmul: nat, key: Key)
    requires k < |operands|
    ensures key in KeysOf(operands, k + 1, vl, lmul)
            <==> key in KeysOf(operands, k, vl, lmul)
                 || (operands[k].Some? && operands[k].value.hasObject && key in Expand(operands[k].value.name, vl, lmul))
  {
  }

  lemma KeyStays(operands: seq<Option<Operand>>, k: nat, vl: nat, lmul: nat, key: Key)
    requires k < |operands| && key in KeysOf(operands, k, vl, lmul)
    ensures key in KeysOf(operands, k + 1, vl, lmul)
  {
  }

  lemma {:induction false} KeyStaysOn(operands: seq<Option<Operand>>, k: nat, n: nat, vl: nat, lmul: nat, key: Key)
    requires k <= n <= |operands| && key in KeysOf(operands, k, vl, lmul)
    ensures key in KeysOf(operands, n, vl, lmul)
    decreases n - k
  {
    if k < n {
      KeyStays(operands, k, vl, lmul, key);
      KeyStaysOn(operands, k + 1, n, vl, lmul, key);
    }
  }

  /** The registers of a list of operands: each register of an operand that carries an object ... */
  lemma OperandKeysAreListed(operands: seq<Option<Operand>>, n: nat, vl: nat, lmul: nat, key: Key, k: nat)
    requires k < n <= |operands| && operands[k].Some? && operands[k].value.hasObject
    requires key in Expand(operands[k].value.name, vl, lmul)
    ensures key in KeysOf(operands, n, vl, lmul)
  {
    KeyOfLast(operands, k, vl, lmul, key);
    KeyStaysOn(operands, k + 1, n, vl, lmul, key);
  }

  /** ... and no others. */
  lemma {:induction false} ListedKeysAreOfOperands(operands: seq<Option<Operand>>, n: nat, vl: nat, lmul: nat, key: Key)
    returns (k: nat)
    requires n <= |operands| && key in KeysOf(operands, n, vl, lmul)
    ensures k < n && operands[k].Some? && operands[k].value.hasObject && key in Expand(operands[k].value.name, vl, lmul)
    decreases n
  {
    KeyOfLast(operands, n - 1, vl, lmul, key);
    if key in KeysOf(operands, n - 1, vl, lmul) {
      k := ListedKeysAreOfOperands(operands, n - 1, vl, lmul, key);
    } else {
      k := n - 1;
    }
  }

  function Reads(i: Instruction): seq<Key> {
    KeysOf(i.sources, |i.sources|, i.vl, i.lmul)
  }

  function Writes(i: Instruction): seq<Key> {
    KeysOf(i.destinations, |i.destinations|, i.vl, i.lmul)
  }

  /** The latest of the first `n` instructions that writes `key`, or -1. */
  function LastWriter(trace: seq<Instruction>, n: nat, key: Key): (w: int)
    requires n <= |trace|
    ensures -1 <= w < n
    decreases n
  {
    if n == 0 then -1
    else if key in Writes(trace[n - 1]) then n - 1
    else LastWriter(trace, n - 1, key)
  }

  lemma {:induction false} LastWriterIsLatest(trace: seq<Instruction>, n: nat, key: Key)
    requires n <= |trace|
    ensures var w := LastWriter(trace, n, key);
      && (w >= 0 ==> key in Writes(trace[w]))
      && forall j | w < j < n :: key !in Writes(trace[j])
    decreases n
  {
    if n > 0 && key !in Writes(trace[n - 1]) {
      LastWriterIsLatest(trace, n - 1, key);
    }
  }

  /** Whether a read by instruction `k` is of a value written exactly `d` instructions before. */
  function Hit(trace: seq<Instruction>, k: nat, d: nat, key: Key): nat
    requires k <= |trace|
  {
    var w := LastWriter(trace, k, key);
    if w >= 0 && k - w == d then 1 else 0
  }

  /** A read counts for distance `d` exactly when the instruction `d` back writes the register and none in
      between does. */
  lemma HitIsLatestWriter(trace: seq<Instruction>, k: nat, d: nat, key: Key)
    requires k <= |trace|
    ensures Hit(trace, k, d, key)
            == if 1 <= d <= k && key in Writes(trace[k - d]) && (forall j | k - d < j < k :: key !in Writes(trace[j])) then 1 else 0
  {
    LastWriterIsLatest(trace, k, key);
    var w := LastWriter(trace, k, key);
    if 1 <= d <= k && key in Writes(trace[k - d]) && forall j | k - d < j < k :: key !in Writes(trace[j]) {
      assert w >= 0 ==> !(k - d < w < k);
      WriterNotBefore(trace, k, key, k - d);
    }
  }

  lemma {:induction false} WriterNotBefore(trace: seq<Instruction>, n: nat, key: Key, j: nat)
    requires j < n <= |trace| && key in Writes(trace[j])
    ensures LastWriter(trace, n, key) >= j
    decreases n
  {
    if key !in Writes(trace[n - 1]) {
      WriterNotBefore(trace, n - 1, key, j);
    }
  }

  /** The number of such reads among `keys`. */
  function Hits(trace: seq<Instruction>, k: nat, d: nat, keys: seq<Key>): nat
    requires k <= |trace|
    decreases |keys|
  {
    if keys == [] then 0 else Hits(trace, k, d, keys[..|keys| - 1]) + Hit(trace, k, d, keys[|keys| - 1])
  }

  /** All such reads of instruction `k`. */
  function AllHits(trace: seq<Instruction>, k: nat, d: nat): nat
    requires k < |trace|
  {
    Hits(trace, k, d, Reads(trace[k]))
  }

  /** The number of such reads, instruction by instruction. */
  function HitCounts(trace: seq<Instruction>, d: nat): nat -> nat {
    (k: nat) => if k < |trace| then AllHits(trace, k, d) else 0
  }

  function Sum(counts: nat -> nat, n: nat): nat
    decreases n
  {
    if n == 0 then 0 else Sum(counts, n - 1) + counts(n - 1)
  }

  /** The latest of the first `n` instructions that counts, or none. */
  function Latest(counts: nat -> nat, n: nat): Option<nat>
    decreases n
  {
    if n == 0 then None else if counts(n - 1) > 0 then Some(n - 1) else Latest(counts, n - 1)
  }

  /** The read-after-write hazards at distance `d` of the first `n` instructions. */
  function Hazards(trace: seq<Instruction>, d: nat, n: nat): nat {
    Sum(HitCounts(trace, d), n)
  }

  /** The address of the latest instruction with such a hazard. */
  function HazardAddress(trace: seq<Instruction>, d: nat, n: nat): Option<Word>
    requires n <= |trace|
  {
    match Latest(HitCounts(trace, d), n)
    case Some(k) => if k < |trace| then Some(trace[k].address) else None
    case None => None
  }

  /** How often a name occurs among the first `n` operands. */
  function Occurrences(operands: seq<Option<Operand>>, n: nat, name: string): nat
    requires n <= |operands|
  {
    if n == 0 then 0
    else
      Occurrences(operands, n - 1, name)
      + (match operands[n - 1] case Some(op) => (if op.name == name then 1 else 0) case None => 0)
  }

  /** How many of the first `n` instructions count as `e`. */
  function Executions(trace: seq<Instruction>, n: nat, opcodes: nat, e: Event): nat
    requires n <= |trace|
    decreases n
  {
    if n == 0 then 0
    else Executions(trace, n - 1, opcodes, e) + (if OpcodeEvent(trace[n - 1].opcode, opcodes) == e then 1 else 0)
  }

  /** The value of a statistic. */
  function Count(coverage: map<Event, nat>, e: Event): nat {
    if e in coverage then coverage[e] else 0
  }

  // ---------------------------------------------------------------- extending a trace

  ghost predicate Extends(longer: seq<Instruction>, trace: seq<Instruction>) {
    |trace| <= |longer| && forall j | 0 <= j < |trace| :: longer[j] == trace[j]
  }

  lemma {:induction false} LastWriterPrefix(trace: seq<Instruction>, longer: seq<Instruction>, n: nat, key: Key)
    requires Extends(longer, trace) && n <= |trace|
    ensures LastWriter(longer, n, key) == LastWriter(trace, n, key)
    decreases n
  {
    if n > 0 {
      LastWriterPrefix(trace, longer, n - 1, key);
    }
  }

  lemma {:induction false} HitsPrefix(trace: seq<Instruction>, longer: seq<Instruction>, k: nat, d: nat, keys: seq<Key>)
    requires Extends(longer, trace) && k <= |trace|
    ensures Hits(longer, k, d, keys) == Hits(trace, k, d, keys)
    decreases |keys|
  {
    if keys != [] {
      HitsPrefix(trace, longer, k, d, keys[..|keys| - 1]);
      LastWriterPrefix(trace, longer, k, keys[|keys| - 1]);
    }
  }

  lemma AllHitsPrefix(trace: seq<Instruction>, longer: seq<Instruction>, k: nat, d: nat)
    requires Extends(longer, trace) && k < |trace|
    ensures AllHits(longer, k, d) == AllHits(trace, k, d)
  {
    HitsPrefix(trace, longer, k, d, Reads(trace[k]));
  }

  lemma {:induction false} SameCounts(f: nat -> nat, g: nat -> nat, n: nat)
    requires forall k: nat | k < n :: f(k) == g(k)
    ensures Sum(f, n) == Sum(g, n) && Latest(f, n) == Latest(g, n) && (Latest(f, n).Some? ==> Latest(f, n).value < n)
    decreases n
  {
    if n > 0 {
      SameCounts(f, g, n - 1);
    }
  }

  lemma HazardsPrefix(trace: seq<Instruction>, longer: seq<Instruction>, d: nat)
    requires Extends(longer, trace)
    ensures Hazards(longer, d, |trace|) == Hazards(trace, d, |trace|)
    ensures HazardAddress(longer, d, |trace|) == HazardAddress(trace, d, |trace|)
  {
    forall k: nat | k < |trace|
      ensures HitCounts(longer, d)(k) == HitCounts(trace, d)(k)
    {
      AllHitsPrefix(trace, longer, k, d);
    }
    SameCounts(HitCounts(longer, d), HitCounts(trace, d), |trace|);
  }

  lemma {:induction false} ExecutionsPrefix(trace: seq<Instruction>, longer: seq<Instruction>, n: nat, opcodes: nat, e: Event)
    requires Extends(longer, trace) && n <= |trace|
    ensures Executions(longer, n, opcodes, e) == Executions(trace, n, opcodes, e)
    decreases n
  {
    if n > 0 {
      ExecutionsPrefix(trace, longer, n - 1, opcodes, e);
    }
  }

  // ---------------------------------------------------------------- hits against a map

  /** The map of last writes that belongs to a trace. */
  ghost predicate Agrees(last: map<Key, nat>, trace: seq<Instruction>) {
    forall key: Key ::
      (key in last <==> LastWriter(trace, |trace|, key) >= 0)
      && (key in last ==> last[key] == LastWriter(trace, |trace|, key) + 1)
  }

  ghost predicate Past(last: map<Key, nat>, now: nat) {
    forall key | key in last :: last[key] < now
  }

  /** Of `keys`, those last written exactly `d` before `now`. */
  function MapHits(keys: seq<Key>, last: map<Key, nat>, now: nat, d: nat): nat
    decreases |keys|
  {
    if keys == [] then 0
    else
      var key := keys[|keys| - 1];
      MapHits(keys[..|keys| - 1], last, now, d) + KeyHits(key, last, now, d)
  }

  lemma {:induction false} MapHitsAppend(a: seq<Key>, key: Key, last: map<Key, nat>, now: nat, d: nat)
    ensures MapHits(a + [key], last, now, d) == MapHits(a, last, now, d) + KeyHits(key, last, now, d)
  {
    assert (a + [key])[..|a|] == a;
  }

  lemma {:induction false} MapHitsJoin(a: seq<Key>, b: seq<Key>, last: map<Key, nat>, now: nat, d: nat)
    ensures MapHits(a + b, last, now, d) == MapHits(a, last, now, d) + MapHits(b, last, now, d)
    decreases |b|
  {
    if b == [] {
      assert a + b == a;
    } else {
      var front, key := b[..|b| - 1], b[|b| - 1];
      MapHitsJoin(a, front, last, now, d);
      MapHitsAppend(a + front, key, last, now, d);
      assert a + b == (a + front) + [key];
    }
  }

  /** Counting against the map counts the reads whose latest writer is `d` back. */
  lemma {:induction false} MapHitsAreHits(trace: seq<Instruction>, last: map<Key, nat>, d: nat, keys: seq<Key>)
    requires Agrees(last, trace)
    ensures MapHits(keys, last, |trace| + 1, d) == Hits(trace, |trace|, d, keys)
    decreases |keys|
  {
    if keys != [] {
      MapHitsAreHits(trace, last, d, keys[..|keys| - 1]);
      MapHitIsHit(trace, last, d, keys[|keys| - 1]);
    }
  }

  lemma MapHitIsHit(trace: seq<Instruction>, last: map<Key, nat>, d: nat, key: Key)
    requires Agrees(last, trace)
    ensures KeyHits(key, last, |trace| + 1, d) == Hit(trace, |trace|, d, key)
  {
  }

  // ---------------------------------------------------------------- the tracker

  class Tracker {
    const opcodes: nat
    var instructionCount: nat
    var lastWritten: map<Key, nat>
    var coverage: map<Event, nat>
    var hazardToAddress: map<nat, Word>
    ghost var trace: seq<Instruction>

    /** The maps say about the trace what it says itself. */
    ghost predicate Valid()
      reads this
    {
      && instructionCount == |trace| && InStep(trace, lastWritten, coverage, hazardToAddress)
      && OpcodesInStep(trace, coverage, opcodes)
    }

    constructor (opcodes: nat)
      ensures Valid() && trace == [] && this.opcodes == opcodes
    {
      this.opcodes := opcodes;
      instructionCount := 0;
      lastWritten := map[];
      coverage := map[];
      hazardToAddress := map[];
      trace := [];
    }

    method Bump(e: Event)
      modifies this`coverage
      ensures coverage == old(coverage)[e := Count(old(coverage), e) + 1]
    {
      coverage := coverage[e := (if e in coverage then coverage[e] else 0) + 1];
    }

    method LogOpcode(opcode: int)
      modifies this`instructionCount, this`coverage
      ensures instructionCount == old(instructionCount) + 1
      ensures 0 <= opcode < opcodes ==>
                coverage == old(coverage)[Executed(opcode) := Count(old(coverage), Executed(opcode)) + 1]
      ensures !(0 <= opcode < opcodes) ==>
                coverage == old(coverage)[UnknownOpcode := Count(old(coverage), UnknownOpcode) + 1]
    {
      instructionCount := instructionCount + 1;
      if opcode >= 0 && opcode < opcodes {
        Bump(Executed(opcode));
      } else {
        Bump(UnknownOpcode);
      }
    }

    method CheckCsr(name: string)
      modifies this`coverage
      ensures CsrGrown(old(coverage), coverage, OneIf(name == "fflags"), OneIf(name == "vstart"), OneIf(name == "mtvec"))
      ensures SameHazards(old(coverage), coverage)
    {
      if name == "fflags" {
        Bump(FflagsSideEffect);
      } else if name == "vstart" {
        Bump(VstartSideEffect);
      } else if name == "mtvec" {
        coverage := coverage[TrapHandlerCorrupted := 1];
      }
    }

    /** One register read. */
    method TrackKey(key: Key, address: Word, ghost hits: nat -> nat)
      requires key in lastWritten ==> lastWritten[key] < instructionCount
      requires forall d: nat :: hits(d) == KeyHits(key, lastWritten, instructionCount, d)
      modifies this`coverage, this`hazardToAddress
      ensures Tracked(old(coverage), coverage, old(hazardToAddress), hazardToAddress, address, hits)
      ensures SameCsr(old(coverage), coverage)
    {
      if key in lastWritten {
        var distance := instructionCount - lastWritten[key];
        if 0 < distance <= 3 {
          Bump(RawHazard(distance));
          hazardToAddress := hazardToAddress[distance := address];
        }
      }
    }

    /** The registers of one operand. */
    method TrackKeys(keys: seq<Key>, address: Word, ghost last: map<Key, nat>, ghost now: nat)
      requires last == lastWritten && now == instructionCount && Past(last, now)
      modifies this`coverage, this`hazardToAddress
      ensures Tracked(old(coverage), coverage, old(hazardToAddress), hazardToAddress, address, MapHitsOf(keys, last, now))
      ensures SameCsr(old(coverage), coverage)
    {
      ghost var c0, a0 := coverage, hazardToAddress;
      for j := 0 to |keys|
        invariant Tracked(c0, coverage, a0, hazardToAddress, address, MapHitsOf(keys[..j], last, now))
        invariant SameCsr(c0, coverage)
      {
        ghost var c1, a1 := coverage, hazardToAddress;
        ghost var one := MapHitsOf([keys[j]], last, now);
        SingleHit(keys[j], last, now);
        TrackKey(keys[j], address, one);
        assert keys[..j + 1] == keys[..j] + [keys[j]];
        TrackedJoin(c0, c1, coverage, a0, a1, hazardToAddress, address, keys[..j], [keys[j]], last, now);
      }
      assert keys[..|keys|] == keys;
    }

    /** One source operand: its hazards and the side effect its name stands for. */
    method TrackSource(op: Operand, address: Word, vl: nat, lmul: nat, ghost last: map<Key, nat>, ghost now: nat)
      requires last == lastWritten && now == instructionCount && Past(last, now)
      modifies this`coverage, this`hazardToAddress
      ensures Tracked(old(coverage), coverage, old(hazardToAddress), hazardToAddress, address,
                      MapHitsOf(OperandKeys(op, vl, lmul), last, now))
      ensures CsrGrown(old(coverage), coverage, OneIf(op.name == "fflags"), OneIf(op.name == "vstart"), OneIf(op.name == "mtvec"))
    {
      if op.hasObject {
        var keys := ExpandVectorReg(op.name, vl, lmul);
        TrackKeys(keys, address, last, now);
      }
      CheckCsr(op.name);
    }

    /** The reads of an instruction. */
    method TrackSources(i: Instruction, ghost last: map<Key, nat>, ghost now: nat)
      requires last == lastWritten && now == instructionCount && Past(last, now)
      modifies this`coverage, this`hazardToAddress
      ensures Tracked(old(coverage), coverage, old(hazardToAddress), hazardToAddress, i.address, MapHitsOf(Reads(i), last, now))
      ensures CsrCounted(old(coverage), coverage, i.sources, |i.sources|)
    {
      ghost var c0, a0 := coverage, hazardToAddress;
      NothingTracked(c0, a0, i.address, last, now);
      for k := 0 to |i.sources|
        invariant Tracked(c0, coverage, a0, hazardToAddress, i.address, MapHitsOf(KeysOf(i.sources, k, i.vl, i.lmul), last, now))
        invariant CsrCounted(c0, coverage, i.sources, k)
      {
        TrackNext(i, k, last, now, c0, a0);
      }
    }

    /** One iteration: null operands are skipped. */
    method TrackNext(
      i: Instruction, k: nat, ghost last: map<Key, nat>, ghost now: nat, ghost c0: map<Event, nat>, ghost a0: map<nat, Word>)
      requires last == lastWritten && now == instructionCount && Past(last, now)
      requires k < |i.sources| && CsrCounted(c0, coverage, i.sources, k)
      requires Tracked(c0, coverage, a0, hazardToAddress, i.address, MapHitsOf(KeysOf(i.sources, k, i.vl, i.lmul), last, now))
      modifies this`coverage, this`hazardToAddress
      ensures CsrCounted(c0, coverage, i.sources, k + 1)
      ensures Tracked(c0, coverage, a0, hazardToAddress, i.address, MapHitsOf(KeysOf(i.sources, k + 1, i.vl, i.lmul), last, now))
    {
      match i.sources[k] {
        case None =>
        case Some(op) =>
          ghost var c1, a1 := coverage, hazardToAddress;
          ghost var keys := OperandKeys(op, i.vl, i.lmul);
          TrackSource(op, i.address, i.vl, i.lmul, last, now);
          TrackedJoin(c0, c1, coverage, a0, a1, hazardToAddress, i.address, KeysOf(i.sources, k, i.vl, i.lmul), keys, last, now);
          KeysOfNext(i.sources, k, i.vl, i.lmul, op);
          CsrStep(c0, c1, coverage, i.sources, k, op);
      }
    }

    /** The registers of one destination become written now. */
    method RecordKeys(keys: seq<Key>)
      modifies this`lastWritten
      ensures Recorded(old(lastWritten), lastWritten, keys, instructionCount)
    {
      ghost var last := lastWritten;
      for j := 0 to |keys|
        invariant Recorded(last, lastWritten, keys[..j], instructionCount)
      {
        lastWritten := lastWritten[keys[j] := instructionCount];
        assert keys[..j + 1] == keys[..j] + [keys[j]];
      }
      assert keys[..|keys|] == keys;
    }

    method RecordDestination(op: Operand, vl: nat, lmul: nat)
      modifies this`lastWritten, this`coverage
      ensures Recorded(old(lastWritten), lastWritten, OperandKeys(op, vl, lmul), instructionCount)
      ensures CsrGrown(old(coverage), coverage, OneIf(op.name == "fflags"), OneIf(op.name == "vstart"), OneIf(op.name == "mtvec"))
      ensures SameHazards(old(coverage), coverage)
    {
      if op.hasObject {
        var keys := ExpandVectorReg(op.name, vl, lmul);
        RecordKeys(keys);
      }
      CheckCsr(op.name);
    }

    method RecordDestinations(i: Instruction)
      modifies this`lastWritten, this`coverage
      ensures Recorded(old(lastWritten), lastWritten, Writes(i), instructionCount)
      ensures CsrCounted(old(coverage), coverage, i.destinations, |i.destinations|)
      ensures SameHazards(old(coverage), coverage)
    {
      ghost var c0, last := coverage, lastWritten;
      for k := 0 to |i.destinations|
        invariant Recorded(last, lastWritten, KeysOf(i.destinations, k, i.vl, i.lmul), instructionCount)
        invariant CsrCounted(c0, coverage, i.destinations, k) && SameHazards(c0, coverage)
      {
        RecordNext(i, k, last, c0);
      }
    }

    method RecordNext(i: Instruction, k: nat, ghost last: map<Key, nat>, ghost c0: map<Event, nat>)
      requires k < |i.destinations| && CsrCounted(c0, coverage, i.destinations, k) && SameHazards(c0, coverage)
      requires Recorded(last, lastWritten, KeysOf(i.destinations, k, i.vl, i.lmul), instructionCount)
      modifies this`lastWritten, this`coverage
      ensures CsrCounted(c0, coverage, i.destinations, k + 1) && SameHazards(c0, coverage)
      ensures Recorded(last, lastWritten, KeysOf(i.destinations, k + 1, i.vl, i.lmul), instructionCount)
    {
      match i.destinations[k] {
        case None =>
        case Some(op) =>
          ghost var c1, last1 := coverage, lastWritten;
          RecordDestination(op, i.vl, i.lmul);
          RecordedJoin(last, last1, lastWritten, KeysOf(i.destinations, k, i.vl, i.lmul), OperandKeys(op, i.vl, i.lmul),
                       instructionCount);
          KeysOfNext(i.destinations, k, i.vl, i.lmul, op);
          CsrStep(c0, c1, coverage, i.destinations, k, op);
      }
    }

    /** The hazards and side effects of an instruction that has been counted. */
    method CalculateHazardDistance(i: Instruction)
      requires instructionCount == |trace| + 1 && InStep(trace, lastWritten, coverage, hazardToAddress)
      modifies this`coverage, this`hazardToAddress, this`lastWritten
      ensures InStep(trace + [i], lastWritten, coverage, hazardToAddress) && SameOpcodes(old(coverage), coverage)
    {
      ghost var c0, a0, last := coverage, hazardToAddress, lastWritten;
      WritesArePast(trace, last);
      TrackSources(i, last, instructionCount);
      ghost var c1 := coverage;
      RecordDestinations(i);
      StatisticsGrow(trace, i, last, lastWritten, c0, c1, coverage, a0, hazardToAddress, instructionCount);
    }

    /** One executed instruction keeps the statistics in step with the trace. */
    method OnInstruction(i: Instruction)
      requires Valid()
      modifies this
      ensures Valid() && trace == old(trace) + [i]
    {
      ghost var c0, a0, last := coverage, hazardToAddress, lastWritten;
      LogOpcode(i.opcode);
      OpcodeLogged(trace, last, c0, a0, OpcodeEvent(i.opcode, opcodes));
      CalculateHazardDistance(i);
      OpcodesGrow(trace, i, c0, coverage, opcodes);
      trace := trace + [i];
    }
  }

  /** The hazard and side-effect statistics that belong to a trace. */
  ghost predicate InStep(trace: seq<Instruction>, last: map<Key, nat>, coverage: map<Event, nat>, addresses: map<nat, Word>) {
    && Agrees(last, trace) && CsrAgrees(coverage, trace)
    && (forall d: nat | 1 <= d <= 3 :: Count(coverage, RawHazard(d)) == Hazards(trace, d, |trace|))
    && forall d: nat | 1 <= d <= 3 :: AddressOf(addresses, d) == HazardAddress(trace, d, |trace|)
  }

  /** The opcode statistics that belong to a trace. */
  /** What the statistics say about the trace: the side effects ... */
  lemma SideEffectStatistics(trace: seq<Instruction>, last: map<Key, nat>, coverage: map<Event, nat>, addresses: map<nat, Word>)
    requires InStep(trace, last, coverage, addresses)
    ensures Count(coverage, FflagsSideEffect) == CsrCount(trace, |trace|, "fflags")
    ensures Count(coverage, VstartSideEffect) == CsrCount(trace, |trace|, "vstart")
    ensures Count(coverage, TrapHandlerCorrupted) == if CsrCount(trace, |trace|, "mtvec") > 0 then 1 else 0
  {
  }

  /** ... the hazards of each distance, with the address of the latest ... */
  lemma HazardStatistics(
    trace: seq<Instruction>, last: map<Key, nat>, coverage: map<Event, nat>, addresses: map<nat, Word>, d: nat)
    requires InStep(trace, last, coverage, addresses) && 1 <= d <= 3
    ensures Count(coverage, RawHazard(d)) == Sum(HitCounts(trace, d), |trace|)
    ensures (if d in addresses then Some(addresses[d]) else None) == HazardAddress(trace, d, |trace|)
  {
    assert Count(coverage, RawHazard(d)) == Hazards(trace, d, |trace|);
    assert AddressOf(addresses, d) == HazardAddress(trace, d, |trace|);
  }

  /** ... and the latest writer of each register. */
  lemma WriterStatistics(trace: seq<Instruction>, last: map<Key, nat>, key: Key)
    requires Agrees(last, trace)
    ensures key in last ==>
              && 1 <= last[key] <= |trace| && key in Writes(trace[last[key] - 1])
              && forall j | last[key] <= j < |trace| :: key !in Writes(trace[j])
    ensures key !in last ==> forall j | 0 <= j < |trace| :: key !in Writes(trace[j])
  {
    LastWriterIsLatest(trace, |trace|, key);
  }

  lemma {:induction false} LatestIs(counts: nat -> nat, n: nat)
    ensures Latest(counts, n).None? ==> forall k: nat | k < n :: counts(k) == 0
    ensures Latest(counts, n).Some? ==>
              && Latest(counts, n).value < n && counts(Latest(counts, n).value) > 0
              && forall j: nat | Latest(counts, n).value < j < n :: counts(j) == 0
  {
    if n > 0 && counts(n - 1) == 0 {
      LatestIs(counts, n - 1);
    }
  }

  /** The recorded address is that of the latest instruction with a hazard of the distance. */
  lemma AddressIsLatest(trace: seq<Instruction>, d: nat, n: nat)
    requires n <= |trace|
    ensures HazardAddress(trace, d, n).None? ==> forall k: nat | k < n :: HitCounts(trace, d)(k) == 0
    ensures HazardAddress(trace, d, n).Some? ==>
              exists k: nat | k < n ::
                HitCounts(trace, d)(k) > 0 && HazardAddress(trace, d, n) == Some(trace[k].address)
                && forall j: nat | k < j < n :: HitCounts(trace, d)(j) == 0
  {
    LatestIs(HitCounts(trace, d), n);
  }

  ghost predicate OpcodesInStep(trace: seq<Instruction>, coverage: map<Event, nat>, opcodes: nat) {
    forall e: Event | IsOpcodeEvent(e) :: Count(coverage, e) == Executions(trace, |trace|, opcodes, e)
  }

  lemma OpcodeLogged(trace: seq<Instruction>, last: map<Key, nat>, c: map<Event, nat>, a: map<nat, Word>, e: Event)
    requires InStep(trace, last, c, a) && IsOpcodeEvent(e)
    ensures InStep(trace, last, c[e := Count(c, e) + 1], a)
  {
  }

  lemma OpcodesGrow(trace: seq<Instruction>, i: Instruction, c0: map<Event, nat>, c: map<Event, nat>, opcodes: nat)
    requires OpcodesInStep(trace, c0, opcodes)
    requires var e := OpcodeEvent(i.opcode, opcodes); SameOpcodes(c0[e := Count(c0, e) + 1], c)
    ensures OpcodesInStep(trace + [i], c, opcodes)
  {
    var c1 := c0[OpcodeEvent(i.opcode, opcodes) := Count(c0, OpcodeEvent(i.opcode, opcodes)) + 1];
    forall e: Event | IsOpcodeEvent(e)
      ensures Count(c, e) == Executions(trace + [i], |trace| + 1, opcodes, e)
    {
      ExecutionsPrefix(trace, trace + [i], |trace|, opcodes, e);
      assert Count(c, e) == Count(c1, e);
    }
  }

  ghost predicate SameOpcodes(before: map<Event, nat>, after: map<Event, nat>) {
    forall e: Event | IsOpcodeEvent(e) :: Count(after, e) == Count(before, e)
  }

  lemma WritesArePast(trace: seq<Instruction>, last: map<Key, nat>)
    requires Agrees(last, trace)
    ensures Past(last, |trace| + 1)
  {
  }

  lemma StatisticsGrow(
    trace: seq<Instruction>, i: Instruction, last: map<Key, nat>, next: map<Key, nat>, c0: map<Event, nat>,
    c1: map<Event, nat>, c2: map<Event, nat>, a0: map<nat, Word>, a1: map<nat, Word>, now: nat)
    requires InStep(trace, last, c0, a0) && now == |trace| + 1
    requires Tracked(c0, c1, a0, a1, i.address, MapHitsOf(Reads(i), last, now)) && SameHazards(c1, c2)
    requires CsrCounted(c0, c1, i.sources, |i.sources|) && CsrCounted(c1, c2, i.destinations, |i.destinations|)
    requires Recorded(last, next, Writes(i), now)
    ensures InStep(trace + [i], next, c2, a1) && SameOpcodes(c0, c2)
  {
    CsrKeepsOpcodes(c0, c1, c2);
    HazardsGrow(trace, i, last, c0, c1, c2, a0, a1);
    WritesGrow(trace, i, last, next);
    CsrGrow(trace, i, c0, c1, c2);
  }

  lemma CsrKeepsOpcodes(c0: map<Event, nat>, c1: map<Event, nat>, c2: map<Event, nat>)
    requires SameOpcodes(c0, c1) && SameOpcodes(c1, c2)
    ensures SameOpcodes(c0, c2)
  {
  }

  function OneIf(b: bool): nat {
    if b then 1 else 0
  }

  /** Whether a read hits at distance `d`. */
  function KeyHits(key: Key, last: map<Key, nat>, now: nat, d: nat): nat {
    if key in last && now - last[key] == d then 1 else 0
  }

  function MapHitsOf(keys: seq<Key>, last: map<Key, nat>, now: nat): nat -> nat {
    d => MapHits(keys, last, now, d)
  }

  /** The hazard statistics grew by the given numbers of hits, all at one address. */
  ghost predicate Tracked(
    before: map<Event, nat>, after: map<Event, nat>, was: map<nat, Word>, now: map<nat, Word>, address: Word,
    hits: nat -> nat)
  {
    forall d: nat | 1 <= d <= 3 ::
      Count(after, RawHazard(d)) == Count(before, RawHazard(d)) + hits(d)
      && AddressOf(now, d) == if hits(d) > 0 then Some(address) else AddressOf(was, d)
  }

  ghost predicate SameHazards(before: map<Event, nat>, after: map<Event, nat>) {
    forall d: nat :: Count(after, RawHazard(d)) == Count(before, RawHazard(d))
  }

  ghost predicate SameCsr(before: map<Event, nat>, after: map<Event, nat>) {
    CsrGrown(before, after, 0, 0, 0)
  }

  /** The side-effect statistics grew by these numbers of names; the last one is a mark, not a count. */
  ghost predicate CsrGrown(before: map<Event, nat>, after: map<Event, nat>, fflags: nat, vstart: nat, mtvec: nat) {
    && SameOpcodes(before, after)
    && Count(after, FflagsSideEffect) == Count(before, FflagsSideEffect) + fflags
    && Count(after, VstartSideEffect) == Count(before, VstartSideEffect) + vstart
    && Count(after, TrapHandlerCorrupted) == if mtvec > 0 then 1 else Count(before, TrapHandlerCorrupted)
  }

  ghost predicate CsrCounted(before: map<Event, nat>, after: map<Event, nat>, operands: seq<Option<Operand>>, n: nat)
    requires n <= |operands|
  {
    CsrGrown(before, after, Occurrences(operands, n, "fflags"), Occurrences(operands, n, "vstart"),
             Occurrences(operands, n, "mtvec"))
  }

  lemma CsrStep(
    c0: map<Event, nat>, c1: map<Event, nat>, c2: map<Event, nat>, operands: seq<Option<Operand>>, k: nat, op: Operand)
    requires k < |operands| && operands[k] == Some(op) && CsrCounted(c0, c1, operands, k)
    requires CsrGrown(c1, c2, OneIf(op.name == "fflags"), OneIf(op.name == "vstart"), OneIf(op.name == "mtvec"))
    ensures CsrCounted(c0, c2, operands, k + 1)
  {
  }

  lemma SingleHit(key: Key, last: map<Key, nat>, now: nat)
    ensures forall d: nat :: MapHitsOf([key], last, now)(d) == KeyHits(key, last, now, d)
  {
    forall d: nat
      ensures MapHitsOf([key], last, now)(d) == KeyHits(key, last, now, d)
    {
      MapHitsAppend([], key, last, now, d);
      assert [] + [key] == [key];
    }
  }

  lemma NothingTracked(c: map<Event, nat>, a: map<nat, Word>, address: Word, last: map<Key, nat>, now: nat)
    ensures Tracked(c, c, a, a, address, MapHitsOf([], last, now))
  {
  }

  lemma TrackedJoin(
    c0: map<Event, nat>, c1: map<Event, nat>, c2: map<Event, nat>, a0: map<nat, Word>, a1: map<nat, Word>,
    a2: map<nat, Word>, address: Word, first: seq<Key>, second: seq<Key>, last: map<Key, nat>, now: nat)
    requires Tracked(c0, c1, a0, a1, address, MapHitsOf(first, last, now))
    requires Tracked(c1, c2, a1, a2, address, MapHitsOf(second, last, now))
    ensures Tracked(c0, c2, a0, a2, address, MapHitsOf(first + second, last, now))
  {
    forall d: nat | 1 <= d <= 3
      ensures MapHitsOf(first + second, last, now)(d) == MapHitsOf(first, last, now)(d) + MapHitsOf(second, last, now)(d)
    {
      MapHitsJoin(first, second, last, now, d);
    }
  }

  /** `keys` were written at `now`; every other entry is as before. */
  ghost predicate Recorded(before: map<Key, nat>, after: map<Key, nat>, keys: seq<Key>, now: nat) {
    forall key: Key ::
      if key in keys then key in after && after[key] == now
      else (key in after <==> key in before) && (key in before ==> after[key] == before[key])
  }

  lemma RecordedJoin(
    m0: map<Key, nat>, m1: map<Key, nat>, m2: map<Key, nat>, first: seq<Key>, second: seq<Key>, now: nat)
    requires Recorded(m0, m1, first, now) && Recorded(m1, m2, second, now)
    ensures Recorded(m0, m2, first + second, now)
  {
  }

  lemma HazardsGrow(
    trace: seq<Instruction>, i: Instruction, last: map<Key, nat>, c0: map<Event, nat>, c1: map<Event, nat>,
    c2: map<Event, nat>, a0: map<nat, Word>, a1: map<nat, Word>)
    requires Agrees(last, trace)
    requires Tracked(c0, c1, a0, a1, i.address, MapHitsOf(Reads(i), last, |trace| + 1)) && SameHazards(c1, c2)
    requires forall d: nat | 1 <= d <= 3 :: Count(c0, RawHazard(d)) == Hazards(trace, d, |trace|)
    requires forall d: nat | 1 <= d <= 3 :: AddressOf(a0, d) == HazardAddress(trace, d, |trace|)
    ensures forall d: nat | 1 <= d <= 3 :: Count(c2, RawHazard(d)) == Hazards(trace + [i], d, |trace| + 1)
    ensures forall d: nat | 1 <= d <= 3 :: AddressOf(a1, d) == HazardAddress(trace + [i], d, |trace| + 1)
  {
    forall d: nat | 1 <= d <= 3
      ensures Count(c2, RawHazard(d)) == Hazards(trace + [i], d, |trace| + 1)
      ensures AddressOf(a1, d) == HazardAddress(trace + [i], d, |trace| + 1)
    {
      var hits := MapHitsOf(Reads(i), last, |trace| + 1);
      HazardStep(trace, i, last, d);
      assert Count(c2, RawHazard(d)) == Count(c0, RawHazard(d)) + hits(d);
    }
  }

  lemma HazardStep(trace: seq<Instruction>, i: Instruction, last: map<Key, nat>, d: nat)
    requires Agrees(last, trace)
    ensures var hits := MapHitsOf(Reads(i), last, |trace| + 1)(d);
      && Hazards(trace + [i], d, |trace| + 1) == Hazards(trace, d, |trace|) + hits
      && HazardAddress(trace + [i], d, |trace| + 1)
         == if hits > 0 then Some(i.address) else HazardAddress(trace, d, |trace|)
  {
    HazardsPrefix(trace, trace + [i], d);
    NewHits(trace, i, last, d);
  }

  /** The new instruction's own hits, counted against the map. */
  lemma NewHits(trace: seq<Instruction>, i: Instruction, last: map<Key, nat>, d: nat)
    requires Agrees(last, trace)
    ensures HitCounts(trace + [i], d)(|trace|) == MapHitsOf(Reads(i), last, |trace| + 1)(d)
  {
    HitsPrefix(trace, trace + [i], |trace|, d, Reads(i));
    MapHitsAreHits(trace, last, d, Reads(i));
  }

  lemma WritesGrow(trace: seq<Instruction>, i: Instruction, last: map<Key, nat>, next: map<Key, nat>)
    requires Agrees(last, trace) && Recorded(last, next, Writes(i), |trace| + 1)
    ensures Agrees(next, trace + [i])
  {
    forall key: Key
      ensures (key in next <==> LastWriter(trace + [i], |trace| + 1, key) >= 0)
              && (key in next ==> next[key] == LastWriter(trace + [i], |trace| + 1, key) + 1)
    {
      LastWriterPrefix(trace, trace + [i], |trace|, key);
    }
  }

  lemma {:induction false} CsrCountPrefix(trace: seq<Instruction>, i: Instruction, n: nat, name: string)
    requires n <= |trace|
    ensures CsrCount(trace + [i], n, name) == CsrCount(trace, n, name)
    decreases n
  {
    if n > 0 {
      CsrCountPrefix(trace, i, n - 1, name);
    }
  }

  lemma CsrGrow(trace: seq<Instruction>, i: Instruction, c0: map<Event, nat>, c1: map<Event, nat>, c2: map<Event, nat>)
    requires CsrAgrees(c0, trace) && CsrCounted(c0, c1, i.sources, |i.sources|)
    requires CsrCounted(c1, c2, i.destinations, |i.destinations|)
    ensures CsrAgrees(c2, trace + [i])
  {
    CsrCountPrefix(trace, i, |trace|, "fflags");
    CsrCountPrefix(trace, i, |trace|, "vstart");
    CsrCountPrefix(trace, i, |trace|, "mtvec");
  }

  /** The side-effect statistics that belong to a trace. */
  ghost predicate CsrAgrees(coverage: map<Event, nat>, trace: seq<Instruction>) {
    && Count(coverage, FflagsSideEffect) == CsrCount(trace, |trace|, "fflags")
    && Count(coverage, VstartSideEffect) == CsrCount(trace, |trace|, "vstart")
    && Count(coverage, TrapHandlerCorrupted) == if CsrCount(trace, |trace|, "mtvec") > 0 then 1 else 0
  }

  function AddressOf(m: map<nat, Word>, d: nat): Option<Word> {
    if d in m then Some(m[d]) else None
  }

  /** How often a name occurs as an operand of the first `n` instructions. */
  function CsrCount(trace: seq<Instruction>, n: nat, name: string): nat
    requires n <= |trace|
    decreases n
  {
    if n == 0 then 0
    else
      var i := trace[n - 1];
      CsrCount(trace, n - 1, name) + Occurrences(i.sources, |i.sources|, name)
      + Occurrences(i.destinations, |i.destinations|, name)
  }
}
