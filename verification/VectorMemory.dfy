/** Vector stores and loads with length, stride and strip mining: what a store writes, a load in the
    same mode reads back. */
module VectorMemory {
  import opened Words
  import opened RenodeMemory

  /** An element as its bytes. */
  type Element = seq<Byte>

  /** Registers of `lanes` elements of `size` bytes. */
  ghost predicate Group(registers: seq<seq<Element>>, lanes: nat, size: nat) {
    forall r | 0 <= r < |registers| ::
      |registers[r]| == lanes && forall i | 0 <= i < lanes :: |registers[r][i]| == size
  }

  function Zero(size: nat): (e: Element)
    ensures |e| == size && forall i | 0 <= i < size :: e[i] == 0
  {
    seq(size, _ => 0)
  }

  // ---------------------------------------------------------------- addresses

  /** The 32-bit start address of a register, stepped on register by register. */
  function OpBase(base: Word, step: Word, op: nat): Word {
    if op == 0 then base else Plus(OpBase(base, step, op - 1), step)
  }

  /** The address of element `k`: wrapping between registers, not inside one. */
  function AddressOf(base: Word, step: Word, lanes: nat, size: nat, k: nat): nat
    requires lanes > 0
  {
    OpBase(base, step, BlockOf(k, lanes)) + LaneAt(size, OffsetOf(k, lanes))
  }

  function Addresses(base: Word, step: Word, lanes: nat, size: nat, n: nat): (a: seq<nat>)
    requires lanes > 0
    ensures |a| == n && forall k | 0 <= k < n :: a[k] == AddressOf(base, step, lanes, size, k)
  {
    seq(n, k requires 0 <= k < n => AddressOf(base, step, lanes, size, k))
  }

  /** Registers start `step` apart, modulo 2^32; inside one, elements follow each other. */
  lemma ElementPlace(base: Word, step: Word, lanes: nat, size: nat, k: nat)
    requires lanes > 0
    ensures AddressOf(base, step, lanes, size, k)
            == (base + (k / lanes) * step) % 0x1_0000_0000 + (k - k / lanes * lanes) * size
  {
    DivisionFindsBlock(k, lanes);
    OpBaseIs(base, step, BlockOf(k, lanes));
    LaneAtIs(size, OffsetOf(k, lanes));
  }

  lemma {:induction false} OpBaseIs(base: Word, step: Word, op: nat)
    ensures OpBase(base, step, op) == Wrap(base + op * step)
    decreases op
  {
    if op > 0 {
      OpBaseIs(base, step, op - 1);
      Distribute(op - 1, 1, step);
      NextBase(base, step, OpBase(base, step, op - 1), (op - 1) * step);
    }
  }

  lemma NextBase(base: Word, step: Word, at: Word, distance: int)
    requires at == Wrap(base + distance)
    ensures Plus(at, step) == Wrap(base + (distance + step))
  {
    WrapAdd(base + distance, step);
  }

  /** Elements fill the registers of a group one after the other. */
  lemma ElementOfGroup(registers: seq<seq<Element>>, lanes: nat, size: nat, k: nat)
    requires 0 < lanes && 0 <= k / lanes < |registers| && Group(registers, lanes, size)
    ensures 0 <= k - k / lanes * lanes < lanes && ElementAt(registers, lanes, k) == registers[k / lanes][k - k / lanes * lanes]
  {
    DivisionFindsBlock(k, lanes);
  }

  /** Element `i` of register `op`. */
  lemma {:induction false} IndexOfElement(lanes: nat, op: nat, i: nat)
    requires i < lanes
    ensures BlockOf(LaneAt(lanes, op) + i, lanes) == op && OffsetOf(LaneAt(lanes, op) + i, lanes) == i
    decreases op
  {
    if op > 0 {
      IndexOfElement(lanes, op - 1, i);
    }
  }

  /** The load's loop: a count per register, taken from what is left. */
  method LoadAddresses(addr: Word, stride: Word, lanes: nat, size: nat, numOps: nat, elts: nat)
    returns (addresses: array<nat>, masks: array<bool>)
    requires lanes > 0 && elts <= LaneAt(lanes, numOps)
    ensures fresh(addresses) && fresh(masks)
    ensures addresses[..] == Addresses(addr, Wrap(stride * size), lanes, size, elts)
    ensures masks[..] == seq(elts, _ => true)
  {
    addresses := new nat[elts](_ => 0);
    masks := new bool[elts](_ => false);
    var base := addr;
    var eltsLeft := elts;
    ghost var step: Word := Wrap(stride * size);
    ghost var first: nat := 0;
    for op := 0 to numOps
      invariant first == LaneAt(lanes, op) && base == OpBase(addr, step, op)
      invariant eltsLeft == if first <= elts then elts - first else 0
      invariant Filled(addresses[..], masks[..], addr, step, lanes, size, elts - eltsLeft)
    {
      var count := if eltsLeft < lanes then eltsLeft else lanes;
      FillRegister(addresses, masks, base, lanes, size, op, count, elts - eltsLeft, addr, step);
      eltsLeft := eltsLeft - count;
      StepWraps(base, stride, size);
      base := Wrap(base + stride * size);
      first := first + lanes;
    }
    assert eltsLeft == 0;
  }

  /** The inner loop: the elements of one register. */
  method FillRegister(
    addresses: array<nat>, masks: array<bool>, base: Word, lanes: nat, size: nat, op: nat, count: nat,
    ghost done: nat, ghost addr: Word, ghost step: Word)
    requires count <= lanes && 0 < lanes && base == OpBase(addr, step, op) && (count > 0 ==> done == LaneAt(lanes, op))
    requires addresses.Length == masks.Length && done + count <= addresses.Length
    requires Filled(addresses[..], masks[..], addr, step, lanes, size, done)
    modifies addresses, masks
    ensures Filled(addresses[..], masks[..], addr, step, lanes, size, done + count)
  {
    LaneAtIs(lanes, op);
    for i := 0 to count
      invariant Filled(addresses[..], masks[..], addr, step, lanes, size, done + i)
    {
      IndexOfElement(lanes, op, i);
      LaneAtIs(size, i);
      addresses[op * lanes + i] := base + i * size;
      masks[op * lanes + i] := true;
    }
  }

  lemma StepWraps(base: Word, stride: Word, size: nat)
    ensures Wrap(base + stride * size) == Plus(base, Wrap(stride * size))
  {
    WrapAdd(stride * size, base);
  }

  /** The first `n` entries are filled in. */
  ghost predicate Filled(a: seq<nat>, m: seq<bool>, addr: Word, step: Word, lanes: nat, size: nat, n: nat)
    requires lanes > 0
  {
    n <= |a| == |m| && forall k | 0 <= k < n :: a[k] == AddressOf(addr, step, lanes, size, k) && m[k]
  }

  /** The store's loop (not quad): a running index that stops at the element count. */
  method StoreAddresses(addr: Word, stride: Word, lanes: nat, size: nat, numOps: nat, elts: nat, registers: seq<seq<Element>>)
    returns (addresses: array<nat>, values: array<Element>)
    requires lanes > 0 && elts <= LaneAt(lanes, numOps) && |registers| == numOps && Group(registers, lanes, size)
    ensures fresh(addresses) && fresh(values)
    ensures addresses[..] == Addresses(addr, Wrap(stride * size), lanes, size, elts)
    ensures values[..] == Values(registers, lanes, elts)
  {
    addresses := new nat[elts](_ => 0);
    values := new Element[elts](_ => []);
    var baseAddr := addr;
    var index := 0;
    ghost var step: Word := Wrap(stride * size);
    ghost var first: nat := 0;
    for op := 0 to numOps
      invariant first == LaneAt(lanes, op) && baseAddr == OpBase(addr, step, op)
      invariant index == if first <= elts then first else elts
      invariant Stored(addresses[..], values[..], addr, step, lanes, size, registers, index)
    {
      index := StoreRegister(addresses, values, baseAddr, lanes, size, op, elts, registers, index, first, addr, step);
      StepWraps(baseAddr, stride, size);
      baseAddr := Wrap(baseAddr + stride * size);
      first := first + lanes;
    }
  }

  /** The inner loop: the elements of one register, as long as there are any left. */
  method StoreRegister(
    addresses: array<nat>, values: array<Element>, baseAddr: Word, lanes: nat, size: nat, op: nat, elts: nat,
    registers: seq<seq<Element>>, start: nat, ghost first: nat, ghost addr: Word, ghost step: Word)
    returns (index: nat)
    requires 0 < lanes && op < |registers| && Group(registers, lanes, size) && baseAddr == OpBase(addr, step, op)
    requires first == LaneAt(lanes, op) && start == (if first <= elts then first else elts)
    requires addresses.Length == values.Length == elts
    requires Stored(addresses[..], values[..], addr, step, lanes, size, registers, start)
    modifies addresses, values
    ensures index == if first + lanes <= elts then first + lanes else elts
    ensures Stored(addresses[..], values[..], addr, step, lanes, size, registers, index)
  {
    index := start;
    var i := 0;
    while i < lanes && index < elts
      invariant 0 <= i <= lanes && index == (if first + i <= elts then first + i else elts)
      invariant Stored(addresses[..], values[..], addr, step, lanes, size, registers, index)
    {
      IndexOfElement(lanes, op, i);
      LaneAtIs(size, i);
      addresses[index] := baseAddr + i * size;
      values[index] := registers[op][i];
      index := index + 1;
      i := i + 1;
    }
  }

  /** The first `n` elements of a register group. */
  function Values(registers: seq<seq<Element>>, lanes: nat, n: nat): (v: seq<Element>)
    requires lanes > 0
    ensures |v| == n && forall k | 0 <= k < n :: v[k] == ElementAt(registers, lanes, k)
  {
    seq(n, k requires 0 <= k < n => ElementAt(registers, lanes, k))
  }

  function ElementAt(registers: seq<seq<Element>>, lanes: nat, k: nat): Element
    requires lanes > 0
  {
    var r, i := BlockOf(k, lanes), OffsetOf(k, lanes);
    if r < |registers| && i < |registers[r]| then registers[r][i] else []
  }

  /** The first `n` addresses and values are filled in. */
  ghost predicate Stored(
    a: seq<nat>, v: seq<Element>, addr: Word, step: Word, lanes: nat, size: nat, registers: seq<seq<Element>>, n: nat)
    requires lanes > 0
  {
    && n <= |a| == |v|
    && forall k | 0 <= k < n :: a[k] == AddressOf(addr, step, lanes, size, k) && v[k] == ElementAt(registers, lanes, k)
  }

  // ---------------------------------------------------------------- memory

  function AllTrue(n: nat): (m: seq<bool>)
    ensures |m| == n && forall k | 0 <= k < n :: m[k]
  {
    seq(n, _ => true)
  }

  function FlatBytes(values: seq<Element>): seq<Byte>
    decreases |values|
  {
    if values == [] then [] else FlatBytes(values[..|values| - 1]) + values[|values| - 1]
  }

  ghost predicate Sized(values: seq<Element>, size: nat) {
    forall k | 0 <= k < |values| :: |values[k]| == size
  }

  lemma {:induction false} FlatElement(values: seq<Element>, size: nat, k: nat)
    requires Sized(values, size) && k < |values|
    ensures |FlatBytes(values)| == LaneAt(size, |values|) && Slice(FlatBytes(values), LaneAt(size, k), size) == values[k]
    decreases |values|
  {
    var front, last := values[..|values| - 1], values[|values| - 1];
    FlatLength(front, size);
    FlatLength(values, size);
    if k < |values| - 1 {
      FlatElement(front, size, k);
      LaneFits(k, |front|, size);
    }
  }

  lemma {:induction false} FlatLength(values: seq<Element>, size: nat)
    requires Sized(values, size)
    ensures |FlatBytes(values)| == LaneAt(size, |values|)
    decreases |values|
  {
    if values != [] {
      FlatLength(values[..|values| - 1], size);
    }
  }

  /** The memory after a store of `values`, one element per address. */
  function StoreMemory(view: seq<Byte>, addresses: seq<nat>, size: nat, values: seq<Element>): seq<Byte>
    requires |addresses| == |values|
  {
    if addresses == [] then view
    else ScatterUpTo(view, addresses, AllTrue(|addresses|), size, FlatBytes(values), |addresses|)
  }

  /** The elements that a load fetches. */
  function LoadMemory(view: seq<Byte>, addresses: seq<nat>, size: nat): (v: seq<Element>)
    ensures |v| == |addresses|
  {
    if addresses == [] then []
    else
      var zeros := seq(LaneAt(size, |addresses|), _ => 0);
      var bytes := GatherUpTo(view, addresses, AllTrue(|addresses|), size, zeros, |addresses|);
      seq(|addresses|, k requires 0 <= k < |addresses| => Slice(bytes, LaneAt(size, k), size))
  }

  /** Addresses at which elements of `size` bytes do not overlap, inside a memory. */
  ghost predicate Spread(addresses: seq<nat>, size: nat, max: nat) {
    && (forall k | 0 <= k < |addresses| :: addresses[k] + size <= max)
    && forall j, k | 0 <= j < k < |addresses| :: addresses[j] + size <= addresses[k] || addresses[k] + size <= addresses[j]
  }

  lemma LoadUndoesStore(view: seq<Byte>, addresses: seq<nat>, size: nat, values: seq<Element>)
    requires |addresses| == |values| && Sized(values, size) && Spread(addresses, size, |view|)
    ensures LoadMemory(StoreMemory(view, addresses, size, values), addresses, size) == values
  {
    if addresses != [] {
      forall k | 0 <= k < |values|
        ensures LoadMemory(StoreMemory(view, addresses, size, values), addresses, size)[k] == values[k]
      {
        ElementComesBack(view, addresses, size, values, k);
      }
    }
  }

  lemma ElementComesBack(view: seq<Byte>, addresses: seq<nat>, size: nat, values: seq<Element>, k: nat)
    requires |addresses| == |values| && Sized(values, size) && Spread(addresses, size, |view|) && k < |addresses|
    ensures LoadMemory(StoreMemory(view, addresses, size, values), addresses, size)[k] == values[k]
  {
    var n := |addresses|;
    FlatElement(values, size, k);
    SpreadIsSeparate(addresses, size, |view|);
    GatherUndoesScatter(view, addresses, AllTrue(n), size, FlatBytes(values), seq(LaneAt(size, n), _ => 0), k);
  }

  lemma SpreadIsSeparate(addresses: seq<nat>, size: nat, max: nat)
    requires Spread(addresses, size, max) && addresses != []
    ensures LanesInside(addresses, AllTrue(|addresses|), size, max) && Separate(addresses, AllTrue(|addresses|), size)
  {
    forall j | 0 <= j < |addresses|
      ensures LaneAddress(addresses, j, size) == addresses[j]
    {
      assert |addresses| == 1 ==> j == 0 && LaneAt(size, 0) == 0;
    }
  }

  // ---------------------------------------------------------------- register write

  /** A register of the load: the loaded elements, and zeros behind them. */
  ghost predicate Holds(register: seq<Element>, values: seq<Element>, lanes: nat, size: nat, op: nat) {
    |register| == lanes && forall i | 0 <= i < lanes :: register[i] == PaddedValue(values, LaneAt(lanes, op) + i, size)
  }

  /** The load's child. */
  method LdRegWrite(values: seq<Element>, lanes: nat, size: nat, numOps: nat) returns (registers: seq<seq<Element>>)
    requires lanes > 0
    ensures |registers| == numOps && forall op | 0 <= op < numOps :: Holds(registers[op], values, lanes, size, op)
  {
    registers := [];
    for op := 0 to numOps
      invariant |registers| == op && forall p | 0 <= p < op :: Holds(registers[p], values, lanes, size, p)
    {
      var dest: seq<Element> := [];
      LaneAtIs(lanes, op);
      for i := 0 to lanes
        invariant |dest| == i && forall j | 0 <= j < i :: dest[j] == PaddedValue(values, LaneAt(lanes, op) + j, size)
      {
        var index := op * lanes + i;
        dest := dest + [if index < |values| then values[index] else Zero(size)];
      }
      registers := registers + [dest];
    }
  }

  /** What the write-back leaves in lane `i` of register `op`. */
  lemma WrittenLane(register: seq<Element>, values: seq<Element>, lanes: nat, size: nat, op: nat, i: nat)
    requires Holds(register, values, lanes, size, op) && i < lanes
    ensures 0 <= op * lanes && |register| == lanes
    ensures op * lanes + i < |values| ==> register[i] == values[op * lanes + i]
    ensures op * lanes + i >= |values| ==> |register[i]| == size && forall b | 0 <= b < size :: register[i][b] == 0
  {
    LaneAtIs(lanes, op);
  }

  function PaddedValue(values: seq<Element>, index: nat, size: nat): Element {
    if index < |values| then values[index] else Zero(size)
  }

  // ---------------------------------------------------------------- the round trip

  /** None of the first `elts` elements wraps around, at its start or inside. */
  predicate NoWrap(base: Word, step: Word, lanes: nat, size: nat, elts: nat)
    requires lanes > 0
  {
    forall k: nat | k < elts :: base + LaneAt(step, BlockOf(k, lanes)) + LaneAt(size, OffsetOf(k, lanes)) + size <= WORD
  }

  lemma {:induction false} BaseWithoutWrap(base: Word, step: Word, op: nat)
    requires base + LaneAt(step, op) < WORD
    ensures OpBase(base, step, op) as int == base + LaneAt(step, op)
    decreases op
  {
    if op > 0 {
      BaseWithoutWrap(base, step, op - 1);
    }
  }

  /** Elements lie apart when registers do: a stride of at least a register, or a single register. */
  predicate RegistersApart(step: Word, lanes: nat, size: nat, elts: nat) {
    LaneAt(size, lanes) <= step || elts <= lanes
  }

  lemma {:induction false} BlockBound(k: nat, lanes: nat, numOps: nat)
    requires lanes > 0 && k < LaneAt(lanes, numOps)
    ensures BlockOf(k, lanes) < numOps
    decreases numOps
  {
    if k >= lanes {
      BlockBound(k - lanes, lanes, numOps - 1);
    }
  }

  /** The place of element `k`, without wrap-around. */
  lemma PlaceOf(base: Word, step: Word, lanes: nat, size: nat, elts: nat, k: nat)
    requires lanes > 0 && size > 0 && NoWrap(base, step, lanes, size, elts) && k < elts
    ensures var op, i := BlockOf(k, lanes), OffsetOf(k, lanes);
      && AddressOf(base, step, lanes, size, k) == base + LaneAt(step, op) + LaneAt(size, i)
      && LaneAt(size, i) + size <= LaneAt(size, lanes)
      && AddressOf(base, step, lanes, size, k) + size <= WORD
  {
    LaneFits(OffsetOf(k, lanes), lanes, size);
    BaseWithoutWrap(base, step, BlockOf(k, lanes));
  }

  lemma {:induction false} SameElement(j: nat, k: nat, lanes: nat)
    requires lanes > 0 && BlockOf(j, lanes) == BlockOf(k, lanes) && OffsetOf(j, lanes) == OffsetOf(k, lanes)
    ensures j == k
    decreases j
  {
    if j >= lanes && k >= lanes {
      SameElement(j - lanes, k - lanes, lanes);
    }
  }

  lemma AddressesApart(base: Word, step: Word, lanes: nat, size: nat, elts: nat, j: nat, k: nat)
    requires lanes > 0 && size > 0 && NoWrap(base, step, lanes, size, elts)
    requires RegistersApart(step, lanes, size, elts) && j < elts && k < elts && j != k
    ensures var a, b := AddressOf(base, step, lanes, size, j), AddressOf(base, step, lanes, size, k);
      a + size <= b || b + size <= a
  {
    PlaceOf(base, step, lanes, size, elts, j);
    PlaceOf(base, step, lanes, size, elts, k);
    var p, q := BlockOf(j, lanes), BlockOf(k, lanes);
    if p == q {
      LanesApart(OffsetOf(j, lanes), OffsetOf(k, lanes), size);
      if OffsetOf(j, lanes) == OffsetOf(k, lanes) {
        SameElement(j, k, lanes);
      }
    } else {
      LanesApart(p, q, step);
      FirstBlock(j, lanes);
      FirstBlock(k, lanes);
    }
  }

  lemma FirstBlock(k: nat, lanes: nat)
    requires lanes > 0
    ensures k < lanes ==> BlockOf(k, lanes) == 0
  {
  }

  lemma AddressesSpread(base: Word, step: Word, lanes: nat, size: nat, elts: nat)
    requires lanes > 0 && size > 0 && NoWrap(base, step, lanes, size, elts)
    requires RegistersApart(step, lanes, size, elts)
    ensures Spread(Addresses(base, step, lanes, size, elts), size, WORD)
  {
    var a := Addresses(base, step, lanes, size, elts);
    forall k | 0 <= k < elts
      ensures a[k] + size <= WORD
    {
      PlaceOf(base, step, lanes, size, elts, k);
    }
    forall j, k | 0 <= j < k < elts
      ensures a[j] + size <= a[k] || a[k] + size <= a[j]
    {
      AddressesApart(base, step, lanes, size, elts, j, k);
    }
  }

  /** A store and a load in the same mode: the first `elts` elements come back, zeros behind them, as
      long as no element that is accessed wraps around. */
  lemma LoadReturnsStored(
    view: seq<Byte>, base: Word, stride: Word, lanes: nat, size: nat, numOps: nat, elts: nat, registers: seq<seq<Element>>,
    op: nat, i: nat)
    requires |view| == WORD && lanes > 0 && size > 0 && elts <= LaneAt(lanes, numOps)
    requires |registers| == numOps && Group(registers, lanes, size) && op < numOps && i < lanes
    requires NoWrap(base, Wrap(stride * size), lanes, size, elts) && RegistersApart(Wrap(stride * size), lanes, size, elts)
    ensures var addresses := Addresses(base, Wrap(stride * size), lanes, size, elts);
      var stored := StoreMemory(view, addresses, size, Values(registers, lanes, elts));
      PaddedValue(LoadMemory(stored, addresses, size), LaneAt(lanes, op) + i, size)
      == if LaneAt(lanes, op) + i < elts then registers[op][i] else Zero(size)
  {
    var addresses := Addresses(base, Wrap(stride * size), lanes, size, elts);
    AddressesSpread(base, Wrap(stride * size), lanes, size, elts);
    ValuesSized(registers, lanes, size, numOps, elts);
    LoadUndoesStore(view, addresses, size, Values(registers, lanes, elts));
    PaddedRegister(registers, lanes, size, elts, op, i);
  }

  lemma PaddedRegister(registers: seq<seq<Element>>, lanes: nat, size: nat, elts: nat, op: nat, i: nat)
    requires lanes > 0 && op < |registers| && i < lanes && |registers[op]| == lanes
    ensures PaddedValue(Values(registers, lanes, elts), LaneAt(lanes, op) + i, size)
            == if LaneAt(lanes, op) + i < elts then registers[op][i] else Zero(size)
  {
    IndexOfElement(lanes, op, i);
  }

  lemma ValuesSized(registers: seq<seq<Element>>, lanes: nat, size: nat, numOps: nat, elts: nat)
    requires lanes > 0 && |registers| == numOps && Group(registers, lanes, size) && elts <= LaneAt(lanes, numOps)
    ensures Sized(Values(registers, lanes, elts), size)
  {
    forall k | 0 <= k < elts
      ensures |Values(registers, lanes, elts)[k]| == size
    {
      BlockBound(k, lanes, numOps);
    }
  }
}
