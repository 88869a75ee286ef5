/** Validation of vector memory accesses: element by element with masks and 32-bit wrap-around, the
    range check that stands in for it, and the traps that a refused access raises. */
module VectorAccess {
  import opened Words
  import opened Digits
  import opened Wrappers
  import opened Masks
  import opened MemoryRegions

  /** Where the elements of an access are. `Indexed` carries the index vector's registers. */
  datatype Pattern =
    | Strided(base: Word, stride: int, fields: nat, width: nat)
    | Indexed(base: Word, registers: seq<seq<Byte>>, indexBytes: nat, fields: nat, width: nat)
  {
    predicate Valid(count: int) {
      && fields > 0 && 0 < width && fields * width < 0x1_0000
      && (Indexed? ==>
            && indexBytes > 0 && |registers| > 0 && |registers[0]| >= indexBytes && |registers[0]| % indexBytes == 0
            && (forall r | 0 <= r < |registers| :: |registers[r]| == |registers[0]|)
            && count <= |registers| * (|registers[0]| / indexBytes))
    }
  }

  // ---------------------------------------------------------------- index values

  lemma OrOfByte(v: nat, b: Byte, n: nat)
    requires v < Pow2(8 * n)
    ensures 0 <= (b as nat) * Pow2(8 * n)
    ensures BitOr(v, (b as nat) * Pow2(8 * n)) == v + (b as nat) * Pow2(8 * n)
  {
    MulMono(0, b, Pow2(8 * n));
    OrDisjoint(b, v, 8 * n);
    OrCommutes(v, (b as nat) * Pow2(8 * n));
  }

  function Flat(registers: seq<seq<Byte>>): seq<Byte>
    decreases |registers|
  {
    if registers == [] then [] else registers[0] + Flat(registers[1..])
  }

  lemma {:induction false} FlatAt(registers: seq<seq<Byte>>, n: nat, r: nat, at: nat)
    requires r < |registers| && at < n && forall q | 0 <= q < |registers| :: |registers[q]| == n
    ensures 0 <= r * n && r * n + at < |Flat(registers)| && Flat(registers)[r * n + at] == registers[r][at]
    decreases |registers|
  {
    if r > 0 {
      FlatAt(registers[1..], n, r - 1, at);
      Distribute(r, 1, n);
    }
  }

  /** The byte of a register group that a loop over one register's bytes reads. */
  lemma IndexByte(registers: seq<seq<Byte>>, i: nat, w: nat, per: nat, b: nat)
    requires w > 0 && per > 0 && b < w && |registers| > 0 && i < |registers| * per
    requires forall q | 0 <= q < |registers| :: |registers[q]| == per * w
    ensures i / per < |registers| && 0 <= (i % per) * w && (i % per) * w + b < per * w
    ensures 0 <= i * w && i * w + b < |Flat(registers)|
    ensures registers[i / per][(i % per) * w + b] == Flat(registers)[i * w + b]
  {
    var r, e := i / per, i % per;
    DivMod(i, per);
    DivBounds(i, per, 0, |registers|);
    MulMono(e + 1, per, w);
    Distribute(e, 1, w);
    MulMono(0, e, w);
    FlatAt(registers, per * w, r, e * w + b);
    Regroup(i, per, r, e, w);
  }

  lemma Regroup(i: nat, per: nat, r: nat, e: nat, w: nat)
    requires i == r * per + e
    ensures r * (per * w) + e * w == i * w
  {
    assert r * (per * w) == (r * per) * w;
    Distribute(r * per, e, w);
  }

  /** The index of element `i`: the little-endian value in the flat index vector. */
  function IndexValue(p: Pattern, i: nat): nat
    requires p.Indexed?
  {
    var flat := Flat(p.registers);
    if i * p.indexBytes + p.indexBytes <= |flat| then LittleEndian(flat, i * p.indexBytes, p.indexBytes) else 0
  }

  /** Reading inside one register reads the flat index vector. */
  lemma {:induction false} RegisterIsFlat(
    registers: seq<seq<Byte>>, i: nat, w: nat, per: nat, r: int, at: int, from: int, n: nat)
    requires w > 0 && per > 0 && n <= w && |registers| > 0 && i < |registers| * per
    requires forall q | 0 <= q < |registers| :: |registers[q]| == per * w
    requires r == i / per && at == (i % per) * w && from == i * w
    ensures 0 <= r < |registers| && 0 <= at && at + w <= |registers[r]| && 0 <= from && from + w <= |Flat(registers)|
    ensures LittleEndian(registers[r], at, n) == LittleEndian(Flat(registers), from, n)
    decreases n
  {
    IndexByte(registers, i, w, per, w - 1);
    if n > 0 {
      IndexByte(registers, i, w, per, n - 1);
      RegisterIsFlat(registers, i, w, per, r, at, from, n - 1);
    }
  }

  lemma GroupShape(p: Pattern, count: int, i: nat)
    requires p.Indexed? && p.Valid(count) && i < count
    ensures var per := |p.registers[0]| / p.indexBytes;
      per > 0 && per * p.indexBytes == |p.registers[0]| && i < |p.registers| * per
  {
    var w := p.indexBytes;
    var per := |p.registers[0]| / w;
    DivMod(|p.registers[0]|, w);
    MulUnit(per, w);
  }

  /** Where the bytes of an index are: in which register, and at which place in it. */
  ghost predicate IndexAt(p: Pattern, i: nat, r: nat, at: nat)
    requires p.Indexed?
  {
    && r < |p.registers| && at + p.indexBytes <= |p.registers[r]|
    && LittleEndian(p.registers[r], at, p.indexBytes) == IndexValue(p, i)
  }

  lemma FoundAt(p: Pattern, i: nat, r: nat, at: nat, from: nat)
    requires p.Indexed? && from == i * p.indexBytes && from + p.indexBytes <= |Flat(p.registers)|
    requires r < |p.registers| && at + p.indexBytes <= |p.registers[r]|
    requires LittleEndian(p.registers[r], at, p.indexBytes) == LittleEndian(Flat(p.registers), from, p.indexBytes)
    ensures IndexAt(p, i, r, at)
  {
  }

  lemma IndexFound(p: Pattern, count: int, i: nat)
    requires p.Indexed? && p.Valid(count) && i < count
    ensures var per := |p.registers[0]| / p.indexBytes;
      per > 0 && 0 <= i / per && 0 <= (i % per) * p.indexBytes && IndexAt(p, i, i / per, (i % per) * p.indexBytes)
  {
    var w := p.indexBytes;
    var per := |p.registers[0]| / w;
    GroupShape(p, count, i);
    RegisterIsFlat(p.registers, i, w, per, i / per, (i % per) * w, i * w, w);
    FoundAt(p, i, i / per, (i % per) * w, i * w);
  }

  method GetIndexValue(p: Pattern, count: int, i: nat) returns (value: nat)
    requires p.Indexed? && p.Valid(count) && i < count
    ensures value == IndexValue(p, i)
  {
    IndexFound(p, count, i);
    var per := |p.registers[0]| / p.indexBytes;
    var r, at := i / per, (i % per) * p.indexBytes;
    value := ReadLittleEndian(p.registers[r], at, p.indexBytes);
  }

  /** Or-ing one more byte into place continues the value. */
  lemma NextByte(bytes: seq<Byte>, at: nat, b: nat)
    requires at + b < |bytes|
    ensures 0 <= (bytes[at + b] as nat) * Pow2(8 * b)
    ensures BitOr(LittleEndian(bytes, at, b), (bytes[at + b] as nat) * Pow2(8 * b)) == LittleEndian(bytes, at, b + 1)
  {
    OrOfByte(LittleEndian(bytes, at, b), bytes[at + b], b);
  }

  method ReadLittleEndian(bytes: seq<Byte>, at: nat, n: nat) returns (value: nat)
    requires at + n <= |bytes|
    ensures value == LittleEndian(bytes, at, n)
  {
    value := 0;
    for b := 0 to n
      invariant value == LittleEndian(bytes, at, b)
    {
      NextByte(bytes, at, b);
      value := BitOr(value, (bytes[at + b] as nat) * Pow2(8 * b));
    }
  }

  // ---------------------------------------------------------------- the simple specification

  function ElementAddress(p: Pattern, i: nat): Word {
    match p
    case Strided(base, stride, _, _) => Wrap(base + i * stride)
    case Indexed(base, _, _, _, _) => Wrap(base + IndexValue(p, i))
  }

  function FieldAddress(p: Pattern, i: nat, f: nat): Word {
    Wrap(ElementAddress(p, i) + f * p.width)
  }

  /** Element and field addresses in one sum, cut to 32 bits once. */
  lemma FieldAddressInOneSum(p: Pattern, count: int, i: nat, f: nat)
    requires p.Valid(count) && i < count
    ensures p.Strided? ==> FieldAddress(p, i, f) == (p.base + i * p.stride + f * p.width) % 0x1_0000_0000
    ensures p.Indexed? ==>
              && 0 <= i * p.indexBytes && i * p.indexBytes + p.indexBytes <= |Flat(p.registers)|
              && FieldAddress(p, i, f)
                 == (p.base + LittleEndian(Flat(p.registers), i * p.indexBytes, p.indexBytes) + f * p.width) % 0x1_0000_0000
  {
    if p.Strided? {
      WrapAdd(p.base + i * p.stride, f * p.width);
    } else {
      var w := p.indexBytes;
      var per := |p.registers[0]| / w;
      GroupShape(p, count, i);
      RegisterIsFlat(p.registers, i, w, per, i / per, (i % per) * w, i * w, w);
      WrapAdd(p.base + LittleEndian(Flat(p.registers), i * w, w), f * p.width);
    }
  }

  predicate FieldPermitted(regions: seq<Region>, p: Pattern, i: nat, f: nat, access: Permission)
    requires p.width < WORD
  {
    HasPermission(regions, FieldAddress(p, i, f), p.width, access)
  }

  /** Every field of every active element from `start` on is permitted. */
  ghost predicate AllPermitted(
    regions: seq<Region>, p: Pattern, mask: Option<seq<Byte>>, start: nat, count: int, access: Permission)
    requires p.width < WORD && MaskCovers(mask, count)
  {
    forall i: nat, f: nat | start <= i < count && f < p.fields && Active(mask, i) :: FieldPermitted(regions, p, i, f, access)
  }

  /** Element `i`, field `f` is the first refused one in the order of the walk. */
  ghost predicate FirstRefused(
    regions: seq<Region>, p: Pattern, mask: Option<seq<Byte>>, start: nat, count: int, access: Permission, i: nat, f: nat)
    requires p.width < WORD && MaskCovers(mask, count)
  {
    && start <= i < count && f < p.fields && Active(mask, i) && !FieldPermitted(regions, p, i, f, access)
    && AllPermitted(regions, p, mask, start, i, access)
    && forall g: nat | g < f :: FieldPermitted(regions, p, i, g, access)
  }

  /** What is asked of the regions: each field of each active element, with its own width. */
  lemma FieldsAskedFor(
    regions: seq<Region>, p: Pattern, mask: Option<seq<Byte>>, start: nat, count: int, access: Permission)
    requires p.width < WORD && MaskCovers(mask, count)
    ensures AllPermitted(regions, p, mask, start, count, access)
            <==> forall i: nat, f: nat | start <= i < count && f < p.fields && Active(mask, i) ::
                   HasPermission(regions, FieldAddress(p, i, f), p.width, access)
  {
    if AllPermitted(regions, p, mask, start, count, access) {
      forall i: nat, f: nat | start <= i < count && f < p.fields && Active(mask, i)
        ensures HasPermission(regions, FieldAddress(p, i, f), p.width, access)
      {
        assert FieldPermitted(regions, p, i, f, access);
      }
    }
  }

  // ---------------------------------------------------------------- the range check

  /** The last element's distance from the first. */
  function SpanOf(stride: int, count: int): int {
    (count - 1) * stride
  }

  function RangeLow(base: Word, span: int): Word {
    if span >= 0 then base else Wrap(base + span)
  }

  function RangeHigh(base: Word, span: int): Word {
    if span >= 0 then Wrap(base + span) else base
  }

  /** The range is usable: the span fits and the address does not wrap around. */
  predicate RangeFits(base: Word, span: int, size: nat) {
    var end := Wrap(base + span);
    && -0xFFFF_FFFF <= span <= 0xFFFF_FFFF
    && !(span > 0 && end < base) && !(span < 0 && base < end)
    && RangeHigh(base, span) as int + size <= 0x1_0000_0000
  }

  /** One permission check for the whole range. Its length is cut to 32 bits. */
  function HasRangePermission(
    regions: seq<Region>, base: Word, stride: int, count: int, size: nat, access: Permission): bool
  {
    if count <= 0 then true
    else
      var span := SpanOf(stride, count);
      if !RangeFits(base, span, size) then false
      else
        var low := RangeLow(base, span);
        HasPermission(regions, low, Wrap(RangeHigh(base, span) as int + size - low), access)
  }

  /** The range is the whole address space, whose length is cut to zero. */
  predicate WholeSpace(base: Word, stride: int, count: int, size: nat) {
    var span := SpanOf(stride, count);
    RangeFits(base, span, size) && RangeLow(base, span) == 0 && RangeHigh(base, span) as int + size == 0x1_0000_0000
  }

  /** A range that fits holds its elements without wrapping. */
  lemma ElementInRange(base: Word, stride: int, count: int, size: nat, k: nat)
    requires k < count && RangeFits(base, SpanOf(stride, count), size)
    ensures var span := SpanOf(stride, count);
      RangeLow(base, span) <= base as int + k * stride <= RangeHigh(base, span)
    ensures Wrap(base + k * stride) == base as int + k * stride
  {
    var span := SpanOf(stride, count);
    EndDoesNotWrap(base, span);
    if stride >= 0 {
      MulMono(0, k, stride);
      MulMono(k, count - 1, stride);
    } else {
      MulMono(0, k, -stride);
      MulMono(k, count - 1, -stride);
      Negate(k, stride);
      Negate(count - 1, stride);
    }
    Within(base as int + k * stride);
  }

  lemma Negate(k: int, s: int)
    ensures k * -s == -(k * s)
  {
  }

  lemma Within(x: int)
    requires 0 <= x < 0x1_0000_0000
    ensures Wrap(x) == x
  {
  }

  lemma EndDoesNotWrap(base: Word, span: int)
    requires -0xFFFF_FFFF <= span <= 0xFFFF_FFFF
    requires !(span > 0 && Wrap(base + span) < base) && !(span < 0 && base < Wrap(base + span))
    ensures Wrap(base + span) == base as int + span
  {
    PlusWraps(base, span);
  }

  /** The address of field `f`, inside the element's own range. */
  lemma FieldInRange(address: Word, fields: nat, width: nat, f: nat)
    requires f < fields && 0 < width && address as int + fields * width <= 0x1_0000_0000
    ensures Wrap(address + f * width) == address as int + f * width
    ensures address as int + f * width + width <= address as int + fields * width && 0 <= f * width
  {
    MulMono(f + 1, fields, width);
    Distribute(f, 1, width);
    MulMono(0, f, width);
    Within(address as int + f * width);
  }

  /** A permitted range permits every nonempty part of it, for disjoint regions. */
  lemma PartPermitted(regions: seq<Region>, low: Word, length: Word, a: Word, size: Word, access: Permission)
    requires Disjoint(regions) && 0 < size && 0 < length && low <= a && a as int + size <= low as int + length
    requires HasPermission(regions, low, length, access)
    ensures HasPermission(regions, a, size, access)
  {
    DisjointPermission(regions, low, length, access);
    var i :| 0 <= i < |regions| && regions[i].Contains(low, length) && regions[i].permission.Includes(access);
    assert regions[i].Contains(a, size);
    DisjointPermission(regions, a, size, access);
  }

  /** Element `start + k` of a strided access lies `k` strides behind the first one checked. */
  lemma StridedFrom(base: Word, stride: int, start: nat, k: nat)
    ensures Wrap(Wrap(base + start * stride) + k * stride) == Wrap(base + (start + k) * stride)
  {
    WrapAdd(base + start * stride, k * stride);
    Distribute(start, k, stride);
  }

  /** What the range check accepts, every element check accepts, unless the range is the whole space. */
  lemma RangeIsSound(regions: seq<Region>, p: Pattern, mask: Option<seq<Byte>>, start: nat, count: int, access: Permission)
    requires Disjoint(regions) && p.Strided? && p.Valid(count) && MaskCovers(mask, count) && start < count
    requires var first := Wrap(p.base + start * p.stride);
      && HasRangePermission(regions, first, p.stride, count - start, p.fields * p.width, access)
      && !WholeSpace(first, p.stride, count - start, p.fields * p.width)
    ensures AllPermitted(regions, p, mask, start, count, access)
  {
    forall i: nat, f: nat | start <= i < count && f < p.fields && Active(mask, i)
      ensures FieldPermitted(regions, p, i, f, access)
    {
      FieldOfRange(regions, p, start, count, i, f, access);
    }
  }

  lemma FieldOfRange(regions: seq<Region>, p: Pattern, start: nat, count: int, i: nat, f: nat, access: Permission)
    requires Disjoint(regions) && p.Strided? && p.Valid(count) && start <= i < count && f < p.fields
    requires var first := Wrap(p.base + start * p.stride);
      && HasRangePermission(regions, first, p.stride, count - start, p.fields * p.width, access)
      && !WholeSpace(first, p.stride, count - start, p.fields * p.width)
    ensures p.width < WORD && FieldPermitted(regions, p, i, f, access)
  {
    FieldWidth(p, count);
    AddressInRange(p, start, count, i, p.fields * p.width);
    FieldIsSound(regions, FirstAddress(p, start), SpanOf(p.stride, count - start), ElementAddress(p, i), p.fields, p.width, f,
                 access);
  }

  lemma AddressBetween(first: Word, stride: int, count: int, size: nat, k: nat, address: Word)
    requires k < count && RangeFits(first, SpanOf(stride, count), size) && address == Wrap(first + k * stride)
    ensures RangeLow(first, SpanOf(stride, count)) <= address <= RangeHigh(first, SpanOf(stride, count))
  {
    ElementInRange(first, stride, count, size, k);
  }

  function FirstAddress(p: Pattern, start: nat): Word
    requires p.Strided?
  {
    Wrap(p.base + start * p.stride)
  }

  /** An element's address lies in the range from the first to the last one. */
  lemma AddressInRange(p: Pattern, start: nat, count: int, i: nat, size: nat)
    requires p.Strided? && start <= i < count && RangeFits(FirstAddress(p, start), SpanOf(p.stride, count - start), size)
    ensures var first, span := FirstAddress(p, start), SpanOf(p.stride, count - start);
      RangeLow(first, span) <= ElementAddress(p, i) <= RangeHigh(first, span)
  {
    StridedFrom(p.base, p.stride, start, i - start);
    AddressBetween(FirstAddress(p, start), p.stride, count - start, size, i - start, ElementAddress(p, i));
  }

  lemma FieldWidth(p: Pattern, count: int)
    requires p.Valid(count)
    ensures p.width < WORD
  {
    MulMono(1, p.fields, p.width);
  }

  /** A field of an element that starts inside a permitted range. */
  lemma FieldIsSound(
    regions: seq<Region>, first: Word, span: int, address: Word, fields: nat, width: nat, f: nat, access: Permission)
    requires Disjoint(regions) && f < fields && 0 < width < WORD && RangeFits(first, span, fields * width)
    requires HasPermission(regions, RangeLow(first, span), RangeLength(first, span, fields * width), access)
    requires !(RangeLow(first, span) == 0 && RangeHigh(first, span) as int + fields * width == 0x1_0000_0000)
    requires RangeLow(first, span) <= address <= RangeHigh(first, span)
    ensures HasPermission(regions, Wrap(address + f * width), width, access)
  {
    FieldInRange(address, fields, width, f);
    RangeGrants(regions, first, span, fields * width, address + f * width, width, access);
  }

  /** The length that is checked, cut to 32 bits. */
  function RangeLength(first: Word, span: int, size: nat): Word {
    Wrap(RangeHigh(first, span) as int + size - RangeLow(first, span))
  }

  lemma RangeGrants(regions: seq<Region>, first: Word, span: int, size: nat, a: int, width: nat, access: Permission)
    requires Disjoint(regions) && 0 < width < WORD && RangeFits(first, span, size) && 0 < size
    requires HasPermission(regions, RangeLow(first, span), RangeLength(first, span, size), access)
    requires !(RangeLow(first, span) == 0 && RangeHigh(first, span) as int + size == 0x1_0000_0000)
    requires RangeLow(first, span) <= a && a + width <= RangeHigh(first, span) as int + size
    ensures 0 <= a < WORD && HasPermission(regions, a, width, access)
  {
    var low, high := RangeLow(first, span), RangeHigh(first, span);
    EndDoesNotWrap(first, span);
    Within(high as int + size - low);
    PartPermitted(regions, low, high as int + size - low, a, width, access);
  }

  // ---------------------------------------------------------------- traps

  /** The element's address; an index is cut to 32 bits before it is added. */
  method AddressOf(p: Pattern, count: int, i: nat) returns (address: Word)
    requires p.Valid(count) && i < count
    ensures address == ElementAddress(p, i)
  {
    if p.Strided? {
      address := Wrap(p.base + i * p.stride);
    } else {
      var index := GetIndexValue(p, count, i);
      address := Wrap(p.base + Wrap(index));
      WrapAdd(index, p.base);
    }
  }

  datatype Fault = LoadAccessFault | StoreAccessFault | IllegalInstruction

  datatype Trap = Trap(fault: Fault, value: Word)

  function FaultOf(access: Permission): Fault {
    if access == READ then LoadAccessFault else StoreAccessFault
  }

  /** The vector side of the simulated hart: its regions, the traps raised and the memory operations
      handed on to the generic implementation. */
  class VectorUnit {
    var regions: seq<Region>
    var vstart: nat
    var traps: seq<Trap>
    var executed: seq<Pattern>

    constructor (initial: seq<Region>)
      ensures regions == initial && vstart == 0 && traps == [] && executed == []
    {
      regions, vstart, traps, executed := initial, 0, [], [];
    }

    /** One access; a refusal traps with its address. */
    method CheckVectorAccess(address: Word, size: Word, access: Permission) returns (ok: bool)
      modifies this`traps
      ensures ok == HasPermission(regions, address, size, access)
      ensures ok ==> traps == old(traps)
      ensures !ok && access == READ ==> traps == old(traps) + [Trap(LoadAccessFault, address)]
      ensures !ok && access != READ ==> traps == old(traps) + [Trap(StoreAccessFault, address)]
    {
      ok := HasPermission(regions, address, size, access);
      if !ok {
        traps := traps + [Trap(if access == READ then LoadAccessFault else StoreAccessFault, address)];
      }
    }

    /** The fields of one element, in order; the first refused one ends the walk. */
    method ValidateElement(p: Pattern, i: nat, count: int, access: Permission)
      returns (ok: bool, ghost refused: nat)
      requires p.Valid(count) && i < count && p.width < WORD
      modifies this`traps
      ensures ok <==> forall g: nat | g < p.fields :: FieldPermitted(regions, p, i, g, access)
      ensures ok ==> traps == old(traps)
      ensures !ok ==> refused < p.fields && !FieldPermitted(regions, p, i, refused, access)
      ensures !ok ==> forall g: nat | g < refused :: FieldPermitted(regions, p, i, g, access)
      ensures !ok ==> traps == old(traps) + [Trap(FaultOf(access), FieldAddress(p, i, refused))]
    {
      var address := AddressOf(p, count, i);
      ok, refused := true, 0;
      var field := 0;
      while field < p.fields
        invariant field <= p.fields && traps == old(traps) && address == ElementAddress(p, i)
        invariant forall g: nat | g < field :: FieldPermitted(regions, p, i, g, access)
      {
        ok := CheckVectorAccess(Wrap(address + field * p.width), p.width, access);
        if !ok {
          refused := field;
          assert !FieldPermitted(regions, p, i, refused, access);
          return;
        }
        field := field + 1;
      }
    }

    /** The walk over the active elements. */
    method ValidateVectorAccess(p: Pattern, mask: Option<seq<Byte>>, start: nat, count: int, access: Permission)
      returns (ok: bool, ghost i: nat, ghost f: nat)
      requires p.Valid(count) && MaskCovers(mask, count) && p.width < WORD
      modifies this`traps
      ensures ok <==> AllPermitted(regions, p, mask, start, count, access)
      ensures ok ==> traps == old(traps)
      ensures !ok ==> FirstRefused(regions, p, mask, start, count, access, i, f)
      ensures !ok ==> traps == old(traps) + [Trap(FaultOf(access), FieldAddress(p, i, f))]
    {
      ok, i, f := true, 0, 0;
      var k := start;
      while k < count
        invariant start <= k && (k <= count || k == start) && traps == old(traps)
        invariant AllPermitted(regions, p, mask, start, if k <= count then k else count, access)
      {
        if mask.None? || (mask.value[k / 8] as nat) / Pow2(k % 8) % 2 == 1 {
          ghost var refused;
          ok, refused := ValidateElement(p, k, count, access);
          if !ok {
            i, f := k, refused;
            return;
          }
        }
        k := k + 1;
      }
    }

    /** The range check first, the walk where it does not apply. */
    method ValidateStridedVectorAccess(p: Pattern, mask: Option<seq<Byte>>, start: nat, count: int, access: Permission)
      returns (ok: bool, ghost i: nat, ghost f: nat)
      requires Disjoint(regions) && p.Strided? && p.Valid(count) && MaskCovers(mask, count) && p.width < WORD
      modifies this`traps
      ensures ok <==> AllPermitted(regions, p, mask, start, count, access) || CutToZero(regions, p, start, count, access)
      ensures ok ==> traps == old(traps)
      ensures !ok ==> FirstRefused(regions, p, mask, start, count, access, i, f)
      ensures !ok ==> traps == old(traps) + [Trap(FaultOf(access), FieldAddress(p, i, f))]
    {
      if start < count {
        var first := Wrap(p.base + start * p.stride);
        if HasRangePermission(regions, first, p.stride, count - start, p.fields * p.width, access) {
          if !WholeSpace(first, p.stride, count - start, p.fields * p.width) {
            RangeIsSound(regions, p, mask, start, count, access);
          }
          return true, 0, 0;
        }
      }
      ok, i, f := ValidateVectorAccess(p, mask, start, count, access);
    }

    /** A strided or segment access: validated, then handed on or refused with a single trap. */
    method Strided(p: Pattern, mask: Option<seq<Byte>>, ignoreVstart: bool, count: int, access: Permission)
      requires Disjoint(regions) && p.Strided? && p.Valid(count) && MaskCovers(mask, count) && p.width < WORD
      modifies this`traps, this`executed
      ensures var start := if ignoreVstart then 0 else vstart;
        var ok := AllPermitted(regions, p, mask, start, count, access) || CutToZero(regions, p, start, count, access);
        executed == old(executed) + (if ok then [p] else []) && |traps| == |old(traps)| + (if ok then 0 else 1)
        && Outcome(old(traps), traps, old(executed), executed, regions, p, mask, start, count, access, ok)
    {
      var ok, i, f := ValidateStridedVectorAccess(p, mask, if ignoreVstart then 0 else vstart, count, access);
      if ok {
        executed := executed + [p];
      }
    }

    /** An indexed access. */
    method Indexed(p: Pattern, mask: Option<seq<Byte>>, count: int, access: Permission)
      requires p.Indexed? && p.Valid(count) && MaskCovers(mask, count) && p.width < WORD
      modifies this`traps, this`executed
      ensures var ok := AllPermitted(regions, p, mask, vstart, count, access);
        executed == old(executed) + (if ok then [p] else []) && |traps| == |old(traps)| + (if ok then 0 else 1)
        && Outcome(old(traps), traps, old(executed), executed, regions, p, mask, vstart, count, access, ok)
    {
      var ok, i, f := ValidateVectorAccess(p, mask, vstart, count, access);
      if ok {
        executed := executed + [p];
      }
    }

    /** The strided load with its check of the register group size, in eighths of a register. */
    method VlStrided(base: Word, stride: int, width: nat, mask: Option<seq<Byte>>, vl: nat, lmul: nat, sew: nat)
      requires Disjoint(regions) && 0 < width <= 8 && 0 < sew && MaskCovers(mask, vl)
      modifies this`traps, this`executed
      ensures var p := Pattern.Strided(base, stride, 1, width);
        var emul := width * lmul / sew;
        if emul > 64 || emul == 0 then
          traps == old(traps) + [Trap(IllegalInstruction, 0)] && executed == old(executed)
        else
          var ok := AllPermitted(regions, p, mask, vstart, vl, READ) || CutToZero(regions, p, vstart, vl, READ);
          Outcome(old(traps), traps, old(executed), executed, regions, p, mask, vstart, vl, READ, ok)
    {
      var emul := width * lmul / sew;
      if emul > 64 || emul == 0 {
        traps := traps + [Trap(IllegalInstruction, 0)];
        return;
      }
      Strided(Pattern.Strided(base, stride, 1, width), mask, false, vl, READ);
    }
  }

  /** The one family of accepted accesses that the element checks may refuse: the range is the whole
      address space, and an empty access at address zero is permitted. */
  predicate CutToZero(regions: seq<Region>, p: Pattern, start: nat, count: int, access: Permission)
    requires p.Strided?
  {
    && start < count
    && WholeSpace(Wrap(p.base + start * p.stride), p.stride, count - start, p.fields * p.width)
    && HasPermission(regions, 0, 0, access)
  }

  /** Accepted: the operation is handed on, no trap. Refused: exactly one trap, with the address of the
      first refused field, and no operation. */
  ghost predicate Outcome(
    before: seq<Trap>, after: seq<Trap>, ran: seq<Pattern>, runs: seq<Pattern>, regions: seq<Region>, p: Pattern,
    mask: Option<seq<Byte>>, start: nat, count: int, access: Permission, ok: bool)
    requires p.width < WORD && MaskCovers(mask, count)
  {
    if ok then after == before && runs == ran + [p]
    else
      runs == ran && exists i: nat, f: nat ::
        FirstRefused(regions, p, mask, start, count, access, i, f)
        && after == before + [Trap(FaultOf(access), FieldAddress(p, i, f))]
  }

  // ---------------------------------------------------------------- when the range check is exact

  /** The first refused field is unique: the trap value is determined. */
  lemma FirstRefusedUnique(
    regions: seq<Region>, p: Pattern, mask: Option<seq<Byte>>, start: nat, count: int, access: Permission, i: nat, f: nat,
    j: nat, g: nat)
    requires p.width < WORD && MaskCovers(mask, count)
    requires FirstRefused(regions, p, mask, start, count, access, i, f)
    requires FirstRefused(regions, p, mask, start, count, access, j, g)
    ensures i == j && f == g
  {
    RefusedNotBefore(regions, p, mask, start, count, access, i, f, j);
    RefusedNotBefore(regions, p, mask, start, count, access, j, g, i);
  }

  lemma RefusedNotBefore(
    regions: seq<Region>, p: Pattern, mask: Option<seq<Byte>>, start: nat, count: int, access: Permission, i: nat, f: nat,
    j: nat)
    requires p.width < WORD && MaskCovers(mask, count) && start <= i < count && j <= count && f < p.fields
    requires Active(mask, i) && !FieldPermitted(regions, p, i, f, access) && AllPermitted(regions, p, mask, start, j, access)
    ensures j <= i
  {
  }

  /** When an access is accepted by the cut, in numbers: walking up it starts at zero and ends at 2^32; walking
      down its last element is at zero and its first one ends at 2^32. */
  lemma CutExactly(regions: seq<Region>, p: Pattern, start: nat, count: int, access: Permission)
    requires p.Strided? && p.Valid(count)
    ensures CutToZero(regions, p, start, count, access)
            <==> var first := (p.base + start * p.stride) % 0x1_0000_0000;
                 var span, size := (count - start - 1) * p.stride, p.fields * p.width;
                 && start < count && HasPermission(regions, 0, 0, access)
                 && (if span >= 0 then first == 0 && span + size == 0x1_0000_0000
                     else first + span == 0 && first + size == 0x1_0000_0000)
  {
    MulUnit(p.fields, p.width);
    if start < count {
      CutRange(Wrap(p.base + start * p.stride), (count - start - 1) * p.stride, p.fields * p.width);
    }
  }

  lemma CutRange(first: Word, span: int, size: nat)
    requires 0 < size < 0x1_0000
    ensures RangeFits(first, span, size) && RangeLow(first, span) == 0 && RangeHigh(first, span) as int + size == 0x1_0000_0000
            <==> if span >= 0 then first == 0 && span + size == 0x1_0000_0000
                 else first + span == 0 && first + size == 0x1_0000_0000
  {
  }

  /** A range shorter than the address space is never cut. */
  lemma ShortRangeIsExact(regions: seq<Region>, p: Pattern, start: nat, count: int, access: Permission)
    requires p.Strided? && start < count
    requires Abs(SpanOf(p.stride, count - start)) + p.fields * p.width < 0x1_0000_0000
    ensures !CutToZero(regions, p, start, count, access)
  {
    var first: Word := Wrap(p.base + start * p.stride);
    var span := SpanOf(p.stride, count - start);
    if RangeFits(first, span, p.fields * p.width) {
      EndDoesNotWrap(first, span);
    }
  }

  /** The cut is real: a strided load of four 32-bit elements whose range is the whole space is accepted
      under the default regions on the strength of an empty access at address zero, although its second
      element lies in no region. */
  lemma WholeSpaceIsAccepted()
    ensures var p := Pattern.Strided(0, 0x5555_5554, 1, 4);
      && p.Valid(4) && Disjoint(DefaultRegions()) && CutToZero(DefaultRegions(), p, 0, 4, READ)
      && HasRangePermission(DefaultRegions(), 0, p.stride, 4, 4, READ)
      && !AllPermitted(DefaultRegions(), p, None, 0, 4, READ)
  {
    var regions, p := DefaultRegions(), Pattern.Strided(0, 0x5555_5554, 1, 4);
    var none: Option<seq<Byte>> := None;
    assert FieldAddress(p, 1, 0) == 0x5555_5554;
    DisjointPermission(regions, 0x5555_5554, 4, READ);
    assert Active(none, 1) && !FieldPermitted(regions, p, 1, 0, READ);
  }
}
