/** The vector conversions between single precision and bfloat16: loops over masked elements with
    lazily copied destination registers. */
module Bf16Vectors {
  import opened Words
  import opened Wrappers
  import opened Masks
  import opened Bf16
  import opened Bf16Rounding

  /** The elements of one vector register. */
  type Register = seq<int>

  type Conversion = int -> Converted

  // ---------------------------------------------------------------- the element-wise specification

  /** The operands of a conversion: source elements, mask, and the range of elements. */
  datatype Job = Job(source: seq<int>, mask: Option<seq<Byte>>, vstart: nat, vl: nat) {
    predicate Valid(lanes: nat, registers: nat) {
      && lanes > 0 && vl <= |source| && MaskCovers(mask, vl)
      && forall k: nat | k < vl :: BlockOf(k, lanes) < registers
    }
  }

  /** Element `k` is converted by the time the walk has reached `upTo`. */
  predicate Converts(job: Job, k: nat, upTo: nat)
    requires upTo <= job.vl && MaskCovers(job.mask, job.vl)
  {
    job.vstart <= k < upTo && Active(job.mask, k)
  }

  /** Element `k` of the destination when the walk has reached `upTo`. */
  function Element(conv: Conversion, job: Job, k: nat, upTo: nat, before: int): int
    requires upTo <= job.vl <= |job.source| && MaskCovers(job.mask, job.vl)
  {
    if Converts(job, k, upTo) then conv(job.source[k]).value else before
  }

  /** The flags of the converted elements. */
  function FlagsUpTo(conv: Conversion, job: Job, upTo: nat): Flags
    requires upTo <= job.vl <= |job.source| && MaskCovers(job.mask, job.vl)
    decreases upTo
  {
    if upTo <= job.vstart then NO_FLAGS
    else
      var before := FlagsUpTo(conv, job, upTo - 1);
      if Active(job.mask, upTo - 1) then before.Or(conv(job.source[upTo - 1]).flags) else before
  }

  /** A flag is raised exactly when some active element from vstart to vl raises it. */
  lemma {:induction false} FlagsComeFromActive(conv: Conversion, job: Job, upTo: nat, pick: Flags -> bool)
    requires upTo <= job.vl <= |job.source| && MaskCovers(job.mask, job.vl)
    requires !pick(NO_FLAGS) && forall f: Flags, g: Flags :: pick(f.Or(g)) <==> pick(f) || pick(g)
    ensures pick(FlagsUpTo(conv, job, upTo))
            <==> exists k: nat | k < upTo :: Converts(job, k, upTo) && pick(conv(job.source[k]).flags)
    decreases upTo
  {
    if upTo > job.vstart {
      FlagsComeFromActive(conv, job, upTo - 1, pick);
      if pick(FlagsUpTo(conv, job, upTo - 1)) {
        var k: nat :| k < upTo - 1 && Converts(job, k, upTo - 1) && pick(conv(job.source[k]).flags);
        assert Converts(job, k, upTo);
      }
      if Active(job.mask, upTo - 1) {
        assert Converts(job, upTo - 1, upTo);
      }
      if exists k: nat | k < upTo :: Converts(job, k, upTo) && pick(conv(job.source[k]).flags) {
        var k: nat :| k < upTo && Converts(job, k, upTo) && pick(conv(job.source[k]).flags);
        assert k < upTo - 1 ==> Converts(job, k, upTo - 1);
      }
    }
  }

  lemma RaisedByActive(conv: Conversion, job: Job, pick: Flags -> bool)
    requires job.vl <= |job.source| && MaskCovers(job.mask, job.vl)
    requires !pick(NO_FLAGS) && forall f: Flags, g: Flags :: pick(f.Or(g)) <==> pick(f) || pick(g)
    ensures pick(FlagsUpTo(conv, job, job.vl))
            <==> exists k: nat | job.vstart <= k < job.vl :: Active(job.mask, k) && pick(conv(job.source[k]).flags)
  {
    FlagsComeFromActive(conv, job, job.vl, pick);
    if pick(FlagsUpTo(conv, job, job.vl)) {
      var k: nat :| k < job.vl && Converts(job, k, job.vl) && pick(conv(job.source[k]).flags);
      assert Active(job.mask, k);
    }
    if exists k: nat | job.vstart <= k < job.vl :: Active(job.mask, k) && pick(conv(job.source[k]).flags) {
      var k: nat :| job.vstart <= k < job.vl && Active(job.mask, k) && pick(conv(job.source[k]).flags);
      assert Converts(job, k, job.vl);
    }
  }

  /** Each of the four flags of a conversion comes from an active element, from vstart up to vl. */
  lemma EachFlagFromActive(conv: Conversion, job: Job)
    requires job.vl <= |job.source| && MaskCovers(job.mask, job.vl)
    ensures var f := FlagsUpTo(conv, job, job.vl);
      && (f.invalid <==> exists k: nat | job.vstart <= k < job.vl :: Active(job.mask, k) && conv(job.source[k]).flags.invalid)
      && (f.overflow <==> exists k: nat | job.vstart <= k < job.vl :: Active(job.mask, k) && conv(job.source[k]).flags.overflow)
      && (f.underflow <==> exists k: nat | job.vstart <= k < job.vl :: Active(job.mask, k) && conv(job.source[k]).flags.underflow)
      && (f.inexact <==> exists k: nat | job.vstart <= k < job.vl :: Active(job.mask, k) && conv(job.source[k]).flags.inexact)
  {
    RaisedByActive(conv, job, (f: Flags) => f.invalid);
    RaisedByActive(conv, job, (f: Flags) => f.overflow);
    RaisedByActive(conv, job, (f: Flags) => f.underflow);
    RaisedByActive(conv, job, (f: Flags) => f.inexact);
  }

  // ---------------------------------------------------------------- the loop

  /** A register's content at a point of the walk. */
  ghost predicate RegisterAt(
    conv: Conversion, job: Job, lanes: nat, register: Register, before: Register, index: nat, upTo: nat)
    requires lanes > 0 && upTo <= job.vl <= |job.source| && MaskCovers(job.mask, job.vl)
  {
    && |register| == lanes && |before| == lanes
    && forall k: nat | BlockOf(k, lanes) == index ::
         register[OffsetOf(k, lanes)] == Element(conv, job, k, upTo, before[OffsetOf(k, lanes)])
  }

  /** Behind the walk, element `k` of register k / lanes is converted exactly when it is active and lies
      between vstart and vl. */
  lemma ElementBehindWalk(conv: Conversion, job: Job, lanes: nat, register: Register, before: Register, k: nat)
    requires lanes > 0 && job.vl <= |job.source| && MaskCovers(job.mask, job.vl) && 0 <= k / lanes
    requires RegisterAt(conv, job, lanes, register, before, k / lanes, job.vl)
    ensures var i := k - k / lanes * lanes;
      && 0 <= i < |register| == |before|
      && register[i] == if job.vstart <= k < job.vl && Active(job.mask, k) then conv(job.source[k]).value else before[i]
  {
    DivisionFindsBlock(k, lanes);
  }

  /** Nothing of a register changes between two points unless an element between them lies in it. */
  lemma RegisterUntouched(
    conv: Conversion, job: Job, lanes: nat, register: Register, before: Register, index: nat, k: nat)
    requires lanes > 0 && k < job.vl <= |job.source| && MaskCovers(job.mask, job.vl)
    requires RegisterAt(conv, job, lanes, register, before, index, k) && (BlockOf(k, lanes) != index || !Active(job.mask, k))
    ensures RegisterAt(conv, job, lanes, register, before, index, k + 1)
  {
    forall j: nat | BlockOf(j, lanes) == index
      ensures register[OffsetOf(j, lanes)] == Element(conv, job, j, k + 1, before[OffsetOf(j, lanes)])
    {
      assert j == k ==> !Active(job.mask, k);
    }
  }

  /** Writing element `k` into its register. */
  lemma RegisterWritten(
    conv: Conversion, job: Job, lanes: nat, register: Register, before: Register, index: nat, k: nat)
    requires lanes > 0 && k < job.vl <= |job.source| && MaskCovers(job.mask, job.vl)
    requires job.vstart <= k && BlockOf(k, lanes) == index && Active(job.mask, k)
    requires RegisterAt(conv, job, lanes, register, before, index, k)
    ensures RegisterAt(conv, job, lanes, register[OffsetOf(k, lanes) := conv(job.source[k]).value], before, index, k + 1)
  {
    var written := register[OffsetOf(k, lanes) := conv(job.source[k]).value];
    forall j: nat | BlockOf(j, lanes) == index
      ensures written[OffsetOf(j, lanes)] == Element(conv, job, j, k + 1, before[OffsetOf(j, lanes)])
    {
      InBlock(j, k, 1, lanes);
    }
  }

  /** Somewhere in the walk: `buffer` is the copied register `lastReg`, unless that is -1; every other
      register is in the group. */
  ghost predicate Walking(
    conv: Conversion, job: Job, lanes: nat, before: seq<Register>, group: seq<Register>, lastReg: int, buffer: Register,
    upTo: nat)
    requires lanes > 0 && upTo <= job.vl <= |job.source| && MaskCovers(job.mask, job.vl)
  {
    && -1 <= lastReg < |group| == |before|
    && (forall r | 0 <= r < |group| && r != lastReg :: RegisterAt(conv, job, lanes, group[r], before[r], r, upTo))
    && (lastReg >= 0 ==> RegisterAt(conv, job, lanes, buffer, before[lastReg], lastReg, upTo))
  }

  lemma OthersUntouched(
    conv: Conversion, job: Job, lanes: nat, before: seq<Register>, group: seq<Register>, reg: nat, k: nat)
    requires lanes > 0 && k < job.vl <= |job.source| && MaskCovers(job.mask, job.vl) && |group| == |before|
    requires BlockOf(k, lanes) == reg
    requires forall r | 0 <= r < |group| && r != reg :: RegisterAt(conv, job, lanes, group[r], before[r], r, k)
    ensures forall r | 0 <= r < |group| && r != reg :: RegisterAt(conv, job, lanes, group[r], before[r], r, k + 1)
  {
    forall r | 0 <= r < |group| && r != reg
      ensures RegisterAt(conv, job, lanes, group[r], before[r], r, k + 1)
    {
      RegisterUntouched(conv, job, lanes, group[r], before[r], r, k);
    }
  }

  /** Element `k`, if its mask bit is set, is converted into the copied register. */
  method ConvertElement(
    conv: Conversion, job: Job, lanes: nat, k: nat, reg: nat, i: nat, buffer: Register, ghost before: Register)
    returns (next: Register, raised: Flags)
    requires lanes > 0 && job.vstart <= k < job.vl <= |job.source| && MaskCovers(job.mask, job.vl)
    requires reg == BlockOf(k, lanes) && i == OffsetOf(k, lanes)
    requires RegisterAt(conv, job, lanes, buffer, before, reg, k)
    ensures RegisterAt(conv, job, lanes, next, before, reg, k + 1)
    ensures FlagsUpTo(conv, job, k).Or(raised) == FlagsUpTo(conv, job, k + 1)
  {
    next, raised := buffer, NO_FLAGS;
    if job.mask.None? || (job.mask.value[k / 8] as nat) / Pow2(k % 8) % 2 == 1 {
      RegisterWritten(conv, job, lanes, buffer, before, reg, k);
      var converted := conv(job.source[k]);
      next := buffer[i := converted.value];
      raised := converted.flags;
    } else {
      RegisterUntouched(conv, job, lanes, buffer, before, reg, k);
    }
  }

  datatype Fault = NotEnabled | MissingOperand | BadRoundingMode | Overlap

  /** Two register groups share a register. */
  predicate Share(vd: seq<nat>, vs: seq<nat>) {
    exists i, j | 0 <= i < |vd| && 0 <= j < |vs| :: vd[i] == vs[j]
  }

  method Overlaps(vd: seq<nat>, vs: seq<nat>) returns (overlaps: bool)
    ensures overlaps <==> exists i, j | 0 <= i < |vd| && 0 <= j < |vs| :: vd[i] == vs[j]
  {
    overlaps := false;
    for i := 0 to |vd|
      invariant overlaps <==> exists p, j | 0 <= p < i && 0 <= j < |vs| :: vd[p] == vs[j]
    {
      for j := 0 to |vs|
        invariant !overlaps && !(exists p, q | 0 <= p < i && 0 <= q < |vs| :: vd[p] == vs[q])
        invariant forall q | 0 <= q < j :: vd[i] != vs[q]
      {
        if vd[i] == vs[j] {
          overlaps := true;
          break;
        }
      }
      if overlaps {
        break;
      }
    }
  }

  /** The destination group and the control state that the conversions update. */
  class VectorState {
    var group: seq<Register>
    var vstart: nat
    var fflags: Flags
    var traps: seq<Fault>

    constructor (group: seq<Register>, vstart: nat, fflags: Flags)
      ensures this.group == group && this.vstart == vstart && this.fflags == fflags && traps == []
    {
      this.group, this.vstart, this.fflags, traps := group, vstart, fflags, [];
    }

    ghost predicate Shape(lanes: nat)
      reads this
    {
      forall r | 0 <= r < |group| :: |group[r]| == lanes
    }

    /** The walk. A register is copied when its first element is reached and submitted when the walk
        leaves it. */
    method ConvertElements(conv: Conversion, job: Job, lanes: nat) returns (flags: Flags)
      requires Shape(lanes) && job.Valid(lanes, |group|)
      modifies this`group
      ensures Shape(lanes) && |group| == |old(group)|
      ensures forall r | 0 <= r < |group| :: RegisterAt(conv, job, lanes, group[r], old(group)[r], r, job.vl)
      ensures flags == FlagsUpTo(conv, job, job.vl)
    {
      flags := NO_FLAGS;
      var lastReg: int := -1;
      var buffer: Register := [];
      var k := job.vstart;
      ghost var before := group;
      ghost var at := if k <= job.vl then k else job.vl;
      while k < job.vl
        invariant at == (if k <= job.vl then k else job.vl) && job.vstart <= k && flags == FlagsUpTo(conv, job, at)
        invariant Walking(conv, job, lanes, before, group, lastReg, buffer, at)
      {
        var reg, i := ReachRegister(conv, job, lanes, k, lastReg, before, buffer);
        if reg != lastReg {
          buffer := group[reg];
          lastReg := reg;
        }
        var raised;
        buffer, raised := ConvertElement(conv, job, lanes, k, reg, i, buffer, before[reg]);
        flags := flags.Or(raised);
        OthersUntouched(conv, job, lanes, before, group, reg, k);
        k := k + 1;
        at := k;
      }
      Submit(conv, job, lanes, lastReg, before, buffer, job.vl);
    }

    /** The copied register, if there is one, goes back into the group. */
    method Submit(
      conv: Conversion, job: Job, lanes: nat, lastReg: int, ghost before: seq<Register>, buffer: Register, ghost upTo: nat)
      requires lanes > 0 && upTo <= job.vl <= |job.source| && MaskCovers(job.mask, job.vl)
      requires Walking(conv, job, lanes, before, group, lastReg, buffer, upTo)
      modifies this`group
      ensures Walking(conv, job, lanes, before, group, -1, buffer, upTo)
    {
      if lastReg >= 0 {
        group := group[lastReg := buffer];
      }
    }

    /** The register of element `k` and the place in it; the register left behind is submitted. */
    method ReachRegister(
      conv: Conversion, job: Job, lanes: nat, k: nat, lastReg: int, ghost before: seq<Register>, buffer: Register)
      returns (reg: nat, i: nat)
      requires job.Valid(lanes, |group|) && k < job.vl && Walking(conv, job, lanes, before, group, lastReg, buffer, k)
      modifies this`group
      ensures reg == BlockOf(k, lanes) < |group| && i == OffsetOf(k, lanes) && |group| == |old(group)|
      ensures Walking(conv, job, lanes, before, group, reg, if reg == lastReg then buffer else group[reg], k)
    {
      DivisionFindsBlock(k, lanes);
      reg, i := k / lanes, k - k / lanes * lanes;
      if reg != lastReg {
        Submit(conv, job, lanes, lastReg, before, buffer, k);
      }
    }

    method Vfwcvtbf16ffv(source: seq<int>, mask: Option<seq<Byte>>, vl: nat, lanes: nat,
                         vd: Option<seq<nat>>, vs: Option<seq<nat>>,
                         fsEnabled: bool, vsEnabled: bool)
      requires Shape(lanes)
      requires fsEnabled && vsEnabled && vd.Some? && vs.Some? ==> Job(source, mask, vstart, vl).Valid(lanes, |group|)
      modifies this
      ensures traps == old(traps) + (if !fsEnabled || !vsEnabled then [NotEnabled]
                                    else if vd.None? || vs.None? then [MissingOperand]
                                    else if Share(vd.value, vs.value) then [Overlap]
                                    else [])
      ensures traps != old(traps) ==> vstart == old(vstart) && group == old(group) && fflags == old(fflags)
      ensures var job := Job(source, mask, old(vstart), vl);
        traps == old(traps) ==>
          && vstart == 0 && |group| == |old(group)| && fflags == old(fflags).Or(FlagsUpTo(WidenElement, job, vl))
          && forall r | 0 <= r < |group| :: RegisterAt(WidenElement, job, lanes, group[r], old(group)[r], r, vl)
    {
      if !fsEnabled || !vsEnabled {
        traps := traps + [NotEnabled];
        return;
      }
      if vd.None? || vs.None? {
        traps := traps + [MissingOperand];
        return;
      }
      var overlaps := Overlaps(vd.value, vs.value);
      if overlaps {
        traps := traps + [Overlap];
        return;
      }
      var flags := ConvertElements(WidenElement, Job(source, mask, vstart, vl), lanes);
      vstart := 0;
      if flags != NO_FLAGS {
        fflags := fflags.Or(flags);
      }
    }

    method Vfncvtbf16ffw(source: seq<int>, mask: Option<seq<Byte>>, vl: nat, lanes: nat,
                         vd: Option<seq<nat>>, vs: Option<seq<nat>>,
                         fsEnabled: bool, vsEnabled: bool, frm: Option<Mode>)
      requires Shape(lanes)
      requires fsEnabled && vsEnabled && vd.Some? && vs.Some? ==> Job(source, mask, vstart, vl).Valid(lanes, |group|)
      modifies this
      ensures traps == old(traps) + (if !fsEnabled || !vsEnabled then [NotEnabled]
                                    else if vd.None? || vs.None? then [MissingOperand]
                                    else if frm.None? then [BadRoundingMode]
                                    else if Share(vd.value, vs.value) then [Overlap]
                                    else [])
      ensures traps != old(traps) ==> vstart == old(vstart) && group == old(group) && fflags == old(fflags)
      ensures var job := Job(source, mask, old(vstart), vl);
        traps == old(traps) ==>
          && vstart == 0 && |group| == |old(group)| && fflags == old(fflags).Or(FlagsUpTo(NarrowElement(frm.value), job, vl))
          && forall r | 0 <= r < |group| :: RegisterAt(NarrowElement(frm.value), job, lanes, group[r], old(group)[r], r, vl)
    {
      if !fsEnabled || !vsEnabled {
        traps := traps + [NotEnabled];
        return;
      }
      if vd.None? || vs.None? {
        traps := traps + [MissingOperand];
        return;
      }
      if frm.None? {
        traps := traps + [BadRoundingMode];
        return;
      }
      var overlaps := Overlaps(vd.value, vs.value);
      if overlaps {
        traps := traps + [Overlap];
        return;
      }
      var flags := ConvertElements(NarrowElement(frm.value), Job(source, mask, vstart, vl), lanes);
      vstart := 0;
      fflags := fflags.Or(flags);
    }
  }

  function WidenElement(v: int): Converted {
    ConvertBF16ToF32Precise(v % 0x1_0000)
  }

  function NarrowElement(rm: Mode): Conversion {
    v => ConvertF32ToBF16(Wrap(v), rm)
  }

  /** Elements are converted as the scalar instructions convert their bits, narrowing in the given mode. */
  lemma ElementConversions(h: Half, w: Word, rm: Mode)
    ensures WidenElement(h) == ConvertBF16ToF32Precise(h) && NarrowElement(rm)(w) == ConvertF32ToBF16(w, rm)
  {
  }

  // ---------------------------------------------------------------- what the specification says

  /** Widening a group and narrowing the result gives back every active element that is not a NaN. */
  lemma NarrowUndoesWidenElement(v: Half, rm: Mode)
    requires !HalfIsNaN(v)
    ensures NarrowElement(rm)(WidenElement(v).value) == Converted(v, NO_FLAGS)
  {
    NarrowUndoesWiden(v, rm);
    assert v % 0x1_0000 == v;
    assert Wrap(v * 0x1_0000) == v * 0x1_0000;
  }
}
