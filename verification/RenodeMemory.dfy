/** Memory split into equally sized blocks behaves as one flat array of bytes: single accesses over any
    span of blocks, and masked gathers and scatters. */
module RenodeMemory {
  import opened Words

  // ---------------------------------------------------------------- the flat view

  /** `bytes` written over `view` at `address`, if they fit. */
  function Splice(view: seq<Byte>, address: nat, bytes: seq<Byte>): (r: seq<Byte>)
    ensures |r| == |view|
  {
    if address + |bytes| <= |view| then view[..address] + bytes + view[address + |bytes|..] else view
  }

  /** `n` bytes of `view` from `address`, if they are there. */
  function Slice(view: seq<Byte>, address: nat, n: nat): seq<Byte> {
    if address + n <= |view| then view[address..address + n] else []
  }

  lemma SpliceAt(view: seq<Byte>, address: nat, bytes: seq<Byte>, a: nat)
    requires address + |bytes| <= |view| && a < |view|
    ensures Splice(view, address, bytes)[a] == if address <= a < address + |bytes| then bytes[a - address] else view[a]
  {
  }

  /** A view that agrees with the written one everywhere is the written one. */
  lemma SpliceIs(view: seq<Byte>, address: nat, bytes: seq<Byte>, r: seq<Byte>)
    requires address + |bytes| <= |view| == |r|
    requires forall a | 0 <= a < |r| :: r[a] == if address <= a < address + |bytes| then bytes[a - address] else view[a]
    ensures r == Splice(view, address, bytes)
  {
    forall a | 0 <= a < |r|
      ensures r[a] == Splice(view, address, bytes)[a]
    {
      SpliceAt(view, address, bytes, a);
    }
  }

  lemma CellExists(a: nat, size: nat, max: nat, blocks: nat)
    requires size > 0 && a < max && blocks == (max + size - 1) / size
    ensures BlockOf(a, size) < blocks
  {
    DivisionFindsBlock(a, size);
    DivMod(max + size - 1, size);
    DivMod(a, size);
    Distribute(a / size, blocks, size);
    MulUnit(a / size - blocks, size);
  }

  /** The copy of `n` bytes between separate arrays. */
  method CopyBytes(target: array<Byte>, at: nat, source: array<Byte>, from: nat, n: nat)
    requires target != source && at + n <= target.Length && from + n <= source.Length
    modifies target
    ensures Moved(old(target[..]), at, source[..], from, n, target[..])
  {
    forall i | 0 <= i < n {
      target[at + i] := source[from + i];
    }
    SpliceIs(old(target[..]), at, source[..][from..from + n], target[..]);
  }

  /** The two ends of a transfer when it starts. */
  datatype Transfer = Transfer(view: seq<Byte>, buffer: seq<Byte>, start: nat, first: nat)

  /** `done` bytes of the source have reached the destination, and the source is as it was. */
  ghost predicate Transferred(t: Transfer, done: nat, isLoad: bool, view: seq<Byte>, buffer: seq<Byte>) {
    if isLoad then view == t.view && Moved(t.buffer, t.first, t.view, t.start, done, buffer)
    else buffer == t.buffer && Moved(t.view, t.start, t.buffer, t.first, done, view)
  }

  lemma NothingTransferred(t: Transfer, isLoad: bool)
    requires t.start <= |t.view| && t.first <= |t.buffer|
    ensures Transferred(t, 0, isLoad, t.view, t.buffer)
  {
    SpliceNone(t.view, t.start, t.buffer, t.first);
    SpliceNone(t.buffer, t.first, t.view, t.start);
  }

  class Memory {
    const blockSize: nat
    const blocks: seq<array<Byte>>
    const baseAddress: nat
    const maxAddress: nat

    ghost predicate Valid() {
      && blockSize > 0 && (forall a: nat | a < maxAddress :: BlockOf(a, blockSize) < |blocks|)
      && (forall b | 0 <= b < |blocks| :: blocks[b].Length == blockSize)
      && forall b, c | 0 <= b < c < |blocks| :: blocks[b] != blocks[c]
    }

    constructor (blockSize: nat, memorySize: nat, list: seq<array<Byte>>, base: nat)
      requires blockSize > 0 && |list| == (base + memorySize + blockSize - 1) / blockSize
      requires forall b | 0 <= b < |list| :: list[b].Length == blockSize
      requires forall b, c | 0 <= b < c < |list| :: list[b] != list[c]
      ensures Valid() && this.blockSize == blockSize && blocks == list && baseAddress == base
      ensures maxAddress == base + memorySize
    {
      forall a: nat | a < base + memorySize
        ensures BlockOf(a, blockSize) < |list|
      {
        CellExists(a, blockSize, base + memorySize, |list|);
      }
      this.blockSize := blockSize;
      this.blocks := list;
      this.baseAddress := base;
      this.maxAddress := base + memorySize;
    }

    /** The byte at a flat address. */
    ghost function At(a: nat): Byte
      requires Valid() && a < maxAddress
      reads blocks
    {
      blocks[BlockOf(a, blockSize)][OffsetOf(a, blockSize)]
    }

    ghost function View(): (v: seq<Byte>)
      requires Valid()
      reads blocks
      ensures |v| == maxAddress
    {
      seq(maxAddress, a requires 0 <= a < maxAddress reads blocks => At(a))
    }

    ghost predicate IsValidAddress(address: nat, high: nat) {
      baseAddress <= address && high <= maxAddress
    }

    lemma PartOfView(address: nat, n: nat)
      requires Valid() && address < maxAddress && address + n <= maxAddress && OffsetOf(address, blockSize) + n <= blockSize
      ensures var o := OffsetOf(address, blockSize);
        blocks[BlockOf(address, blockSize)][o..o + n] == View()[address..address + n]
    {
      var o := OffsetOf(address, blockSize);
      var here, there := blocks[BlockOf(address, blockSize)][o..o + n], View()[address..address + n];
      forall i | 0 <= i < n
        ensures here[i] == there[i]
      {
        NextCell(address, i, blockSize);
        assert there[i] == At(address + i);
      }
    }

    /** The part of a load that lies in the block of `address`. */
    method LoadPart(address: nat, buffer: array<Byte>, at: nat, n: nat, ghost buffer0: seq<Byte>, ghost view: seq<Byte>)
      requires Valid() && buffer !in blocks && address < maxAddress && address + n <= maxAddress
      requires OffsetOf(address, blockSize) + n <= blockSize && at + n <= buffer.Length
      requires buffer0 == buffer[..] && view == View()
      modifies buffer
      ensures Moved(buffer0, at, view, address, n, buffer[..])
    {
      PartOfView(address, n);
      DivisionFindsBlock(address, blockSize);
      var index := address / blockSize;
      var block, offset := blocks[index], address - index * blockSize;
      CopyBytes(buffer, at, block, offset, n);
      assert block[..][offset..offset + n] == block[offset..offset + n];
    }

    /** The part of a store that lies in the block of `address`. */
    method StorePart(address: nat, buffer: array<Byte>, at: nat, n: nat, ghost view0: seq<Byte>, ghost bytes: seq<Byte>)
      requires Valid() && buffer !in blocks && address < maxAddress && address + n <= maxAddress
      requires OffsetOf(address, blockSize) + n <= blockSize && at + n <= buffer.Length
      requires view0 == View() && bytes == buffer[..]
      modifies blocks
      ensures Moved(view0, address, bytes, at, n, View())
    {
      DivisionFindsBlock(address, blockSize);
      var index := address / blockSize;
      var block, offset := blocks[index], address - index * blockSize;
      ghost var block0, part := block[..], bytes[at..at + n];
      CopyBytes(block, offset, buffer, at, n);
      forall a: nat | a < maxAddress
        ensures View()[a] == if address <= a < address + n then part[a - address] else view0[a]
      {
        InBlock(a, address, n, blockSize);
        if BlockOf(a, blockSize) == index {
          SpliceAt(block0, offset, part, OffsetOf(a, blockSize));
          assert View()[a] == block[..][OffsetOf(a, blockSize)];
        }
      }
      SpliceIs(view0, address, part, View());
    }

    method LoadRound(address: nat, buffer: array<Byte>, bytePtr: nat, n: nat, ghost t: Transfer, ghost done: nat, ghost next: nat)
      requires Valid() && buffer !in blocks && address < maxAddress && address + n <= maxAddress
      requires OffsetOf(address, blockSize) + n <= blockSize && bytePtr + n <= buffer.Length
      requires address == t.start + done && bytePtr == t.first + done && next == done + n && View() == t.view
      requires Moved(t.buffer, t.first, t.view, t.start, done, buffer[..])
      modifies buffer
      ensures Moved(t.buffer, t.first, t.view, t.start, next, buffer[..])
    {
      ghost var before := buffer[..];
      LoadPart(address, buffer, bytePtr, n, before, t.view);
      MovedNext(t.buffer, t.first, t.view, t.start, done, n, before, buffer[..], bytePtr, address);
    }

    method StoreRound(
      address: nat, buffer: array<Byte>, bytePtr: nat, n: nat, ghost t: Transfer, ghost done: nat, ghost next: nat)
      requires Valid() && buffer !in blocks && address < maxAddress && address + n <= maxAddress
      requires OffsetOf(address, blockSize) + n <= blockSize && bytePtr + n <= buffer.Length
      requires address == t.start + done && bytePtr == t.first + done && next == done + n && buffer[..] == t.buffer
      requires Moved(t.view, t.start, t.buffer, t.first, done, View())
      modifies blocks
      ensures Moved(t.view, t.start, t.buffer, t.first, next, View())
    {
      ghost var before := View();
      StorePart(address, buffer, bytePtr, n, before, t.buffer);
      MovedNext(t.view, t.start, t.buffer, t.first, done, n, before, View(), address, bytePtr);
    }

    /** One round of the transfer, in either direction. */
    method MoveRound(
      address: nat, buffer: array<Byte>, bytePtr: nat, n: nat, isLoad: bool, ghost t: Transfer, ghost done: nat, ghost next: nat)
      requires Valid() && buffer !in blocks && address < maxAddress && address + n <= maxAddress
      requires OffsetOf(address, blockSize) + n <= blockSize && bytePtr + n <= buffer.Length
      requires address == t.start + done && bytePtr == t.first + done && next == done + n
      requires Transferred(t, done, isLoad, View(), buffer[..])
      modifies buffer, blocks
      ensures Transferred(t, next, isLoad, View(), buffer[..])
    {
      if isLoad {
        LoadRound(address, buffer, bytePtr, n, t, done, next);
      } else {
        StoreRound(address, buffer, bytePtr, n, t, done, next);
      }
    }

    /** The bytes of the access that lie in the block of `address`. */
    method Room(address: nat, size: nat) returns (n: nat)
      requires Valid() && size > 0
      ensures 0 < n <= size && OffsetOf(address, blockSize) + n <= blockSize
      ensures n < size ==> OffsetOf(address, blockSize) + n == blockSize
    {
      DivisionFindsBlock(address, blockSize);
      n := blockSize - (address - address / blockSize * blockSize);
      if size < n {
        n := size;
      }
    }

    /** Moves `total` bytes between the buffer and memory, block by block. */
    method LoadStoreHelper(start: nat, buffer: array<Byte>, first: nat, total: nat, isLoad: bool)
      requires Valid() && buffer !in blocks && total > 0 && start + total <= maxAddress && first + total <= buffer.Length
      modifies buffer, blocks
      ensures Transferred(Transfer(old(View()), old(buffer[..]), start, first), total, isLoad, View(), buffer[..])
    {
      var address, bytePtr, size := start, first, total;
      var more := true;
      ghost var t := Transfer(View(), buffer[..], start, first);
      ghost var done: nat := 0;
      NothingTransferred(t, isLoad);
      while more
        invariant (more <==> size > 0) && 0 <= size && done + size == total
        invariant address == start + done && bytePtr == first + done
        invariant Transferred(t, done, isLoad, View(), buffer[..])
        decreases size
      {
        var n := Room(address, size);
        ghost var next := done + n;
        MoveRound(address, buffer, bytePtr, n, isLoad, t, done, next);
        size := size - n;
        bytePtr := bytePtr + n;
        address := address + n;
        done := next;
        more := size > 0;
      }
    }

    method Load(address: nat, db: array<Byte>)
      requires Valid() && db !in blocks && db.Length > 0 && IsValidAddress(address, address + db.Length)
      modifies db, blocks
      ensures View() == old(View()) && db[..] == old(View())[address..address + db.Length]
    {
      LoadStoreHelper(address, db, 0, db.Length, true);
    }

    method Store(address: nat, db: array<Byte>)
      requires Valid() && db !in blocks && db.Length > 0 && IsValidAddress(address, address + db.Length)
      modifies db, blocks
      ensures db[..] == old(db[..]) && View() == Splice(old(View()), address, old(db[..]))
    {
      LoadStoreHelper(address, db, 0, db.Length, false);
      assert db[0..db.Length] == db[..];
    }

    /** Every active lane's access is inside the memory. */
    ghost predicate LanesValid(addresses: seq<nat>, mask: seq<bool>, size: nat)
      requires Lanes(addresses, mask)
    {
      forall i | 0 <= i < |mask| && mask[i] ::
        IsValidAddress(LaneAddress(addresses, i, size), LaneAddress(addresses, i, size) + size)
    }

    /** Gather, or unit-stride load when there is a single address. */
    method Gather(addresses: seq<nat>, mask: seq<bool>, size: nat, db: array<Byte>)
      requires Valid() && db !in blocks && size > 0 && Lanes(addresses, mask) && LaneAt(size, |mask|) <= db.Length
      requires LanesValid(addresses, mask, size)
      modifies db, blocks
      ensures View() == old(View())
      ensures db[..] == GatherUpTo(old(View()), addresses, mask, size, old(db[..]), |mask|)
    {
      ghost var view0, db0 := View(), db[..];
      for i := 0 to |mask|
        invariant View() == view0 && db[..] == GatherUpTo(view0, addresses, mask, size, db0, i)
      {
        var at := size * i;
        LaneAtIs(size, i);
        LaneFits(i, |mask|, size);
        if !mask[i] {
          continue;
        }
        var address := if |addresses| > 1 then addresses[i] else addresses[0] + i * size;
        ghost var before := db[..];
        LoadStoreHelper(address, db, at, size, true);
        LaneSpliced(before, at, view0, address, size, db[..]);
      }
    }

    /** Scatter, or unit-stride store when there is a single address. */
    method Scatter(addresses: seq<nat>, mask: seq<bool>, size: nat, db: array<Byte>)
      requires Valid() && db !in blocks && size > 0 && Lanes(addresses, mask) && LaneAt(size, |mask|) <= db.Length
      requires LanesValid(addresses, mask, size)
      modifies db, blocks
      ensures db[..] == old(db[..])
      ensures View() == ScatterUpTo(old(View()), addresses, mask, size, old(db[..]), |mask|)
    {
      ghost var view0, db0 := View(), db[..];
      for i := 0 to |mask|
        invariant db[..] == db0 && View() == ScatterUpTo(view0, addresses, mask, size, db0, i)
      {
        var at := size * i;
        LaneAtIs(size, i);
        LaneFits(i, |mask|, size);
        if !mask[i] {
          continue;
        }
        var address := if |addresses| > 1 then addresses[i] else addresses[0] + i * size;
        ghost var before := View();
        LoadStoreHelper(address, db, at, size, false);
        LaneSpliced(before, address, db0, at, size, View());
      }
    }
  }

  /** `done` bytes from position `first` of `bytes` have reached `address` of `view`. */
  ghost predicate Moved(view: seq<Byte>, address: nat, bytes: seq<Byte>, first: nat, done: nat, r: seq<Byte>) {
    && address + done <= |view| && first + done <= |bytes|
    && r == Splice(view, address, bytes[first..first + done])
  }

  lemma SpliceNone(view: seq<Byte>, address: nat, bytes: seq<Byte>, first: nat)
    requires address <= |view| && first <= |bytes|
    ensures Moved(view, address, bytes, first, 0, view)
  {
  }

  lemma MovedNext(
    view: seq<Byte>, address: nat, bytes: seq<Byte>, first: nat, done: nat, n: nat, r: seq<Byte>, next: seq<Byte>, at: nat,
    from: nat)
    requires Moved(view, address, bytes, first, done, r) && at == address + done && from == first + done
    requires Moved(r, at, bytes, from, n, next)
    ensures Moved(view, address, bytes, first, done + n, next)
  {
    assert bytes[first..first + done] + bytes[first + done..first + done + n] == bytes[first..first + done + n];
  }

  // ---------------------------------------------------------------- masked accesses

  predicate Lanes(addresses: seq<nat>, mask: seq<bool>) {
    |addresses| > 0 && (|addresses| > 1 ==> |mask| <= |addresses|)
  }

  /** Where lane `i` starts in a buffer of lanes. */
  function LaneAt(size: nat, i: nat): nat {
    if i == 0 then 0 else LaneAt(size, i - 1) + size
  }

  /** The product that the code computes. */
  lemma {:induction false} LaneAtIs(size: nat, i: nat)
    ensures LaneAt(size, i) == size * i == i * size
  {
    if i > 0 {
      LaneAtIs(size, i - 1);
      Distribute(i - 1, 1, size);
    }
  }

  function LaneAddress(addresses: seq<nat>, i: nat, size: nat): nat
    requires |addresses| > 0 && (|addresses| > 1 ==> i < |addresses|)
  {
    if |addresses| > 1 then addresses[i] else addresses[0] + LaneAt(size, i)
  }

  lemma {:induction false} LaneFits(i: nat, lanes: nat, size: nat)
    requires i < lanes
    ensures LaneAt(size, i) + size <= LaneAt(size, lanes)
  {
    if i + 1 < lanes {
      LaneFits(i, lanes - 1, size);
    }
  }

  /** A single address is where a unit-stride access starts; otherwise each lane has its own. */
  lemma LanePlace(addresses: seq<nat>, i: nat, size: nat)
    requires |addresses| > 0 && (|addresses| > 1 ==> i < |addresses|)
    ensures |addresses| == 1 ==> LaneAddress(addresses, i, size) == addresses[0] + i * size
    ensures |addresses| > 1 ==> LaneAddress(addresses, i, size) == addresses[i]
  {
    LaneAtIs(size, i);
  }

  /** The first `n` lanes, one after the other. */
  function ScatterUpTo(view: seq<Byte>, addresses: seq<nat>, mask: seq<bool>, size: nat, data: seq<Byte>, n: nat): (r: seq<Byte>)
    requires Lanes(addresses, mask) && n <= |mask|
    ensures |r| == |view|
    decreases n
  {
    if n == 0 then view
    else
      var before := ScatterUpTo(view, addresses, mask, size, data, n - 1);
      if mask[n - 1] then Splice(before, LaneAddress(addresses, n - 1, size), Slice(data, LaneAt(size, n - 1), size))
      else before
  }

  function GatherUpTo(view: seq<Byte>, addresses: seq<nat>, mask: seq<bool>, size: nat, data: seq<Byte>, n: nat): (r: seq<Byte>)
    requires Lanes(addresses, mask) && n <= |mask|
    ensures |r| == |data|
    decreases n
  {
    if n == 0 then data
    else
      var before := GatherUpTo(view, addresses, mask, size, data, n - 1);
      if mask[n - 1] then Splice(before, LaneAt(size, n - 1), Slice(view, LaneAddress(addresses, n - 1, size), size))
      else before
  }

  /** A transfer of a whole lane, as a splice. */
  lemma LaneSpliced(view: seq<Byte>, address: nat, bytes: seq<Byte>, at: nat, size: nat, r: seq<Byte>)
    requires Moved(view, address, bytes, at, size, r)
    ensures r == Splice(view, address, Slice(bytes, at, size))
  {
  }

  // ---------------------------------------------------------------- what the folds mean

  /** Every active lane lies inside the memory. */
  ghost predicate LanesInside(addresses: seq<nat>, mask: seq<bool>, size: nat, max: nat)
    requires Lanes(addresses, mask)
  {
    forall j | 0 <= j < |mask| && mask[j] :: LaneAddress(addresses, j, size) + size <= max
  }

  /** Lane `i` writes address `a`. */
  predicate Covers(addresses: seq<nat>, mask: seq<bool>, size: nat, i: nat, a: nat)
    requires Lanes(addresses, mask) && i < |mask|
  {
    mask[i] && LaneAddress(addresses, i, size) <= a < LaneAddress(addresses, i, size) + size
  }

  /** The last of the first `n` lanes that covers an address, or -1. */
  function LastCover(addresses: seq<nat>, mask: seq<bool>, size: nat, n: nat, a: nat): (c: int)
    requires Lanes(addresses, mask) && n <= |mask|
    ensures -1 <= c < n && (c >= 0 ==> Covers(addresses, mask, size, c, a))
    ensures forall j | c < j < n :: !Covers(addresses, mask, size, j, a)
    decreases n
  {
    if n == 0 then -1
    else if Covers(addresses, mask, size, n - 1, a) then n - 1
    else LastCover(addresses, mask, size, n - 1, a)
  }

  /** The byte that lane `i` holds for address `a`. */
  function LaneByte(addresses: seq<nat>, mask: seq<bool>, size: nat, data: seq<Byte>, i: nat, a: nat): Byte
    requires Lanes(addresses, mask) && i < |mask| && LaneAt(size, |mask|) <= |data| && Covers(addresses, mask, size, i, a)
  {
    LaneFits(i, |mask|, size);
    data[LaneAt(size, i) + (a - LaneAddress(addresses, i, size))]
  }

  lemma SpliceLane(view: seq<Byte>, address: nat, data: seq<Byte>, at: nat, size: nat, a: nat)
    requires address + size <= |view| && at + size <= |data| && a < |view|
    ensures Splice(view, address, Slice(data, at, size))[a]
            == if address <= a < address + size then data[at + (a - address)] else view[a]
  {
    SpliceAt(view, address, data[at..at + size], a);
  }

  /** A scattered byte comes from the last active lane that covers it, and is unchanged if none does. */
  lemma {:induction false} ScatteredByte(
    view: seq<Byte>, addresses: seq<nat>, mask: seq<bool>, size: nat, data: seq<Byte>, n: nat, a: nat)
    requires Lanes(addresses, mask) && n <= |mask| && LaneAt(size, |mask|) <= |data| && a < |view|
    requires LanesInside(addresses, mask, size, |view|)
    ensures var c := LastCover(addresses, mask, size, n, a);
      ScatterUpTo(view, addresses, mask, size, data, n)[a]
      == if c < 0 then view[a] else LaneByte(addresses, mask, size, data, c, a)
    decreases n
  {
    if n > 0 {
      ScatteredByte(view, addresses, mask, size, data, n - 1, a);
      if mask[n - 1] {
        LaneFits(n - 1, |mask|, size);
        SpliceLane(ScatterUpTo(view, addresses, mask, size, data, n - 1), LaneAddress(addresses, n - 1, size), data,
                   LaneAt(size, n - 1), size, a);
      }
    }
  }

  /** Gathering fetches every active lane's bytes and leaves the other lanes alone. */
  lemma {:induction false} GatheredLane(
    view: seq<Byte>, addresses: seq<nat>, mask: seq<bool>, size: nat, data: seq<Byte>, n: nat, i: nat)
    requires Lanes(addresses, mask) && n <= |mask| && LaneAt(size, |mask|) <= |data| && i < |mask|
    requires LanesInside(addresses, mask, size, |view|)
    ensures Slice(GatherUpTo(view, addresses, mask, size, data, n), LaneAt(size, i), size)
            == if i < n && mask[i] then Slice(view, LaneAddress(addresses, i, size), size)
               else Slice(data, LaneAt(size, i), size)
    decreases n
  {
    if n > 0 {
      GatheredLane(view, addresses, mask, size, data, n - 1, i);
      if mask[n - 1] {
        OtherLanesStay(GatherUpTo(view, addresses, mask, size, data, n - 1), size, |mask|, n - 1,
                       Slice(view, LaneAddress(addresses, n - 1, size), size), i);
      }
    }
  }

  /** Writing lane `j` leaves the other lanes alone. */
  lemma OtherLanesStay(data: seq<Byte>, size: nat, lanes: nat, j: nat, bytes: seq<Byte>, i: nat)
    requires i < lanes && j < lanes && LaneAt(size, lanes) <= |data| && |bytes| == size
    ensures Slice(Splice(data, LaneAt(size, j), bytes), LaneAt(size, i), size)
            == if i == j then bytes else Slice(data, LaneAt(size, i), size)
  {
    LaneFits(i, lanes, size);
    LaneFits(j, lanes, size);
    LanesApart(i, j, size);
    if i == j || size > 0 {
      SlicedSplice(data, LaneAt(size, j), bytes, LaneAt(size, i), size);
    }
  }

  lemma LanesApart(i: nat, j: nat, size: nat)
    ensures i < j ==> LaneAt(size, i) + size <= LaneAt(size, j)
    ensures j < i ==> LaneAt(size, j) + size <= LaneAt(size, i)
  {
    if i < j {
      LaneFits(i, j, size);
    } else if j < i {
      LaneFits(j, i, size);
    }
  }

  lemma SlicedSplice(view: seq<Byte>, address: nat, bytes: seq<Byte>, at: nat, size: nat)
    requires |bytes| == size && address + size <= |view| && at + size <= |view|
    requires at == address || at + size <= address || address + size <= at
    ensures Slice(Splice(view, address, bytes), at, size) == if at == address then bytes else Slice(view, at, size)
  {
    var x := Splice(view, address, bytes);
    var y, z := x[at..at + size], if at == address then bytes else view[at..at + size];
    forall k | 0 <= k < size
      ensures y[k] == z[k]
    {
      SpliceAt(view, address, bytes, at + k);
    }
    assert y == z;
  }

  /** Active lanes that do not overlap. */
  ghost predicate Separate(addresses: seq<nat>, mask: seq<bool>, size: nat)
    requires Lanes(addresses, mask)
  {
    forall i, j | 0 <= i < |mask| && 0 <= j < |mask| && i != j && mask[i] && mask[j] ::
      LaneAddress(addresses, i, size) + size <= LaneAddress(addresses, j, size)
      || LaneAddress(addresses, j, size) + size <= LaneAddress(addresses, i, size)
  }

  lemma OnlyCover(addresses: seq<nat>, mask: seq<bool>, size: nat, i: nat, a: nat)
    requires Lanes(addresses, mask) && i < |mask| && Separate(addresses, mask, size) && Covers(addresses, mask, size, i, a)
    ensures LastCover(addresses, mask, size, |mask|, a) == i
  {
  }

  lemma StoredByte(
    view: seq<Byte>, addresses: seq<nat>, mask: seq<bool>, size: nat, stored: seq<Byte>, i: nat, k: nat)
    requires Lanes(addresses, mask) && LaneAt(size, |mask|) <= |stored| && i < |mask| && mask[i] && k < size
    requires LanesInside(addresses, mask, size, |view|) && Separate(addresses, mask, size)
    ensures LaneAt(size, i) + size <= |stored|
    ensures ScatterUpTo(view, addresses, mask, size, stored, |mask|)[LaneAddress(addresses, i, size) + k]
            == stored[LaneAt(size, i) + k]
  {
    var a := LaneAddress(addresses, i, size) + k;
    LaneFits(i, |mask|, size);
    ScatteredByte(view, addresses, mask, size, stored, |mask|, a);
    OnlyCover(addresses, mask, size, i, a);
  }

  /** Byte `k` of the one slice is byte `k` of the other. */
  ghost predicate SameByte(a: seq<Byte>, i: nat, b: seq<Byte>, j: nat, k: nat) {
    i + k < |a| && j + k < |b| && a[i + k] == b[j + k]
  }

  lemma SameSlices(a: seq<Byte>, i: nat, b: seq<Byte>, j: nat, n: nat)
    requires i + n <= |a| && j + n <= |b| && forall k: nat | k < n :: SameByte(a, i, b, j, k)
    ensures Slice(a, i, n) == Slice(b, j, n)
  {
    var x, y := a[i..i + n], b[j..j + n];
    forall k | 0 <= k < n
      ensures x[k] == y[k]
    {
      assert SameByte(a, i, b, j, k);
    }
    assert x == y;
  }

  lemma StoredLane(view: seq<Byte>, addresses: seq<nat>, mask: seq<bool>, size: nat, stored: seq<Byte>, i: nat)
    requires Lanes(addresses, mask) && LaneAt(size, |mask|) <= |stored| && i < |mask| && mask[i]
    requires LanesInside(addresses, mask, size, |view|) && Separate(addresses, mask, size)
    ensures Slice(ScatterUpTo(view, addresses, mask, size, stored, |mask|), LaneAddress(addresses, i, size), size)
            == Slice(stored, LaneAt(size, i), size)
  {
    var written := ScatterUpTo(view, addresses, mask, size, stored, |mask|);
    LaneFits(i, |mask|, size);
    StoredBytes(view, addresses, mask, size, stored, i, written);
    SameSlices(written, LaneAddress(addresses, i, size), stored, LaneAt(size, i), size);
  }

  lemma StoredBytes(
    view: seq<Byte>, addresses: seq<nat>, mask: seq<bool>, size: nat, stored: seq<Byte>, i: nat, written: seq<Byte>)
    requires Lanes(addresses, mask) && LaneAt(size, |mask|) <= |stored| && i < |mask| && mask[i]
    requires LanesInside(addresses, mask, size, |view|) && Separate(addresses, mask, size)
    requires written == ScatterUpTo(view, addresses, mask, size, stored, |mask|)
    ensures forall k: nat | k < size :: SameByte(written, LaneAddress(addresses, i, size), stored, LaneAt(size, i), k)
  {
    forall k: nat | k < size
      ensures SameByte(written, LaneAddress(addresses, i, size), stored, LaneAt(size, i), k)
    {
      StoredByte(view, addresses, mask, size, stored, i, k);
    }
  }

  /** Scattering and gathering back in the same lanes returns the stored data, when the active lanes do
      not overlap. */
  lemma GatherUndoesScatter(
    view: seq<Byte>, addresses: seq<nat>, mask: seq<bool>, size: nat, stored: seq<Byte>, data: seq<Byte>, i: nat)
    requires Lanes(addresses, mask) && LaneAt(size, |mask|) <= |stored| && LaneAt(size, |mask|) <= |data|
    requires i < |mask| && mask[i] && LanesInside(addresses, mask, size, |view|) && Separate(addresses, mask, size)
    ensures var written := ScatterUpTo(view, addresses, mask, size, stored, |mask|);
      Slice(GatherUpTo(written, addresses, mask, size, data, |mask|), LaneAt(size, i), size)
      == Slice(stored, LaneAt(size, i), size)
  {
    GatheredLane(ScatterUpTo(view, addresses, mask, size, stored, |mask|), addresses, mask, size, data, |mask|, i);
    StoredLane(view, addresses, mask, size, stored, i);
  }
}
