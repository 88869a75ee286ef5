/** Memory regions and the permission check of the v2 state: the first region that contains the whole
    access decides. */
module MemoryRegions {
  import opened Words
  import opened Digits

  datatype Permission = Permission(read: bool, write: bool, execute: bool) {
    predicate Includes(p: Permission) {
      (p.read ==> read) && (p.write ==> write) && (p.execute ==> execute)
    }

    /** The bit mask that the regions store: read 1, write 2, execute 4. */
    function Mask(): nat {
      (if read then 1 else 0) + (if write then 2 else 0) + (if execute then 4 else 0)
    }
  }

  const READ := Permission(true, false, false)
  const WRITE := Permission(false, true, false)
  const EXECUTE := Permission(false, false, true)

  /** Permissions are compared by masking: all the bits of `p` must be among those of `a`. */
  lemma IncludesIsMasked(a: Permission, p: Permission)
    ensures a.Includes(p) <==> BitAnd(a.Mask(), p.Mask()) == p.Mask()
    ensures READ.Mask() == 1 && WRITE.Mask() == 2 && EXECUTE.Mask() == 4
  {
    ThreeBits(a.Mask(), p.Mask());
  }

  lemma ThreeBits(a: nat, b: nat)
    requires a < 8 && b < 8
    ensures BitAnd(a, b)
            == (if a % 2 == 1 && b % 2 == 1 then 1 else 0)
               + (if a / 2 % 2 == 1 && b / 2 % 2 == 1 then 2 else 0)
               + (if a / 4 == 1 && b / 4 == 1 then 4 else 0)
  {
    LastAnd(a, b);
    LastAnd(a / 2, b / 2);
    LastAnd(a / 2 / 2, b / 2 / 2);
  }

  datatype Region = Region(start: Word, length: Word, permission: Permission) {
    function End(): int {
      start as int + length
    }

    predicate Contains(address: int, size: int) {
      start <= address && address + size <= End()
    }
  }

  /** The first containing region decides; no containing region means no permission. */
  function HasPermission(regions: seq<Region>, address: Word, size: Word, p: Permission): bool {
    if regions == [] then false
    else if regions[0].Contains(address, size) then regions[0].permission.Includes(p)
    else HasPermission(regions[1..], address, size, p)
  }

  /** The answer is that of the first region in the table that contains the access. */
  lemma {:induction false} FirstRegionDecides(regions: seq<Region>, address: Word, size: Word, p: Permission)
    ensures HasPermission(regions, address, size, p)
            <==> exists i | 0 <= i < |regions| ::
                   regions[i].Contains(address, size) && regions[i].permission.Includes(p)
                   && forall j | 0 <= j < i :: !regions[j].Contains(address, size)
    decreases |regions|
  {
    if regions != [] {
      var rest := regions[1..];
      FirstRegionDecides(rest, address, size, p);
      if !regions[0].Contains(address, size) && HasPermission(rest, address, size, p) {
        var i :| 0 <= i < |rest| && rest[i].Contains(address, size) && rest[i].permission.Includes(p)
                 && forall j | 0 <= j < i :: !rest[j].Contains(address, size);
        assert forall j | 0 <= j < i + 1 :: j == 0 || regions[j] == rest[j - 1];
        assert regions[i + 1] == rest[i];
      }
      if !regions[0].Contains(address, size)
         && exists i | 0 <= i < |regions| ::
              regions[i].Contains(address, size) && regions[i].permission.Includes(p)
              && forall j | 0 <= j < i :: !regions[j].Contains(address, size) {
        var i :| 0 <= i < |regions| && regions[i].Contains(address, size) && regions[i].permission.Includes(p)
                 && forall j | 0 <= j < i :: !regions[j].Contains(address, size);
        assert forall j | 0 <= j < i - 1 :: rest[j] == regions[j + 1];
        assert rest[i - 1] == regions[i];
      }
    }
  }

  predicate Covered(regions: seq<Region>, address: Word, size: Word) {
    exists i | 0 <= i < |regions| :: regions[i].Contains(address, size)
  }

  predicate PermissionBehind(regions: seq<Region>, last: Region, address: Word, size: Word, p: Permission) {
    if Covered(regions, address, size) then HasPermission(regions, address, size, p)
    else last.Contains(address, size) && last.permission.Includes(p)
  }

  /** Earlier regions keep their say when one is appended. */
  lemma {:induction false} AppendedRegion(regions: seq<Region>, last: Region, address: Word, size: Word, p: Permission)
    ensures HasPermission(regions + [last], address, size, p) == PermissionBehind(regions, last, address, size, p)
    decreases |regions|
  {
    if regions == [] {
      assert [last][1..] == [];
    } else {
      var rest := regions[1..];
      assert (regions + [last])[0] == regions[0] && (regions + [last])[1..] == rest + [last];
      assert forall i | 1 <= i < |regions| :: regions[i] == rest[i - 1];
      assert regions[0].Contains(address, size) || (Covered(regions, address, size) == Covered(rest, address, size)) by {
        assert forall i | 0 <= i < |rest| :: rest[i] == regions[i + 1];
      }
      AppendedRegion(rest, last, address, size, p);
    }
  }

  class RegionTable {
    var regions: seq<Region>

    constructor (initial: seq<Region>)
      ensures regions == initial
    {
      regions := initial;
    }

    /** A region appended to the table decides about the accesses that no earlier region contains, and
        about no others. */
    method AddMemoryRegion(start: Word, length: Word, permission: Permission)
      modifies this
      ensures regions == old(regions) + [Region(start, length, permission)]
      ensures forall address, size, p ::
                HasPermission(regions, address, size, p)
                == PermissionBehind(old(regions), Region(start, length, permission), address, size, p)
    {
      ghost var region := Region(start, length, permission);
      forall address, size, p
        ensures HasPermission(regions + [region], address, size, p) == PermissionBehind(regions, region, address, size, p)
      {
        AppendedRegion(regions, region, address, size, p);
      }
      regions := regions + [Region(start, length, permission)];
    }

    /** The configured regions are appended in their order. */
    method Configure(config: seq<Region>)
      modifies this
      ensures regions == old(regions) + config
    {
      ghost var before := regions;
      for i := 0 to |config|
        invariant regions == before + config[..i]
      {
        AddMemoryRegion(config[i].start, config[i].length, config[i].permission);
      }
    }

    /** The loop with early return. */
    method Check(address: Word, size: Word, p: Permission) returns (granted: bool)
      ensures granted == HasPermission(regions, address, size, p)
    {
      for i := 0 to |regions|
        invariant HasPermission(regions, address, size, p) == HasPermission(regions[i..], address, size, p)
      {
        if regions[i].start as int <= address && address as int + size <= regions[i].End() {
          return regions[i].permission.Includes(p);
        }
      }
      return false;
    }
  }

  /** Regions that share no address. */
  ghost predicate Disjoint(regions: seq<Region>) {
    forall i, j | 0 <= i < j < |regions| ::
      regions[i].End() <= regions[j].start || regions[j].End() <= regions[i].start
  }

  /** With disjoint regions, a nonempty access is granted exactly when some region contains it and
      carries the permission: the order of the table does not matter. */
  lemma {:induction false} DisjointPermission(regions: seq<Region>, address: Word, size: Word, p: Permission)
    requires Disjoint(regions) && size > 0
    ensures HasPermission(regions, address, size, p)
            <==> exists i | 0 <= i < |regions| :: regions[i].Contains(address, size) && regions[i].permission.Includes(p)
  {
    if regions != [] {
      var rest := regions[1..];
      assert forall i | 1 <= i < |regions| :: regions[i] == rest[i - 1];
      DisjointPermission(rest, address, size, p);
      if exists i | 0 <= i < |rest| :: rest[i].Contains(address, size) && rest[i].permission.Includes(p) {
        var i :| 0 <= i < |rest| && rest[i].Contains(address, size) && rest[i].permission.Includes(p);
        assert regions[i + 1].Contains(address, size);
      }
    }
  }

  /** The default configuration: ITCM, DTCM and external memory. */
  function DefaultRegions(): seq<Region> {
    [Region(0, 0x2000, Permission(true, false, true)),
     Region(0x1_0000, 0x8000, Permission(true, true, false)),
     Region(0x2000_0000, 0x40_0000, Permission(true, true, false))]
  }

  /** Under the default configuration code is executable and readable but not writable, and the two data
      memories are readable and writable but not executable. */
  lemma DefaultPermissions(address: Word, size: Word)
    ensures HasPermission(DefaultRegions(), address, size, EXECUTE) <==> address as int + size <= 0x2000
    ensures HasPermission(DefaultRegions(), address, size, WRITE)
            <==> (0x1_0000 <= address && address as int + size <= 0x1_8000)
                 || (0x2000_0000 <= address && address as int + size <= 0x2040_0000)
    ensures HasPermission(DefaultRegions(), address, size, READ)
            <==> HasPermission(DefaultRegions(), address, size, WRITE)
                 || HasPermission(DefaultRegions(), address, size, EXECUTE)
  {
    var regions := DefaultRegions();
    assert regions[0].Contains(address, size) <==> address as int + size <= 0x2000;
    assert regions[1].Contains(address, size) <==> 0x1_0000 <= address && address as int + size <= 0x1_8000;
    assert regions[2].Contains(address, size) <==> 0x2000_0000 <= address && address as int + size <= 0x2040_0000;
    ThreeRegions(regions, address, size, EXECUTE);
    ThreeRegions(regions, address, size, WRITE);
    ThreeRegions(regions, address, size, READ);
  }

  lemma ThreeRegions(regions: seq<Region>, address: Word, size: Word, p: Permission)
    requires |regions| == 3
    ensures HasPermission(regions, address, size, p)
            == if regions[0].Contains(address, size) then regions[0].permission.Includes(p)
               else if regions[1].Contains(address, size) then regions[1].permission.Includes(p)
               else regions[2].Contains(address, size) && regions[2].permission.Includes(p)
  {
    var two, one := regions[1..], regions[2..];
    assert two[0] == regions[1] && two[1..] == one && one[0] == regions[2] && one[1..] == [];
    assert HasPermission(one[1..], address, size, p) == false;
    assert HasPermission(one, address, size, p) == (one[0].Contains(address, size) && one[0].permission.Includes(p));
  }
}
