/**
 System memory carving: where InitializeMemory (MemoryInitPeim.c) puts the UEFI region, how
 MemoryPeim (MemoryInitPeiLib.c) splits the resource descriptor that holds the firmware
 device (FD), and how PeilessSec.c classifies the FD.

 All address arithmetic is 64-bit and wraps; the theorems are for platforms on which neither
 system memory, nor the FD, nor a descriptor reaches the top of the address space.
 */
module MemoryInit {
  import opened Words
  import opened Wrappers

  const MAX_ALLOC_ADDRESS := 0xFFFF_FFFF_FFFF   // AArch64

  const EFI_RESOURCE_SYSTEM_MEMORY := 0

  /** PRESENT, INITIALIZED, WRITE_COMBINEABLE, WRITE_THROUGH_CACHEABLE, WRITE_BACK_CACHEABLE, TESTED */
  const DEFAULT_ATTRIBUTES := 0x1 + 0x2 + 0x4 + 0x800 + 0x1000 + 0x2000

  const EFI_MEMORY_WB := 0x8

  /** The platform configuration: PcdSystemMemory*, PcdFd*, PcdSystemMemoryUefiRegionSize. */
  datatype Pcds = Pcds(memoryBase: U64, memorySize: U64, fdBase: U64, fdSize: U32, regionSize: U32) {
    ghost predicate NoWrap() {
      memoryBase + memorySize < TWO_64 && fdBase + fdSize < TWO_64
    }

    function FdTop(): U64 { Add64(fdBase, fdSize) }

    function MemoryTop(): U64 { Add64(memoryBase, memorySize) }
  }

  // ----- Address ranges

  predicate InRange(x: nat, start: nat, length: nat) { start <= x < start + length }

  ghost predicate Disjoint(a: nat, la: nat, b: nat, lb: nat) {
    forall x :: !(InRange(x, a, la) && InRange(x, b, lb))
  }

  lemma DisjointIff(a: nat, la: nat, b: nat, lb: nat)
    ensures Disjoint(a, la, b, lb) <==> la == 0 || lb == 0 || a + la <= b || b + lb <= a
  {
    if la > 0 && lb > 0 {
      var x := if a <= b then b else a;
      assert a < b + lb && b < a + la ==> InRange(x, a, la) && InRange(x, b, lb);
    }
  }

  // ----- Placing the UEFI region

  /** System memory is clamped to what can be allocated. */
  function ClampedTop(p: Pcds): nat {
    if p.memoryBase + p.memorySize > MAX_ALLOC_ADDRESS + 1 then MAX_ALLOC_ADDRESS + 1 else p.memoryBase + p.memorySize
  }

  ghost predicate FdIsShadowed(p: Pcds) {
    p.memoryBase <= p.fdBase && p.fdBase + p.fdSize <= ClampedTop(p)
  }

  ghost predicate FdEnclosesMemory(p: Pcds) {
    p.fdBase < p.memoryBase && ClampedTop(p) < p.fdBase + p.fdSize
  }

  /** The region lies in usable memory and does not touch the FD. */
  ghost predicate SafeRegion(p: Pcds, base: nat) {
    && p.memoryBase <= base && base + p.regionSize <= ClampedTop(p)
    && Disjoint(base, p.regionSize, p.fdBase, p.fdSize)
  }

  /**
   Where the region goes in unbounded arithmetic: at the top of memory, or just below a
   shadowed FD that leaves too little room above. Negative when the region does not fit.
   */
  ghost function RegionBase(p: Pcds): int {
    if FdIsShadowed(p) && ClampedTop(p) - (p.fdBase + p.fdSize) < p.regionSize then p.fdBase - p.regionSize
    else ClampedTop(p) - p.regionSize
  }

  /**
   Some ASSERT fails: memory is missing or out of reach, a shadowed FD leaves no room on
   either side, or the FD overlaps memory without being in it or around it.
   */
  ghost predicate AssertFails(p: Pcds) {
    || p.memorySize == 0
    || p.memoryBase >= MAX_ALLOC_ADDRESS
    || (if FdIsShadowed(p)
        then ClampedTop(p) - (p.fdBase + p.fdSize) < p.regionSize && p.fdBase - p.memoryBase < p.regionSize
        else !FdEnclosesMemory(p) && !Disjoint(p.fdBase, p.fdSize, p.memoryBase, ClampedTop(p) - p.memoryBase))
  }

  /** InitializeMemory up to the installation of the region; None when an ASSERT fails. */
  method InitializeMemory(p: Pcds) returns (region: Option<U64>)
    ensures p.NoWrap() ==> (region.None? <==> AssertFails(p))
    ensures p.NoWrap() && region.Some? ==>
              region.value == if RegionBase(p) < 0 then RegionBase(p) + TWO_64 else RegionBase(p)
  {
    hide Disjoint;
    if p.memorySize == 0 || p.memoryBase >= MAX_ALLOC_ADDRESS {
      return None;
    }
    var systemMemoryTop := Add64(p.memoryBase, p.memorySize);
    if Sub64(systemMemoryTop, 1) > MAX_ALLOC_ADDRESS {
      systemMemoryTop := MAX_ALLOC_ADDRESS + 1;
    }
    assert p.NoWrap() ==> systemMemoryTop == ClampedTop(p) > p.memoryBase;
    var fdTop := p.FdTop();
    if p.NoWrap() {
      DisjointIff(p.fdBase, p.fdSize, p.memoryBase, ClampedTop(p) - p.memoryBase);
    }
    if p.fdBase >= p.memoryBase && fdTop <= systemMemoryTop {
      if Sub64(systemMemoryTop, fdTop) >= p.regionSize {
        return Some(Sub64(systemMemoryTop, p.regionSize));
      }
      if !(Add64(p.memoryBase, p.regionSize) <= p.fdBase) {
        return None;
      }
      return Some(Sub64(p.fdBase, p.regionSize));
    }
    if !(p.fdBase < p.memoryBase || p.fdBase >= systemMemoryTop) {
      return None;
    }
    if !(fdTop <= p.memoryBase || fdTop > systemMemoryTop) {
      return None;
    }
    return Some(Sub64(systemMemoryTop, p.regionSize));
  }

  /**
   When the ASSERTs pass, the region lies in usable memory and clear of the FD, except in two
   cases that they admit: an FD outside memory with a region larger than memory, and an FD
   that encloses all of memory.
   */
  lemma RegionIsSafeIff(p: Pcds)
    requires p.NoWrap() && !AssertFails(p)
    ensures RegionBase(p) >= 0 && SafeRegion(p, RegionBase(p)) <==>
            || FdIsShadowed(p)
            || (p.regionSize <= ClampedTop(p) - p.memoryBase && !(FdEnclosesMemory(p) && p.regionSize > 0))
  {
    hide Disjoint;
    DisjointIff(p.fdBase, p.fdSize, p.memoryBase, ClampedTop(p) - p.memoryBase);
    if RegionBase(p) >= 0 {
      DisjointIff(RegionBase(p), p.regionSize, p.fdBase, p.fdSize);
    }
  }

  /** No safe region lies higher: the region is at the very top, or just below an FD in its way. */
  lemma RegionIsHighest(p: Pcds, b: nat)
    requires p.NoWrap() && !AssertFails(p) && p.regionSize > 0 && p.fdSize > 0
    requires SafeRegion(p, b)
    ensures b <= RegionBase(p)
  {
    hide Disjoint;
    DisjointIff(b, p.regionSize, p.fdBase, p.fdSize);
  }

  /** The two sides of an FD in memory are both too small for the region. */
  ghost predicate NoRoomBesideFd(p: Pcds) {
    && ClampedTop(p) - (p.fdBase + p.fdSize) < p.regionSize
    && p.fdBase - p.memoryBase < p.regionSize
  }

  lemma SafeRegionExistsIff(p: Pcds)
    requires FdIsShadowed(p)
    ensures (exists b: nat :: SafeRegion(p, b)) <==>
            if p.fdSize == 0 || p.regionSize == 0 then p.regionSize <= ClampedTop(p) - p.memoryBase
            else !NoRoomBesideFd(p)
  {
    hide Disjoint;
    var low, high := p.memoryBase, ClampedTop(p) - p.regionSize;
    DisjointIff(low, p.regionSize, p.fdBase, p.fdSize);
    if high >= 0 {
      DisjointIff(high, p.regionSize, p.fdBase, p.fdSize);
      assert SafeRegion(p, high) || high < p.memoryBase || !Disjoint(high, p.regionSize, p.fdBase, p.fdSize);
    }
    assert SafeRegion(p, low) || low + p.regionSize > ClampedTop(p) || !Disjoint(low, p.regionSize, p.fdBase, p.fdSize);
    forall b: nat | SafeRegion(p, b)
      ensures if p.fdSize == 0 || p.regionSize == 0 then p.regionSize <= ClampedTop(p) - p.memoryBase
              else !NoRoomBesideFd(p)
    {
      DisjointIff(b, p.regionSize, p.fdBase, p.fdSize);
    }
  }

  /**
   With an FD in memory the ASSERT fails exactly when no place is safe. An empty FD is the
   exception: the ASSERT then fails where the region fits only across it.
   */
  lemma AssertFailsIffNoRoom(p: Pcds)
    requires p.memorySize != 0 && p.memoryBase < MAX_ALLOC_ADDRESS && FdIsShadowed(p)
    ensures (AssertFails(p) <==> !exists b: nat :: SafeRegion(p, b)) <==>
            !(p.fdSize == 0 && NoRoomBesideFd(p) && p.regionSize <= ClampedTop(p) - p.memoryBase)
  {
    hide Disjoint, SafeRegion;
    SafeRegionExistsIff(p);
  }

  /** An empty FD in the middle of memory: 12 KiB are free, and a region of 8 KiB is refused. */
  lemma EmptyFdIsInTheWay()
    ensures var p := Pcds(0x1000, 0x3000, 0x2800, 0, 0x2000);
            p.NoWrap() && AssertFails(p) && SafeRegion(p, 0x1000)
  {
  }

  /** 2 MiB of FD at the start of 1 GiB of memory: the region of 64 MiB goes to the top. */
  lemma RegionGoesToTop()
    ensures var p := Pcds(0x8000_0000, 0x4000_0000, 0x8000_0000, 0x20_0000, 0x400_0000);
            p.NoWrap() && !AssertFails(p) && RegionBase(p) == 0xBC00_0000
  {
  }

  /** A region of 8 KiB for 4 KiB of memory, and an FD around all of memory: no ASSERT objects. */
  lemma UnsafeRegions()
    ensures var p := Pcds(0x8000_0000, 0x1000, 0, 0x1000, 0x2000);
            p.NoWrap() && !AssertFails(p) && RegionBase(p) == 0x7FFF_F000 && !SafeRegion(p, RegionBase(p))
    ensures var p := Pcds(0x8000_0000, 0x1000, 0x7FFF_F000, 0x3000, 0x1000);
            p.NoWrap() && !AssertFails(p) && RegionBase(p) == 0x8000_0000 && !SafeRegion(p, RegionBase(p))
  {
    DisjointIff(0, 0x1000, 0x8000_0000, 0x1000);
    DisjointIff(0x8000_0000, 0x1000, 0x7FFF_F000, 0x3000);
  }

  // ----- Resource descriptors

  datatype Descriptor = Descriptor(resourceType: nat, resourceAttribute: nat, start: U64, length: U64, attributes: nat) {
    /** A system memory descriptor that holds [lo, hi). */
    predicate Holds(lo: nat, hi: nat) {
      && resourceType == EFI_RESOURCE_SYSTEM_MEMORY
      && start <= lo
      && hi <= Add64(start, length)
    }

    predicate NoWrap() { start + length < TWO_64 }
  }

  datatype Allocation = Allocation(base: nat, size: nat)

  ghost predicate AllNoWrap(ds: seq<Descriptor>) {
    forall d :: d in ds ==> d.NoWrap()
  }

  /** Address x is described as memory of this type with these resource attributes. */
  ghost predicate Describes(ds: seq<Descriptor>, x: nat, resourceType: nat, resourceAttribute: nat) {
    exists i :: 0 <= i < |ds| && Describing(ds[i], x, resourceType, resourceAttribute)
  }

  predicate Describing(d: Descriptor, x: nat, resourceType: nat, resourceAttribute: nat) {
    InRange(x, d.start, d.length) && d.resourceType == resourceType && d.resourceAttribute == resourceAttribute
  }

  function TotalLength(ds: seq<Descriptor>): nat {
    if ds == [] then 0 else TotalLength(ds[..|ds| - 1]) + ds[|ds| - 1].length
  }

  ghost predicate PairwiseDisjoint(ds: seq<Descriptor>) {
    forall i, j :: 0 <= i < j < |ds| ==> Disjoint(ds[i].start, ds[i].length, ds[j].start, ds[j].length)
  }

  /** The first descriptor that holds [lo, hi). */
  function FirstHolding(ds: seq<Descriptor>, lo: nat, hi: nat): (r: Option<nat>)
    ensures r.Some? ==> r.value < |ds| && ds[r.value].Holds(lo, hi)
    ensures r.Some? ==> forall k :: 0 <= k < r.value ==> !ds[k].Holds(lo, hi)
    ensures r.None? ==> forall d :: d in ds ==> !d.Holds(lo, hi)
  {
    if ds == [] then None
    else
      match FirstHolding(ds[..|ds| - 1], lo, hi)
      case Some(i) => Some(i)
      case None => if ds[|ds| - 1].Holds(lo, hi) then Some(|ds| - 1) else None
  }

  // ----- The split

  function FdDescriptor(p: Pcds, d: Descriptor): Descriptor {
    Descriptor(EFI_RESOURCE_SYSTEM_MEMORY, d.resourceAttribute, p.fdBase, p.fdSize, EFI_MEMORY_WB)
  }

  /** An FD at the start of its descriptor and at the end of system memory is left in place. */
  predicate SplitsDescriptor(p: Pcds, d: Descriptor) {
    p.fdBase != d.start || p.MemoryTop() != p.FdTop()
  }

  /** The descriptor that held the FD, after the split. */
  function Shrunk(p: Pcds, d: Descriptor): Descriptor {
    if !SplitsDescriptor(p, d) then d
    else if p.fdBase == d.start then d.(start := Add64(d.start, p.fdSize), length := Sub64(d.length, p.fdSize))
    else d.(length := Sub64(p.fdBase, d.start))
  }

  /** The descriptors the split appends. */
  function Extra(p: Pcds, d: Descriptor): seq<Descriptor> {
    if !SplitsDescriptor(p, d) then []
    else
      [FdDescriptor(p, d)]
      + if p.fdBase != d.start && p.FdTop() < Add64(d.start, d.length)
        then [Descriptor(EFI_RESOURCE_SYSTEM_MEMORY, d.resourceAttribute, p.FdTop(),
                         Sub64(Add64(d.start, d.length), p.FdTop()), d.attributes)]
        else []
  }

  function SplitAt(p: Pcds, ds: seq<Descriptor>, i: nat): seq<Descriptor>
    requires i < |ds|
  {
    ds[i := Shrunk(p, ds[i])] + Extra(p, ds[i])
  }

  /** The list after the first scan: memory is declared if nothing covers its base. */
  function WithSystemMemory(p: Pcds, ds: seq<Descriptor>): seq<Descriptor> {
    if FirstHolding(ds, p.memoryBase, p.memoryBase + 1).Some? then ds
    else ds + [Descriptor(EFI_RESOURCE_SYSTEM_MEMORY, DEFAULT_ATTRIBUTES, p.memoryBase, p.memorySize, EFI_MEMORY_WB)]
  }

  /** MemoryPeim's own containment test. */
  predicate FdInSystemMemory(p: Pcds) {
    p.memoryBase <= p.fdBase && p.FdTop() <= p.MemoryTop()
  }

  class ResourceHobList {
    var descriptors: seq<Descriptor>
    var allocations: seq<Allocation>

    constructor (descriptors: seq<Descriptor>)
      ensures this.descriptors == descriptors && allocations == []
    {
      this.descriptors, allocations := descriptors, [];
    }

    method BuildResourceDescriptorV2(d: Descriptor)
      modifies this`descriptors
      ensures descriptors == old(descriptors) + [d]
    {
      descriptors := descriptors + [d];
    }

    method BuildMemoryAllocationHob(base: nat, size: nat)
      modifies this`allocations
      ensures allocations == old(allocations) + [Allocation(base, size)]
    {
      allocations := allocations + [Allocation(base, size)];
    }
  }

  /** One scan over the resource descriptors. */
  method Scan(hobs: ResourceHobList, lo: nat, hi: nat) returns (found: Option<nat>)
    ensures found == FirstHolding(hobs.descriptors, lo, hi)
  {
    var i := 0;
    while i < |hobs.descriptors|
      invariant 0 <= i <= |hobs.descriptors|
      invariant forall k :: 0 <= k < i ==> !hobs.descriptors[k].Holds(lo, hi)
    {
      if hobs.descriptors[i].Holds(lo, hi) {
        return Some(i);
      }
      i := i + 1;
    }
    return None;
  }

  /**
   MemoryPeim. False when ASSERT (Found) fails: the FD is in system memory, yet no descriptor
   holds it.
   */
  method MemoryPeim(p: Pcds, hobs: ResourceHobList) returns (found: bool)
    requires p.memorySize != 0
    modifies hobs
    ensures
      var holder := FirstHolding(WithSystemMemory(p, old(hobs.descriptors)), p.fdBase, p.FdTop());
      && hobs.descriptors == FinalDescriptors(p, old(hobs.descriptors))
      && found == (FdInSystemMemory(p) ==> holder.Some?)
      && hobs.allocations
         == old(hobs.allocations) + if FdInSystemMemory(p) && found then [Allocation(p.fdBase, p.fdSize)] else []
    ensures p.NoWrap() && AllNoWrap(old(hobs.descriptors)) ==>
              var ds := WithSystemMemory(p, old(hobs.descriptors));
              && (forall x, t, a :: Describes(hobs.descriptors, x, t, a) <==> Describes(ds, x, t, a))
              && TotalLength(hobs.descriptors) == TotalLength(ds)
              && (PairwiseDisjoint(ds) ==> PairwiseDisjoint(hobs.descriptors))
  {
    hide Describes, PairwiseDisjoint, SplitAt;
    var memory := Scan(hobs, p.memoryBase, p.memoryBase + 1);
    if memory.None? {
      hobs.BuildResourceDescriptorV2(
        Descriptor(EFI_RESOURCE_SYSTEM_MEMORY, DEFAULT_ATTRIBUTES, p.memoryBase, p.memorySize, EFI_MEMORY_WB));
    }
    ghost var ds := hobs.descriptors;
    if !FdInSystemMemory(p) {
      return true;
    }
    var holder := Scan(hobs, p.fdBase, p.FdTop());
    if holder.None? {
      return false;
    }
    if p.NoWrap() && AllNoWrap(old(hobs.descriptors)) {
      SplitPreservesMap(p, ds, holder.value);
      SplitPreservesLength(p, ds, holder.value);
      if PairwiseDisjoint(ds) {
        SplitPreservesDisjointness(p, ds, holder.value);
      }
    }
    SplitHolder(p, hobs, holder.value);
    hobs.BuildMemoryAllocationHob(p.fdBase, p.fdSize);
    return true;
  }

  /** The three-way split of the descriptor at index i, edited in place. */
  method SplitHolder(p: Pcds, hobs: ResourceHobList, i: nat)
    requires i < |hobs.descriptors|
    requires hobs.descriptors[i].Holds(p.fdBase, p.FdTop())
    modifies hobs`descriptors
    ensures hobs.descriptors == SplitAt(p, old(hobs.descriptors), i)
  {
    ghost var ds := hobs.descriptors;
    var d := hobs.descriptors[i];
    var resourceTop := Add64(d.start, d.length);
    if p.fdBase == d.start {
      if p.MemoryTop() != p.FdTop() {
        hobs.BuildResourceDescriptorV2(FdDescriptor(p, d));
        hobs.descriptors := hobs.descriptors[i := d.(start := Add64(d.start, p.fdSize), length := Sub64(d.length, p.fdSize))];
      }
    } else {
      hobs.BuildResourceDescriptorV2(FdDescriptor(p, d));
      hobs.descriptors := hobs.descriptors[i := d.(length := Sub64(p.fdBase, d.start))];
      if p.FdTop() < Add64(hobs.descriptors[i].start, d.length) {
        hobs.BuildResourceDescriptorV2(
          Descriptor(EFI_RESOURCE_SYSTEM_MEMORY, d.resourceAttribute, p.FdTop(), Sub64(resourceTop, p.FdTop()),
                     hobs.descriptors[i].attributes));
      }
    }
  }

  // ----- The split conserves memory

  /** What remains of the holder and what is appended: together exactly the old descriptor. */
  function Pieces(p: Pcds, d: Descriptor): seq<Descriptor> {
    [Shrunk(p, d)] + Extra(p, d)
  }

  /** The pieces tile the descriptor: same type and resource attributes, disjoint, nothing lost. */
  lemma PiecesTile(p: Pcds, d: Descriptor)
    requires p.NoWrap() && d.NoWrap() && d.Holds(p.fdBase, p.FdTop())
    ensures forall k :: 0 <= k < |Pieces(p, d)| ==>
              var q := Pieces(p, d)[k];
              && q.resourceType == d.resourceType && q.resourceAttribute == d.resourceAttribute
              && d.start <= q.start && q.start + q.length <= d.start + d.length
    ensures forall x :: InRange(x, d.start, d.length) ==>
              exists k :: 0 <= k < |Pieces(p, d)| && InRange(x, Pieces(p, d)[k].start, Pieces(p, d)[k].length)
    ensures PairwiseDisjoint(Pieces(p, d))
    ensures Shrunk(p, d).length + TotalLength(Extra(p, d)) == d.length
  {
    var pieces := Pieces(p, d);
    forall x: nat | InRange(x, d.start, d.length)
      ensures exists k :: 0 <= k < |pieces| && InRange(x, pieces[k].start, pieces[k].length)
    {
      if InRange(x, pieces[0].start, pieces[0].length) {
      } else if x < p.fdBase + p.fdSize {
        assert InRange(x, pieces[1].start, pieces[1].length);
      } else {
        assert InRange(x, pieces[2].start, pieces[2].length);
      }
    }
    TotalLengthOfExtra(p, d);
  }

  lemma TotalLengthOfExtra(p: Pcds, d: Descriptor)
    ensures TotalLength(Extra(p, d)) ==
            match |Extra(p, d)|
            case 0 => 0
            case 1 => Extra(p, d)[0].length
            case _ => Extra(p, d)[0].length + Extra(p, d)[1].length
  {
    var extra := Extra(p, d);
    if |extra| == 2 {
      assert extra[..1] == [extra[0]];
      assert TotalLength([extra[0]]) == extra[0].length;
    } else if |extra| == 1 {
      assert extra[..0] == [];
    }
  }

  lemma {:induction false} TotalLengthConcat(a: seq<Descriptor>, b: seq<Descriptor>)
    ensures TotalLength(a + b) == TotalLength(a) + TotalLength(b)
    decreases |b|
  {
    if b == [] {
      assert a + b == a;
    } else {
      assert (a + b)[..|a + b| - 1] == a + b[..|b| - 1];
      TotalLengthConcat(a, b[..|b| - 1]);
    }
  }

  lemma {:induction false} TotalLengthUpdate(ds: seq<Descriptor>, i: nat, d: Descriptor)
    requires i < |ds|
    ensures TotalLength(ds[i := d]) + ds[i].length == TotalLength(ds) + d.length
    decreases |ds|
  {
    var last := |ds| - 1;
    if i < last {
      assert ds[i := d][..last] == ds[..last][i := d];
      TotalLengthUpdate(ds[..last], i, d);
    } else {
      assert ds[i := d][..last] == ds[..last];
    }
  }

  /** No address gains or loses memory, or changes its resource attributes. */
  lemma SplitPreservesMap(p: Pcds, ds: seq<Descriptor>, i: nat)
    requires p.NoWrap() && i < |ds| && ds[i].NoWrap() && ds[i].Holds(p.fdBase, p.FdTop())
    ensures forall x, t, a :: Describes(SplitAt(p, ds, i), x, t, a) <==> Describes(ds, x, t, a)
  {
    hide Shrunk, Extra;
    var ds', d := SplitAt(p, ds, i), ds[i];
    PiecesTile(p, d);
    forall x, t, a | Describes(ds', x, t, a) ensures Describes(ds, x, t, a) {
      var k :| 0 <= k < |ds'| && Describing(ds'[k], x, t, a);
      if k == i {
        assert ds'[k] == Pieces(p, d)[0];
        assert Describing(ds[i], x, t, a);
      } else if k >= |ds| {
        assert ds'[k] == Pieces(p, d)[k - |ds| + 1];
        assert Describing(ds[i], x, t, a);
      } else {
        assert Describing(ds[k], x, t, a);
      }
    }
    forall x, t, a | Describes(ds, x, t, a) ensures Describes(ds', x, t, a) {
      var k :| 0 <= k < |ds| && Describing(ds[k], x, t, a);
      if k == i {
        var j :| 0 <= j < |Pieces(p, d)| && InRange(x, Pieces(p, d)[j].start, Pieces(p, d)[j].length);
        assert Describing(ds'[if j == 0 then i else |ds| + j - 1], x, t, a);
      } else {
        assert Describing(ds'[k], x, t, a);
      }
    }
  }

  lemma SplitPreservesLength(p: Pcds, ds: seq<Descriptor>, i: nat)
    requires p.NoWrap() && i < |ds| && ds[i].NoWrap() && ds[i].Holds(p.fdBase, p.FdTop())
    ensures TotalLength(SplitAt(p, ds, i)) == TotalLength(ds)
  {
    hide Shrunk, Extra;
    PiecesTile(p, ds[i]);
    TotalLengthConcat(ds[i := Shrunk(p, ds[i])], Extra(p, ds[i]));
    TotalLengthUpdate(ds, i, Shrunk(p, ds[i]));
  }

  /** Where element k of a split list comes from: an untouched descriptor or a piece of the holder. */
  function Origin(ds: seq<Descriptor>, i: nat, k: nat): nat {
    if k < |ds| then k else i
  }

  lemma SplitPreservesDisjointness(p: Pcds, ds: seq<Descriptor>, i: nat)
    requires p.NoWrap() && i < |ds| && ds[i].NoWrap() && ds[i].Holds(p.fdBase, p.FdTop())
    requires PairwiseDisjoint(ds)
    ensures PairwiseDisjoint(SplitAt(p, ds, i))
  {
    hide Shrunk, Extra, Disjoint;
    var ds', d := SplitAt(p, ds, i), ds[i];
    PiecesTile(p, d);
    forall j, k | 0 <= j < k < |ds'| ensures Disjoint(ds'[j].start, ds'[j].length, ds'[k].start, ds'[k].length) {
      DisjointIff(ds'[j].start, ds'[j].length, ds'[k].start, ds'[k].length);
      var oj, ok := Origin(ds, i, j), Origin(ds, i, k);
      if oj == ok {
        var pj, pk := if j < |ds| then 0 else j - |ds| + 1, k - |ds| + 1;
        assert ds'[j] == Pieces(p, d)[pj] && ds'[k] == Pieces(p, d)[pk];
      } else {
        WithinOrigin(p, ds, i, j);
        WithinOrigin(p, ds, i, k);
        DisjointIff(ds[oj].start, ds[oj].length, ds[ok].start, ds[ok].length);
        DisjointIff(ds[ok].start, ds[ok].length, ds[oj].start, ds[oj].length);
        var lo, hi := if oj < ok then oj else ok, if oj < ok then ok else oj;
        assert Disjoint(ds[lo].start, ds[lo].length, ds[hi].start, ds[hi].length);
      }
    }
  }

  lemma WithinOrigin(p: Pcds, ds: seq<Descriptor>, i: nat, k: nat)
    requires p.NoWrap() && i < |ds| && ds[i].NoWrap() && ds[i].Holds(p.fdBase, p.FdTop())
    requires k < |SplitAt(p, ds, i)|
    ensures var o, q := ds[Origin(ds, i, k)], SplitAt(p, ds, i)[k];
            o.start <= q.start && q.start + q.length <= o.start + o.length
  {
    hide Shrunk, Extra;
    PiecesTile(p, ds[i]);
    if k == i {
      assert SplitAt(p, ds, i)[k] == Pieces(p, ds[i])[0];
    } else if k >= |ds| {
      assert SplitAt(p, ds, i)[k] == Pieces(p, ds[i])[k - |ds| + 1];
    }
  }

  /**
   After MemoryPeim has split off the FD, one descriptor is exactly the range that the
   allocation HOB marks, and the memory attributes of every other address are unchanged.
   */
  lemma SplitIsolatesFd(p: Pcds, ds: seq<Descriptor>, i: nat)
    requires p.NoWrap() && i < |ds| && ds[i].NoWrap() && ds[i].Holds(p.fdBase, p.FdTop())
    requires p.fdBase != ds[i].start || p.memoryBase + p.memorySize != p.fdBase + p.fdSize
    ensures var ds' := SplitAt(p, ds, i);
            && |ds| < |ds'|
            && ds'[|ds|] == Descriptor(0, ds[i].resourceAttribute, p.fdBase, p.fdSize, 0x8)
            && forall k :: 0 <= k < |ds'| && k != |ds| ==>
                 && ds'[k].attributes == ds[Origin(ds, i, k)].attributes
                 && (Origin(ds, i, k) == i ==> Disjoint(ds'[k].start, ds'[k].length, p.fdBase, p.fdSize))
  {
    var ds' := SplitAt(p, ds, i);
    forall k | 0 <= k < |ds'| && k != |ds| && Origin(ds, i, k) == i
      ensures Disjoint(ds'[k].start, ds'[k].length, p.fdBase, p.fdSize)
    {
      DisjointIff(ds'[k].start, ds'[k].length, p.fdBase, p.fdSize);
    }
  }

  /** Descriptor q is exactly the range that the allocation HOB marks. */
  predicate IsFdRange(p: Pcds, q: Descriptor) {
    q.start == p.fdBase && q.length == p.fdSize
  }

  /**
   Some piece of the holder is the FD's own descriptor if and only if the holder was split, or
   was as long as the FD to begin with.
   */
  lemma FdHasOwnPieceIff(p: Pcds, d: Descriptor)
    requires p.NoWrap() && d.NoWrap() && d.Holds(p.fdBase, p.FdTop())
    ensures (exists k :: 0 <= k < |Pieces(p, d)| && IsFdRange(p, Pieces(p, d)[k]))
            <==> || p.fdBase != d.start
                 || p.memoryBase + p.memorySize != p.fdBase + p.fdSize
                 || d.length == p.fdSize
  {
    if SplitsDescriptor(p, d) {
      assert IsFdRange(p, Pieces(p, d)[1]);
    } else {
      assert Pieces(p, d) == [d];
      assert IsFdRange(p, Pieces(p, d)[0]) <==> d.length == p.fdSize;
    }
  }

  /** Likewise over the whole list, when its descriptors are disjoint and the FD is not empty. */
  lemma FdHasOwnDescriptorIff(p: Pcds, ds: seq<Descriptor>, i: nat)
    requires p.NoWrap() && i < |ds| && ds[i].NoWrap() && ds[i].Holds(p.fdBase, p.FdTop())
    requires PairwiseDisjoint(ds) && p.fdSize > 0
    ensures (exists k :: 0 <= k < |SplitAt(p, ds, i)| && IsFdRange(p, SplitAt(p, ds, i)[k]))
            <==> || p.fdBase != ds[i].start
                 || p.memoryBase + p.memorySize != p.fdBase + p.fdSize
                 || ds[i].length == p.fdSize
  {
    hide Shrunk, Extra, Disjoint;
    var ds', pieces := SplitAt(p, ds, i), Pieces(p, ds[i]);
    FdHasOwnPieceIff(p, ds[i]);
    forall k | 0 <= k < |ds'| && IsFdRange(p, ds'[k])
      ensures exists j :: 0 <= j < |pieces| && IsFdRange(p, pieces[j])
    {
      if k < |ds| && k != i {
        assert ds'[k] == ds[k];
        OthersAreNotFdRange(p, ds, i, k);
      }
      var j := if k == i then 0 else k - |ds| + 1;
      assert ds'[k] == pieces[j];
    }
    forall j | 0 <= j < |pieces| && IsFdRange(p, pieces[j])
      ensures exists k :: 0 <= k < |ds'| && IsFdRange(p, ds'[k])
    {
      assert ds'[if j == 0 then i else |ds| + j - 1] == pieces[j];
    }
  }

  /** No other descriptor can be the FD's range: it would overlap the holder. */
  lemma OthersAreNotFdRange(p: Pcds, ds: seq<Descriptor>, i: nat, k: nat)
    requires p.NoWrap() && i < |ds| && ds[i].NoWrap() && ds[i].Holds(p.fdBase, p.FdTop())
    requires PairwiseDisjoint(ds) && p.fdSize > 0
    requires k < |ds| && k != i
    ensures !IsFdRange(p, ds[k])
  {
    hide Disjoint;
    var lo, hi := if i < k then i else k, if i < k then k else i;
    assert Disjoint(ds[lo].start, ds[lo].length, ds[hi].start, ds[hi].length);
    DisjointIff(ds[lo].start, ds[lo].length, ds[hi].start, ds[hi].length);
  }

  /** An FD that fills system memory, at the start of a longer descriptor, is marked but not split off. */
  lemma FdIsMarkedButNotSplitOff()
    ensures var p, d := Pcds(0x1000, 0x1000, 0x1000, 0x1000, 0),
                        Descriptor(EFI_RESOURCE_SYSTEM_MEMORY, DEFAULT_ATTRIBUTES, 0x1000, 0x4000, EFI_MEMORY_WB);
            && p.NoWrap() && d.NoWrap() && FdInSystemMemory(p)
            && FirstHolding([d], p.fdBase, p.FdTop()) == Some(0)
            && FinalDescriptors(p, [d]) == [d] && !IsFdRange(p, d)
  {
    var d := Descriptor(EFI_RESOURCE_SYSTEM_MEMORY, DEFAULT_ATTRIBUTES, 0x1000, 0x4000, EFI_MEMORY_WB);
    assert [d][..0] == [];
  }

  // ----- The region and the descriptors together

  /** The descriptors MemoryPeim leaves behind. */
  function FinalDescriptors(p: Pcds, ds: seq<Descriptor>): seq<Descriptor> {
    var all := WithSystemMemory(p, ds);
    if !FdInSystemMemory(p) then all
    else
      match FirstHolding(all, p.fdBase, p.FdTop())
      case None => all
      case Some(i) => SplitAt(p, all, i)
  }

  /**
   After MemoryPeim a byte of a safe UEFI region is described as system memory if and only if
   the platform left the base of memory undescribed, or described the byte itself. No byte of
   the region is in the range marked for the FD.
   */
  lemma RegionIsDescribedIff(p: Pcds, ds: seq<Descriptor>, x: nat)
    requires p.NoWrap() && AllNoWrap(ds)
    requires RegionBase(p) >= 0 && SafeRegion(p, RegionBase(p)) && InRange(x, RegionBase(p), p.regionSize)
    ensures (exists a :: Describes(FinalDescriptors(p, ds), x, EFI_RESOURCE_SYSTEM_MEMORY, a)) <==>
            || FirstHolding(ds, p.memoryBase, p.memoryBase + 1).None?
            || exists a :: Describes(ds, x, EFI_RESOURCE_SYSTEM_MEMORY, a)
    ensures FirstHolding(ds, p.memoryBase, p.memoryBase + 1).None? ==>
              Describes(FinalDescriptors(p, ds), x, EFI_RESOURCE_SYSTEM_MEMORY, DEFAULT_ATTRIBUTES)
    ensures !InRange(x, p.fdBase, p.fdSize)
  {
    hide FirstHolding, FinalDescriptors, Describes;
    FinalPreservesMap(p, ds);
    if FirstHolding(ds, p.memoryBase, p.memoryBase + 1).None? {
      MemoryIsDescribed(p, ds, x);
      assert Describes(FinalDescriptors(p, ds), x, EFI_RESOURCE_SYSTEM_MEMORY, DEFAULT_ATTRIBUTES);
    } else {
      assert WithSystemMemory(p, ds) == ds;
      assert forall a :: Describes(FinalDescriptors(p, ds), x, EFI_RESOURCE_SYSTEM_MEMORY, a)
                         <==> Describes(ds, x, EFI_RESOURCE_SYSTEM_MEMORY, a);
    }
  }

  lemma MemoryIsDescribed(p: Pcds, ds: seq<Descriptor>, x: nat)
    requires FirstHolding(ds, p.memoryBase, p.memoryBase + 1).None?
    requires InRange(x, p.memoryBase, p.memorySize)
    ensures Describes(WithSystemMemory(p, ds), x, EFI_RESOURCE_SYSTEM_MEMORY, DEFAULT_ATTRIBUTES)
  {
    hide FirstHolding;
    assert Describing(WithSystemMemory(p, ds)[|ds|], x, EFI_RESOURCE_SYSTEM_MEMORY, DEFAULT_ATTRIBUTES);
  }

  /** Undescribed memory is declared as one descriptor of present, initialized, tested and cacheable memory. */
  lemma DeclaredMemory(p: Pcds, ds: seq<Descriptor>)
    requires forall d :: d in ds ==> !d.Holds(p.memoryBase, p.memoryBase + 1)
    ensures WithSystemMemory(p, ds) == ds + [Descriptor(0, 0x3807, p.memoryBase, p.memorySize, 0x8)]
  {
    NoneHolds(ds, p.memoryBase, p.memoryBase + 1);
  }

  lemma {:induction false} NoneHolds(ds: seq<Descriptor>, lo: nat, hi: nat)
    requires forall d :: d in ds ==> !d.Holds(lo, hi)
    ensures FirstHolding(ds, lo, hi).None?
    decreases |ds|
  {
    if ds != [] {
      assert ds[|ds| - 1] in ds && forall d :: d in ds[..|ds| - 1] ==> d in ds;
      NoneHolds(ds[..|ds| - 1], lo, hi);
    }
  }

  /** MemoryPeim as a whole describes what its first scan left described. */
  lemma FinalPreservesMap(p: Pcds, ds: seq<Descriptor>)
    requires p.NoWrap() && AllNoWrap(ds)
    ensures forall x, t, a ::
              Describes(FinalDescriptors(p, ds), x, t, a) <==> Describes(WithSystemMemory(p, ds), x, t, a)
  {
    hide FirstHolding, SplitAt, Describes;
    var all := WithSystemMemory(p, ds);
    var holder := FirstHolding(all, p.fdBase, p.FdTop());
    if FdInSystemMemory(p) && holder.Some? {
      assert all[holder.value] in all;
      SplitPreservesMap(p, all, holder.value);
    }
  }

  // ----- When ASSERT (Found) holds

  /** MemoryPeim fails its ASSERT exactly when the base of memory was described, but not the FD. */
  lemma FoundIff(p: Pcds, ds: seq<Descriptor>)
    requires p.NoWrap() && p.memorySize != 0 && FdInSystemMemory(p)
    ensures FirstHolding(WithSystemMemory(p, ds), p.fdBase, p.FdTop()).None? <==>
            && (exists d :: d in ds && d.Holds(p.memoryBase, p.memoryBase + 1))
            && (forall d :: d in ds ==> !d.Holds(p.fdBase, p.FdTop()))
  {
    var memory := Descriptor(EFI_RESOURCE_SYSTEM_MEMORY, DEFAULT_ATTRIBUTES, p.memoryBase, p.memorySize, EFI_MEMORY_WB);
    if FirstHolding(ds, p.memoryBase, p.memoryBase + 1).None? {
      var all := WithSystemMemory(p, ds);
      assert all[|ds|] == memory && memory.Holds(p.fdBase, p.FdTop());
      assert memory in all;
    } else {
      assert ds[FirstHolding(ds, p.memoryBase, p.memoryBase + 1).value] in ds;
      var holder := FirstHolding(ds, p.fdBase, p.FdTop());
      assert holder.Some? ==> ds[holder.value] in ds;
    }
  }

  /** The first page of memory is described, the FD two pages on is not. */
  lemma FdIsNotFound()
    ensures var p, d := Pcds(0x1000, 0x4000, 0x3000, 0x1000, 0),
                        Descriptor(EFI_RESOURCE_SYSTEM_MEMORY, DEFAULT_ATTRIBUTES, 0x1000, 0x1000, EFI_MEMORY_WB);
            && p.NoWrap() && FdInSystemMemory(p)
            && FirstHolding(WithSystemMemory(p, [d]), p.fdBase, p.FdTop()).None?
  {
    var p := Pcds(0x1000, 0x4000, 0x3000, 0x1000, 0);
    var d := Descriptor(EFI_RESOURCE_SYSTEM_MEMORY, DEFAULT_ATTRIBUTES, 0x1000, 0x1000, EFI_MEMORY_WB);
    assert d in [d] && d.Holds(0x1000, 0x1001) && !d.Holds(p.fdBase, p.FdTop());
    FoundIff(p, [d]);
  }

  // ----- PeilessSec

  function SystemMemoryEnd(p: Pcds): U64 {
    Sub64(Add64(p.memoryBase, p.memorySize), 1)
  }

  /** IS_XIP() */
  predicate IsXip(p: Pcds) {
    p.fdBase > SystemMemoryEnd(p) || p.FdTop() <= p.memoryBase
  }

  /** The ASSERT that opens SecMain. */
  predicate PassesSecAssert(p: Pcds) {
    IsXip(p) || (p.fdBase >= p.memoryBase && p.FdTop() <= SystemMemoryEnd(p))
  }

  /**
   PeilessSec and MemoryPeim classify the FD alike, "in memory" against "execute in place",
   except for an empty FD at either edge of memory.
   */
  lemma ClassificationAgreesIff(p: Pcds)
    requires p.NoWrap() && p.memorySize != 0 && PassesSecAssert(p)
    ensures (FdInSystemMemory(p) <==> !IsXip(p))
            <==> !(p.fdSize == 0 && (p.fdBase == p.memoryBase || p.fdBase == p.memoryBase + p.memorySize))
  {
  }

  /**
   InitializeMemory clamps memory to what can be allocated and MemoryPeim does not, so the two
   agree on whether the FD is in memory except for one that is, and reaches past the clamp.
   */
  lemma ClampingAgreesIff(p: Pcds)
    requires p.NoWrap() && !AssertFails(p)
    ensures (FdIsShadowed(p) <==> FdInSystemMemory(p))
            <==> !(p.memoryBase <= p.fdBase && ClampedTop(p) < p.fdBase + p.fdSize <= p.memoryBase + p.memorySize)
  {
    hide Disjoint;
  }

  /** All three files classify the FD alike exactly when it is neither past the clamp nor empty at an edge. */
  lemma ThreeClassificationsAgreeIff(p: Pcds)
    requires p.NoWrap() && !AssertFails(p) && PassesSecAssert(p)
    ensures (FdIsShadowed(p) <==> FdInSystemMemory(p)) && (FdInSystemMemory(p) <==> !IsXip(p))
            <==> && !(p.memoryBase <= p.fdBase
                      && ClampedTop(p) < p.fdBase + p.fdSize <= p.memoryBase + p.memorySize)
                 && !(p.fdSize == 0 && (p.fdBase == p.memoryBase || p.fdBase == p.memoryBase + p.memorySize))
  {
    hide AssertFails, FdIsShadowed, FdInSystemMemory, IsXip, PassesSecAssert;
    ClampingAgreesIff(p);
    SomeMemory(p);
    ClassificationAgreesIff(p);
  }

  lemma SomeMemory(p: Pcds)
    requires !AssertFails(p)
    ensures p.memorySize != 0
  {
    hide Disjoint;
  }

  /** An FD at 2^48, in memory that reaches past it: split off by MemoryPeim, not seen by InitializeMemory. */
  lemma FdPastClamp()
    ensures var p := Pcds(0x8000_0000, 0x2_0000_0000_0000, 0x1_0000_0000_0000, 0x1000, 0x1000);
            p.NoWrap() && !AssertFails(p) && PassesSecAssert(p) && !FdIsShadowed(p) && FdInSystemMemory(p)
  {
    DisjointIff(0x1_0000_0000_0000, 0x1000, 0x8000_0000, 0x1_0000_0000_0000 - 0x8000_0000);
  }

  /** An empty FD at the base of memory is both in memory and executed in place. */
  lemma EmptyFdIsClassifiedTwice()
    ensures var p := Pcds(0x1000, 0x1000, 0x1000, 0, 0);
            p.NoWrap() && PassesSecAssert(p) && FdInSystemMemory(p) && IsXip(p)
  {
  }

  /**
   Under PeilessSec, an FD in memory always gets its own descriptor: the ASSERT keeps it off
   the end of memory, which is the one place where MemoryPeim leaves the descriptor whole.
   */
  lemma PeilessFdIsAlwaysSplitOff(p: Pcds, ds: seq<Descriptor>)
    requires p.NoWrap() && p.memorySize != 0 && PassesSecAssert(p)
    requires p.fdSize > 0 && FdInSystemMemory(p)
    requires AllNoWrap(ds)
    ensures var all := WithSystemMemory(p, ds);
            var holder := FirstHolding(all, p.fdBase, p.FdTop());
            holder.Some? ==> FdDescriptor(p, all[holder.value]) in SplitAt(p, all, holder.value)
  {
    hide WithSystemMemory, FirstHolding;
    SecAssertKeepsFdOffTop(p);
    var all := WithSystemMemory(p, ds);
    var holder := FirstHolding(all, p.fdBase, p.FdTop());
    if holder.Some? {
      assert SplitAt(p, all, holder.value)[|all|] == FdDescriptor(p, all[holder.value]);
    }
  }

  lemma SecAssertKeepsFdOffTop(p: Pcds)
    requires p.NoWrap() && p.memorySize != 0 && PassesSecAssert(p)
    requires p.fdSize > 0 && FdInSystemMemory(p)
    ensures p.FdTop() < p.MemoryTop()
  {
  }
}
