/**
 Sec.c: the PPI list built at the base of the primary stack, the hand-off layout of heap and
 stack behind it, and the migration of that temporary RAM into permanent memory with its
 halves swapped.
 */
module Sec {
  import opened Words
  import opened Wrappers

  const CPU_STACK_ALIGNMENT := 16

  /** ALIGN_VALUE (v, CPU_STACK_ALIGNMENT) */
  function Align16(v: U64): U64 {
    Add64(v, (16 - v % 16) % 16)
  }

  lemma AlignUp(v: U64)
    requires v <= TWO_64 - 16
    ensures v <= Align16(v) <= v + 15
    ensures v <= 16 ==> Align16(v) == if v == 0 then 0 else 16
  {
  }

  /** The least multiple of 16 that is not below v. */
  lemma AlignIsLeast(v: U64)
    requires v <= TWO_64 - 16
    ensures Align16(v) % 16 == 0 && v <= Align16(v)
    ensures forall w: nat :: w % 16 == 0 && v <= w ==> Align16(v) <= w
  {
    AlignUp(v);
    forall w: nat | w % 16 == 0 && v <= w ensures Align16(v) <= w {
      assert w - Align16(v) > -16;
    }
  }

  // ----- Migration

  /** The part of the temporary RAM that is heap. */
  function HeapSize(copySize: U64): U64 {
    Align16(copySize / 2)
  }

  /** The rounded half exceeds the whole, and the stack size underflows, for sizes 2 to 15 only. */
  lemma HeapFitsIff(copySize: U64)
    ensures HeapSize(copySize) <= copySize <==> copySize <= 1 || 16 <= copySize
  {
    hide Align16;
    AlignUp(copySize / 2);
  }

  /** The heap is the least multiple of 16 that is at least half of the whole. */
  lemma HeapIsAlignedHalf(copySize: U64)
    ensures HeapSize(copySize) % 16 == 0
    ensures copySize / 2 <= HeapSize(copySize) < copySize / 2 + 16
  {
    hide Align16;
    AlignIsLeast(copySize / 2);
    AlignUp(copySize / 2);
  }

  /** Memory after CopyMem (dst, src, n), which copies as if through a buffer. */
  function Copied(s: seq<Byte>, dst: nat, src: nat, n: nat): (r: seq<Byte>)
    requires dst + n <= |s| && src + n <= |s|
    ensures |r| == |s|
  {
    seq(|s|, i requires 0 <= i < |s| => if dst <= i < dst + n then s[src + (i - dst)] else s[i])
  }

  /** CopyMem. False, with memory untouched, when either range is not all memory. */
  method CopyMem(ram: array<Byte>, dst: nat, src: nat, n: nat) returns (copied: bool)
    modifies ram
    ensures copied <==> dst + n <= ram.Length && src + n <= ram.Length
    ensures ram[..] == if copied then Copied(old(ram[..]), dst, src, n) else old(ram[..])
  {
    if dst + n > ram.Length || src + n > ram.Length {
      return false;
    }
    forall i | 0 <= i < n {
      ram[dst + i] := ram[src + i];
    }
    return true;
  }

  datatype Move = Move(temporary: U64, permanent: U64, size: U64) {
    /** Both regions exist in a memory of this size, and the rounded half fits. */
    predicate Fits(memorySize: nat) {
      && temporary + size <= memorySize < TWO_64
      && permanent + size <= memorySize
      && HeapSize(size) <= size
    }

    function StackSize(): nat
      requires HeapSize(size) <= size
    {
      size - HeapSize(size)
    }

    function OldStack(): nat { temporary + HeapSize(size) }

    function NewHeap(): nat
      requires HeapSize(size) <= size
    {
      permanent + StackSize()
    }
  }

  /** Memory after the two copies: stack first, then heap. */
  function Migrated(s: seq<Byte>, m: Move): seq<Byte>
    requires m.Fits(|s|)
  {
    Copied(Copied(s, m.permanent, m.OldStack(), m.StackSize()), m.NewHeap(), m.temporary, HeapSize(m.size))
  }

  /**
   SecTemporaryRamSupport; the result is what SecSwitchStack adds to the stack pointer. None
   when a copy leaves memory, as it does for the sizes whose rounded half exceeds the whole:
   the size of the stack then wraps.
   */
  method SecTemporaryRamSupport(ram: array<Byte>, m: Move) returns (delta: Option<U64>)
    requires ram.Length <= TWO_64 - 16
    modifies ram
    ensures delta.Some? <==> m.Fits(ram.Length)
    ensures m.Fits(ram.Length) ==>
              ram[..] == Migrated(old(ram[..]), m) && delta.value == Sub64(m.permanent, m.OldStack())
  {
    hide Copied;
    SizesAreSmall(m.size);
    hide HeapSize;
    var heapSize := HeapSize(m.size);
    var oldHeap := m.temporary;
    var newHeap := Add64(m.permanent, Sub64(m.size, heapSize));
    var oldStack := Add64(m.temporary, heapSize);
    var newStack := m.permanent;
    var copied := CopyMem(ram, newStack, oldStack, Sub64(m.size, heapSize));
    if copied {
      copied := CopyMem(ram, newHeap, oldHeap, heapSize);
    }
    delta := if copied then Some(Sub64(newStack, oldStack)) else None;
  }

  /** The rounded half exceeds the whole by less than the alignment. */
  lemma SizesAreSmall(copySize: U64)
    ensures HeapSize(copySize) < copySize + 16
    ensures copySize >= 2 ==> HeapSize(copySize) > 0
  {
    hide Align16;
    AlignUp(copySize / 2);
  }

  /** Copying the stack does not run over the heap that is still to be copied. */
  ghost predicate StackClearsHeap(m: Move)
    requires HeapSize(m.size) <= m.size
  {
    || m.StackSize() == 0
    || HeapSize(m.size) == 0
    || m.NewHeap() <= m.temporary
    || m.OldStack() <= m.permanent
  }

  /**
   Whatever the overlap, every stack byte arrives, the adjusted stack pointer finds it, and
   nothing outside the destination changes.
   */
  lemma MigrationMovesStack(s: seq<Byte>, m: Move)
    requires m.Fits(|s|)
    ensures Migrated(s, m)[m.permanent..m.NewHeap()] == s[m.OldStack()..m.temporary + m.size]
    ensures forall a: U64 :: m.OldStack() <= a < m.temporary + m.size ==>
              var moved := Add64(a, Sub64(m.permanent, m.OldStack()));
              moved < |s| && Migrated(s, m)[moved] == s[a]
    ensures forall a :: 0 <= a < |s| && !(m.permanent <= a < m.permanent + m.size) ==> Migrated(s, m)[a] == s[a]
  {
    hide HeapSize;
    forall a: U64 | m.OldStack() <= a < m.temporary + m.size
      ensures var moved := Add64(a, Sub64(m.permanent, m.OldStack()));
              moved < |s| && Migrated(s, m)[moved] == s[a]
    {
      var moved := Add64(a, Sub64(m.permanent, m.OldStack()));
      assert moved == m.permanent + (a - m.OldStack());
    }
  }

  ghost predicate HeapArrives(s: seq<Byte>, m: Move)
    requires m.Fits(|s|)
  {
    Migrated(s, m)[m.NewHeap()..m.permanent + m.size] == s[m.temporary..m.OldStack()]
  }

  lemma HeapArrivesWhenClear(s: seq<Byte>, m: Move)
    requires m.Fits(|s|) && StackClearsHeap(m)
    ensures HeapArrives(s, m)
  {
    hide Align16;
    var arrived, sent := Migrated(s, m)[m.NewHeap()..m.permanent + m.size], s[m.temporary..m.OldStack()];
    forall i | 0 <= i < |sent| ensures arrived[i] == sent[i] {
      assert arrived[i] == Migrated(s, m)[m.NewHeap() + i];
    }
  }

  /** A memory that holds 1 at x and 0 elsewhere. */
  function Marked(size: nat, x: nat): (s: seq<Byte>)
    ensures |s| == size
  {
    seq(size, i requires 0 <= i < size => if i == x then 1 else 0)
  }

  lemma CopiedAt(s: seq<Byte>, dst: nat, src: nat, n: nat, i: nat)
    requires dst + n <= |s| && src + n <= |s| && i < |s|
    ensures Copied(s, dst, src, n)[i] == if dst <= i < dst + n then s[src + (i - dst)] else s[i]
  {
  }

  /** The first address of the old heap that the new stack covers. */
  function FirstOverlap(m: Move): nat {
    if m.temporary <= m.permanent then m.permanent else m.temporary
  }

  lemma OverlapLosesHeap(memorySize: nat, m: Move)
    requires m.Fits(memorySize) && !StackClearsHeap(m)
    ensures !HeapArrives(Marked(memorySize, FirstOverlap(m)), m)
  {
    hide HeapSize, Copied, Marked;
    var x := FirstOverlap(m);
    var s, i := Marked(memorySize, x), x - m.temporary;
    var copied := Copied(s, m.permanent, m.OldStack(), m.StackSize());
    CopiedAt(s, m.permanent, m.OldStack(), m.StackSize(), x);
    CopiedAt(copied, m.NewHeap(), m.temporary, HeapSize(m.size), m.NewHeap() + i);
    MarkedAt(memorySize, x, x);
    MarkedAt(memorySize, x, m.OldStack() + (x - m.permanent));
    assert Migrated(s, m)[m.NewHeap()..m.permanent + m.size][i] == 0;
    assert s[m.temporary..m.OldStack()][i] == 1;
  }

  lemma MarkedAt(size: nat, x: nat, i: nat)
    requires i < size
    ensures Marked(size, x)[i] == if i == x then 1 else 0
  {
  }

  /**
   The heap arrives intact, whatever memory holds, exactly when the new stack does not
   overlap the old heap. Disjoint regions are more than enough.
   */
  lemma HeapArrivesIff(memorySize: nat, m: Move)
    requires m.Fits(memorySize)
    ensures StackClearsHeap(m) <==> forall s: seq<Byte> :: |s| == memorySize ==> HeapArrives(s, m)
  {
    hide HeapSize, HeapArrives, StackClearsHeap;
    if StackClearsHeap(m) {
      forall s: seq<Byte> | |s| == memorySize ensures HeapArrives(s, m) {
        HeapArrivesWhenClear(s, m);
      }
    } else {
      OverlapLosesHeap(memorySize, m);
    }
  }

  /** Moving 32 bytes onto themselves swaps the halves, and the heap is lost to the stack. */
  lemma HeapIsOverwritten()
    ensures Move(0, 0, 32).Fits(32) && !StackClearsHeap(Move(0, 0, 32))
    ensures !HeapArrives(Marked(32, 0), Move(0, 0, 32))
  {
    hide HeapArrives, Marked;
    assert HeapSize(32) == 16;
    OverlapLosesHeap(32, Move(0, 0, 32));
  }

  // ----- The PPI list

  const EFI_PEI_PPI_DESCRIPTOR_PPI: bv64 := 0x10
  const EFI_PEI_PPI_DESCRIPTOR_TERMINATE_LIST: bv64 := 0x8000_0000
  const PPI_DESCRIPTOR_SIZE := 24

  datatype PpiDescriptor = PpiDescriptor(flags: bv64, guid: nat, ppi: nat)

  predicate Terminates(d: PpiDescriptor) {
    d.flags & EFI_PEI_PPI_DESCRIPTOR_TERMINATE_LIST != 0
  }

  function Terminated(d: PpiDescriptor): PpiDescriptor {
    d.(flags := d.flags | EFI_PEI_PPI_DESCRIPTOR_TERMINATE_LIST)
  }

  lemma TerminatedTerminates(d: PpiDescriptor)
    ensures Terminates(Terminated(d))
  {
  }

  /** The PPI this file provides, and the transfer list PPI, as the platform names them. */
  datatype Ppis = Ppis(ramSupportGuid: nat, ramSupport: nat, transferListGuid: nat) {
    function Common(): seq<PpiDescriptor> {
      [PpiDescriptor(EFI_PEI_PPI_DESCRIPTOR_PPI, ramSupportGuid, ramSupport)]
    }

    /** The entry for a transfer list at this address; 0 is NULL. */
    function TransferList(base: nat): seq<PpiDescriptor> {
      if base == 0 then [] else [PpiDescriptor(EFI_PEI_PPI_DESCRIPTOR_PPI, transferListGuid, base)]
    }

    function Entries(platform: seq<PpiDescriptor>, transferList: nat): seq<PpiDescriptor> {
      Common() + platform + TransferList(transferList)
    }
  }

  function TerminateLast(list: seq<PpiDescriptor>): seq<PpiDescriptor>
    requires list != []
  {
    list[|list| - 1 := Terminated(list[|list| - 1])]
  }

  /** CreatePpiList, writing at the base of the stack seen as an array of descriptors. */
  method CreatePpiList(slots: array<PpiDescriptor>, ppis: Ppis, platform: seq<PpiDescriptor>, transferListBase: nat)
    returns (ppiListSize: nat)
    requires |ppis.Entries(platform, transferListBase)| <= slots.Length
    modifies slots
    ensures var entries := ppis.Entries(platform, transferListBase);
            && ppiListSize == PPI_DESCRIPTOR_SIZE * |entries|
            && slots[..|entries|] == TerminateLast(entries)
            && slots[|entries|..] == old(slots[|entries|..])
  {
    var common := ppis.Common();
    ghost var entries := ppis.Entries(platform, transferListBase);
    slots[0] := common[0];
    forall i | 0 <= i < |platform| {
      slots[1 + i] := platform[i];
    }
    var last := (PPI_DESCRIPTOR_SIZE * |common| + PPI_DESCRIPTOR_SIZE * |platform|) / PPI_DESCRIPTOR_SIZE - 1;
    assert last == |platform|;
    ppiListSize := PPI_DESCRIPTOR_SIZE * |common| + PPI_DESCRIPTOR_SIZE * |platform|;
    if transferListBase != 0 {
      last := last + 1;
      slots[last] := PpiDescriptor(EFI_PEI_PPI_DESCRIPTOR_PPI, ppis.transferListGuid, transferListBase);
      ppiListSize := ppiListSize + PPI_DESCRIPTOR_SIZE;
    }
    assert slots[..last + 1] == entries;
    slots[last] := Terminated(slots[last]);
  }

  /** What a consumer sees: entries up to and including the first that terminates the list. */
  function Seen(slots: seq<PpiDescriptor>): seq<PpiDescriptor> {
    if slots == [] then []
    else if Terminates(slots[0]) then [slots[0]]
    else [slots[0]] + Seen(slots[1..])
  }

  lemma {:induction false} SeenUpToFirst(slots: seq<PpiDescriptor>, n: nat)
    requires n < |slots| && Terminates(slots[n])
    ensures |Seen(slots)| <= n + 1
    ensures Seen(slots) == slots[..n + 1] <==> forall k :: 0 <= k < n ==> !Terminates(slots[k])
    decreases n
  {
    hide Terminates;
    if n > 0 && !Terminates(slots[0]) {
      SeenUpToFirst(slots[1..], n - 1);
      assert slots[..n + 1] == [slots[0]] + slots[1..][..n];
      assert forall k :: 0 <= k < n - 1 ==> slots[1..][k] == slots[k + 1];
      assert forall k :: 1 <= k < n ==> slots[k] == slots[1..][k - 1];
    }
  }

  /**
   The consumer sees the common, the platform and the transfer list entries, whatever lies
   behind the list, exactly when no platform entry but a final one is flagged already.
   */
  lemma WholeListIsSeenIff(ppis: Ppis, platform: seq<PpiDescriptor>, transferList: nat, behind: seq<PpiDescriptor>)
    ensures var list := TerminateLast(ppis.Entries(platform, transferList));
            Seen(list + behind) == list
            <==> forall k :: 0 <= k < |platform| && !(transferList == 0 && k == |platform| - 1) ==> !Terminates(platform[k])
  {
    var entries := ppis.Entries(platform, transferList);
    var list := TerminateLast(entries);
    var slots, n := list + behind, |list| - 1;
    TerminatedTerminates(entries[n]);
    SeenUpToFirst(slots, n);
    assert slots[..n + 1] == list;
    assert !Terminates(ppis.Common()[0]);
    assert forall k :: 0 <= k < n ==> slots[k] == entries[k];
    assert forall k :: 0 <= k < |platform| ==> entries[k + 1] == platform[k];
    assert forall k :: 1 <= k <= |platform| ==> entries[k] == platform[k - 1];
  }

  /** LocatePpi: the first entry with this GUID. */
  function Located(list: seq<PpiDescriptor>, guid: nat): seq<nat> {
    if list == [] then []
    else if list[0].guid == guid then [list[0].ppi]
    else Located(list[1..], guid)
  }

  lemma {:induction false} LocatedLast(front: seq<PpiDescriptor>, d: PpiDescriptor)
    requires forall e :: e in front ==> e.guid != d.guid
    ensures Located(front + [d], d.guid) == [d.ppi]
    decreases |front|
  {
    if front != [] {
      assert (front + [d])[1..] == front[1..] + [d];
      LocatedLast(front[1..], d);
    }
  }

  /**
   In a list that is seen whole, a consumer that looks up the temporary RAM support finds it, and
   one that looks up the transfer list finds its address, unless the platform uses the same GUID.
   */
  lemma PpisAreLocated(ppis: Ppis, platform: seq<PpiDescriptor>, transferList: nat)
    requires ppis.transferListGuid != ppis.ramSupportGuid
    requires forall e :: e in platform ==> e.guid != ppis.transferListGuid
    ensures var list := TerminateLast(ppis.Entries(platform, transferList));
            && Located(list, ppis.ramSupportGuid) == [ppis.ramSupport]
            && (transferList != 0 ==> Located(list, ppis.transferListGuid) == [transferList])
  {
    hide Terminated;
    var entries := ppis.Entries(platform, transferList);
    var list := TerminateLast(entries);
    TerminatedKeepsPpi(entries[|entries| - 1]);
    assert list[0].guid == ppis.ramSupportGuid && list[0].ppi == ppis.ramSupport;
    if transferList != 0 {
      var n := |entries| - 1;
      assert list == entries[..n] + [list[n]];
      assert forall e :: e in entries[..n] ==> e in ppis.Common() || e in platform;
      LocatedLast(entries[..n], list[n]);
    }
  }

  lemma TerminatedKeepsPpi(d: PpiDescriptor)
    ensures Terminated(d).guid == d.guid && Terminated(d).ppi == d.ppi
  {
  }

  /** A platform list whose first entry carries the flag hides the entry behind it. */
  lemma FlaggedEntryEndsList(ppis: Ppis)
    ensures var flagged := PpiDescriptor(EFI_PEI_PPI_DESCRIPTOR_TERMINATE_LIST, 1, 1);
            var list := TerminateLast(ppis.Entries([flagged, PpiDescriptor(EFI_PEI_PPI_DESCRIPTOR_PPI, 2, 2)], 0));
            Seen(list) != list
  {
    var flagged := PpiDescriptor(EFI_PEI_PPI_DESCRIPTOR_TERMINATE_LIST, 1, 1);
    var platform := [flagged, PpiDescriptor(EFI_PEI_PPI_DESCRIPTOR_PPI, 2, 2)];
    assert Terminates(platform[0]);
    WholeListIsSeenIff(ppis, platform, 0, []);
    var list := TerminateLast(ppis.Entries(platform, 0));
    assert list + [] == list;
  }

  // ----- The hand-off layout

  datatype HandOff = HandOff(temporaryRamBase: U64, temporaryRamSize: U64,
                             peiTemporaryRamBase: U64, peiTemporaryRamSize: U64,
                             stackBase: U64, stackSize: U64)

  /** The layout arithmetic of SecMain; ppiListSize is CreatePpiList's result. */
  method SecMainLayout(stackBase: U64, primaryStackSize: U32, ppiListSize: U64) returns (h: HandOff)
    ensures h == Layout(stackBase, primaryStackSize, ppiListSize)
    ensures ListLeavesRoom(stackBase, primaryStackSize, ppiListSize) ==>
              Tiles(h, stackBase, ppiListSize, stackBase + primaryStackSize)
  {
    if ListLeavesRoom(stackBase, primaryStackSize, ppiListSize) {
      LayoutTilesIff(stackBase, primaryStackSize, ppiListSize);
    }
    hide Tiles;
    var listSize := Align16(ppiListSize);
    var temporaryRamBase := Add64(stackBase, listSize);
    var temporaryRamSize := Sub64(primaryStackSize, listSize);
    var peiTemporaryRamSize := Align16(temporaryRamSize / 2);
    var stack := Add64(temporaryRamBase, peiTemporaryRamSize);
    h := HandOff(temporaryRamBase, temporaryRamSize, temporaryRamBase, peiTemporaryRamSize,
                 stack, Sub64(Add64(temporaryRamBase, temporaryRamSize), stack));
  }

  function Layout(stackBase: U64, primaryStackSize: U32, ppiListSize: U64): HandOff {
    var base := Add64(stackBase, Align16(ppiListSize));
    var size := Sub64(primaryStackSize, Align16(ppiListSize));
    var stack := Add64(base, HeapSize(size));
    HandOff(base, size, base, HeapSize(size), stack, Sub64(Add64(base, size), stack))
  }

  /** The stack does not reach the top of the address space, and the list leaves a usable rest of it. */
  predicate ListLeavesRoom(stackBase: U64, primaryStackSize: U32, ppiListSize: U64) {
    && stackBase + primaryStackSize < TWO_64
    && ppiListSize <= TWO_64 - 16
    && Align16(ppiListSize) <= primaryStackSize
    && !(2 <= primaryStackSize - Align16(ppiListSize) <= 15)
  }

  /** Behind the list follow heap and stack, up to `hi` and without a gap. */
  predicate Tiles(h: HandOff, lo: nat, listSize: nat, hi: nat) {
    && lo + listSize <= h.peiTemporaryRamBase
    && h.peiTemporaryRamBase == h.temporaryRamBase
    && h.peiTemporaryRamBase + h.peiTemporaryRamSize == h.stackBase
    && h.stackBase + h.stackSize == hi
    && h.temporaryRamBase + h.temporaryRamSize == hi
  }

  /**
   List, heap and stack tile the primary stack exactly when the list leaves room behind it
   and that room is not one of the sizes, 2 to 15, whose rounded half does not fit.
   */
  lemma LayoutTilesIff(stackBase: U64, primaryStackSize: U32, ppiListSize: U64)
    requires stackBase + primaryStackSize < TWO_64
    requires ppiListSize <= TWO_64 - 16
    ensures Tiles(Layout(stackBase, primaryStackSize, ppiListSize), stackBase, ppiListSize, stackBase + primaryStackSize)
            <==> ListLeavesRoom(stackBase, primaryStackSize, ppiListSize)
  {
    hide HeapSize, Align16;
    AlignUp(ppiListSize);
    if Align16(ppiListSize) <= primaryStackSize {
      HeapFitsIff(primaryStackSize - Align16(ppiListSize));
    }
  }

  /**
   The list takes the least aligned room, the heap the least aligned half of the rest, and the
   stack what is left: addresses keep the alignment of the primary stack.
   */
  lemma LayoutIsAligned(stackBase: U64, primaryStackSize: U32, ppiListSize: U64)
    requires ListLeavesRoom(stackBase, primaryStackSize, ppiListSize)
    ensures var h := Layout(stackBase, primaryStackSize, ppiListSize);
            && (h.temporaryRamBase - stackBase) % 16 == 0
            && ppiListSize <= h.temporaryRamBase - stackBase < ppiListSize + 16
            && h.peiTemporaryRamSize % 16 == 0
            && h.temporaryRamSize / 2 <= h.peiTemporaryRamSize < h.temporaryRamSize / 2 + 16
            && (h.stackBase - stackBase) % 16 == 0
  {
    hide HeapSize, Align16;
    var list := Align16(ppiListSize);
    var rest := primaryStackSize - list;
    AlignIsLeast(ppiListSize);
    AlignUp(ppiListSize);
    HeapIsAlignedHalf(rest);
    HeapFitsIff(rest);
    SumOfMultiples(list, HeapSize(rest));
  }

  lemma SumOfMultiples(a: nat, b: nat)
    requires a % 16 == 0 && b % 16 == 0
    ensures (a + b) % 16 == 0
  {
  }

  /** The boundary between heap and stack that the hand-off announces is the one migration uses. */
  lemma HandOffBoundary(stackBase: U64, primaryStackSize: U32, ppiListSize: U64, permanent: U64)
    requires ListLeavesRoom(stackBase, primaryStackSize, ppiListSize)
    ensures var h := Layout(stackBase, primaryStackSize, ppiListSize);
            var m := Move(h.temporaryRamBase, permanent, h.temporaryRamSize);
            && HeapSize(m.size) <= m.size
            && h.peiTemporaryRamBase == m.temporary && h.stackBase == m.OldStack()
            && h.peiTemporaryRamSize == HeapSize(m.size) && h.stackSize == m.StackSize()
  {
    hide HeapSize, Align16;
    HeapFitsIff(primaryStackSize - Align16(ppiListSize));
  }

  /**
   Migrating the temporary RAM of the hand-off puts the bytes of the announced stack at the
   start of permanent memory, where the adjusted stack pointer finds them, and those of the
   announced heap right behind, unless the first copy runs over the heap.
   */
  lemma HandOffSurvivesMigration(
    s: seq<Byte>, stackBase: U64, primaryStackSize: U32, ppiListSize: U64, permanent: U64)
    requires ListLeavesRoom(stackBase, primaryStackSize, ppiListSize)
    requires stackBase + primaryStackSize <= |s| < TWO_64
    requires permanent + Layout(stackBase, primaryStackSize, ppiListSize).temporaryRamSize <= |s|
    ensures var h := Layout(stackBase, primaryStackSize, ppiListSize);
            var m := Move(h.temporaryRamBase, permanent, h.temporaryRamSize);
            var newHeap := permanent + h.stackSize;
            && Tiles(h, stackBase, ppiListSize, stackBase + primaryStackSize)
            && m.Fits(|s|)
            && newHeap + h.peiTemporaryRamSize <= |s|
            && Migrated(s, m)[permanent..newHeap] == s[h.stackBase..h.stackBase + h.stackSize]
            && (StackClearsHeap(m) ==>
                  Migrated(s, m)[newHeap..newHeap + h.peiTemporaryRamSize]
                  == s[h.peiTemporaryRamBase..h.peiTemporaryRamBase + h.peiTemporaryRamSize])
  {
    hide HeapSize, Align16, Migrated, Layout;
    var h := Layout(stackBase, primaryStackSize, ppiListSize);
    var m := Move(h.temporaryRamBase, permanent, h.temporaryRamSize);
    LayoutTilesIff(stackBase, primaryStackSize, ppiListSize);
    HandOffBoundary(stackBase, primaryStackSize, ppiListSize, permanent);
    MigrationMovesStack(s, m);
    if StackClearsHeap(m) {
      HeapArrivesWhenClear(s, m);
    }
  }
}
