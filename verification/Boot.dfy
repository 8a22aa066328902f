/** Remapping of memory at boot (eza/amd64/mm/mm.c): the identity map of the DMA zone, the map of all
    memory at KERNEL_BASE, and the verification of both through the software lookup. */
module Boot {
  import opened Words
  import opened PageTable
  import opened PageAccess
  import opened MapState
  import opened PageRanges
  import opened MapRequests
  import opened MappedRights
  import opened Mapper

  /** How `arch_remap_memory` ends: `Panic` for any of its calls of `panic`. */
  datatype BootOutcome = Remapped | Panic | WentAstray

  /** The frames that the two maps must show. */
  ghost predicate Verified(m: Memory, root: nat, start: Word, numPages: nat, startIdx: nat) {
    forall k: nat :: k < numPages ==> Lookup(m, root, Add64(start, PAGE_SIZE * k)) == (startIdx + k) % TWO32
  }

  /** The entries of these pages allow writing and caching. */
  ghost predicate Accessible(m: Memory, root: nat, start: Word, numPages: nat) {
    forall k: nat :: k < numPages ==>
      var e := EntryAt(m, root, Add64(start, PAGE_SIZE * k)); e.Some? && e.value.rw && !e.value.pcd
  }

  /** `verify_mapping`: looks up page after page, up to the first mismatch. */
  method VerifyMapping(mm: PageMemory, startAddr: Word, numPages: nat, startIdx: nat) returns (good: bool)
    requires mm.Valid() && startIdx < TWO32
    ensures good <==> Verified(mm.Mem(), mm.root, startAddr, numPages, startIdx)
  {
    hide Lookup, Sound, PageMemory.Mem, Add64;
    var i, idx, ptr := 0, startIdx, startAddr;
    FirstPage(startAddr, startIdx);
    good := true;
    while i < numPages
      invariant i <= numPages && idx == (startIdx + i) % TWO32 && ptr == Add64(startAddr, PAGE_SIZE * i)
      invariant Verified(mm.Mem(), mm.root, startAddr, i, startIdx)
    {
      var t := mm.PinVirtualAddress(ptr);
      if t != idx {
        return false;
      }
      NextPage(startAddr, startIdx, i);
      idx := (idx + 1) % TWO32;
      ptr := Add64(ptr, PAGE_SIZE);
      i := i + 1;
    }
  }

  lemma FirstPage(start: Word, startIdx: nat)
    requires startIdx < TWO32
    ensures Add64(start, PAGE_SIZE * 0) == start && (startIdx + 0) % TWO32 == startIdx
  {
  }

  lemma NextPage(start: Word, startIdx: nat, i: nat)
    ensures Add64(Add64(start, PAGE_SIZE * i), PAGE_SIZE) == Add64(start, PAGE_SIZE * (i + 1))
    ensures ((startIdx + i) % TWO32 + 1) % TWO32 == (startIdx + i + 1) % TWO32
  {
  }

  /** The tables that both maps need. */
  ghost function BootTables(m: Memory, root: nat, dmaPages: nat, totalPages: nat): set<Label> {
    Needed(m, root, 1, dmaPages) + Needed(m, root, Vpn(KERNEL_BASE), Vpn(KERNEL_BASE) + totalPages)
  }

  /** Memory of at most one gigabyte can be remapped. */
  predicate Remappable(dmaPages: nat, totalPages: nat) {
    2 <= dmaPages && totalPages <= 0x4_0000
  }

  /** The DMA request fits unless the zone has a single page, which leaves nothing to map. */
  lemma DmaRequest(dmaPages: nat)
    requires 1 <= dmaPages <= 4096
    ensures EndAddr(PAGE_SIZE, dmaPages - 1) >= PAGE_SIZE
    ensures 2 <= dmaPages ==>
              Fits(PAGE_SIZE, dmaPages - 1) && Planned(PAGE_SIZE, dmaPages - 1) == dmaPages - 1
              && !PlanStrays(PAGE_SIZE, dmaPages - 1)
    ensures Vpn(PAGE_SIZE) == 1
  {
    if 2 <= dmaPages {
      PlannedExact(PAGE_SIZE, dmaPages - 1);
    }
  }

  lemma KernelVpn()
    ensures Vpn(KERNEL_BASE) == 0xf_fff8_0000 && Vpn(KERNEL_BASE) / Span(3) == 511
  {
  }

  /** The pages that the second request plans before it strays: those below the last gigabyte of addresses,
      and the first one in it. */
  const PAGES_BEFORE_STRAYING: nat := 0x4_0001

  /** Up to one gigabyte the second request fits; from two gigabytes on it is rejected; between these it
      runs into the last gigabyte of addresses. */
  lemma KernelRequest(totalPages: nat)
    requires 1 <= totalPages < TWO32
    ensures totalPages <= 0x4_0000 ==>
              Fits(KERNEL_BASE, totalPages) && Planned(KERNEL_BASE, totalPages) == totalPages
              && !PlanStrays(KERNEL_BASE, totalPages)
    ensures EndAddr(KERNEL_BASE, totalPages) < KERNEL_BASE <==> totalPages >= 0x8_0000
    ensures 0x4_0000 < totalPages < 0x8_0000 ==>
              PlanStrays(KERNEL_BASE, totalPages) && Planned(KERNEL_BASE, totalPages) == PAGES_BEFORE_STRAYING
    ensures Vpn(KERNEL_BASE) / Span(3) == 511
  {
    hide Planned, PlanStrays, Fits, EndAddr, Vpn;
    KernelVpn();
    KernelEnd(totalPages);
    if totalPages <= 0x4_0000 {
      KernelFits(totalPages);
      PlannedExact(KERNEL_BASE, totalPages);
    } else if totalPages < 0x8_0000 {
      KernelStrays(totalPages);
    }
  }

  lemma KernelEnd(totalPages: nat)
    requires 1 <= totalPages < TWO32
    ensures EndAddr(KERNEL_BASE, totalPages) < KERNEL_BASE <==> totalPages >= 0x8_0000
    ensures totalPages < 0x8_0000 ==> EndAddr(KERNEL_BASE, totalPages) == KERNEL_BASE + totalPages * PAGE_SIZE
  {
  }

  lemma KernelFits(totalPages: nat)
    requires 1 <= totalPages <= 0x4_0000
    ensures Fits(KERNEL_BASE, totalPages) && EndAddr(KERNEL_BASE, totalPages) >= KERNEL_BASE
  {
  }

  lemma KernelStrays(totalPages: nat)
    requires 0x4_0000 < totalPages < 0x8_0000
    ensures PlanStrays(KERNEL_BASE, totalPages) && Planned(KERNEL_BASE, totalPages) == PAGES_BEFORE_STRAYING
  {
    hide EndAddr;
    KernelEnd(totalPages);
    assert AlignDown(KERNEL_BASE, PAGE_SIZE) == KERNEL_BASE;
  }

  /** Tables made in one slot leave the tables needed in a later slot as they were. */
  lemma NeededElsewhere(m: Memory, m': Memory, root: nat, lo: nat, hi: nat, lo': nat, hi': nat)
    requires lo < hi && lo' < hi' && (hi - 1) / Span(3) < lo' / Span(3)
    requires Extends(m, m', root, Needed(m, root, lo, hi))
    ensures Needed(m', root, lo', hi') == Needed(m, root, lo', hi')
            && Needed(m, root, lo, hi) !! Needed(m, root, lo', hi')
  {
    hide Table, Touches;
    forall l: nat, b: nat | 1 <= l <= 3 && Touches(l, b, lo, hi) ensures !Touches(l, b, lo', hi') {
      TouchedBounds(l, b, lo, hi);
      LaterBlock(l, hi - 1, lo');
      NotTouched(l, b, lo', hi');
    }
  }

  /** In a later slot every block has a higher number. */
  lemma LaterBlock(l: nat, x: nat, y: nat)
    requires 1 <= l <= 3 && x / Span(3) < y / Span(3)
    ensures x / Span(l) < y / Span(l)
  {
    assert Span(l) * Span(3 - l) == Span(3);
    Digits(x, Span(l), Span(3 - l));
    Digits(y, Span(l), Span(3 - l));
    if y / Span(l) <= x / Span(l) {
      DivMonotone(y / Span(l), x / Span(l), Span(3 - l));
    }
  }

  lemma NotTouched(l: nat, b: nat, lo: nat, hi: nat)
    requires 1 <= l <= 3 && b < lo / Span(l)
    ensures !Touches(l, b, lo, hi)
  {
    Quotient(lo, Span(l));
    assert (b + 1) * Span(l) <= lo / Span(l) * Span(l);
  }

  lemma DivMonotone(x: nat, y: nat, d: nat)
    requires d > 0 && x <= y
    ensures x / d <= y / d
  {
    var q, p := y / d, x / d;
    Quotient(x, d);
    Quotient(y, d);
    if p > q {
      ProductLess(q, p, d, y % d);
    }
  }

  /** A completed map of a linear stream of frames verifies. */
  lemma LinearVerifies(s: State, s': State, root: nat, virt: Word, n: Word, frames: seq<nat>, start: nat, r: Status,
                       made: set<Label>)
    requires 0 < n && Fits(virt, n) && r == Ok && Outcome(s, s', root, Vpn(virt), n, frames, 0, r, made)
    requires forall k :: 0 <= k < |frames| ==> frames[k] == (start + k) % TWO32
    ensures Verified(s'.mem, root, virt, n, start) && Accessible(s'.mem, root, virt, n)
    ensures forall x: Word :: !(Vpn(virt) <= Vpn(x) < Vpn(virt) + n) ==>
              Lookup(s'.mem, root, x) == Lookup(s.mem, root, x) && EntryAt(s'.mem, root, x) == EntryAt(s.mem, root, x)
    ensures Extends(s.mem, s'.mem, root, Needed(s.mem, root, Vpn(virt), Vpn(virt) + n))
    ensures KernelLinks(s.mem, root) ==> KernelLinks(s'.mem, root)
  {
    hide Lookup, Vpn, Fits, EntryAt, KernelLinks, Needed;
    MapOutcome(s, s', root, virt, n, frames, 0, r, made);
    MapEntries(s, s', root, virt, n, frames, 0, r, made);
  }

  /** The second map leaves the first alone. */
  lemma DmaMapRemains(s1: State, s2: State, root: nat, dmaPages: nat, totalPages: nat, frames: seq<nat>,
                      made: set<Label>)
    requires 2 <= dmaPages <= 4096 && Verified(s1.mem, root, PAGE_SIZE, dmaPages - 1, 1)
    requires Accessible(s1.mem, root, PAGE_SIZE, dmaPages - 1)
    requires 1 <= totalPages <= 0x4_0000 && Ran(s1, s2, root, KERNEL_BASE, totalPages, frames, 0, Ok, made)
    requires forall k :: 0 <= k < |frames| ==> frames[k] == (0 + k) % TWO32
    ensures Verified(s2.mem, root, PAGE_SIZE, dmaPages - 1, 1) && Accessible(s2.mem, root, PAGE_SIZE, dmaPages - 1)
    ensures Verified(s2.mem, root, KERNEL_BASE, totalPages, 0) && Accessible(s2.mem, root, KERNEL_BASE, totalPages)
    ensures KernelLinks(s1.mem, root) ==> KernelLinks(s2.mem, root)
  {
    hide EntryAt, KernelLinks, Lookup, Outcome, Planned, PlanStrays, Fits, EndAddr, Vpn, Add64, Extends;
    KernelRequest(totalPages);
    LinearVerifies(s1, s2, root, KERNEL_BASE, totalPages, frames, 0, Ok, made);
    forall k: nat | k < dmaPages - 1
      ensures Lookup(s2.mem, root, Add64(PAGE_SIZE, PAGE_SIZE * k)) == (1 + k) % TWO32
      ensures var e := EntryAt(s2.mem, root, Add64(PAGE_SIZE, PAGE_SIZE * k)); e.Some? && e.value.rw && !e.value.pcd
    {
      LowPage(k);
      assert Lookup(s1.mem, root, Add64(PAGE_SIZE, PAGE_SIZE * k)) == (1 + k) % TWO32;
      assert EntryAt(s2.mem, root, Add64(PAGE_SIZE, PAGE_SIZE * k))
             == EntryAt(s1.mem, root, Add64(PAGE_SIZE, PAGE_SIZE * k));
    }
  }

  lemma LowPage(k: nat)
    requires k < 4095
    ensures Vpn(Add64(PAGE_SIZE, PAGE_SIZE * k)) == 1 + k < Vpn(KERNEL_BASE)
  {
    Remainder(1 + k, 0, PAGE_SIZE);
    KernelVpn();
  }

  /** The first call maps the DMA zone exactly if there is something to map and frames suffice. */
  lemma FirstMap(s0: State, s1: State, root: nat, dmaPages: nat, n: Word, frames: seq<nat>, r: Status, made: set<Label>)
    requires 1 <= dmaPages <= 4096 && n == dmaPages - 1 && (r == EInval <==> dmaPages == 1)
    requires forall k :: 0 <= k < |frames| ==> frames[k] == (1 + k) % TWO32
    requires r != EInval ==> Ran(s0, s1, root, PAGE_SIZE, n, frames, 0, r, made)
    ensures r == Ok <==> 2 <= dmaPages && |Needed(s0.mem, root, 1, dmaPages)| <= |s0.avail|
    ensures r == Ok ==>
              && Verified(s1.mem, root, PAGE_SIZE, n, 1) && Accessible(s1.mem, root, PAGE_SIZE, n)
              && (KernelLinks(s0.mem, root) ==> KernelLinks(s1.mem, root))
              && Extends(s0.mem, s1.mem, root, Needed(s0.mem, root, 1, dmaPages))
              && |s1.avail| == |s0.avail| - |Needed(s0.mem, root, 1, dmaPages)|
    ensures r != Astray
  {
    hide Outcome, Needed, Vpn, PlanStrays, Planned, Fits, EndAddr, Extends, Accessible, KernelLinks, Verified;
    DmaRequest(dmaPages);
    if r != EInval {
      MemorySuffices(s0, s1, root, 1, dmaPages - 1, frames, 0, r, made);
      if r == Ok {
        LinearVerifies(s0, s1, root, PAGE_SIZE, dmaPages - 1, frames, 1, r, made);
      }
    }
  }

  /** The second call maps all memory exactly if it is at most one gigabyte and frames suffice. Between one
      and two gigabytes it strays, if frames suffice up to there. */
  lemma SecondMap(s1: State, s2: State, root: nat, totalPages: nat, frames: seq<nat>, r: Status, made: set<Label>)
    requires 1 <= totalPages < TWO32 && (r == EInval <==> EndAddr(KERNEL_BASE, totalPages) < KERNEL_BASE)
    requires forall k :: 0 <= k < |frames| ==> frames[k] == (0 + k) % TWO32
    requires r != EInval ==> Ran(s1, s2, root, KERNEL_BASE, totalPages, frames, 0, r, made)
    ensures r == Ok <==>
              totalPages <= 0x4_0000
              && |Needed(s1.mem, root, Vpn(KERNEL_BASE), Vpn(KERNEL_BASE) + totalPages)| <= |s1.avail|
    ensures r == Astray <==>
              0x4_0000 < totalPages < 0x8_0000
              && |Needed(s1.mem, root, Vpn(KERNEL_BASE), Vpn(KERNEL_BASE) + PAGES_BEFORE_STRAYING)| <= |s1.avail|
    ensures r == Ok ==>
              && Verified(s2.mem, root, KERNEL_BASE, totalPages, 0)
              && forall x: Word :: Vpn(x) < Vpn(KERNEL_BASE) ==> Lookup(s2.mem, root, x) == Lookup(s1.mem, root, x)
  {
    hide Outcome, Needed, Vpn, PlanStrays, Planned, Fits, EndAddr, Extends, Accessible, KernelLinks, Verified, Lookup;
    KernelRequest(totalPages);
    if totalPages <= 0x4_0000 {
      MemorySuffices(s1, s2, root, Vpn(KERNEL_BASE), totalPages, frames, 0, r, made);
      if r == Ok {
        LinearVerifies(s1, s2, root, KERNEL_BASE, totalPages, frames, 0, r, made);
      }
    } else if totalPages < 0x8_0000 {
      MemorySuffices(s1, s2, root, Vpn(KERNEL_BASE), PAGES_BEFORE_STRAYING, frames, 0, r, made);
    }
  }

  /** What both maps need together is what the first needs plus what the second needs after it. */
  lemma BothNeeds(m: Memory, m': Memory, root: nat, dmaPages: nat, totalPages: nat)
    requires 2 <= dmaPages <= 4096 && 1 <= totalPages
    requires Extends(m, m', root, Needed(m, root, 1, dmaPages))
    ensures var kernel := Needed(m', root, Vpn(KERNEL_BASE), Vpn(KERNEL_BASE) + totalPages);
            |BootTables(m, root, dmaPages, totalPages)| == |Needed(m, root, 1, dmaPages)| + |kernel|
  {
    hide Needed, Extends;
    NeededElsewhere(m, m', root, 1, dmaPages, Vpn(KERNEL_BASE), Vpn(KERNEL_BASE) + totalPages);
  }

  /** A gigabyte of memory needs at most 524 tables for both maps. */
  lemma BootTablesBound(m: Memory, root: nat, dmaPages: nat, totalPages: nat)
    requires 2 <= dmaPages <= 4096 && 1 <= totalPages && Remappable(dmaPages, totalPages)
    ensures |BootTables(m, root, dmaPages, totalPages)| <= 524
  {
    hide Needed, Vpn;
    var k := Vpn(KERNEL_BASE);
    KernelVpn();
    NeededBound(m, root, 1, dmaPages);
    KernelBlocks(k, totalPages);
    NeededBound(m, root, k, k + totalPages);
  }

  lemma KernelBlocks(k: nat, n: nat)
    requires k == 0xf_fff8_0000 && 1 <= n <= 0x4_0000
    ensures (k + n - 1) / Span(3) == k / Span(3) && (k + n - 1) / Span(2) == k / Span(2)
    ensures (k + n - 1) / Span(1) - k / Span(1) <= 511
  {
  }

  lemma FewerThanBoth(m: Memory, root: nat, dmaPages: nat, totalPages: nat)
    ensures |Needed(m, root, 1, dmaPages)| <= |BootTables(m, root, dmaPages, totalPages)|
  {
    hide Needed;
    Cardinalities(Needed(m, root, 1, dmaPages), BootTables(m, root, dmaPages, totalPages));
  }

  /** `arch_remap_memory` on the boot CPU: which of its three ends it comes to, by its arguments and the frames
      left. */
  method ArchRemapMemory(mm: PageMemory, dmaPages: nat, totalPages: nat) returns (o: BootOutcome)
    requires mm.Valid() && 1 <= dmaPages <= totalPages < TWO32 && dmaPages <= 4096
    modifies mm`avail, mm`own, mm.frames
    ensures mm.Valid()
    ensures o == Remapped <==>
              Remappable(dmaPages, totalPages)
              && |BootTables(old(mm.Mem()), mm.root, dmaPages, totalPages)| <= |old(mm.avail)|
    ensures o == WentAstray <==>
              2 <= dmaPages && 0x4_0000 < totalPages < 0x8_0000
              && |BootTables(old(mm.Mem()), mm.root, dmaPages, PAGES_BEFORE_STRAYING)| <= |old(mm.avail)|
    ensures o == Panic <==>
              || dmaPages < 2 || totalPages >= 0x8_0000
              || |BootTables(old(mm.Mem()), mm.root, dmaPages,
                             if totalPages <= 0x4_0000 then totalPages else PAGES_BEFORE_STRAYING)| > |old(mm.avail)|
    ensures o == Remapped ==>
              && Verified(mm.Mem(), mm.root, PAGE_SIZE, dmaPages - 1, 1)
              && Verified(mm.Mem(), mm.root, KERNEL_BASE, totalPages, 0)
    ensures o == Remapped ==>
              && Accessible(mm.Mem(), mm.root, PAGE_SIZE, dmaPages - 1)
              && Accessible(mm.Mem(), mm.root, KERNEL_BASE, totalPages)
              && (KernelLinks(old(mm.Mem()), mm.root) ==> KernelLinks(mm.Mem(), mm.root))
  {
    hide Accessible, KernelLinks, EntryAt, Outcome, Sound, Lookup, Needed, Vpn, Verified, BootTables, PageMemory.Mem,
         PlanStrays, Planned, Fits,
         EndAddr, KernelDirectory, FrameAccessor.Slice, FrameOfAddr, Extends;
    ghost var s0 := mm.Now();
    var kernelDirectory := KernelDirectory(mm.root);
    DirectoryFacts(s0, mm.root);
    DmaRequest(dmaPages);
    FewerThanBoth(s0.mem, mm.root, dmaPages, totalPages);
    FewerThanBoth(s0.mem, mm.root, dmaPages, PAGES_BEFORE_STRAYING);

    var acc := new FrameAccessor.Linear(1, totalPages);
    var r, n, made := mm.MmMapPages(Some(kernelDirectory), acc, PAGE_SIZE, (dmaPages - 1) % TWO32, 0);
    ghost var s1 := mm.Now();
    FirstMap(s0, s1, mm.root, dmaPages, dmaPages - 1, acc.Slice(0, n), r, made);
    if r != Ok {
      return if r == Astray then WentAstray else Panic;
    }
    BothNeeds(s0.mem, s1.mem, mm.root, dmaPages, totalPages);
    BothNeeds(s0.mem, s1.mem, mm.root, dmaPages, PAGES_BEFORE_STRAYING);
    var good := VerifyMapping(mm, PAGE_SIZE, dmaPages - 1, 1);
    if !good {
      return Panic;
    }

    acc.startPage := 0;
    acc.Reset();
    r, n, made := mm.MmMapPages(Some(kernelDirectory), acc, KERNEL_BASE, totalPages, 0);
    SecondMap(s1, mm.Now(), mm.root, totalPages, acc.Slice(0, n), r, made);
    if r != Ok {
      return if r == Astray then WentAstray else Panic;
    }
    DmaMapRemains(s1, mm.Now(), mm.root, dmaPages, totalPages, acc.Slice(0, n), made);
    good := VerifyMapping(mm, KERNEL_BASE, totalPages, 0);
    if !good {
      return Panic;
    }
    return Remapped;
  }
}
