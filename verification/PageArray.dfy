/** The array of page frames, the two memory zones with their lists, and the per-CPU page caches
    (mm/mm.c), and the page allocator on a cache (mm/pagealloc.c). */
module PageArray {
  import opened Words
  import opened Lists
  import opened E820

  const NUM_MEMORY_ZONES: nat := 2
  const ZONE_DMA: nat := 0
  const ZONE_NORMAL: nat := 1
  const PAGE_RESERVED: nat := 4
  const PAF_DMA_PAGE: nat := 1

  /** What boot knows: the E820 table, the amount of memory, and the pages of the kernel image. */
  datatype BootInfo = BootInfo(table: Table, count: nat, maxPhysAddr: nat, dmaPages: nat, kernelStart: nat,
                               kernelEnd: nat)

  /** The map is sorted, and `detect_physical_memory` took the amount of memory from it. */
  ghost predicate GoodBoot(b: BootInfo) {
    Sorted(b.table, b.count) && exists k: nat :: Manages(b, k)
  }

  /** Memory ends with entry k, the first usable one from 1 MB on. */
  ghost predicate Manages(b: BootInfo, k: nat)
    requires b.count <= |b.table|
  {
    MainAt(b.table, b.count, k) && b.maxPhysAddr == Top(b.table[k])
  }

  /** The pages of memory, the last one perhaps in part. */
  function NumPages(b: BootInfo): nat {
    (b.maxPhysAddr + PAGE_SIZE - 1) / PAGE_SIZE
  }

  function ZoneOf(b: BootInfo, page: nat): nat {
    if page < b.dmaPages then ZONE_DMA else ZONE_NORMAL
  }

  predicate KernelPage(b: BootInfo, page: nat) {
    b.kernelStart <= page <= b.kernelEnd
  }

  /** The pages that end up reserved. */
  ghost predicate Reserved(b: BootInfo, page: nat)
    requires GoodBoot(b)
  {
    !Found(b.table, b.count, page * PAGE_SIZE) || KernelPage(b, page)
  }

  /** Some usable entry starts before the end of the page and ends with it or later. */
  ghost predicate UsablePage(b: BootInfo, page: nat)
    requires b.count <= |b.table|
  {
    exists j :: 0 <= j < b.count && b.table[j].kind == E820_USABLE && ReachesOver(b.table[j], page)
  }

  predicate ReachesOver(e: Entry, page: nat) {
    && e.baseAddress < (page + 1) * PAGE_SIZE
    && (page + 1) * PAGE_SIZE <= (e.baseAddress + (e.lengthHigh * 0x1_0000_0000 + e.lengthLow)) % TWO64
  }

  /** A page of the managed memory is free exactly if some usable E820 entry reaches over its end and starts
      before it, and it is outside the kernel image, if no entry before the one at 1 MB keeps the pass from
      getting there. */
  lemma FreeIffUsable(b: BootInfo, k: nat, page: nat)
    requires GoodBoot(b) && Manages(b, k) && NonEmpty(b.table[k]) && AllReached(b.table, k)
    requires (page + 1) * PAGE_SIZE <= b.maxPhysAddr
    ensures !Reserved(b, page) <==> UsablePage(b, page) && !(b.kernelStart <= page <= b.kernelEnd)
  {
    hide Found, FirstPage, Covers, AllReached, NonEmpty, ReachesOver;
    WholePage(b.table[k], page);
    AgreesBelow(b.table, b.count, k, page * PAGE_SIZE);
    forall j | 0 <= j < b.count ensures Covers(b.table[j], page * PAGE_SIZE) <==> ReachesOver(b.table[j], page) {
      CoversPage(b.table[j], page);
    }
  }

  lemma CoversPage(e: Entry, page: nat)
    ensures Covers(e, page * PAGE_SIZE) <==> ReachesOver(e, page)
  {
    hide Covers;
    CoversExactly(e, page);
  }

  lemma WholePage(e: Entry, page: nat)
    requires (page + 1) * PAGE_SIZE <= Top(e)
    ensures page * PAGE_SIZE / PAGE_SIZE < EndPage(e)
  {
    Remainder(page, 0, PAGE_SIZE);
    Quotient(Top(e), PAGE_SIZE);
  }

  /** An entry before the one at 1 MB, other than the first, with both ends in the same page: every page
      from 1 MB on is reserved, and there is not one free page outside the DMA zone. */
  lemma StuckReserves(b: BootInfo, k: nat, j: nat, n: nat)
    requires GoodBoot(b) && Manages(b, k) && 1 <= j < k && !NonEmpty(b.table[j])
    ensures forall page: nat :: page * PAGE_SIZE >= KERNEL_PHYS_START ==> Reserved(b, page)
    ensures b.dmaPages * PAGE_SIZE >= KERNEL_PHYS_START ==> Pages(b, n, ZONE_NORMAL, false) == []
  {
    hide Found, Sorted;
    forall page: nat | page * PAGE_SIZE >= KERNEL_PHYS_START ensures Reserved(b, page) {
      HidesAll(b.table, b.count, k, j, page * PAGE_SIZE);
    }
    PagesExactly(b, n, ZONE_NORMAL, false);
    var s := Pages(b, n, ZONE_NORMAL, false);
    assert s != [] ==> s[0] in s;
  }

  // ---------- the four zone lists ----------

  ghost predicate Belongs(b: BootInfo, page: nat, zone: nat, reserved: bool)
    requires GoodBoot(b)
  {
    ZoneOf(b, page) == zone && Reserved(b, page) == reserved
  }

  /** The pages below n of one zone and kind, in ascending order. */
  ghost function Pages(b: BootInfo, n: nat, zone: nat, reserved: bool): seq<int>
    requires GoodBoot(b)
  {
    if n == 0 then [] else
      Pages(b, n - 1, zone, reserved) + if Belongs(b, n - 1, zone, reserved) then [n - 1] else []
  }

  lemma {:induction false} PagesExactly(b: BootInfo, n: nat, zone: nat, reserved: bool)
    requires GoodBoot(b)
    ensures var s := Pages(b, n, zone, reserved);
            && (forall p :: p in s <==> 0 <= p < n && Belongs(b, p, zone, reserved))
            && (forall i, j :: 0 <= i < j < |s| ==> s[i] < s[j])
  {
    hide Belongs;
    if n > 0 {
      PagesExactly(b, n - 1, zone, reserved);
      var s := Pages(b, n - 1, zone, reserved);
      assert forall i :: 0 <= i < |s| ==> s[i] in s;
    }
  }

  /** The four lists partition the pages: every page below n is on exactly one, once. */
  lemma PagesPartition(b: BootInfo, n: nat, page: nat)
    requires GoodBoot(b) && page < n
    ensures page in Pages(b, n, ZoneOf(b, page), Reserved(b, page))
    ensures forall z, r :: page in Pages(b, n, z, r) ==> z == ZoneOf(b, page) && r == Reserved(b, page)
    ensures forall z, r :: multiset(Pages(b, n, z, r))[page] <= 1
  {
    hide Reserved;
    PagesExactly(b, n, ZoneOf(b, page), Reserved(b, page));
    forall z: nat, r | page in Pages(b, n, z, r) ensures z == ZoneOf(b, page) && r == Reserved(b, page) {
      PagesExactly(b, n, z, r);
    }
    forall z: nat, r ensures multiset(Pages(b, n, z, r))[page] <= 1 {
      PagesExactly(b, n, z, r);
      OnceOnly(Pages(b, n, z, r), page);
    }
  }

  lemma {:induction false} OnceOnly(s: seq<int>, x: int)
    requires forall i, j :: 0 <= i < j < |s| ==> s[i] < s[j]
    ensures multiset(s)[x] <= 1
  {
    if s != [] {
      var rest := s[..|s| - 1];
      assert s == rest + [s[|s| - 1]];
      OnceOnly(rest, x);
      if x == s[|s| - 1] {
        assert x !in rest;
      }
    }
  }

  lemma {:induction false} PagesCount(b: BootInfo, n: nat)
    requires GoodBoot(b)
    ensures |Pages(b, n, 0, false)| + |Pages(b, n, 0, true)| + |Pages(b, n, 1, false)| + |Pages(b, n, 1, true)| == n
  {
    hide Reserved;
    if n > 0 {
      PagesCount(b, n - 1);
    }
  }

  /** The list heads are nodes after those of the pages. */
  function ZoneHead(n: nat, zone: nat, reserved: bool): nat {
    n + 2 * zone + if reserved then 1 else 0
  }

  function CacheHead(n: nat, cpu: nat): nat {
    n + 4 + cpu
  }

  /** The lists after the first i of n pages. */
  ghost function ZoneLists(b: BootInfo, n: nat, i: nat): Heads
    requires GoodBoot(b)
  {
    map[ZoneHead(n, 0, false) := Pages(b, i, 0, false), ZoneHead(n, 0, true) := Pages(b, i, 0, true),
        ZoneHead(n, 1, false) := Pages(b, i, 1, false), ZoneHead(n, 1, true) := Pages(b, i, 1, true)]
  }

  lemma NextIsLoose(b: BootInfo, n: nat, i: nat)
    requires GoodBoot(b) && i < n
    ensures Loose(ZoneLists(b, n, i), i) && Loose(ZoneLists(b, n, i)[i := []], i)
  {
    hide Reserved, Belongs;
    PagesExactly(b, i, 0, false);
    PagesExactly(b, i, 0, true);
    PagesExactly(b, i, 1, false);
    PagesExactly(b, i, 1, true);
  }

  /** Appending page i to its list. */
  lemma NextPageListed(b: BootInfo, n: nat, i: nat, zone: nat, reserved: bool)
    requires GoodBoot(b) && i < n && Belongs(b, i, zone, reserved) && zone < 2
    ensures var h := ZoneHead(n, zone, reserved);
            var lists := ZoneLists(b, n, i)[i := []];
            h in lists && h != i && (lists - {i})[h := lists[h] + [i]] == ZoneLists(b, n, i + 1)
  {
    hide Reserved;
    var h := ZoneHead(n, zone, reserved);
    var lists := ZoneLists(b, n, i)[i := []];
    assert (lists - {i}) == ZoneLists(b, n, i);
    NextPages(b, i, zone, reserved, 0, false);
    NextPages(b, i, zone, reserved, 0, true);
    NextPages(b, i, zone, reserved, 1, false);
    NextPages(b, i, zone, reserved, 1, true);
    assert lists[h] == Pages(b, i, zone, reserved);
    var after := (lists - {i})[h := lists[h] + [i]];
    assert after.Keys == ZoneLists(b, n, i + 1).Keys;
    forall z: nat, r | z < 2 ensures after[ZoneHead(n, z, r)] == Pages(b, i + 1, z, r) {
      NextPages(b, i, zone, reserved, z, r);
    }
  }

  lemma NextPages(b: BootInfo, i: nat, zone: nat, reserved: bool, z: nat, r: bool)
    requires GoodBoot(b) && Belongs(b, i, zone, reserved)
    ensures Pages(b, i + 1, z, r) == Pages(b, i, z, r) + if z == zone && r == reserved then [i] else []
  {
    hide Reserved;
  }

  // ---------- the state ----------

  datatype PageFrame = PageFrame(idx: nat, flags: nat, refcount: nat)
  datatype ZoneInfo = ZoneInfo(kind: nat, numTotal: nat, numFree: nat, numReserved: nat)
  datatype CacheInfo = CacheInfo(numFree: nat, total: nat)

  function FlagsOf(zone: nat, reserved: bool): nat {
    zone + if reserved then PAGE_RESERVED else 0
  }

  /** The counters of a zone are the lengths of its lists. */
  ghost function ZoneAt(b: BootInfo, i: nat, zone: nat): ZoneInfo
    requires GoodBoot(b)
  {
    var free, reserved := |Pages(b, i, zone, false)|, |Pages(b, i, zone, true)|;
    ZoneInfo(zone, free + reserved, free, reserved)
  }

  ghost predicate FramesDone(b: BootInfo, frames: seq<PageFrame>, i: nat)
    requires GoodBoot(b) && i <= |frames|
  {
    forall p: nat :: p < i ==> frames[p] == PageFrame(p, FlagsOf(ZoneOf(b, p), Reserved(b, p)), 0)
  }

  /** What the flags of a page say: the zone in the two low bits, and in bit 2 whether it is on a list of
      reserved pages. */
  ghost predicate FramesRead(b: BootInfo, frames: seq<PageFrame>, n: nat)
    requires GoodBoot(b) && n <= |frames|
  {
    forall p: nat :: p < n ==>
      && frames[p].idx == p && frames[p].refcount == 0 && frames[p].flags < 8
      && frames[p].flags % 4 == (if p < b.dmaPages then 0 else 1)
      && (frames[p].flags / 4 == 1 <==> p in Pages(b, n, 0, true) || p in Pages(b, n, 1, true))
  }

  lemma FramesMeaning(b: BootInfo, frames: seq<PageFrame>, n: nat)
    requires GoodBoot(b) && n <= |frames| && FramesDone(b, frames, n)
    ensures FramesRead(b, frames, n)
  {
    hide Reserved, GoodBoot;
    PagesExactly(b, n, 0, true);
    PagesExactly(b, n, 1, true);
  }

  lemma LastPage(b: BootInfo, i: nat)
    ensures i * PAGE_SIZE < b.maxPhysAddr <==> i < NumPages(b)
    ensures i * PAGE_SIZE % PAGE_SIZE == 0 && (i + 1) * PAGE_SIZE == i * PAGE_SIZE + PAGE_SIZE
  {
  }

  lemma StartTracks(t: Table, count: nat)
    requires Sorted(t, count)
    ensures Tracks(t, count, 0, Cursor(0, t[0].baseAddress, End(t[0]), t[0].kind, false))
  {
    hide Begin, End;
    SentinelEmpty();
  }

  class PhysicalMemory {
    const arena: ListArena
    const frames: array<PageFrame>
    const zones: array<ZoneInfo>
    const caches: array<CacheInfo>

    /** The arrays have room for n pages and all heads. */
    ghost predicate Shape(n: nat)
    {
      && arena.next.Length == n + 4 + caches.Length && frames.Length == n && zones.Length == NUM_MEMORY_ZONES
    }

    constructor (n: nat, cpus: nat)
      ensures Shape(n) && caches.Length == cpus && arena.Valid() && arena.lists == map[]
      ensures fresh(arena) && fresh(arena.next) && fresh(arena.prev) && fresh(frames) && fresh(zones) && fresh(caches)
    {
      arena := new ListArena(n + 4 + cpus);
      frames := new PageFrame[n](_ => PageFrame(0, 0, 0));
      zones := new ZoneInfo[NUM_MEMORY_ZONES](_ => ZoneInfo(0, 0, 0, 0));
      caches := new CacheInfo[cpus](_ => CacheInfo(0, 0));
    }

    /** `initialize_zones` */
    method InitializeZones(b: BootInfo)
      requires GoodBoot(b) && Shape(NumPages(b)) && arena.Valid() && arena.lists == map[]
      modifies arena, arena.next, arena.prev, zones
      ensures arena.Valid() && arena.lists == ZoneLists(b, NumPages(b), 0)
      ensures zones[0] == ZoneAt(b, 0, 0) && zones[1] == ZoneAt(b, 0, 1)
    {
      hide AllRings, ListArena.Now, NumPages;
      var n := NumPages(b);
      zones[0] := ZoneInfo(ZONE_DMA, 0, 0, 0);
      arena.InitListHead(ZoneHead(n, 0, false));
      arena.InitListHead(ZoneHead(n, 0, true));
      zones[1] := ZoneInfo(ZONE_NORMAL, 0, 0, 0);
      arena.InitListHead(ZoneHead(n, 1, false));
      arena.InitListHead(ZoneHead(n, 1, true));
    }

    /** The last part of a round: the page is initialised, listed and counted. */
    method ListPage(b: BootInfo, page: nat, zone: nat, reserved: bool)
      requires GoodBoot(b) && Shape(NumPages(b)) && page < NumPages(b) && zone < 2 && Belongs(b, page, zone, reserved)
      requires arena.Valid() && arena.lists == ZoneLists(b, NumPages(b), page)
      requires zones[0] == ZoneAt(b, page, 0) && zones[1] == ZoneAt(b, page, 1) && FramesDone(b, frames[..], page)
      modifies arena, arena.next, arena.prev, zones, frames
      ensures arena.Valid() && arena.lists == ZoneLists(b, NumPages(b), page + 1)
      ensures zones[0] == ZoneAt(b, page + 1, 0) && zones[1] == ZoneAt(b, page + 1, 1)
              && FramesDone(b, frames[..], page + 1)
    {
      hide AllRings, ListArena.Now, NumPages, Loose, Reserved, ZoneLists, ZoneHead, Pages;
      var n := NumPages(b);
      NextIsLoose(b, n, page);
      NextPageListed(b, n, page, zone, reserved);
      NextPages(b, page, zone, reserved, 0, false);
      NextPages(b, page, zone, reserved, 0, true);
      NextPages(b, page, zone, reserved, 1, false);
      NextPages(b, page, zone, reserved, 1, true);
      arena.InitListHead(page);
      frames[page] := PageFrame(page, FlagsOf(zone, reserved), 0);
      arena.ListAddTail(page, ZoneHead(n, zone, reserved));
      var z := zones[zone];
      zones[zone] := z.(numTotal := z.numTotal + 1);
      if reserved {
        zones[zone] := zones[zone].(numReserved := z.numReserved + 1);
      } else {
        zones[zone] := zones[zone].(numFree := z.numFree + 1);
      }
    }

    /** `initialize_page_array`: one pass over the pages, with a cursor on the E820 map. */
    method InitializePageArray(b: BootInfo)
      requires GoodBoot(b) && Shape(NumPages(b)) && arena.Valid() && arena.lists == ZoneLists(b, NumPages(b), 0)
      requires zones[0] == ZoneAt(b, 0, 0) && zones[1] == ZoneAt(b, 0, 1)
      modifies arena, arena.next, arena.prev, zones, frames
      ensures arena.Valid() && arena.lists == ZoneLists(b, NumPages(b), NumPages(b))
      ensures zones[0] == ZoneAt(b, NumPages(b), 0) && zones[1] == ZoneAt(b, NumPages(b), 1)
      ensures FramesDone(b, frames[..], NumPages(b)) && FramesRead(b, frames[..], NumPages(b))
    {
      hide AllRings, ListArena.Valid, NumPages, Found, ZoneLists, ZoneAt, Pages, FramesDone, FramesRead, Tracks, Begin,
           End, Sorted;
      StartTracks(b.table, b.count);
      NothingDone(b, frames[..]);
      var currAddr: nat, pageIdx: nat, e820id: nat, justLeft := 0, 0, 0, 0;
      var mmap := b.table[0];
      var mmapBegin: nat, mmapEnd: nat, kind: nat := mmap.baseAddress, End(mmap), mmap.kind;
      LastPage(b, 0);
      while currAddr < b.maxPhysAddr
        invariant currAddr == pageIdx * PAGE_SIZE && pageIdx <= NumPages(b) && justLeft <= 1
        invariant currAddr < b.maxPhysAddr <==> pageIdx < NumPages(b)
        invariant arena.Valid() && arena.lists == ZoneLists(b, NumPages(b), pageIdx)
        invariant zones[0] == ZoneAt(b, pageIdx, 0) && zones[1] == ZoneAt(b, pageIdx, 1)
                  && FramesDone(b, frames[..], pageIdx)
        invariant e820id <= b.count && Tracks(b.table, b.count, currAddr,
                                              Cursor(e820id, mmapBegin, mmapEnd, kind, justLeft == 1))
        decreases b.maxPhysAddr - currAddr, 1 - justLeft
      {
        ghost var c := Cursor(e820id, mmapBegin, mmapEnd, kind, justLeft == 1);
        var zone := if pageIdx < b.dmaPages then ZONE_DMA else ZONE_NORMAL;
        var reserved;
        if mmapBegin <= currAddr < mmapEnd {
          InsideDecides(b.table, b.count, currAddr, c);
          if justLeft != 0 {
            justLeft := 0;
          }
          reserved := kind != E820_USABLE;
        } else {
          if justLeft == 0 {
            SwitchTracks(b.table, b.count, currAddr, c);
            justLeft := 1;
            if e820id < b.count {
              e820id := e820id + 1;
              mmap := b.table[e820id];
              mmapBegin, mmapEnd, kind := Begin(mmap), End(mmap), mmap.kind;
            } else {
              mmapBegin, mmapEnd := 0, 0;
            }
            continue;
          } else {
            GapDecides(b.table, b.count, currAddr, c);
            reserved := true;
          }
        }
        if pageIdx >= b.kernelStart && pageIdx <= b.kernelEnd {
          reserved := true;
        }
        ListPage(b, pageIdx, zone, reserved);
        LastPage(b, pageIdx);
        LastPage(b, pageIdx + 1);
        pageIdx := pageIdx + 1;
        currAddr := currAddr + PAGE_SIZE;
      }
      FramesMeaning(b, frames[..], NumPages(b));
    }

    /** A page moves from the front of the zone's list to the end of the cache's. */
    method MovePage(zoneHead: nat, cacheHead: nat)
      requires arena.Valid() && zoneHead in arena.lists && cacheHead in arena.lists && zoneHead != cacheHead
      requires arena.lists[zoneHead] != [] && arena.lists[zoneHead][0] !in arena.lists
      modifies arena, arena.next, arena.prev
      ensures arena.Valid()
      ensures arena.lists == old(arena.lists)[zoneHead := old(arena.lists[zoneHead])[1..]]
                                             [cacheHead := old(arena.lists[cacheHead])
                                              + [old(arena.lists[zoneHead])[0]]]
    {
      hide AllRings, Loose, Apply;
      HeadLinks(arena.Now(), arena.lists, zoneHead);
      FirstNode(arena.Now(), arena.lists, zoneHead);
      var l := arena.next[zoneHead];
      ghost var zone := arena.lists[zoneHead];
      assert zone[..0] + zone[0 + 1..] == zone[1..];
      NodeLinks(arena.Now(), arena.lists, zoneHead);
      arena.ListDel(l, zoneHead, 0);
      assert arena.lists - {l} == arena.lists;
      arena.ListAddTail(l, cacheHead);
    }

    /** One round of `initialize_percpu_caches`; `p` counts every page twice. */
    method FillCache(n: nat, cpu: nat, cpuPages: nat, ghost list: seq<int>)
      requires Shape(n) && cpu < caches.Length && arena.Valid() && Clean(arena.lists, n, cpu)
               && arena.lists[ZoneHead(n, 1, false)] == list
      requires zones[1].numFree == |list| && zones[1].numTotal == |list| + zones[1].numReserved
      modifies arena, arena.next, arena.prev, zones, caches
      ensures arena.Valid() && Clean(arena.lists, n, cpu + 1)
      ensures var m := Share(cpuPages, |list|);
              && arena.lists == old(arena.lists)[ZoneHead(n, 1, false) := list[m..]][CacheHead(n, cpu) := list[..m]]
              && zones[0] == old(zones[0])
                && zones[1] == old(zones[1]).(numFree := |list| - m, numTotal := |list| - m + old(zones[1]).numReserved)
              && caches[..] == old(caches[..])[cpu := CacheInfo(2 * m, 2 * m)]
      ensures FairShare(cpuPages, |list|, Share(cpuPages, |list|))
    {
      hide AllRings, Loose, Apply, ListArena.Now, ListArena.Valid, Clean, FairShare;
      ghost var before := arena.lists;
      ShareIsFair(cpuPages, |list|);
      FreshHead(before, n, cpu);
      arena.InitListHead(CacheHead(n, cpu));
      var p: nat := 0;
      ghost var m: nat := 0;
      var h := ZoneHead(n, 1, false);
      ZoneLink(arena, h);
      while p < cpuPages && arena.next[h] != h
        invariant p == 2 * m && m <= |list| && (m == 0 || p < cpuPages + 2) && arena.Valid()
        invariant arena.lists == before[h := list[m..]][CacheHead(n, cpu) := list[..m]]
        invariant arena.next[h] == h <==> m == |list|
        invariant zones[0] == old(zones[0]) && caches[..] == old(caches[..])
        invariant zones[1] == old(zones[1]).(numFree := |list| - m, numTotal := |list| - m + old(zones[1]).numReserved)
        decreases |list| - m
      {
        Dealing(before, n, cpu, list, m);
        MovePage(h, CacheHead(n, cpu));
        zones[1] := zones[1].(numFree := zones[1].numFree - 1);
        zones[1] := zones[1].(numTotal := zones[1].numTotal - 1);
        p := p + 1;
        p := p + 1;
        m := m + 1;
        ZoneLink(arena, h);
      }
      caches[cpu] := CacheInfo(p, p);
      StillClean(before, n, cpu, list, m);
    }

    /** `initialize_percpu_caches`: the caches share out a prefix of the free pages of the normal zone in
        order, no page is lost or in two places, and the zone's counters stay exact; the counter of a
        cache is twice the length of its list. */
    method InitializePercpuCaches(n: nat) returns (ghost cuts: seq<nat>)
      requires Shape(n) && caches.Length > 0 && arena.Valid() && Clean(arena.lists, n, 0)
      requires zones[1].numFree == |arena.lists[ZoneHead(n, 1, false)]|
               && zones[1].numTotal == zones[1].numFree + zones[1].numReserved
      modifies arena, arena.next, arena.prev, zones, caches
      ensures arena.Valid() && Clean(arena.lists, n, caches.Length)
      ensures var list, total, cpus := old(arena.lists)[ZoneHead(n, 1, false)], old(zones[1]).numTotal, caches.Length;
              && cuts == Cuts(total / cpus, cpus, total, |list|, cpus).0
      ensures var list := old(arena.lists)[ZoneHead(n, 1, false)];
              IsCut(cuts, |list|) && arena.lists == Dealt(old(arena.lists), n, list, cuts)
                && CountsDealt(caches[..], cuts) && |cuts| == caches.Length + 1
      ensures var list, total := old(arena.lists)[ZoneHead(n, 1, false)], old(zones[1]).numTotal;
              && SharedOut(total, |list|, caches.Length, cuts)
              && CachesHold(arena.lists, caches[..], n, list, cuts)
      ensures var free := |arena.lists[ZoneHead(n, 1, false)]|;
              zones[1].numFree == free && zones[1].numTotal == free + zones[1].numReserved
      ensures zones[0] == old(zones[0]) && zones[1].numReserved == old(zones[1]).numReserved
    {
      hide AllRings, ListArena.Valid, Clean, Share, Dealt, CountsDealt, ZoneHead, CacheHead, Cuts, SharedOut,
           CachesHold,
           FairShare;
      ghost var before := arena.lists;
      HasZone(before, n, 0);
      ghost var list, total0 := before[ZoneHead(n, 1, false)], zones[1].numTotal;
      cuts := [0];
      var cpuPages := zones[1].numTotal / caches.Length;
      ghost var quota := cpuPages;
      DealtNone(before, n, list, caches[..]);
      CutsNext(quota, caches.Length, total0, |list|, 0);
      var cpu := 0;
      while cpu < caches.Length
        invariant cpu <= caches.Length && arena.Valid() && Clean(arena.lists, n, cpu)
        invariant (cuts, cpuPages) == Cuts(quota, caches.Length, total0, |list|, cpu)
        invariant arena.lists == Dealt(before, n, list, cuts) && CountsDealt(caches[..], cuts)
        invariant zones[0] == old(zones[0]) && zones[1].numReserved == old(zones[1]).numReserved
        invariant zones[1].numFree == |list| - cuts[cpu] && zones[1].numTotal == total0 - cuts[cpu]
      {
        CutsNext(quota, caches.Length, total0, |list|, cpu);
        if cpuPages + caches.Length >= zones[1].numTotal {
          cpuPages := zones[1].numTotal;
        }
        DealtZone(before, n, list, cuts);
        ghost var counts := caches[..];
        FillCache(n, cpu, cpuPages, list[cuts[cpu]..]);
        ghost var m := Share(cpuPages, |list| - cuts[cpu]);
        DealtNext(before, n, list, cuts, m);
        CountsNext(counts, caches[..], cuts, m);
        cuts := cuts + [cuts[cpu] + m];
        cpu := cpu + 1;
      }
      DealtZone(before, n, list, cuts);
      ShareOut(before, caches[..], n, list, total0);
    }

    /** The three calls of `build_page_array` after the amount of memory is known. */
    method BuildPageArray(b: BootInfo) returns (ghost cuts: seq<nat>)
      requires GoodBoot(b) && Shape(NumPages(b)) && caches.Length > 0 && arena.Valid() && arena.lists == map[]
      modifies arena, arena.next, arena.prev, zones, frames, caches
      ensures var n := NumPages(b);
              var free, lists := Pages(b, n, 1, false), ZoneLists(b, n, n);
              && arena.Valid() && IsCut(cuts, |free|) && |cuts| == caches.Length + 1
              && SharedOut(|free| + |Pages(b, n, 1, true)|, |free|, caches.Length, cuts)
              && CachesHold(arena.lists, caches[..], n, free, cuts)
              && arena.lists == Dealt(lists, n, free, cuts) && CountsDealt(caches[..], cuts)
                && FramesDone(b, frames[..], n) && FramesRead(b, frames[..], n)
              && zones[0] == ZoneAt(b, n, 0) && zones[1].numFree == |free| - cuts[caches.Length]
              && zones[1].numReserved == |Pages(b, n, 1, true)|
                && zones[1].numTotal == zones[1].numFree + zones[1].numReserved
    {
      hide AllRings, ListArena.Valid, NumPages, Found, Pages, ZoneLists, FramesDone, FramesRead, Dealt, Sorted, Clean,
           SharedOut, CachesHold;
      InitializeZones(b);
      InitializePageArray(b);
      var n := NumPages(b);
      ZonesClean(b, n);
      cuts := InitializePercpuCaches(n);
      CutZone(ZoneLists(b, n, n), n, Pages(b, n, 1, false), cuts);
    }

    /** `alloc_page` on the cache of a CPU; requests for DMA pages get NULL at once. An empty list with a
        positive counter makes it unlink the list head and return the address that would be its page. */
    method AllocPage(n: nat, cpu: nat, flags: nat, clean: bool) returns (r: Allocated)
      requires Shape(n) && cpu < caches.Length && arena.Valid() && CacheHead(n, cpu) in arena.lists
      modifies arena, arena.next, arena.prev, caches
      ensures var c := old(Cache(caches[cpu].numFree, arena.lists[CacheHead(n, cpu)]));
              && r == (if flags % 2 == PAF_DMA_PAGE then NoPage else Take(c, clean).1)
              && (r.Page? ==>
                    arena.Valid()
                    && arena.lists == old(arena.lists)[CacheHead(n, cpu) := Take(c, clean).0.list]
                    && caches[..] ==
                    old(caches[..])[cpu := old(caches[cpu]).(numFree := Take(c, clean).0.count)])
              && (r.NoPage? || r.CleansNull? ==>
                  arena.Valid() && arena.lists == old(arena.lists) && caches[..] == old(caches[..]))
              && (r.TakesHead? ==> arena.next[CacheHead(n, cpu)] == POISON1 && arena.prev[CacheHead(n, cpu)] == POISON2
                                     && caches[..] ==
                                          old(caches[..])[cpu := old(caches[cpu]).(numFree := Take(c, clean).0.count)])
    {
      hide AllRings, Loose, Apply;
      var head := CacheHead(n, cpu);
      if flags % 2 == PAF_DMA_PAGE {
        return NoPage;
      }
      if caches[cpu].numFree > 0 {
        HeadLinks(arena.Now(), arena.lists, head);
        FirstNode(arena.Now(), arena.lists, head);
        var l := arena.next[head];
        caches[cpu] := caches[cpu].(numFree := caches[cpu].numFree - 1);
        if l == head {
          arena.Unlink(l);
          return TakesHead;
        }
        ghost var list := arena.lists[head];
        assert list[..0] + list[0 + 1..] == list[1..];
        arena.ListDel(l, head, 0);
        return Page(l);
      }
      return NullPage(clean);
    }
  }

  lemma ZonesClean(b: BootInfo, n: nat)
    requires GoodBoot(b)
    ensures var lists := ZoneLists(b, n, n);
            Clean(lists, n, 0) && ZoneHead(n, 1, false) in lists
              && lists[ZoneHead(n, 1, false)] == Pages(b, n, 1, false)
  {
    hide Reserved, Belongs;
    PagesExactly(b, n, 0, false);
    PagesExactly(b, n, 0, true);
    PagesExactly(b, n, 1, false);
    PagesExactly(b, n, 1, true);
  }

  lemma CutZone(lists: Heads, n: nat, list: seq<int>, cuts: seq<nat>)
    requires IsCut(cuts, |list|) && ZoneHead(n, 1, false) in lists && lists[ZoneHead(n, 1, false)] == list
    ensures var rest := Dealt(lists, n, list, cuts);
            ZoneHead(n, 1, false) in rest && |rest[ZoneHead(n, 1, false)]| == |list| - cuts[|cuts| - 1]
  {
    hide Dealt;
    DealtZone(lists, n, list, cuts);
  }

  lemma HasZone(lists: Heads, n: nat, cpus: nat)
    requires Clean(lists, n, cpus)
    ensures ZoneHead(n, 1, false) in lists
  {
  }

  /** Ascending positions in a list of the given length, the first 0. */
  ghost predicate IsCut(cuts: seq<nat>, length: nat) {
    |cuts| > 0 && cuts[0] == 0 && (forall i :: 0 <= i < |cuts| ==> cuts[i] <= length)
    && (forall i :: 0 <= i < |cuts| - 1 ==> cuts[i] <= cuts[i + 1])
  }

  /** Where the first k caches' parts of the list end, and the quota for the next one. */
  ghost function Cuts(quota: nat, cpus: nat, total: nat, length: nat, k: nat): (r: (seq<nat>, nat))
    requires length <= total
    ensures |r.0| == k + 1 && IsCut(r.0, length)
  {
    if k == 0 then ([0], quota) else
      var (cuts, q) := Cuts(quota, cpus, total, length, k - 1);
      var taken := cuts[k - 1];
      var q' := if q + cpus >= total - taken then total - taken else q;
      (cuts + [taken + Share(q', length - taken)], q')
  }

  /** m pages are what a quota of q comes to when every page is counted twice: half of it, rounded up, or all
      the pages that are left if these are fewer. */
  predicate FairShare(q: nat, left: nat, m: nat) {
    m <= left && (2 * m == q || 2 * m == q + 1 || (m == left && 2 * m < q))
  }

  /** The quota of a cache: an equal part of the zone, until the zone holds hardly more than that, and then
      all it holds. */
  function QuotaAt(total: nat, cpus: nat, held: nat): nat
    requires cpus > 0
  {
    if held <= total / cpus + cpus then held else total / cpus
  }

  predicate PartAt(total: nat, length: nat, cpus: nat, cuts: seq<nat>, i: nat)
    requires cpus > 0 && i + 1 < |cuts|
  {
    && cuts[i] <= cuts[i + 1] <= length <= total
    && FairShare(QuotaAt(total, cpus, total - cuts[i]), length - cuts[i], cuts[i + 1] - cuts[i])
  }

  /** The parts of the list that the caches get: total counts the reserved pages of the zone as well. */
  ghost predicate SharedOut(total: nat, length: nat, cpus: nat, cuts: seq<nat>) {
    && cpus > 0 && length <= total && |cuts| == cpus + 1 && cuts[0] == 0
    && forall i: nat :: i < cpus ==> PartAt(total, length, cpus, cuts, i)
  }

  /** A cache has the part between two cuts, and its counters are twice the length of that. */
  ghost predicate CacheHolds(lists: Heads, caches: seq<CacheInfo>, n: nat, list: seq<int>, cuts: seq<nat>, i: nat)
    requires i < |caches| && |cuts| == |caches| + 1
  {
    && cuts[i] <= cuts[i + 1] <= |list|
    && CacheHead(n, i) in lists && lists[CacheHead(n, i)] == list[cuts[i]..cuts[i + 1]]
    && caches[i] == CacheInfo(2 * (cuts[i + 1] - cuts[i]), 2 * (cuts[i + 1] - cuts[i]))
  }

  /** Every cache has its part, and the zone keeps what follows the last cut. */
  ghost predicate CachesHold(lists: Heads, caches: seq<CacheInfo>, n: nat, list: seq<int>, cuts: seq<nat>) {
    && |cuts| == |caches| + 1
    && (forall i: nat :: i < |caches| ==> CacheHolds(lists, caches, n, list, cuts, i))
    && cuts[|caches|] <= |list| && ZoneHead(n, 1, false) in lists
    && lists[ZoneHead(n, 1, false)] == list[cuts[|caches|]..]
  }

  lemma ShareIsFair(q: nat, left: nat)
    ensures FairShare(q, left, Share(q, left))
  {
  }

  /** The first k caches, and the quota carried on from the last of them. */
  lemma {:induction false} CutsShared(cpus: nat, total: nat, length: nat, k: nat)
    requires cpus > 0 && length <= total
    ensures var (cuts, q) := Cuts(total / cpus, cpus, total, length, k);
            && (forall i: nat :: i < k ==> PartAt(total, length, cpus, cuts, i))
            && q == (if k == 0 then total / cpus else QuotaAt(total, cpus, total - cuts[k - 1]))
  {
    hide PartAt, QuotaAt, Share, IsCut;
    if k > 0 {
      CutsShared(cpus, total, length, k - 1);
      var (cuts, q) := Cuts(total / cpus, cpus, total, length, k - 1);
      CutBounds(cuts, length);
      CutsNext(total / cpus, cpus, total, length, k - 1);
      var quota := QuotaAt(total, cpus, total - cuts[k - 1]);
      NextQuota(cpus, total, cuts, k, q);
      var cuts' := cuts + [cuts[k - 1] + Share(quota, length - cuts[k - 1])];
      assert Cuts(total / cpus, cpus, total, length, k) == (cuts', quota);
      forall i: nat | i < k ensures PartAt(total, length, cpus, cuts', i) {
        if i < k - 1 {
          SamePart(total, length, cpus, cuts, cuts[k - 1] + Share(quota, length - cuts[k - 1]), i);
        } else {
          NewPart(total, length, cpus, cuts);
        }
      }
    }
  }

  lemma NextQuota(cpus: nat, total: nat, cuts: seq<nat>, k: nat, q: nat)
    requires cpus > 0 && k > 0 && |cuts| == k && cuts[k - 1] <= total && (k > 1 ==> cuts[k - 2] <= cuts[k - 1])
    requires q == if k == 1 then total / cpus else QuotaAt(total, cpus, total - cuts[k - 2])
    ensures (if q + cpus >= total - cuts[k - 1] then total - cuts[k - 1]
             else q) == QuotaAt(total, cpus, total - cuts[k - 1])
  {
    if k > 1 {
      CarriedQuota(total / cpus, cpus, total - cuts[k - 2], total - cuts[k - 1]);
    }
  }

  lemma SamePart(total: nat, length: nat, cpus: nat, cuts: seq<nat>, c: nat, i: nat)
    requires cpus > 0 && i + 1 < |cuts| && PartAt(total, length, cpus, cuts, i)
    ensures PartAt(total, length, cpus, cuts + [c], i)
  {
    hide FairShare, QuotaAt;
  }

  lemma NewPart(total: nat, length: nat, cpus: nat, cuts: seq<nat>)
    requires cpus > 0 && |cuts| > 0 && cuts[|cuts| - 1] <= length <= total
    ensures var at := cuts[|cuts| - 1];
            PartAt(total, length, cpus, cuts + [at + Share(QuotaAt(total, cpus, total - at), length - at)], |cuts| - 1)
  {
    hide FairShare, QuotaAt, Share;
    var at := cuts[|cuts| - 1];
    ShareIsFair(QuotaAt(total, cpus, total - at), length - at);
    ShareBounds(QuotaAt(total, cpus, total - at), length - at);
  }

  lemma ShareBounds(q: nat, left: nat)
    ensures Share(q, left) <= left
  {
  }

  lemma CutBounds(cuts: seq<nat>, length: nat)
    requires IsCut(cuts, length)
    ensures cuts[0] == 0 && cuts[|cuts| - 1] <= length
    ensures |cuts| > 1 ==> cuts[|cuts| - 2] <= cuts[|cuts| - 1]
  {
  }

  /** Carrying the quota on from cache to cache, as the code does, makes no difference. */
  lemma CarriedQuota(part: nat, cpus: nat, before: nat, held: nat)
    requires held <= before
    ensures var q := if before <= part + cpus then before else part;
            (if q + cpus >= held then held else q) == if held <= part + cpus then held else part
  {
  }

  lemma ShareOut(lists: Heads, caches: seq<CacheInfo>, n: nat, list: seq<int>, total: nat)
    requires |caches| > 0 && |list| <= total && ZoneHead(n, 1, false) in lists && lists[ZoneHead(n, 1, false)] == list
    requires CountsDealt(caches, Cuts(total / |caches|, |caches|, total, |list|, |caches|).0)
    ensures var cuts := Cuts(total / |caches|, |caches|, total, |list|, |caches|).0;
            SharedOut(total, |list|, |caches|, cuts) && CachesHold(Dealt(lists, n, list, cuts), caches, n, list, cuts)
  {
    hide Cuts, Dealt, PartAt, CountsDealt, IsCut, CacheHolds;
    var cuts := Cuts(total / |caches|, |caches|, total, |list|, |caches|).0;
    CutsShared(|caches|, total, |list|, |caches|);
    CutBounds(cuts, |list|);
    DealtZone(lists, n, list, cuts);
    forall i: nat | i < |caches| ensures CacheHolds(Dealt(lists, n, list, cuts), caches, n, list, cuts, i) {
      HoldsPart(lists, caches, n, list, cuts, i);
    }
  }

  lemma HoldsPart(lists: Heads, caches: seq<CacheInfo>, n: nat, list: seq<int>, cuts: seq<nat>, i: nat)
    requires IsCut(cuts, |list|) && ZoneHead(n, 1, false) in lists && lists[ZoneHead(n, 1, false)] == list
    requires i < |caches| && |cuts| == |caches| + 1 && CountsDealt(caches, cuts)
    ensures CacheHolds(Dealt(lists, n, list, cuts), caches, n, list, cuts, i)
  {
    hide Dealt, CacheHead, ZoneHead;
    DealtParts(lists, n, list, cuts, i);
  }

  lemma CutsNext(quota: nat, cpus: nat, total: nat, length: nat, k: nat)
    requires length <= total
    ensures Cuts(quota, cpus, total, length, 0) == ([0], quota)
    ensures var (cuts, q) := Cuts(quota, cpus, total, length, k);
            var q' := if q + cpus >= total - cuts[k] then total - cuts[k] else q;
            Cuts(quota, cpus, total, length, k + 1) == (cuts + [cuts[k] + Share(q', length - cuts[k])], q')
  {
  }

  /** Cache i has the list from cut i to cut i + 1; the zone keeps the rest. */
  ghost function Dealt(lists: Heads, n: nat, list: seq<int>, cuts: seq<nat>): Heads
    requires IsCut(cuts, |list|)
    decreases |cuts|
  {
    var k := |cuts| - 1;
    if k == 0 then lists else
      Dealt(lists, n, list, cuts[..k])
        [ZoneHead(n, 1, false) := list[cuts[k]..]][CacheHead(n, k - 1) := list[cuts[k - 1]..cuts[k]]]
  }

  ghost predicate CountsDealt(caches: seq<CacheInfo>, cuts: seq<nat>) {
    |cuts| <= |caches| + 1 &&
    forall i :: 0 <= i < |cuts| - 1 && cuts[i] <= cuts[i + 1] ==>
      caches[i] == CacheInfo(2 * (cuts[i + 1] - cuts[i]), 2 * (cuts[i + 1] - cuts[i]))
  }

  lemma CountsNext(before: seq<CacheInfo>, after: seq<CacheInfo>, cuts: seq<nat>, m: nat)
    requires 0 < |cuts| <= |before| && CountsDealt(before, cuts)
             && after == before[|cuts| - 1 := CacheInfo(2 * m, 2 * m)]
    ensures CountsDealt(after, cuts + [cuts[|cuts| - 1] + m])
  {
  }

  lemma DealtNone(lists: Heads, n: nat, list: seq<int>, caches: seq<CacheInfo>)
    ensures Dealt(lists, n, list, [0]) == lists && CountsDealt(caches, [0])
  {
  }

  lemma DealtZone(lists: Heads, n: nat, list: seq<int>, cuts: seq<nat>)
    requires IsCut(cuts, |list|) && ZoneHead(n, 1, false) in lists && lists[ZoneHead(n, 1, false)] == list
    ensures ZoneHead(n, 1, false) in Dealt(lists, n, list, cuts)
    ensures Dealt(lists, n, list, cuts)[ZoneHead(n, 1, false)] == list[cuts[|cuts| - 1]..]
  {
  }

  lemma DealtNext(lists: Heads, n: nat, list: seq<int>, cuts: seq<nat>, m: nat)
    requires IsCut(cuts, |list|) && cuts[|cuts| - 1] + m <= |list|
    ensures var k := |cuts|;
            var at := cuts[k - 1];
            && IsCut(cuts + [at + m], |list|)
            && Dealt(lists, n, list, cuts + [at + m])
               == Dealt(lists, n, list, cuts)
                    [ZoneHead(n, 1, false) := list[at..][m..]][CacheHead(n, k - 1) := list[at..][..m]]
  {
    var k := |cuts|;
    var at := cuts[k - 1];
    var cuts' := cuts + [at + m];
    assert cuts'[..k] == cuts && IsCut(cuts', |list|);
    assert list[at..][m..] == list[at + m..] && list[at..][..m] == list[at..at + m];
  }

  /** In the end every cache has its own part of the list, in order; the parts and what the zone keeps
      make up the list. */
  lemma {:induction false} DealtParts(lists: Heads, n: nat, list: seq<int>, cuts: seq<nat>, cpu: nat)
    requires IsCut(cuts, |list|) && ZoneHead(n, 1, false) in lists && lists[ZoneHead(n, 1, false)] == list
             && cpu < |cuts| - 1
    ensures CacheHead(n, cpu) in Dealt(lists, n, list, cuts) && cuts[cpu] <= cuts[cpu + 1]
    ensures Dealt(lists, n, list, cuts)[CacheHead(n, cpu)] == list[cuts[cpu]..cuts[cpu + 1]]
    decreases |cuts|
  {
    var k := |cuts| - 1;
    if cpu < k - 1 {
      DealtParts(lists, n, list, cuts[..k], cpu);
    }
  }

  /** The heads are those of the zones and of the first caches; the lists hold pages. */
  ghost predicate Clean(lists: Heads, n: nat, cpus: nat) {
    && ZoneHead(n, 1, false) in lists
    && forall h :: h in lists ==> n <= h < CacheHead(n, cpus) && forall x :: x in lists[h] ==> 0 <= x < n
  }

  lemma StillClean(lists: Heads, n: nat, cpu: nat, list: seq<int>, m: nat)
    requires Clean(lists, n, cpu) && lists[ZoneHead(n, 1, false)] == list && m <= |list|
    ensures Clean(lists[ZoneHead(n, 1, false) := list[m..]][CacheHead(n, cpu) := list[..m]], n, cpu + 1)
  {
    assert forall x :: x in lists[ZoneHead(n, 1, false)] ==> 0 <= x < n;
    assert forall x :: x in list[m..] || x in list[..m] ==> x in list;
  }

  lemma Dealing(lists: Heads, n: nat, cpu: nat, list: seq<int>, m: nat)
    requires Clean(lists, n, cpu) && lists[ZoneHead(n, 1, false)] == list && m < |list|
    ensures list[m..][0] == list[m] && list[m..][1..] == list[m + 1..] && list[..m] + [list[m]] == list[..m + 1]
    ensures list[m] !in lists && list[m] != CacheHead(n, cpu)
  {
    assert list[m] in lists[ZoneHead(n, 1, false)];
  }

  lemma FreshHead(lists: Heads, n: nat, cpu: nat)
    requires Clean(lists, n, cpu)
    ensures Loose(lists, CacheHead(n, cpu)) && CacheHead(n, cpu) !in lists && ZoneHead(n, 1, false) in lists
  {
  }

  lemma ZoneLink(arena: ListArena, h: nat)
    requires arena.Valid() && h in arena.lists
    ensures h < arena.next.Length && (arena.next[h] == h <==> arena.lists[h] == [])
  {
    hide AllRings;
    FirstNode(arena.Now(), arena.lists, h);
  }

  /** How many pages a round moves: every pass of its loop counts two. */
  function Share(cpuPages: nat, left: nat): nat {
    if (cpuPages + 1) / 2 <= left then (cpuPages + 1) / 2 else left
  }

  lemma NothingDone(b: BootInfo, frames: seq<PageFrame>)
    requires GoodBoot(b)
    ensures FramesDone(b, frames, 0) && b.count < |b.table|
  {
  }

  lemma NodeLinks(l: Links, lists: Heads, head: int)
    requires AllRings(l.next, l.prev, lists) && head in lists && lists[head] != []
    ensures 0 <= lists[head][0] < |l.next| && lists[head][0] != head
  {
    var ring := Ring(lists, head);
    assert IsRing(l.next, l.prev, ring) && ring[1] == lists[head][0] && ring[0] == head;
    assert ring[0] != ring[1];
  }

  // ---------- allocation from a cache ----------

  /** Without a page the caller gets NULL, unless cleaning it faults first. `TakesHead`: the list head
      itself is taken off and passed off as a page. */
  datatype Allocated = Page(idx: int) | NoPage | CleansNull | TakesHead

  datatype Cache = Cache(count: nat, list: seq<int>)

  function NullPage(clean: bool): Allocated {
    if clean then CleansNull else NoPage
  }

  function Take(c: Cache, clean: bool): (Cache, Allocated) {
    if c.count == 0 then (c, NullPage(clean))
    else if c.list == [] then (c.(count := c.count - 1), TakesHead)
    else (Cache(c.count - 1, c.list[1..]), Page(c.list[0]))
  }

  /** The pages that a cache whose counter is right still has to give. */
  function PoolOf(c: Cache): seq<int>
    requires c.count <= |c.list|
  {
    c.list[..c.count]
  }

  /** As long as the counter is at most the length of the list, the cache is the pool that the mapper
      allocates from: a call gives the first page and leaves the others, and NULL exactly if there is
      none. */
  lemma CacheIsPool(c: Cache, clean: bool)
    requires c.count <= |c.list|
    ensures var (c', r) := Take(c, clean);
            && c'.count <= |c'.list|
            && (if PoolOf(c) == [] then r == NullPage(clean) && PoolOf(c') == []
                else r == Page(PoolOf(c)[0]) && PoolOf(c') == PoolOf(c)[1..])
  {
    if c.count > 0 {
      assert c.list[1..][..c.count - 1] == c.list[..c.count][1..];
    }
  }

  /** The results of k calls, up to the first that breaks the list or faults. */
  function TakeMany(c: Cache, clean: bool, k: nat): seq<Allocated>
    decreases k
  {
    if k == 0 then [] else
      var (c', r) := Take(c, clean);
      [r] + if r.TakesHead? || r.CleansNull? then [] else TakeMany(c', clean, k - 1)
  }

  function Min(a: nat, b: nat): nat {
    if a < b then a else b
  }

  /** A run of calls hands out the pages of the list from the front. As long as the counter is at most
      the length of the list, there are exactly `count` pages and then NULL; otherwise the call after
      the last page takes the head of the list. */
  lemma {:induction false} TakeManyExactly(c: Cache, clean: bool, k: nat)
    ensures var rs, m := TakeMany(c, clean, k), Min(c.count, |c.list|);
            && (forall i :: 0 <= i < |rs| ==>
                rs[i] == if i < m then Page(c.list[i]) else if c.count > m then TakesHead else NullPage(clean))
            && |rs| == if k > m && (c.count > m || clean) then m + 1 else k
    decreases k
  {
    if k > 0 {
      var (c', r) := Take(c, clean);
      if !(r.TakesHead? || r.CleansNull?) {
        TakeManyExactly(c', clean, k - 1);
        var rs := TakeMany(c, clean, k);
        forall i | 0 < i < |rs| ensures rs[i] == TakeMany(c', clean, k - 1)[i - 1] {
        }
      }
    }
  }

  /** No page is handed out twice, whatever the counter says. */
  lemma PagesDistinct(c: Cache, clean: bool, k: nat, i: nat, j: nat)
    requires forall a, b :: 0 <= a < b < |c.list| ==> c.list[a] != c.list[b]
    requires var rs := TakeMany(c, clean, k); i < j < |rs| && rs[i].Page? && rs[j].Page?
    ensures var rs := TakeMany(c, clean, k); rs[i] != rs[j]
  {
    hide TakeMany;
    TakeManyExactly(c, clean, k);
  }

  /** The counter is right, for every number of calls, exactly if it does not exceed the length; a
      cache filled at boot has twice the length, so it breaks exactly if it got any page. */
  lemma BreaksExactly(c: Cache, clean: bool)
    ensures (exists k :: TakesHead in TakeMany(c, clean, k)) <==> c.count > |c.list|
    ensures c.count == 2 * |c.list| ==> ((exists k :: TakesHead in TakeMany(c, clean, k)) <==> c.list != [])
  {
    hide TakeMany;
    TakeManyExactly(c, clean, |c.list| + 1);
    var rs := TakeMany(c, clean, |c.list| + 1);
    if c.count > |c.list| {
      assert rs[|c.list|] == TakesHead;
    }
    forall k: nat ensures TakesHead in TakeMany(c, clean, k) ==> c.count > |c.list| {
      TakeManyExactly(c, clean, k);
    }
  }
}
