/** Requests to the mapper (eza/amd64/mm/pt.c): which are carried out exactly, and what a caller sees. */
module MapRequests {
  import opened Words
  import opened PageTable
  import opened MapState
  import opened PageRanges

  // ---------- the whole call ----------

  /** `virt_addr + num_pages * PAGE_SIZE`, with 64-bit wrap-around. */
  function EndAddr(virt: Word, n: Word): Word {
    Add64(virt, n * PAGE_SIZE % TWO64)
  }

  /** The argument checks of `mm_map_pages`. */
  predicate Rejected(pd: Option<Directory>, hasAccessor: bool, virt: Word, n: Word) {
    || pd.None? || pd.value.entries == 0 || n == 0 || virt == 0 || !hasAccessor
    || pd.value.entries % PAGE_SIZE != 0
    || EndAddr(virt, n) < virt
  }

  /** The range actually walked: from the start of the first page to the end of the 512 GB slot, if
      the range is longer; in the last slot there is no such cut. */
  function SlotEnd(virt: Word, n: Word): Word {
    var base := AlignDown(virt, PAGE_SIZE);
    var limit := AlignDown(Add64(base, L4_RANGE), L4_RANGE);
    if base < MAX_VIRT_ADDRESS - L4_RANGE && EndAddr(virt, n) > limit then limit else EndAddr(virt, n)
  }

  function Planned(virt: Word, n: Word): nat {
    Visited(AlignDown(virt, PAGE_SIZE), SlotEnd(virt, n))
  }

  predicate PlanStrays(virt: Word, n: Word) {
    Strays(AlignDown(virt, PAGE_SIZE), SlotEnd(virt, n))
  }

  /** The requests that are carried out exactly. */
  predicate Fits(virt: Word, n: Word) {
    var base := AlignDown(virt, PAGE_SIZE);
    var slotEnd := (base / L4_RANGE + 1) * L4_RANGE;
    && base + PAGE_SIZE * n <= slotEnd && base + PAGE_SIZE * n <= LAST_GB
    && (virt % PAGE_SIZE == 0 || base + PAGE_SIZE * n == slotEnd)
  }

  lemma PageBase(virt: Word)
    ensures var base := AlignDown(virt, PAGE_SIZE);
            base <= virt < base + PAGE_SIZE && base % PAGE_SIZE == 0 && base / PAGE_SIZE == virt / PAGE_SIZE
  {
    Remainder(virt / PAGE_SIZE, 0, PAGE_SIZE);
  }

  /** The boundary that the code computes is the end of the slot; the last slot ends with the address space. */
  lemma SlotLimit(base: Word)
    requires base % PAGE_SIZE == 0
    ensures var slotEnd := (base / L4_RANGE + 1) * L4_RANGE;
            if base < MAX_VIRT_ADDRESS - L4_RANGE then AlignDown(Add64(base, L4_RANGE), L4_RANGE) == slotEnd
              else slotEnd == TWO64
  {
    AlignNext(base, L4_RANGE);
  }

  lemma SlotRange(virt: Word, n: Word)
    requires EndAddr(virt, n) >= virt
    ensures InSlot(AlignDown(virt, PAGE_SIZE), SlotEnd(virt, n))
    ensures Vpn(AlignDown(virt, PAGE_SIZE)) == Vpn(virt)
  {
    hide AlignDown, EndAddr;
    PageBase(virt);
    var base := AlignDown(virt, PAGE_SIZE);
    SlotLimit(base);
    AlignNext(base, L4_RANGE);
  }

  /** A request is planned page for page, without straying, exactly if it fits. */
  lemma PlannedExact(virt: Word, n: Word)
    requires 0 < n && EndAddr(virt, n) >= virt
    ensures Planned(virt, n) == n && !PlanStrays(virt, n) <==> Fits(virt, n)
  {
    hide EndAddr, SlotEnd, AlignDown, Visited, Strays;
    EndFacts(virt, n);
    if virt + PAGE_SIZE * n < TWO64 {
      PlannedWithin(virt, n);
    } else {
      PageBase(virt);
      SlotRange(virt, n);
      VisitedInSlot(AlignDown(virt, PAGE_SIZE), SlotEnd(virt, n));
    }
  }

  lemma PlannedWithin(virt: Word, n: Word)
    requires 0 < n && virt + PAGE_SIZE * n < TWO64 && EndAddr(virt, n) == virt + PAGE_SIZE * n
    ensures Planned(virt, n) == n && !PlanStrays(virt, n) <==> Fits(virt, n)
  {
    hide EndAddr, SlotEnd, AlignDown, Visited, Strays;
    PageBase(virt);
    SlotEndExact(virt, n);
    var base := AlignDown(virt, PAGE_SIZE);
    var slotEnd := (base / L4_RANGE + 1) * L4_RANGE;
    AlignNext(base, L4_RANGE);
    WholePages(base, slotEnd);
    if EndAddr(virt, n) <= slotEnd {
      PlannedInSlot(virt, base, n, virt + PAGE_SIZE * n);
    } else {
      PlannedCut(base, slotEnd, n);
    }
  }

  /** The end of a slot is the end of a page. */
  lemma WholePages(base: nat, slotEnd: nat)
    requires base % PAGE_SIZE == 0 && slotEnd == (base / L4_RANGE + 1) * L4_RANGE
    ensures slotEnd % PAGE_SIZE == 0 && slotEnd % L4_RANGE == 0
  {
    Remainder(base / L4_RANGE + 1, 0, L4_RANGE);
    Remainder((base / L4_RANGE + 1) * Span(3), 0, PAGE_SIZE);
  }

  lemma VisitedInSlot(base: Word, end: Word)
    requires InSlot(base, end)
    ensures Visited(base, end) <= Span(3)
  {
  }

  lemma SlotEndExact(virt: Word, n: Word)
    requires virt + PAGE_SIZE * n < TWO64 && EndAddr(virt, n) >= virt
    ensures var base := AlignDown(virt, PAGE_SIZE);
            var slotEnd := (base / L4_RANGE + 1) * L4_RANGE;
            SlotEnd(virt, n) == if EndAddr(virt, n) > slotEnd then slotEnd else EndAddr(virt, n)
  {
    hide AlignDown, EndAddr;
    PageBase(virt);
    SlotLimit(AlignDown(virt, PAGE_SIZE));
  }

  lemma PlannedInSlot(virt: nat, base: nat, n: nat, end: nat)
    requires base <= virt < base + PAGE_SIZE && base % PAGE_SIZE == 0 && end == virt + PAGE_SIZE * n && n > 0
    ensures Visited(base, end) == n && !Strays(base, end) <==> virt == base && end <= LAST_GB
    ensures virt == base <==> virt % PAGE_SIZE == 0
  {
  }

  lemma PlannedCut(base: nat, slotEnd: nat, n: nat)
    requires base % PAGE_SIZE == 0 && base < slotEnd && slotEnd % L4_RANGE == 0 && slotEnd % PAGE_SIZE == 0
             && slotEnd < TWO64
    ensures Visited(base, slotEnd) == n && !Strays(base, slotEnd) <==> base + PAGE_SIZE * n == slotEnd
  {
    hide Pages;
    SlotBelow(slotEnd);
    PagesCounted(base, slotEnd);
  }

  lemma SlotBelow(slotEnd: nat)
    requires slotEnd % L4_RANGE == 0 && slotEnd < TWO64
    ensures slotEnd <= LAST_GB
  {
    Quotient(slotEnd, L4_RANGE);
  }

  lemma PagesCounted(a: nat, end: nat)
    requires a % PAGE_SIZE == 0 && end % PAGE_SIZE == 0 && a < end
    ensures a + PAGE_SIZE * Pages(a, end) == end
  {
    Quotient(a, PAGE_SIZE);
    Quotient(end, PAGE_SIZE);
    Remainder(end / PAGE_SIZE - a / PAGE_SIZE, PAGE_SIZE - 1, PAGE_SIZE);
  }

  lemma EndFacts(virt: Word, n: Word)
    requires EndAddr(virt, n) >= virt
    ensures virt + PAGE_SIZE * n < TWO64 ==> EndAddr(virt, n) == virt + PAGE_SIZE * n
    ensures virt + PAGE_SIZE * n >= TWO64 ==> n > Span(3)
  {
  }

  // ---------- what a caller sees ----------

  /** `mm_pin_virtual_address` as a function of memory. */
  ghost function Lookup(m: Memory, root: nat, a: Word): nat {
    match Translate(m, root, Vpn(a))
    case None => INVALID_PAGE_IDX
    case Some(e) => FrameIndex(e)
  }

  lemma Cardinalities(a: set<Label>, b: set<Label>)
    ensures a < b ==> |a| < |b|
    ensures a <= b ==> |a| <= |b|
  {
    if a <= b {
      assert b == a + (b - a);
      assert |b| == |a| + |b - a|;
    }
  }

  /** The call runs out of memory exactly if the range needs more tables than frames are left. */
  lemma MemorySuffices(s: State, s': State, root: nat, lo: nat, total: nat, frames: seq<nat>, flags: nat, r: Status,
                       made: set<Label>)
    requires Outcome(s, s', root, lo, total, frames, flags, r, made)
    ensures r == ENoMem <==> |Needed(s.mem, root, lo, lo + total)| > |s.avail|
    ensures r != ENoMem ==> |s.avail| - |s'.avail| == |Needed(s.mem, root, lo, lo + total)|
  {
    hide Extends, Mapped, Needed;
    Cardinalities(made, Needed(s.mem, root, lo, lo + total));
  }

  /** After a completed call the same range needs no tables: mapping it again allocates none. */
  lemma RemapIsFree(s: State, s': State, root: nat, lo: nat, total: nat, frames: seq<nat>, flags: nat, r: Status,
                    made: set<Label>)
    requires Outcome(s, s', root, lo, total, frames, flags, r, made) && r != ENoMem
    ensures Needed(s'.mem, root, lo, lo + total) == {}
  {
    hide Mapped, Needed;
    NeededAfter(s.mem, s'.mem, root, lo, lo + total, made);
  }

  /** The labels (l, x), ..., (l, y-1). */
  ghost function Labels(l: nat, x: nat, y: nat): (r: set<Label>)
    ensures forall b: nat :: Label(l, b) in r <==> x <= b < y
    ensures forall t :: t in r ==> t.level == l
    ensures |r| == if x <= y then y - x else 0
    decreases y - x
  {
    if x >= y then {} else Labels(l, x, y - 1) + {Label(l, y - 1)}
  }

  lemma TouchedBounds(l: nat, b: nat, lo: nat, hi: nat)
    requires l <= 3 && lo < hi && Touches(l, b, lo, hi)
    ensures lo / Span(l) <= b < (hi - 1) / Span(l) + 1
  {
  }

  /** A range inside one slot needs at most one page-directory-pointer table, one page directory per
      gigabyte and one page table per 2 MB that it touches. */
  lemma NeededBound(m: Memory, root: nat, lo: nat, hi: nat)
    requires lo < hi && lo / Span(3) == (hi - 1) / Span(3)
    ensures |Needed(m, root, lo, hi)| <= 1 + ((hi - 1) / Span(2) - lo / Span(2) + 1)
            + ((hi - 1) / Span(1) - lo / Span(1) + 1)
  {
    var l3 := Labels(3, lo / Span(3), (hi - 1) / Span(3) + 1);
    var l2 := Labels(2, lo / Span(2), (hi - 1) / Span(2) + 1);
    var l1 := Labels(1, lo / Span(1), (hi - 1) / Span(1) + 1);
    forall x | x in Needed(m, root, lo, hi) ensures x in l1 + l2 + l3 {
      TouchedBounds(x.level, x.base, lo, hi);
      assert x == Label(x.level, x.base);
    }
    Cardinalities(Needed(m, root, lo, hi), l1 + l2 + l3);
    assert |l1 + l2 + l3| <= |l1| + |l2| + |l3|;
  }

  /** Map, then look up: on a request that fits, every address translates to the frame delivered for
      its page, and every address on another page as before. */
  lemma LookupMapped(m: Memory, m': Memory, root: nat, virt: Word, n: nat, frames: seq<nat>, flags: nat, x: Word)
    requires Mapped(m, m', root, Vpn(virt), frames, flags) && |frames| == n && n > 0
    requires Vpn(virt) + n <= VPNS && forall k :: 0 <= k < n ==> frames[k] < TWO32
    ensures Lookup(m', root, x) ==
              if Vpn(virt) <= Vpn(x) < Vpn(virt) + n then frames[Vpn(x) - Vpn(virt)] else Lookup(m, root, x)
  {
    hide FrameIndex, Pte;
    if Vpn(virt) <= Vpn(x) < Vpn(virt) + n {
      FrameIndexRoundTrip(frames[Vpn(x) - Vpn(virt)], flags);
    }
  }

  /** The page of `virt + k*4096` for a request that fits. */
  lemma FittingPages(virt: Word, n: Word, k: nat)
    requires 0 < n && Fits(virt, n) && k < n
    ensures virt + PAGE_SIZE * k < TWO64 && Vpn(virt + PAGE_SIZE * k) == Vpn(virt) + k && Vpn(virt) + n <= VPNS
  {
    hide Vpn, AlignDown;
    PageBase(virt);
    var base := AlignDown(virt, PAGE_SIZE);
    AlignNext(base, L4_RANGE);
    var a := virt + PAGE_SIZE * k;
    assert a / PAGE_SIZE == virt / PAGE_SIZE + k;
    InSameSlot(base, virt);
    InSameSlot(base, a);
    SlotParts(virt);
    SlotParts(a);
    assert base / PAGE_SIZE == base / L4_RANGE * Span(3) + base / PAGE_SIZE % Span(3) by { SlotParts(base); }
  }

  /** A call with accepted arguments: it works through its plan, and runs out of memory or ends as planned. */
  ghost predicate Ran(s: State, s': State, root: nat, virt: Word, n: Word, frames: seq<nat>, flags: nat, r: Status,
                      made: set<Label>) {
    && r in {ENoMem, if PlanStrays(virt, n) then Astray else Ok}
    && Outcome(s, s', root, Vpn(virt), Planned(virt, n), frames, flags, r, made)
  }

  /** What a request that fits does, seen through the lookup: the delivered frames appear at the
      requested addresses in order, all other pages translate as before, and a failure stops at a
      2 MB boundary. */
  lemma MapOutcome(s: State, s': State, root: nat, virt: Word, n: Word, frames: seq<nat>, flags: nat, r: Status,
                   made: set<Label>)
    requires 0 < n && Fits(virt, n) && Outcome(s, s', root, Vpn(virt), n, frames, flags, r, made)
    requires forall k :: 0 <= k < |frames| ==> frames[k] < TWO32
    ensures |frames| <= n && (|frames| < n <==> r == ENoMem)
    ensures r == ENoMem ==> frames == [] || (AlignDown(virt, PAGE_SIZE) + PAGE_SIZE * |frames|) % L2_RANGE == 0
    ensures forall k: nat :: k < |frames| ==> Lookup(s'.mem, root, Add64(virt, PAGE_SIZE * k)) == frames[k]
    ensures forall x: Word :: !(Vpn(virt) <= Vpn(x) < Vpn(virt) + |frames|) ==>
            Lookup(s'.mem, root, x) == Lookup(s.mem, root, x)
  {
    hide Lookup, Vpn, Effect, Fits, AlignDown, Needed;
    OutcomeMapped(s, s', root, Vpn(virt), n, frames, flags, r, made);
    FittingPages(virt, n, 0);
    if frames != [] {
      forall x: Word ensures Lookup(s'.mem, root, x) ==
                if Vpn(virt) <= Vpn(x) < Vpn(virt) + |frames| then frames[Vpn(x) - Vpn(virt)]
                  else Lookup(s.mem, root, x)
      {
        LookupMapped(s.mem, s'.mem, root, virt, |frames|, frames, flags, x);
      }
      forall k: nat | k < |frames| ensures Lookup(s'.mem, root, Add64(virt, PAGE_SIZE * k)) == frames[k] {
        FittingPages(virt, n, k);
      }
      if r == ENoMem {
        StopAddress(virt, n, |frames|);
      }
    } else {
      forall x: Word ensures Lookup(s'.mem, root, x) == Lookup(s.mem, root, x) {
        LookupSame(s.mem, s'.mem, root, Vpn(virt), flags, x);
      }
    }
  }

  lemma OutcomeMapped(s: State, s': State, root: nat, lo: nat, total: nat, frames: seq<nat>, flags: nat, r: Status,
                      made: set<Label>)
    requires Outcome(s, s', root, lo, total, frames, flags, r, made)
    ensures Mapped(s.mem, s'.mem, root, lo, frames, flags)
  {
  }

  lemma LookupSame(m: Memory, m': Memory, root: nat, lo: nat, flags: nat, x: Word)
    requires Mapped(m, m', root, lo, [], flags)
    ensures Lookup(m', root, x) == Lookup(m, root, x)
  {
    hide FrameIndex, Pte, Table;
  }

  lemma StopAddress(virt: Word, n: Word, k: nat)
    requires 0 < k < n && Fits(virt, n) && (Vpn(virt) + k) % ENTRIES == 0
    ensures (AlignDown(virt, PAGE_SIZE) + PAGE_SIZE * k) % L2_RANGE == 0
  {
    hide Vpn, AlignDown, Fits;
    FittingPages(virt, n, k);
    PageBase(virt);
    var a := AlignDown(virt, PAGE_SIZE) + PAGE_SIZE * k;
    PagesFurther(virt, k);
    PagesFurther(AlignDown(virt, PAGE_SIZE), k);
    SamePage(a, virt + PAGE_SIZE * k);
    TableStart(a);
  }

  lemma TableStart(a: Word)
    requires a % PAGE_SIZE == 0 && Vpn(a) % ENTRIES == 0
    ensures a % L2_RANGE == 0
  {
    hide Vpn;
    IndexBits(a);
  }

  lemma SamePage(a: Word, b: Word)
    requires a / PAGE_SIZE == b / PAGE_SIZE
    ensures Vpn(a) == Vpn(b)
  {
  }

  lemma InSameSlot(base: nat, a: nat)
    requires base <= a < (base / L4_RANGE + 1) * L4_RANGE
    ensures a / L4_RANGE == base / L4_RANGE
  {
  }

  lemma RootFacts(s: State, root: nat, v: nat)
    requires Sound(s, root) && v < VPNS
    ensures root < |s.mem| && root in s.own && s.own[root] == Label(4, 0)
            && Table(s.mem, root, 4, v / Span(4)) == Some(root)
    ensures !s.mem[root][v / Span(3) % ENTRIES].present ==> Table(s.mem, root, 3, v / Span(3)).None?
  {
    Prefixes(v);
    EntryTable(s.mem, root, 4, 0, root, v / Span(3) % ENTRIES);
  }

  lemma SlotIndex(base: Word)
    ensures base / L4_RANGE % ENTRIES == Vpn(base) / Span(3) % ENTRIES && Vpn(base) < VPNS
    ensures Vpn(base) / Span(3) < ENTRIES && IsLabel(4, Vpn(base) / Span(4)) && Vpn(base) / Span(4) == 0
    ensures Label(3, 0 * ENTRIES + Vpn(base) / Span(3) % ENTRIES) == Label(3, Vpn(base) / Span(3))
  {
    IndexBits(base);
    VpnLow(base);
    Prefixes(Vpn(base));
  }

  lemma VisitedPositive(a: nat, end: nat)
    ensures Visited(a, end) > 0
  {
  }

  /** The walk from the root, table by table. */
  lemma WalkSteps(s: State, root: nat, a: Word)
    requires Sound(s, root)
    ensures var v := Vpn(a);
            && root < |s.mem|
            && var e4 := s.mem[root][a / L4_RANGE % ENTRIES];
            if !e4.present then Translate(s.mem, root, v) == None else
              && TableFrame(e4) < |s.mem|
              && var e3 := s.mem[TableFrame(e4)][a / L3_RANGE % ENTRIES];
              if !e3.present then Translate(s.mem, root, v) == None else
                && TableFrame(e3) < |s.mem|
                && var e2 := s.mem[TableFrame(e3)][a / L2_RANGE % ENTRIES];
                if !e2.present then Translate(s.mem, root, v) == None else
                  && TableFrame(e2) < |s.mem|
                  && var e1 := s.mem[TableFrame(e2)][a / PAGE_SIZE % ENTRIES];
                  Translate(s.mem, root, v) == if e1.present then Some(e1) else None
  {
    hide Vpn, TableFrame, Sound, Table;
    var v := Vpn(a);
    VpnLow(a);
    IndexBits(a);
    Digits(a, L2_RANGE, ENTRIES);
    RootFacts(s, root, v);
    WalkUp(s, root, v, 3);
    WalkUp(s, root, v, 2);
    WalkUp(s, root, v, 1);
  }

  lemma WalkUp(s: State, root: nat, v: nat, l: nat)
    requires Sound(s, root) && v < VPNS && 1 <= l <= 3
    ensures match Table(s.mem, root, l + 1, v / Span(l + 1))
            case None => Table(s.mem, root, l, v / Span(l)) == None
            case Some(f) =>
              && f < |s.mem|
              && Table(s.mem, root, l, v / Span(l)) ==
                 if s.mem[f][v / Span(l) % ENTRIES].present then Some(TableFrame(s.mem[f][v / Span(l) % ENTRIES]))
                   else None
    ensures Table(s.mem, root, l, v / Span(l)).Some? ==> Table(s.mem, root, l, v / Span(l)).value < |s.mem|
  {
    hide Table, TableFrame, Sound;
    Prefixes(v);
    Digits(v, Span(l), ENTRIES);
    TableStep(s.mem, root, l, v / Span(l));
    if Table(s.mem, root, l + 1, v / Span(l + 1)).Some? {
      TableInMemory(s, root, l + 1, v / Span(l + 1));
    }
    if Table(s.mem, root, l, v / Span(l)).Some? {
      TableInMemory(s, root, l, v / Span(l));
    }
  }

  lemma PdpNeeded(m: Memory, root: nat, lo: nat, hi: nat)
    requires lo < hi && lo < VPNS && Table(m, root, 3, lo / Span(3)).None?
    ensures Label(3, lo / Span(3)) in Needed(m, root, lo, hi)
  {
    Prefixes(lo);
    assert Touches(3, lo / Span(3), lo, hi);
  }

  /** Creating the table of the slot first, and then walking the range. */
  lemma RootThenRange(s0: State, s1: State, s2: State, root: nat, lo: nat, total: nat, frames: seq<nat>, flags: nat,
                      r: Status, made: set<Label>)
    returns (made': set<Label>)
    requires Sound(s0, root) && lo < VPNS && total > 0
    requires if root < |s0.mem| && s0.mem[root][lo / Span(3) % ENTRIES].present then s1 == s0
             else Effect(s0, s1, root, lo, [], flags, {Label(3, lo / Span(3))})
    requires Outcome(s1, s2, root, lo, total, frames, flags, r, made)
    ensures Outcome(s0, s2, root, lo, total, frames, flags, r, made')
  {
    hide Sound, Needed, Table, Tree, Effect, Outcome, Progress;
    RootFacts(s0, root, lo);
    ProgressStart(s0, root, lo, total, flags);
    var l := Label(3, lo / Span(3));
    made' := made;
    if !s0.mem[root][lo / Span(3) % ENTRIES].present {
      PdpNeeded(s0.mem, root, lo, lo + total);
      ProgressTable(s0, s0, s1, root, lo, total, [], flags, {}, l);
      made' := {} + {l} + made;
      ProgressAll(s0, s1, s2, root, lo, total, frames, flags, r, {} + {l}, made);
    }
  }

  lemma ProgressAll(s0: State, s1: State, s2: State, root: nat, lo: nat, total: nat, frames: seq<nat>, flags: nat,
                    r: Status, made: set<Label>, made': set<Label>)
    requires Progress(s0, s1, root, lo, total, [], flags, made)
             && Outcome(s1, s2, root, lo, total, frames, flags, r, made')
    ensures Outcome(s0, s2, root, lo, total, frames, flags, r, made + made')
  {
    hide Extends, Mapped, Needed;
    assert [] + frames == frames;
    if r == ENoMem {
      ProgressFails(s0, s1, s2, root, lo, total, [], frames, total, flags, made, made');
    } else {
      ProgressPart(s0, s1, s2, root, lo, total, [], frames, flags, made, made');
      ProgressDone(s0, s2, root, lo, total, frames, flags, made + made', r);
    }
  }
}
