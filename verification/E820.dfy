/** Which pages are usable memory according to the E820 map (include/eza/amd64/e820map.h), and the
    cursor with which `initialize_page_array` (mm/mm.c) finds out in one pass over map and pages. */
module E820 {
  import opened Words

  const E820_USABLE: nat := 1
  const MAXRECORDS: nat := 32
  const KERNEL_PHYS_START: nat := 0x10_0000
  const MIN_PHYS_MEMORY_REQUIRED: nat := 0x180_0000

  type Half = h: nat | h < TWO32

  datatype Entry = Entry(baseAddress: Word, lengthLow: Half, lengthHigh: Half, kind: nat)

  type Table = seq<Entry>

  function Length(e: Entry): nat {
    e.lengthHigh * TWO32 + e.lengthLow
  }

  /** Both ends of an entry are rounded down to pages. */
  function Begin(e: Entry): Word {
    AlignDown(e.baseAddress, PAGE_SIZE)
  }

  function End(e: Entry): Word {
    AlignDown(Add64(e.baseAddress, Length(e)), PAGE_SIZE)
  }

  // ---------- what an entry says, in pages ----------

  /** The page in which an entry starts, and the one in which it ends (with 64-bit wrap-around). */
  function FirstPage(e: Entry): nat {
    e.baseAddress / PAGE_SIZE
  }

  function EndPage(e: Entry): nat {
    (e.baseAddress + e.lengthHigh * TWO32 + e.lengthLow) % TWO64 / PAGE_SIZE
  }

  /** The two ends lie in different pages. */
  ghost predicate NonEmpty(e: Entry) {
    FirstPage(e) < EndPage(e)
  }

  /** count entries in ascending order, without overlap, followed by a zeroed one. */
  ghost predicate Sorted(t: Table, count: nat) {
    && count < |t| <= MAXRECORDS && t[count] == Entry(0, 0, 0, 0)
    && (forall j :: 0 <= j < count ==> FirstPage(t[j]) <= EndPage(t[j]))
    && (forall j, k :: 0 <= j < k < count ==> EndPage(t[j]) <= FirstPage(t[k]))
  }

  ghost predicate Covers(e: Entry, a: nat) {
    FirstPage(e) <= a / PAGE_SIZE < EndPage(e)
  }

  /** An entry covers a page exactly if it starts before the end of the page and does not end inside or
      before it: the first page counts even if the entry starts in its middle, a last one in part does not. */
  lemma CoversExactly(e: Entry, page: nat)
    ensures Covers(e, page * PAGE_SIZE) <==>
              e.baseAddress < (page + 1) * PAGE_SIZE
              && (page + 1) * PAGE_SIZE <= (e.baseAddress + (e.lengthHigh * 0x1_0000_0000 + e.lengthLow)) % TWO64
  {
    Remainder(page, 0, PAGE_SIZE);
    Quotient(e.baseAddress, PAGE_SIZE);
    Quotient((e.baseAddress + e.lengthHigh * TWO32 + e.lengthLow) % TWO64, PAGE_SIZE);
  }

  /** The cursor's masks round both ends down to pages. */
  lemma Rounded(e: Entry)
    ensures Begin(e) == FirstPage(e) * PAGE_SIZE && End(e) == EndPage(e) * PAGE_SIZE
    ensures NonEmpty(e) <==> Begin(e) < End(e)
  {
    Quotient(e.baseAddress, PAGE_SIZE);
    Quotient(Add64(e.baseAddress, Length(e)), PAGE_SIZE);
  }

  lemma CoversAt(e: Entry, a: nat)
    ensures Covers(e, a) <==> Begin(e) <= a < End(e)
  {
    hide Begin, End, FirstPage, EndPage;
    Rounded(e);
    Between(FirstPage(e), a, EndPage(e));
  }

  lemma Between(p: nat, a: nat, q: nat)
    ensures p <= a / PAGE_SIZE < q <==> p * PAGE_SIZE <= a < q * PAGE_SIZE
  {
    Quotient(a, PAGE_SIZE);
  }

  /** Both facts for all entries of a table. */
  lemma Bridge(t: Table, count: nat, a: nat)
    requires count < |t|
    ensures forall j :: 0 <= j <= count ==> (Covers(t[j], a) <==> Begin(t[j]) <= a < End(t[j]))
    ensures forall j :: 0 <= j <= count ==> (NonEmpty(t[j]) <==> Begin(t[j]) < End(t[j]))
  {
    hide Begin, End, Covers, NonEmpty;
    forall j | 0 <= j <= count
      ensures (Covers(t[j], a) <==> Begin(t[j]) <= a < End(t[j])) && (NonEmpty(t[j]) <==> Begin(t[j]) < End(t[j]))
    {
      CoversAt(t[j], a);
      Rounded(t[j]);
    }
  }

  lemma EntryOrder(t: Table, count: nat, j: nat, k: nat)
    requires Sorted(t, count) && j < k < count
    ensures End(t[j]) <= Begin(t[k])
  {
    hide Begin, End, FirstPage, EndPage;
    Rounded(t[j]);
    Rounded(t[k]);
  }

  /** The declarative classification: some usable entry covers the page at address a. */
  ghost predicate Usable(t: Table, count: nat, a: nat)
    requires count <= |t|
  {
    exists j :: 0 <= j < count && Covers(t[j], a) && t[j].kind == E820_USABLE
  }

  /** The pass gets to entry j: it gets stuck at the first entry after entry 0 whose ends, rounded down,
      lie in the same page, and it leaves entry 0 at once if that does not start at address 0. */
  ghost predicate Reached(t: Table, j: nat)
    requires j < |t|
  {
    (j == 0 ==> t[0].baseAddress == 0) && forall k :: 1 <= k <= j ==> NonEmpty(t[k])
  }

  /** What the pass finds. */
  ghost predicate Found(t: Table, count: nat, a: nat)
    requires count <= |t|
  {
    exists j :: 0 <= j < count && Reached(t, j) && Covers(t[j], a) && t[j].kind == E820_USABLE
  }

  lemma PageOrder(t: Table, count: nat, j: nat, k: nat)
    requires Sorted(t, count) && j < k < count
    ensures EndPage(t[j]) <= FirstPage(t[k])
  {
    hide FirstPage, EndPage;
  }

  /** The pass agrees with the map on the page at a exactly if no usable entry that it does not get to
      covers the page. */
  lemma FoundExactly(t: Table, count: nat, a: nat)
    requires Sorted(t, count)
    ensures (Found(t, count, a) <==> Usable(t, count, a)) <==>
            forall j :: 0 <= j < count && !Reached(t, j) && t[j].kind == E820_USABLE ==> !Covers(t[j], a)
  {
    hide Reached, FirstPage, EndPage;
    forall j: nat, k: nat | j < count && k < count && Covers(t[j], a) && Covers(t[k], a) ensures j == k {
      if j < k {
        PageOrder(t, count, j, k);
      } else if k < j {
        PageOrder(t, count, k, j);
      }
    }
  }

  /** If the first entry starts at 0 and no other has both ends in the same page, the pass agrees with the
      map at every address. */
  lemma FoundIsUsable(t: Table, count: nat, a: nat)
    requires Sorted(t, count) && t[0].baseAddress == 0 && forall k :: 1 <= k < count ==> NonEmpty(t[k])
    ensures Found(t, count, a) <==> Usable(t, count, a)
  {
    hide FirstPage, EndPage, NonEmpty, Covers;
    forall j | 0 <= j < count ensures Reached(t, j) {
    }
  }

  // ---------- how much memory there is ----------

  /** The entry that decides: usable memory from 1 MB on. */
  predicate IsMain(e: Entry) {
    e.baseAddress == KERNEL_PHYS_START && e.kind == E820_USABLE
  }

  ghost predicate MainAt(t: Table, count: nat, k: nat)
    requires count <= |t|
  {
    k < count && IsMain(t[k]) && forall j :: 0 <= j < k ==> !IsMain(t[j])
  }

  function Top(e: Entry): Word {
    Add64(e.baseAddress, Length(e))
  }

  /** The test for too little memory, whose subtraction has its operands swapped and wraps around. */
  predicate Accepts(minPhysAddr: Word, maxPhysAddr: Word) {
    !(maxPhysAddr <= minPhysAddr || Sub64(minPhysAddr, maxPhysAddr) <= MIN_PHYS_MEMORY_REQUIRED)
  }

  /** `detect_physical_memory`: the end of the first usable entry at 1 MB, or None for the kernel's panic. */
  method DetectPhysicalMemory(t: Table, count: nat) returns (max: Option<Word>)
    requires count <= |t|
    ensures max.Some? <==> exists k: nat :: MainAt(t, count, k) && Accepts(0, Top(t[k]))
    ensures forall k: nat :: MainAt(t, count, k) && max.Some? ==> max.value == Top(t[k])
  {
    hide Top, Accepts, IsMain;
    var found, maxPhysAddr: Word := false, 0;
    ghost var at := 0;
    for idx := 0 to count
      invariant found ==> at < idx && MainAt(t, count, at) && maxPhysAddr == Top(t[at])
      invariant !found ==> forall j :: 0 <= j < idx ==> !IsMain(t[j])
    {
      if !found && IsMain(t[idx]) {
        found, maxPhysAddr, at := true, Top(t[idx]), idx;
      }
    }
    if !found || !Accepts(0, maxPhysAddr) {
      return None;
    }
    max := Some(maxPhysAddr);
  }

  /** The test was meant to refuse less than the required memory. It does what was meant exactly if there
      is no memory at all, or more than required (and not almost 2^64 bytes); up to 24 MB it accepts. */
  lemma AcceptsExactly(max: Word)
    ensures (Accepts(0, max) <==> max > MIN_PHYS_MEMORY_REQUIRED)
       <==> max == 0 || MIN_PHYS_MEMORY_REQUIRED < max < TWO64 - MIN_PHYS_MEMORY_REQUIRED
  {
  }

  /** The pass leaves out nothing below the end of entry k: every entry from 1 on up to it covers a page,
      and the first one starts at 0 or holds no usable page. */
  ghost predicate AllReached(t: Table, k: nat)
    requires k < |t|
  {
    && (forall j :: 1 <= j < k ==> NonEmpty(t[j]))
    && (t[0].baseAddress == 0 || t[0].kind != E820_USABLE || !NonEmpty(t[0]))
  }

  lemma MainBegins(e: Entry)
    requires IsMain(e)
    ensures FirstPage(e) == 0x100
  {
    Remainder(0x100, 0, PAGE_SIZE);
  }

  /** Below the end of an entry, the pass agrees with the map if every entry before it is reached. */
  lemma AgreesBelow(t: Table, count: nat, k: nat, a: nat)
    requires Sorted(t, count) && k < count && NonEmpty(t[k]) && AllReached(t, k) && a / PAGE_SIZE < EndPage(t[k])
    ensures Found(t, count, a) <==> Usable(t, count, a)
  {
    hide FirstPage, EndPage, Found, Usable;
    FoundExactly(t, count, a);
    forall j | 0 <= j < count && !Reached(t, j) && t[j].kind == E820_USABLE ensures !Covers(t[j], a) {
      if j > k {
        PageOrder(t, count, k, j);
      }
    }
  }

  /** On the memory that the kernel manages, which ends with the entry at 1 MB, the pass agrees with the
      map on every address exactly if, before that entry, none has both ends in the same page (entry 0
      aside), and the first one starts at 0 or holds no usable page. */
  lemma PassAgreesExactly(t: Table, count: nat, k: nat)
    requires Sorted(t, count) && MainAt(t, count, k) && NonEmpty(t[k])
    ensures (forall a: nat :: a / PAGE_SIZE < EndPage(t[k]) ==> (Found(t, count, a) <==> Usable(t, count, a)))
       <==> AllReached(t, k)
  {
    hide FirstPage, EndPage, Found, Usable, AllReached;
    if AllReached(t, k) {
      forall a: nat | a / PAGE_SIZE < EndPage(t[k]) ensures Found(t, count, a) <==> Usable(t, count, a) {
        AgreesBelow(t, count, k, a);
      }
    } else {
      var a := MissedPage(t, count, k);
    }
  }

  lemma MissedPage(t: Table, count: nat, k: nat) returns (a: nat)
    requires Sorted(t, count) && MainAt(t, count, k) && NonEmpty(t[k]) && !AllReached(t, k)
    ensures a / PAGE_SIZE < EndPage(t[k]) && Usable(t, count, a) && !Found(t, count, a)
  {
    hide FirstPage, EndPage, Found, Usable;
    var j := if forall i :: 1 <= i < k ==> NonEmpty(t[i]) then 0 else k;
    a := FirstPage(t[j]) * PAGE_SIZE;
    Remainder(FirstPage(t[j]), 0, PAGE_SIZE);
    assert Covers(t[j], a) && !Reached(t, j);
    CoveredOnce(t, count, j, a);
    if j < k {
      PageOrder(t, count, j, k);
    }
  }

  /** A usable entry that is not reached keeps its pages from being found. */
  lemma CoveredOnce(t: Table, count: nat, j: nat, a: nat)
    requires Sorted(t, count) && j < count && Covers(t[j], a) && t[j].kind == E820_USABLE && !Reached(t, j)
    ensures Usable(t, count, a) && !Found(t, count, a)
  {
    hide Covers, Found, Reached;
    FoundExactly(t, count, a);
  }

  /** An entry before the one at 1 MB, other than the first, with both ends in the same page hides all
      memory from 1 MB on. */
  lemma HidesAll(t: Table, count: nat, k: nat, j: nat, a: nat)
    requires Sorted(t, count) && MainAt(t, count, k) && 1 <= j < k && !NonEmpty(t[j]) && a >= KERNEL_PHYS_START
    ensures !Found(t, count, a)
  {
    hide FirstPage, EndPage;
    MainBegins(t[k]);
    forall i | 0 <= i < count && Reached(t, i) ensures !Covers(t[i], a) {
      assert i < j;
      PageOrder(t, count, i, k);
    }
  }

  /** A map with 2 KB of reserved memory below 1 MB: the 7 MB of usable memory from there on are not found. */
  lemma StuckExample() returns (t: Table)
    ensures Sorted(t, 3) && MainAt(t, 3, 2) && Top(t[2]) == 0x80_0000 && Accepts(0, Top(t[2]))
    ensures forall a: nat :: 0x10_0000 <= a < 0x80_0000 ==> Usable(t, 3, a) && !Found(t, 3, a)
  {
    hide FirstPage, EndPage, Sorted, Usable, Found, Covers, NonEmpty;
    var e0, e1 := Entry(0, 0x9_f000, 0, 1), Entry(0xa_0000, 0x800, 0, 2);
    var e2, e3 := Entry(0x10_0000, 0x70_0000, 0, 1), Entry(0, 0, 0, 0);
    t := [e0, e1, e2, e3];
    PagesAre(e0, 0, 0x9f, 0);
    PagesAre(e1, 0xa0, 0xa0, 0x800);
    PagesAre(e2, 0x100, 0x800, 0);
    StuckSorted(t);
    forall a: nat | 0x10_0000 <= a < 0x80_0000 ensures Usable(t, 3, a) && !Found(t, 3, a) {
      HidesAll(t, 3, 2, 1, a);
      StuckUsable(t, a);
    }
  }

  lemma StuckUsable(t: Table, a: nat)
    requires |t| == 4 && t[2].kind == E820_USABLE && Covers(t[2], a)
    ensures Usable(t, 3, a)
  {
    hide Covers;
  }

  /** An entry from page i on that ends r bytes into page k. */
  lemma PagesAre(e: Entry, i: nat, k: nat, r: nat)
    requires e.baseAddress == i * PAGE_SIZE && r < PAGE_SIZE
    requires e.baseAddress + e.lengthHigh * TWO32 + e.lengthLow == k * PAGE_SIZE + r < TWO64
    ensures FirstPage(e) == i && EndPage(e) == k
  {
    Remainder(i, 0, PAGE_SIZE);
    Remainder(k, r, PAGE_SIZE);
  }

  lemma StuckSorted(t: Table)
    requires |t| == 4 && t[3] == Entry(0, 0, 0, 0)
    requires FirstPage(t[0]) == 0 && EndPage(t[0]) == 0x9f && FirstPage(t[1]) == 0xa0 && EndPage(t[1]) == 0xa0
    requires FirstPage(t[2]) == 0x100 && EndPage(t[2]) == 0x800
    ensures Sorted(t, 3) && !NonEmpty(t[1]) && forall a: nat :: 0x10_0000 <= a < 0x80_0000 ==> Covers(t[2], a)
  {
    hide FirstPage, EndPage;
  }

  // ---------- the cursor ----------

  /** `e820id`, `mmap_begin`, `mmap_end`, `type` and `just_left` */
  datatype Cursor = Cursor(id: nat, begin: nat, end: nat, kind: nat, justLeft: bool)

  ghost predicate AtEntry(t: Table, count: nat, c: Cursor)
    requires Sorted(t, count)
  {
    && c.id <= count
    && (c.id < count ==>
          c.begin == (if c.id == 0 then t[0].baseAddress else Begin(t[c.id])) && c.end == End(t[c.id])
          && c.kind == t[c.id].kind)
    && (c.id == count ==> c.end == 0)
  }

  /** What holds when the pass looks at the page at address a. */
  ghost predicate Tracks(t: Table, count: nat, a: nat, c: Cursor)
    requires Sorted(t, count)
  {
    && AtEntry(t, count, c) && a % PAGE_SIZE == 0
    && (forall k :: 1 <= k < c.id ==> NonEmpty(t[k]))
    && (forall j :: 0 <= j < c.id && Reached(t, j) ==> End(t[j]) <= a)
    && (!c.justLeft ==>
          (c.id == 0 && a == 0)
          || (c.id < count && a >= PAGE_SIZE && c.begin <= a - PAGE_SIZE < c.end && (c.id == 0 ==> c.begin == 0)))
    && (c.justLeft && c.id < count ==> c.id >= 1 && (NonEmpty(t[c.id]) ==> a <= Begin(t[c.id])))
  }

  predicate Inside(c: Cursor, a: nat) {
    c.begin <= a < c.end
  }

  /** On a page inside the current entry, the entry decides. */
  lemma InsideDecides(t: Table, count: nat, a: nat, c: Cursor)
    requires Sorted(t, count) && Tracks(t, count, a, c) && Inside(c, a)
    ensures Found(t, count, a) <==> c.kind == E820_USABLE
    ensures Tracks(t, count, a + PAGE_SIZE, c.(justLeft := false))
  {
    hide Begin, End, Covers, NonEmpty;
    Bridge(t, count, a);
    assert c.id < count;
    var e := t[c.id];
    StartsAtZero(t, count, a, c);
    assert Covers(e, a) && Reached(t, c.id);
    forall j | 0 <= j < count && Reached(t, j) && Covers(t[j], a) ensures j == c.id {
      if j > c.id {
        EntryOrder(t, count, c.id, j);
      }
    }
  }

  lemma StartsAtZero(t: Table, count: nat, a: nat, c: Cursor)
    requires Sorted(t, count) && Tracks(t, count, a, c) && Inside(c, a) && c.id < count
    ensures c.begin == Begin(t[c.id]) && (c.id == 0 ==> t[0].baseAddress == 0) && NonEmpty(t[c.id])
  {
    hide End, FirstPage, EndPage;
    Rounded(t[c.id]);
  }

  /** On a page outside the current entry, just after it became current, nothing covers the page. */
  lemma GapDecides(t: Table, count: nat, a: nat, c: Cursor)
    requires Sorted(t, count) && Tracks(t, count, a, c) && !Inside(c, a) && c.justLeft
    ensures !Found(t, count, a) && Tracks(t, count, a + PAGE_SIZE, c)
  {
    hide Begin, End, Covers, NonEmpty;
    Bridge(t, count, a);
    forall j | 0 <= j < count && Reached(t, j) ensures !Covers(t[j], a) {
      if j > c.id {
        EntryOrder(t, count, c.id, j);
        assert NonEmpty(t[c.id]);
      }
    }
    if c.id < count && NonEmpty(t[c.id]) {
      NextPage(a, Begin(t[c.id]));
      EntryAligned(t[c.id]);
    }
  }

  lemma EntryAligned(e: Entry)
    ensures Begin(e) % PAGE_SIZE == 0 && End(e) % PAGE_SIZE == 0
  {
  }

  lemma NextPage(a: nat, b: nat)
    ensures a % PAGE_SIZE == 0 && b % PAGE_SIZE == 0 && a < b ==> a + PAGE_SIZE <= b
    ensures a % PAGE_SIZE == 0 ==> (a + PAGE_SIZE) % PAGE_SIZE == 0
  {
  }

  /** Leaving an entry moves the cursor to the next one, for the same page. */
  lemma SwitchTracks(t: Table, count: nat, a: nat, c: Cursor)
    requires Sorted(t, count) && Tracks(t, count, a, c) && !Inside(c, a) && !c.justLeft
    ensures c.id < count ==>
              var e := t[c.id + 1];
              Tracks(t, count, a, Cursor(c.id + 1, Begin(e), End(e), e.kind, true))
    ensures c.id == count ==> Tracks(t, count, a, c.(begin := 0, end := 0, justLeft := true))
  {
    hide Begin, End, NonEmpty;
    Bridge(t, count, a);
    if c.id < count {
      LeftEnd(t, count, a, c);
      if c.id + 1 < count {
        EntryOrder(t, count, c.id, c.id + 1);
      } else {
        SentinelEmpty();
      }
    }
  }

  lemma SentinelEmpty()
    ensures Begin(Entry(0, 0, 0, 0)) == 0 && End(Entry(0, 0, 0, 0)) == 0
  {
    hide Begin, End, FirstPage, EndPage;
    PagesAre(Entry(0, 0, 0, 0), 0, 0, 0);
    Rounded(Entry(0, 0, 0, 0));
  }

  /** An entry is left exactly at its end. */
  lemma LeftEnd(t: Table, count: nat, a: nat, c: Cursor)
    requires Sorted(t, count) && Tracks(t, count, a, c) && !Inside(c, a) && !c.justLeft && c.id < count
    ensures a <= End(t[c.id]) && (Reached(t, c.id) ==> End(t[c.id]) <= a) && (c.id > 0 ==> NonEmpty(t[c.id]))
  {
    hide Begin, End, NonEmpty;
    Bridge(t, count, a);
    EntryAligned(t[c.id]);
    if a > 0 {
      NextPage(a - PAGE_SIZE, End(t[c.id]));
      PageBefore(a);
    }
  }

  lemma PageBefore(a: nat)
    requires a % PAGE_SIZE == 0 && a >= PAGE_SIZE
    ensures (a - PAGE_SIZE) % PAGE_SIZE == 0
  {
  }
}
