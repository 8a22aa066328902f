/** Address arithmetic of the mapper (eza/amd64/mm/pt.c) and its loops over the entries of one table:
    what holds at every round. All address arithmetic is 64-bit and wraps. */
module PageRanges {
  import opened Words
  import opened PageTable
  import opened PageRights
  import opened MapState

  // ---------- address arithmetic ----------

  /** How many pages the do-while loops visit between two addresses: at least one. */
  function Pages(a: nat, end: nat): nat {
    if end <= a then 1 else (end - a + PAGE_SIZE - 1) / PAGE_SIZE
  }

  /** `end` lies in the same aligned block of `size` bytes as `a`, or the loop runs only once. */
  ghost predicate InBlock(a: Word, end: Word, size: nat)
    requires size > 0
  {
    && a % PAGE_SIZE == 0
    && (end == 0 || (a <= end <= AlignDown(a, size) + size && a < LAST_GB))
  }

  lemma AddLow(x: nat, n: nat, size: nat)
    requires size == ENTRIES || size == Span(2) || size == Span(3)
    requires x % size + n < size
    ensures (x + n) / size == x / size && (x + n) % size == x % size + n
  {
  }

  lemma VpnLow(a: Word)
    ensures Vpn(a) % ENTRIES == a / PAGE_SIZE % ENTRIES
    ensures Vpn(a) % Span(2) == a / PAGE_SIZE % Span(2)
    ensures Vpn(a) % Span(3) == a / PAGE_SIZE % Span(3)
    ensures Vpn(a) < VPNS
  {
    Digits(a / PAGE_SIZE, ENTRIES, Span(3));
    Digits(a / PAGE_SIZE, Span(2), Span(2));
    Digits(a / PAGE_SIZE, Span(3), ENTRIES);
  }

  /** The table indices that the code takes from an address are those of its page number. */
  lemma IndexBits(a: Word)
    ensures Vpn(a) / ENTRIES % ENTRIES == a / L2_RANGE % ENTRIES
    ensures Vpn(a) / Span(2) % ENTRIES == a / L3_RANGE % ENTRIES
    ensures Vpn(a) / Span(3) % ENTRIES == a / L4_RANGE % ENTRIES
    ensures Vpn(a) / Span(2) == a / L3_RANGE % Span(2)
    ensures Vpn(a) / Span(3) == a / L4_RANGE % ENTRIES
    ensures Vpn(a) % ENTRIES == 0 && a % PAGE_SIZE == 0 ==> a % L2_RANGE == 0
    ensures a % L2_RANGE == 0 ==> Vpn(a) % ENTRIES == 0
  {
    var p := a / PAGE_SIZE;
    Digits(a, PAGE_SIZE, ENTRIES);
    Digits(a, PAGE_SIZE, Span(2));
    Digits(a, PAGE_SIZE, Span(3));
    Digits(p, ENTRIES, Span(3));
    Digits(p / ENTRIES, ENTRIES, Span(2));
    Digits(p, Span(2), Span(2));
    Digits(p / Span(2), ENTRIES, ENTRIES);
    Digits(p, Span(3), ENTRIES);
  }

  lemma PagesInBlock(a: Word, end: Word)
    requires InBlock(a, end, L2_RANGE)
    ensures a / PAGE_SIZE % ENTRIES + Pages(a, end) <= ENTRIES
  {
    var b := AlignDown(a, L2_RANGE);
    assert a == b + (a / PAGE_SIZE % ENTRIES) * PAGE_SIZE;
  }

  /** One step of the innermost loop: page v, the one after those already mapped, gets frame idx. */
  lemma PteStep(s0: State, s1: State, root: nat, t: nat, lo: nat, a: seq<nat>, idx: nat, flags: nat)
    requires Effect(s0, s1, root, lo, a, flags, {}) && Sound(s1, root)
    requires lo + |a| < VPNS && Table(s1.mem, root, 1, (lo + |a|) / ENTRIES) == Some(t) && t < |s1.mem|
    ensures var s2 := s1.(mem := Put(s1.mem, t, (lo + |a|) % ENTRIES, Pte(idx, flags)));
            && Sound(s2, root) && Effect(s0, s2, root, lo, a + [idx], flags, {})
            && Table(s2.mem, root, 1, (lo + |a|) / ENTRIES) == Some(t)
  {
    hide Effect, Sound, Table, Pte;
    var s2 := s1.(mem := Put(s1.mem, t, (lo + |a|) % ENTRIES, Pte(idx, flags)));
    PteEffect(s1, root, t, lo + |a|, idx, flags);
    var none: set<Label> := {};
    EffectTrans(s0, s1, s2, root, lo, a, [idx], flags, none, none);
    assert none + none == none;
  }

  lemma EffectRefl(s: State, root: nat, lo: nat, flags: nat)
    ensures Effect(s, s, root, lo, [], flags, {})
  {
  }

  /** The prefixes of a page number, and the table indices between them. */
  lemma Prefixes(v: nat)
    requires v < VPNS
    ensures IsLabel(1, v / Span(1)) && IsLabel(2, v / Span(2)) && IsLabel(3, v / Span(3)) && IsLabel(4, v / Span(4))
            && v / Span(4) == 0
    ensures v / Span(1) == v / Span(2) * ENTRIES + v / ENTRIES % ENTRIES
    ensures v / Span(2) == v / Span(3) * ENTRIES + v / Span(2) % ENTRIES
    ensures v / Span(3) == v / Span(3) % ENTRIES
    ensures v / Span(1) == v / ENTRIES
  {
    assert v / Span(2) == v / ENTRIES / ENTRIES;
    assert v / Span(3) == v / Span(2) / ENTRIES;
  }

  /** The page table behind a present page-directory entry. */
  lemma LeafTable(s: State, root: nat, virt: Word, f: nat, i: nat, t: nat)
    requires Sound(s, root) && Table(s.mem, root, 2, Vpn(virt) / Span(2)) == Some(f) && f < |s.mem|
    requires i == Vpn(virt) / ENTRIES % ENTRIES && s.mem[f][i].present && t == TableFrame(s.mem[f][i])
    ensures Table(s.mem, root, 1, Vpn(virt) / ENTRIES) == Some(t) && t < |s.mem| && t in s.own
  {
    Prefixes(Vpn(virt));
    EntryTable(s.mem, root, 2, Vpn(virt) / Span(2), f, i);
    TableInMemory(s, root, 1, Vpn(virt) / ENTRIES);
  }

  lemma PagesPositive(a: Word, end: Word)
    ensures Pages(a, end) > 0
  {
  }

  /** The loop that visits page after page goes on as long as pages of the range are left. */
  lemma PageLoop(a: Word, end: Word, n: nat)
    requires InBlock(a, end, L2_RANGE) && n < Pages(a, end)
    ensures n + 1 < Pages(a, end) ==> Add64(a + PAGE_SIZE * n, PAGE_SIZE) == a + PAGE_SIZE * (n + 1)
    ensures Add64(a + PAGE_SIZE * n, PAGE_SIZE) < end <==> n + 1 < Pages(a, end)
    ensures Vpn(a) + n < VPNS && (Vpn(a) + n) / ENTRIES == Vpn(a) / ENTRIES
    ensures a + PAGE_SIZE * n < TWO64 && (a + PAGE_SIZE * n) / PAGE_SIZE % ENTRIES == (Vpn(a) + n) % ENTRIES
  {
    hide Vpn, AlignDown;
    PagesInBlock(a, end);
    VpnLow(a);
    AddLow(Vpn(a), n, ENTRIES);
    AddLow(a / PAGE_SIZE, n, ENTRIES);
    assert (a + PAGE_SIZE * n) / PAGE_SIZE == a / PAGE_SIZE + n;
    assert Vpn(a) / ENTRIES < Span(3);
  }

  /** The end of the part of the range, from `a` on, that lies below one table entry of `size` bytes:
      `to_addr = virt_addr + length`, cut off at the next multiple of `size`. */
  function Clamp(a: Word, length: Word, size: nat): Word
    requires size > 0
  {
    var to := Add64(a, length);
    var limit := AlignDown(Add64(a, size), size);
    if to > limit then limit else to
  }

  lemma SubExact(end: Word, a: Word)
    ensures a <= end ==> Sub64(end, a) == end - a
    ensures a > end ==> Sub64(end, a) == TWO64 + end - a
    ensures Add64(a, Sub64(end, a)) == end
  {
  }

  lemma SubSub(x: Word, y: Word, z: Word)
    ensures Sub64(Sub64(x, z), Sub64(y, z)) == Sub64(x, y)
  {
    SubExact(x, z);
    SubExact(y, z);
    SubExact(x, y);
  }

  lemma AlignNext(a: nat, size: nat)
    requires size > 0
    ensures AlignDown(a + size, size) == (a / size + 1) * size && AlignDown(a, size) == a / size * size
    ensures a < (a / size + 1) * size
  {
    var q, r := a / size, a % size;
    assert a + size == (q + 1) * size + r;
    Remainder(q + 1, r, size);
  }

  /** Below the last gigabyte the sum does not wrap, and the part ends at `end` or at the next boundary. */
  lemma ClampBelow(a: Word, end: Word, size: nat)
    requires size == L2_RANGE || size == L3_RANGE
    requires a <= end && a < LAST_GB
    ensures var next := (a / size + 1) * size;
            Clamp(a, Sub64(end, a), size) == if end > next then next else end
  {
    SubExact(end, a);
    AlignNext(a, size);
  }

  lemma ClampToZero(a: Word, size: nat)
    requires size > 0
    ensures Clamp(a, Sub64(0, a), size) == 0
  {
    SubExact(0, a);
  }

  lemma PagesSplit(a: nat, to: nat, end: nat)
    requires a % PAGE_SIZE == 0 && to % PAGE_SIZE == 0 && a < to < end
    ensures a + PAGE_SIZE * Pages(a, to) == to
    ensures Pages(a, end) == Pages(a, to) + Pages(to, end)
  {
  }

  /** The page count of a range that is entered n pages further on. */
  lemma PagesFrom(virt: nat, end: nat, n: nat)
    requires n < Pages(virt, end)
    ensures n > 0 ==> virt + PAGE_SIZE * n < end
    ensures Pages(virt + PAGE_SIZE * n, end) == Pages(virt, end) - n
  {
  }

  /** One round of the loop of `map_pdp3_range`, which stands at address a. */
  lemma PdeRound(a: Word, end: Word, blockEnd: nat)
    requires a % PAGE_SIZE == 0 && blockEnd % L3_RANGE == 0
    requires end == 0 || (a <= end <= blockEnd && a < blockEnd && a < LAST_GB
                          && a / L3_RANGE * L3_RANGE + L3_RANGE == blockEnd)
    ensures var to := Clamp(a, Sub64(end, a), L2_RANGE);
            && InBlock(a, to, L2_RANGE) && Pages(a, to) <= Pages(a, end)
            && (to < end <==> Pages(a, to) < Pages(a, end))
            && (to < end ==>
                  to == a + PAGE_SIZE * Pages(a, to) && to % L2_RANGE == 0 && a < to < blockEnd
                  && to / L3_RANGE == a / L3_RANGE)
            && (to < end ==> to / L2_RANGE == a / L2_RANGE + 1)
  {
    hide AlignDown, Clamp, Pages;
    if end == 0 {
      ClampToZero(a, L2_RANGE);
    } else {
      ClampBelow(a, end, L2_RANGE);
      NextBlock(a);
      var next := (a / L2_RANGE + 1) * L2_RANGE;
      if end > next {
        PagesSplit(a, next, end);
        PagesPositive(next, end);
        SameGigabyte(a, next);
      }
    }
  }

  /** The next 2 MB boundary. */
  lemma NextBlock(a: nat)
    ensures var next := (a / L2_RANGE + 1) * L2_RANGE;
            && a < next == AlignDown(a, L2_RANGE) + L2_RANGE && next % L2_RANGE == 0 && next % PAGE_SIZE == 0
            && next / L2_RANGE == a / L2_RANGE + 1
  {
    hide AlignDown;
    var q := a / L2_RANGE;
    AlignNext(a, L2_RANGE);
    Remainder(q + 1, 0, L2_RANGE);
    Remainder((q + 1) * ENTRIES, 0, PAGE_SIZE);
  }

  lemma SameGigabyte(a: nat, b: nat)
    requires a <= b < a / L3_RANGE * L3_RANGE + L3_RANGE
    ensures b / L3_RANGE == a / L3_RANGE
  {
    Remainder(a / L3_RANGE, b - a / L3_RANGE * L3_RANGE, L3_RANGE);
  }

  /** Page numbers, table indices and prefixes within one gigabyte. */
  lemma GigabyteBlock(virt: Word, a: Word)
    requires virt <= a && virt % PAGE_SIZE == 0 && a % PAGE_SIZE == 0 && a / L3_RANGE == virt / L3_RANGE
    ensures Vpn(a) == Vpn(virt) + (a - virt) / PAGE_SIZE
    ensures Vpn(a) / Span(2) == Vpn(virt) / Span(2)
    ensures Vpn(a) / ENTRIES % ENTRIES == a / L2_RANGE % ENTRIES
    ensures a % L2_RANGE == 0 ==> Vpn(a) % ENTRIES == 0
  {
    hide Vpn;
    VpnLow(virt);
    VpnLow(a);
    IndexBits(virt);
    IndexBits(a);
    Digits(virt, PAGE_SIZE, Span(2));
    Digits(a, PAGE_SIZE, Span(2));
  }

  lemma UpperTables(m: Memory, root: nat, v: nat)
    requires Table(m, root, 1, v / ENTRIES).Some?
    ensures Table(m, root, 2, v / Span(2)).Some? && Table(m, root, 3, v / Span(3)).Some?
  {
    hide Table;
    Digits(v, ENTRIES, ENTRIES);
    Digits(v, Span(2), ENTRIES);
    TableStep(m, root, 1, v / ENTRIES);
    TableStep(m, root, 2, v / Span(2));
  }

  lemma TouchedPrefix(l: nat, b: nat, lo: nat, hi: nat)
    requires 1 <= l <= 3 && lo < hi && lo / ENTRIES == (hi - 1) / ENTRIES && Touches(l, b, lo, hi)
    ensures b == lo / Span(l)
  {
    var q := lo / ENTRIES;
    assert ENTRIES * q <= lo && hi <= ENTRIES * q + ENTRIES;
    if l == 1 {
      assert b == q;
    } else if l == 2 {
      Digits(lo, ENTRIES, ENTRIES);
      assert b == q / ENTRIES;
    } else {
      Digits(lo, ENTRIES, Span(2));
      assert b == q / Span(2);
    }
  }

  /** Nothing is needed for pages below a page table that exists. */
  lemma NeededNone(m: Memory, root: nat, lo: nat, hi: nat)
    requires lo < hi && lo / ENTRIES == (hi - 1) / ENTRIES && Table(m, root, 1, lo / ENTRIES).Some?
    ensures Needed(m, root, lo, hi) == {}
  {
    hide Table, Touches;
    UpperTables(m, root, lo);
    forall l: nat, b: nat | 1 <= l <= 3 && b < Span(4 - l) && Touches(l, b, lo, hi) ensures Table(m, root, l, b).Some? {
      TouchedPrefix(l, b, lo, hi);
    }
  }

  /** The loop of `map_pdp3_range` stands at address a, in the gigabyte of `virt`, with the pages
      before a done; t is the page directory of that gigabyte. */
  ghost predicate PdeLoop(s: State, root: nat, virt: Word, end: Word, n: nat, a: Word, t: nat) {
    && Sound(s, root) && virt % PAGE_SIZE == 0
    && n < Pages(virt, end) && a == virt + PAGE_SIZE * n && (n == 0 || a % L2_RANGE == 0)
    && a / L3_RANGE == virt / L3_RANGE
    && Table(s.mem, root, 2, Vpn(virt) / Span(2)) == Some(t)
  }

  /** What the loop needs to know about address a and entry j of the page directory. */
  lemma PdeLoopAddr(virt: Word, end: Word, n: nat, a: Word, j: nat)
    requires virt % PAGE_SIZE == 0 && n < Pages(virt, end) && a == virt + PAGE_SIZE * n && (n == 0 || a % L2_RANGE == 0)
    requires a / L3_RANGE == virt / L3_RANGE && j == a / L2_RANGE % ENTRIES
    ensures a % PAGE_SIZE == 0 && Vpn(a) == Vpn(virt) + n && Pages(a, end) == Pages(virt, end) - n
    ensures n == 0 || (Vpn(virt) + n) % ENTRIES == 0
    ensures Vpn(a) / Span(2) == Vpn(virt) / Span(2) && IsLabel(2, Vpn(a) / Span(2)) && IsLabel(1, Vpn(a) / ENTRIES)
    ensures j == Vpn(a) / ENTRIES % ENTRIES && Vpn(a) < VPNS && Vpn(a) / ENTRIES == Vpn(a) / Span(2) * ENTRIES + j
  {
    hide Vpn, Pages;
    PagesFrom(virt, end, n);
    GigabyteBlock(virt, a);
    IndexBits(a);
    VpnLow(a);
    Prefixes(Vpn(a));
  }

  /** The part below entry j, the address after it, and the pages in it. */
  lemma PdePart(virt: Word, end: Word, n: nat, a: Word)
    requires InBlock(virt, end, L3_RANGE)
    requires n < Pages(virt, end) && a == virt + PAGE_SIZE * n && (n == 0 || a % L2_RANGE == 0)
    requires a / L3_RANGE == virt / L3_RANGE
    ensures var to := Clamp(a, Sub64(end, a), L2_RANGE);
            && InBlock(a, to, L2_RANGE) && n + Pages(a, to) <= Pages(virt, end)
            && (to < end <==> n + Pages(a, to) < Pages(virt, end))
            && (to < end ==>
                  to == virt + PAGE_SIZE * (n + Pages(a, to)) && to % L2_RANGE == 0
                  && to / L3_RANGE == virt / L3_RANGE)
            && (to < end ==> to / L2_RANGE % ENTRIES == a / L2_RANGE % ENTRIES + 1)
            && Sub64(Sub64(end, a), Sub64(to, a)) == Sub64(end, to)
            && 0 < Pages(a, to) && Vpn(a) / ENTRIES == (Vpn(a) + Pages(a, to) - 1) / ENTRIES
  {
    hide Pages, Clamp, Add64, Sub64, Vpn, InBlock;
    var to := Clamp(a, Sub64(end, a), L2_RANGE);
    PagesFrom(virt, end, n);
    PdeBounds(virt, end, n, a);
    PdeRound(a, end, (virt / L3_RANGE + 1) * L3_RANGE);
    SubSub(end, to, a);
    PagesPositive(a, to);
    PagesInBlock(a, to);
    VpnLow(a);
    AddLow(Vpn(a), Pages(a, to) - 1, ENTRIES);
    if to < end {
      NextIndex(a, to);
    }
  }

  lemma PdeBounds(virt: Word, end: Word, n: nat, a: Word)
    requires InBlock(virt, end, L3_RANGE)
    requires n < Pages(virt, end) && a == virt + PAGE_SIZE * n && a / L3_RANGE == virt / L3_RANGE
    ensures var blockEnd := (virt / L3_RANGE + 1) * L3_RANGE;
            && a % PAGE_SIZE == 0 && blockEnd % L3_RANGE == 0
            && (end == 0 || (a <= end <= blockEnd && a < blockEnd && a < LAST_GB
                             && a / L3_RANGE * L3_RANGE + L3_RANGE == blockEnd))
  {
    hide AlignDown, Pages;
    PagesFrom(virt, end, n);
    PagesFurther(virt, n);
    if end <= virt {
      PagesOnce(virt, end, n);
    }
    AlignNext(virt, L3_RANGE);
    Remainder(virt / L3_RANGE + 1, 0, L3_RANGE);
    if end != 0 {
      BelowLastGb(virt, a, end);
      Quotient(a, L3_RANGE);
    }
  }

  lemma BelowLastGb(virt: Word, a: Word, end: Word)
    requires virt < LAST_GB && a / L3_RANGE == virt / L3_RANGE
    ensures a < LAST_GB
  {
    Quotient(a, L3_RANGE);
    Quotient(virt, L3_RANGE);
  }

  lemma PagesFurther(a: nat, k: nat)
    ensures (a + PAGE_SIZE * k) / PAGE_SIZE == a / PAGE_SIZE + k && (a + PAGE_SIZE * k) % PAGE_SIZE == a % PAGE_SIZE
  {
    Remainder(a / PAGE_SIZE + k, a % PAGE_SIZE, PAGE_SIZE);
  }

  lemma PagesOnce(virt: nat, end: nat, n: nat)
    requires end <= virt && n < Pages(virt, end)
    ensures n == 0
  {
  }

  lemma NextIndex(a: Word, to: Word)
    requires to / L2_RANGE == a / L2_RANGE + 1 && to / L3_RANGE == a / L3_RANGE
    ensures to / L2_RANGE % ENTRIES == a / L2_RANGE % ENTRIES + 1
  {
    Digits(a, L2_RANGE, ENTRIES);
    Digits(to, L2_RANGE, ENTRIES);
  }

  lemma PdeRoundFacts(s: State, root: nat, virt: Word, end: Word, n: nat, a: Word, t: nat)
    requires InBlock(virt, end, L3_RANGE) && PdeLoop(s, root, virt, end, n, a, t)
    ensures var to := Clamp(a, Sub64(end, a), L2_RANGE);
            && InBlock(a, to, L2_RANGE) && 0 < Pages(a, to) && n + Pages(a, to) <= Pages(virt, end)
            && (to < end <==> n + Pages(a, to) < Pages(virt, end))
            && (to < end ==> to / L2_RANGE % ENTRIES == a / L2_RANGE % ENTRIES + 1)
            && Sub64(Sub64(end, a), Sub64(to, a)) == Sub64(end, to)
  {
    hide InBlock, Pages, Clamp, Add64, Sub64, Sound, Table;
    PdePart(virt, end, n, a);
  }

  /** Finishing the part below an existing page table. */
  lemma PdeAdvance(s0: State, s1: State, s2: State, root: nat, virt: Word, end: Word, n: nat, a: Word, t: nat,
                   done: seq<nat>, part: seq<nat>, flags: nat, made: set<Label>)
    requires InBlock(virt, end, L3_RANGE) && PdeLoop(s1, root, virt, end, n, a, t) && |done| == n
    requires Progress(s0, s1, root, Vpn(virt), Pages(virt, end), done, flags, made)
    requires Table(s1.mem, root, 1, Vpn(a) / ENTRIES).Some?
    requires var to := Clamp(a, Sub64(end, a), L2_RANGE);
             && |part| == Pages(a, to) && Effect(s1, s2, root, Vpn(a), part, flags, {}) && Sound(s2, root)
    ensures var to := Clamp(a, Sub64(end, a), L2_RANGE);
            to < end ==> PdeLoop(s2, root, virt, end, n + |part|, to, t)
    ensures Progress(s0, s2, root, Vpn(virt), Pages(virt, end), done + part, flags, made)
  {
    hide Progress, Effect, Sound, Needed, Tree, Table, Clamp, Vpn, Pages, Add64, Sub64, AlignDown, InBlock;
    PdePart(virt, end, n, a);
    PdeLoopAddr(virt, end, n, a, a / L2_RANGE % ENTRIES);
    NeededNone(s1.mem, root, Vpn(a), Vpn(a) + |part|);
    ProgressPart(s0, s1, s2, root, Vpn(virt), Pages(virt, end), done, part, flags, made, {});
    assert made + {} == made;
    EffectKeepsTable(s1, s2, root, Vpn(a), part, flags, {}, 2, Vpn(virt) / Span(2));
  }

  /** Making sure that entry j has a page table. */
  lemma PdeTable(s0: State, s1: State, s2: State, root: nat, virt: Word, end: Word, n: nat, a: Word, t: nat, j: nat,
                 done: seq<nat>, flags: nat, made: set<Label>) returns (made': set<Label>)
    requires InBlock(virt, end, L3_RANGE) && PdeLoop(s1, root, virt, end, n, a, t) && j == a / L2_RANGE % ENTRIES
    requires Progress(s0, s1, root, Vpn(virt), Pages(virt, end), done, flags, made) && |done| == n && Sound(s2, root)
    requires if t < |s1.mem| && s1.mem[t][j].present then s2 == s1
             else Effect(s1, s2, root, Vpn(virt) + n, [], flags, {Label(1, Vpn(a) / ENTRIES)})
    ensures PdeLoop(s2, root, virt, end, n, a, t) && Table(s2.mem, root, 1, Vpn(a) / ENTRIES).Some?
    ensures Table(s2.mem, root, 2, Vpn(a) / Span(2)) == Some(t) && j == Vpn(a) / ENTRIES % ENTRIES
    ensures Progress(s0, s2, root, Vpn(virt), Pages(virt, end), done, flags, made')
  {
    hide Sound, Needed, Tree, Table, Vpn, Pages, InBlock, Mapped, Progress;
    PdeLoopFacts(s1, root, virt, end, n, a, t, j);
    PdeLoopAddr(virt, end, n, a, j);
    made' := made;
    if !s1.mem[t][j].present {
      var l := Label(1, Vpn(a) / ENTRIES);
      ProgressTable(s0, s1, s2, root, Vpn(virt), Pages(virt, end), done, flags, made, l);
      assert l in {l};
      made' := made + {l};
    }
  }

  lemma PdeFails(s0: State, s1: State, root: nat, virt: Word, end: Word, n: nat, a: Word, t: nat, j: nat,
                 done: seq<nat>, flags: nat, made: set<Label>)
    requires InBlock(virt, end, L3_RANGE) && PdeLoop(s1, root, virt, end, n, a, t) && j == a / L2_RANGE % ENTRIES
    requires Progress(s0, s1, root, Vpn(virt), Pages(virt, end), done, flags, made) && |done| == n
    requires t < |s1.mem| && !s1.mem[t][j].present && s1.avail == []
    ensures Outcome(s0, s1, root, Vpn(virt), Pages(virt, end), done, flags, ENoMem, made)
  {
    hide Sound, Needed, Tree, Table, Vpn, Pages, InBlock, Mapped, Progress, Outcome;
    PdeLoopFacts(s1, root, virt, end, n, a, t, j);
    var lo, total := Vpn(virt), Pages(virt, end);
    NoFrameLeft(s1, root, lo + n, total - n, flags, Label(1, Vpn(a) / ENTRIES));
    ProgressFails(s0, s1, s1, root, lo, total, done, [], total - n, flags, made, {});
    assert done + [] == done && made + {} == made;
  }

  lemma EffectKeepsTable(s: State, s': State, root: nat, lo: nat, frames: seq<nat>, flags: nat, made: set<Label>,
                         l: nat, b: nat)
    requires Effect(s, s', root, lo, frames, flags, made) && IsLabel(l, b) && Table(s.mem, root, l, b).Some?
    ensures Table(s'.mem, root, l, b) == Table(s.mem, root, l, b)
  {
  }

  lemma PdeLoopFacts(s: State, root: nat, virt: Word, end: Word, n: nat, a: Word, t: nat, j: nat)
    requires PdeLoop(s, root, virt, end, n, a, t) && InBlock(virt, end, L3_RANGE) && j == a / L2_RANGE % ENTRIES
    ensures a % PAGE_SIZE == 0 && Vpn(a) == Vpn(virt) + n && Pages(a, end) == Pages(virt, end) - n
    ensures n == 0 || (Vpn(virt) + n) % ENTRIES == 0
    ensures Table(s.mem, root, 2, Vpn(a) / Span(2)) == Some(t) && t < |s.mem| && t in s.own
            && s.own[t] == Label(2, Vpn(a) / Span(2))
    ensures j == Vpn(a) / ENTRIES % ENTRIES && Vpn(a) < VPNS && Vpn(a) / ENTRIES == Vpn(a) / Span(2) * ENTRIES + j
    ensures s.mem[t][j].present ==> Table(s.mem, root, 1, Vpn(a) / ENTRIES).Some?
    ensures !s.mem[t][j].present ==>
            Label(1, Vpn(a) / ENTRIES) in Needed(s.mem, root, Vpn(a), Vpn(virt) + Pages(virt, end))
  {
    hide Vpn, Sound, Needed, Pages, Table, TableFrame;
    PdeLoopAddr(virt, end, n, a, j);
    TableInMemory(s, root, 2, Vpn(a) / Span(2));
    EntryTable(s.mem, root, 2, Vpn(a) / Span(2), t, j);
    if !s.mem[t][j].present {
      LeafNeeded(s.mem, root, Vpn(a), Vpn(virt) + Pages(virt, end));
    }
  }

  lemma PdeLoopStart(s: State, root: nat, virt: Word, end: Word, f: nat, i: nat, t: nat)
    requires Sound(s, root) && InBlock(virt, end, L3_RANGE) && Table(s.mem, root, 3, Vpn(virt) / Span(3)) == Some(f)
             && f < |s.mem|
    requires i == Vpn(virt) / Span(2) % ENTRIES && s.mem[f][i].present && t == TableFrame(s.mem[f][i])
    ensures PdeLoop(s, root, virt, end, 0, virt, t) && 0 < Pages(virt, end)
  {
    Prefixes(Vpn(virt));
    EntryTable(s.mem, root, 3, Vpn(virt) / Span(3), f, i);
  }

  lemma LeafNeeded(m: Memory, root: nat, lo: nat, hi: nat)
    requires lo < hi && lo < VPNS && Table(m, root, 1, lo / ENTRIES).None?
    ensures Label(1, lo / ENTRIES) in Needed(m, root, lo, hi)
  {
  }

  // ---------- the loop over the entries of a page-directory-pointer table ----------

  /** The range reaches the last gigabyte of the address space, where the clamp of
      `map_pml4_range` wraps to zero. */
  predicate Strays(virt: nat, end: nat) {
    end > LAST_GB || virt >= LAST_GB
  }

  /** How many pages `map_pml4_range` visits: all pages of the range or, if it strays, those up to
      and including the first page in the last gigabyte. */
  function Visited(virt: nat, end: nat): nat {
    if Strays(virt, end) then
      if virt >= LAST_GB then 1 else (LAST_GB - virt) / PAGE_SIZE + 1
    else Pages(virt, end)
  }

  ghost predicate InSlot(virt: Word, end: Word) {
    virt % PAGE_SIZE == 0 && virt <= end <= (virt / L4_RANGE + 1) * L4_RANGE
  }

  /** The loop of `map_pml4_range` stands at address a, in the 512 GB slot of `virt`, with the n pages
      before a done; t is the page-directory-pointer table of that slot. */
  ghost predicate PdpLoop(s: State, root: nat, virt: Word, end: Word, n: nat, a: Word, t: nat) {
    && Sound(s, root) && PdpAddr(virt, end, n, a)
    && Table(s.mem, root, 3, Vpn(virt) / Span(3)) == Some(t)
  }

  ghost predicate PdpAddr(virt: Word, end: Word, n: nat, a: Word) {
    && virt % PAGE_SIZE == 0 && a % PAGE_SIZE == 0
    && n < Visited(virt, end) && a == virt + PAGE_SIZE * n && (n == 0 || a % L3_RANGE == 0)
    && a <= end && (n == 0 || a < end) && a / L4_RANGE == virt / L4_RANGE
  }

  lemma SlotParts(a: Word)
    ensures Vpn(a) == a / L4_RANGE % ENTRIES * Span(3) + a / PAGE_SIZE % Span(3)
    ensures a / PAGE_SIZE == a / L4_RANGE * Span(3) + a / PAGE_SIZE % Span(3)
    ensures Vpn(a) / Span(3) == a / L4_RANGE % ENTRIES
  {
    Digits(a, PAGE_SIZE, Span(3));
    Digits(a / PAGE_SIZE, Span(3), ENTRIES);
  }

  lemma SlotBlock(virt: Word, a: Word)
    requires virt <= a && virt % PAGE_SIZE == 0 && a % PAGE_SIZE == 0 && a / L4_RANGE == virt / L4_RANGE
    ensures Vpn(a) == Vpn(virt) + (a - virt) / PAGE_SIZE
    ensures Vpn(a) / Span(3) == Vpn(virt) / Span(3)
  {
    hide Vpn;
    SlotParts(virt);
    SlotParts(a);
    assert a - virt == (a / PAGE_SIZE - virt / PAGE_SIZE) * PAGE_SIZE;
  }

  lemma PdpLoopAddr(virt: Word, end: Word, n: nat, a: Word, j: nat)
    requires PdpAddr(virt, end, n, a) && j == a / L3_RANGE % ENTRIES
    ensures a % PAGE_SIZE == 0 && Vpn(a) == Vpn(virt) + n && (n == 0 || (Vpn(virt) + n) % ENTRIES == 0)
    ensures Vpn(a) / Span(3) == Vpn(virt) / Span(3) && IsLabel(3, Vpn(a) / Span(3)) && IsLabel(2, Vpn(a) / Span(2))
    ensures j == Vpn(a) / Span(2) % ENTRIES && Vpn(a) < VPNS && Vpn(a) / Span(2) == Vpn(a) / Span(3) * ENTRIES + j
  {
    hide Vpn, Visited;
    SlotBlock(virt, a);
    IndexBits(a);
    VpnLow(a);
    Prefixes(Vpn(a));
    Digits(a, L2_RANGE, ENTRIES);
  }

  lemma PdpLoopFacts(s: State, root: nat, virt: Word, end: Word, n: nat, a: Word, t: nat, j: nat)
    requires PdpLoop(s, root, virt, end, n, a, t) && j == a / L3_RANGE % ENTRIES
    ensures a % PAGE_SIZE == 0 && Vpn(a) == Vpn(virt) + n && (n == 0 || (Vpn(virt) + n) % ENTRIES == 0)
    ensures Table(s.mem, root, 3, Vpn(a) / Span(3)) == Some(t) && t < |s.mem| && t in s.own
            && s.own[t] == Label(3, Vpn(a) / Span(3))
    ensures j == Vpn(a) / Span(2) % ENTRIES && Vpn(a) < VPNS && Vpn(a) / Span(2) == Vpn(a) / Span(3) * ENTRIES + j
    ensures s.mem[t][j].present ==> Table(s.mem, root, 2, Vpn(a) / Span(2)).Some?
    ensures !s.mem[t][j].present ==>
            Label(2, Vpn(a) / Span(2)) in Needed(s.mem, root, Vpn(a), Vpn(virt) + Visited(virt, end))
  {
    hide Vpn, Sound, Needed, Visited, Table, TableFrame;
    PdpLoopAddr(virt, end, n, a, j);
    TableInMemory(s, root, 3, Vpn(a) / Span(3));
    EntryTable(s.mem, root, 3, Vpn(a) / Span(3), t, j);
    if !s.mem[t][j].present {
      PdNeeded(s.mem, root, Vpn(a), Vpn(virt) + Visited(virt, end));
    }
  }

  lemma PdNeeded(m: Memory, root: nat, lo: nat, hi: nat)
    requires lo < hi && lo < VPNS && Table(m, root, 2, lo / Span(2)).None?
    ensures Label(2, lo / Span(2)) in Needed(m, root, lo, hi)
  {
    Prefixes(lo);
    assert Touches(2, lo / Span(2), lo, hi);
  }

  lemma PdpLoopStart(s: State, root: nat, virt: Word, end: Word, f: nat, i: nat, t: nat)
    requires Sound(s, root) && InSlot(virt, end) && Table(s.mem, root, 4, Vpn(virt) / Span(4)) == Some(f) && f < |s.mem|
    requires i == Vpn(virt) / Span(3) % ENTRIES && s.mem[f][i].present && t == TableFrame(s.mem[f][i])
    ensures PdpLoop(s, root, virt, end, 0, virt, t) && 0 < Visited(virt, end)
  {
    Prefixes(Vpn(virt));
    EntryTable(s.mem, root, 4, Vpn(virt) / Span(4), f, i);
  }

  /** The part below entry j of a page-directory-pointer table, below the last gigabyte. */
  lemma PdpPart(virt: Word, end: Word, n: nat, a: Word)
    requires InSlot(virt, end) && PdpAddr(virt, end, n, a) && a < LAST_GB
    ensures var to := Clamp(a, Sub64(end, a), L3_RANGE);
            && InBlock(a, to, L3_RANGE) && n + Pages(a, to) <= Visited(virt, end)
            && (to < end ==>
                  PdpAddr(virt, end, n + Pages(a, to), to)
                  && to / L3_RANGE % ENTRIES == a / L3_RANGE % ENTRIES + 1)
            && (to >= end ==> !Strays(virt, end) && n + Pages(a, to) == Visited(virt, end))
            && Sub64(Sub64(end, a), Sub64(to, a)) == Sub64(end, to)
            && 0 < Pages(a, to)
  {
    hide Clamp, Add64, Sub64, AlignDown, Pages, InBlock, Visited, Strays, PdpAddr, InSlot;
    assert a <= end && a % PAGE_SIZE == 0 by { PdpAligned(virt, end, n, a); }
    var to := Clamp(a, Sub64(end, a), L3_RANGE);
    ClampBelow(a, end, L3_RANGE);
    ClampInBlock(a, to, end);
    SubSub(end, to, a);
    PagesPositive(a, to);
    if to < end {
      PdpNext(virt, end, n, a, to);
    } else {
      PdpLast(virt, end, n, a);
    }
  }

  lemma PdpAligned(virt: Word, end: Word, n: nat, a: Word)
    requires PdpAddr(virt, end, n, a)
    ensures a <= end && a % PAGE_SIZE == 0
  {
  }

  lemma ClampInBlock(a: Word, to: Word, end: Word)
    requires a % PAGE_SIZE == 0 && a < LAST_GB && a <= end
    requires var next := (a / L3_RANGE + 1) * L3_RANGE; to == if end > next then next else end
    ensures InBlock(a, to, L3_RANGE)
  {
    AlignNext(a, L3_RANGE);
  }

  lemma PdpNext(virt: Word, end: Word, n: nat, a: Word, to: Word)
    requires InSlot(virt, end) && PdpAddr(virt, end, n, a) && a < LAST_GB
    requires to == (a / L3_RANGE + 1) * L3_RANGE && to < end
    ensures PdpAddr(virt, end, n + Pages(a, to), to) && to / L3_RANGE % ENTRIES == a / L3_RANGE % ENTRIES + 1
    ensures n + Pages(a, to) < Visited(virt, end)
  {
    hide Pages, Visited;
    NextGigabyte(a, to);
    PagesSplit(a, to, end);
    SameSlot(virt, end, a, to);
    NextPdpIndex(a, to);
    VisitedMore(virt, end, n + Pages(a, to), to);
  }

  lemma NextGigabyte(a: nat, to: nat)
    requires to == (a / L3_RANGE + 1) * L3_RANGE && a < LAST_GB
    ensures a < to <= LAST_GB && to % L3_RANGE == 0 && to % PAGE_SIZE == 0 && to / L3_RANGE == a / L3_RANGE + 1
  {
    Remainder(a / L3_RANGE + 1, 0, L3_RANGE);
    Remainder((a / L3_RANGE + 1) * Span(2), 0, PAGE_SIZE);
  }

  lemma SameSlot(virt: nat, end: nat, a: nat, to: nat)
    requires virt <= a < to < end <= (virt / L4_RANGE + 1) * L4_RANGE
    ensures to / L4_RANGE == virt / L4_RANGE
  {
  }

  lemma NextPdpIndex(a: Word, to: Word)
    requires to / L3_RANGE == a / L3_RANGE + 1 && to / L4_RANGE == a / L4_RANGE
    ensures to / L3_RANGE % ENTRIES == a / L3_RANGE % ENTRIES + 1
  {
    Digits(a, L3_RANGE, ENTRIES);
    Digits(to, L3_RANGE, ENTRIES);
  }

  lemma VisitedMore(virt: Word, end: Word, n: nat, to: Word)
    requires virt % PAGE_SIZE == 0 && to == virt + PAGE_SIZE * n && to < end && to <= LAST_GB && n > 0
    ensures n < Visited(virt, end)
  {
  }

  lemma PdpLast(virt: Word, end: Word, n: nat, a: Word)
    requires InSlot(virt, end) && PdpAddr(virt, end, n, a) && a < LAST_GB && end <= (a / L3_RANGE + 1) * L3_RANGE
    ensures !Strays(virt, end) && n + Pages(a, end) == Visited(virt, end)
  {
    hide Pages;
    assert (a / L3_RANGE + 1) * L3_RANGE <= LAST_GB;
    PagesFrom(virt, end, n);
  }

  /** In the last gigabyte the clamp yields 0, so one page is mapped and the loop goes on at entry 512. */
  lemma PdpPartStrays(virt: Word, end: Word, n: nat, a: Word)
    requires InSlot(virt, end) && PdpAddr(virt, end, n, a) && a >= LAST_GB
    ensures Clamp(a, Sub64(end, a), L3_RANGE) == 0 && Strays(virt, end) && n + 1 == Visited(virt, end) && 0 < end
    ensures InBlock(a, 0, L3_RANGE) && Pages(a, 0) == 1 && a / L3_RANGE % ENTRIES == ENTRIES - 1
  {
    SubExact(end, a);
    assert a / L3_RANGE == LAST_GB / L3_RANGE;
  }

  /** One round, in either case. */
  lemma PdpRound(s: State, root: nat, virt: Word, end: Word, n: nat, a: Word, t: nat, j: nat)
    requires InSlot(virt, end) && PdpLoop(s, root, virt, end, n, a, t) && j == a / L3_RANGE % ENTRIES
    ensures var to := Clamp(a, Sub64(end, a), L3_RANGE);
            && InBlock(a, to, L3_RANGE) && 0 < Pages(a, to) && n + Pages(a, to) <= Visited(virt, end)
            && (to < end && j + 1 < ENTRIES ==>
                PdpAddr(virt, end, n + Pages(a, to), to) && to / L3_RANGE % ENTRIES == j + 1
                  && n + Pages(a, to) < Visited(virt, end))
            && (to < end && j + 1 == ENTRIES ==> Strays(virt, end) && n + Pages(a, to) == Visited(virt, end))
            && (to >= end ==> !Strays(virt, end) && n + Pages(a, to) == Visited(virt, end))
            && (to < end && j + 1 < ENTRIES ==> Sub64(Sub64(end, a), Sub64(to, a)) == Sub64(end, to))
  {
    hide Clamp, Add64, Sub64, Pages, InBlock, Visited, Strays;
    if a < LAST_GB {
      PdpPart(virt, end, n, a);
    } else {
      PdpPartStrays(virt, end, n, a);
    }
  }

  lemma OutcomeLength(s: State, s': State, root: nat, lo: nat, total: nat, frames: seq<nat>, flags: nat, r: Status,
                      made: set<Label>)
    requires Outcome(s, s', root, lo, total, frames, flags, r, made)
    ensures r != ENoMem ==> |frames| == total
  {
  }

  lemma PdpAdvance(s0: State, s1: State, s2: State, root: nat, virt: Word, end: Word, n: nat, a: Word, t: nat, to: Word,
                   done: seq<nat>, part: seq<nat>, flags: nat, made: set<Label>, made': set<Label>)
    requires InSlot(virt, end) && PdpLoop(s1, root, virt, end, n, a, t) && |done| == n && |part| == Pages(a, to)
    requires Progress(s0, s1, root, Vpn(virt), Visited(virt, end), done, flags, made)
    requires Outcome(s1, s2, root, Vpn(a), Pages(a, to), part, flags, Ok, made') && Sound(s2, root)
    requires n + Pages(a, to) <= Visited(virt, end)
    ensures PdpAddr(virt, end, n + |part|, to) ==> PdpLoop(s2, root, virt, end, n + |part|, to, t)
    ensures Progress(s0, s2, root, Vpn(virt), Visited(virt, end), done + part, flags, made + made')
  {
    hide Progress, Effect, Sound, Needed, Tree, Table, Vpn, Pages, Visited;
    PdpLoopAddr(virt, end, n, a, a / L3_RANGE % ENTRIES);
    ProgressPart(s0, s1, s2, root, Vpn(virt), Visited(virt, end), done, part, flags, made, made');
    EffectKeepsTable(s1, s2, root, Vpn(a), part, flags, made', 3, Vpn(virt) / Span(3));
  }

  /** Making sure that entry j has a page directory. */
  lemma PdpTable(s0: State, s1: State, s2: State, root: nat, virt: Word, end: Word, n: nat, a: Word, t: nat, j: nat,
                 done: seq<nat>, flags: nat, made: set<Label>) returns (made': set<Label>)
    requires PdpLoop(s1, root, virt, end, n, a, t) && j == a / L3_RANGE % ENTRIES
    requires Progress(s0, s1, root, Vpn(virt), Visited(virt, end), done, flags, made) && |done| == n && Sound(s2, root)
    requires if t < |s1.mem| && s1.mem[t][j].present then s2 == s1
             else Effect(s1, s2, root, Vpn(virt) + n, [], flags, {Label(2, Vpn(a) / Span(2))})
    ensures PdpLoop(s2, root, virt, end, n, a, t)
    ensures Table(s2.mem, root, 3, Vpn(a) / Span(3)) == Some(t) && j == Vpn(a) / Span(2) % ENTRIES
    ensures Progress(s0, s2, root, Vpn(virt), Visited(virt, end), done, flags, made')
  {
    hide Sound, Needed, Tree, Table, Vpn, Visited, Mapped, Progress;
    PdpLoopFacts(s1, root, virt, end, n, a, t, j);
    PdpLoopAddr(virt, end, n, a, j);
    made' := made;
    if !s1.mem[t][j].present {
      var l := Label(2, Vpn(a) / Span(2));
      ProgressTable(s0, s1, s2, root, Vpn(virt), Visited(virt, end), done, flags, made, l);
      assert l in {l};
      made' := made + {l};
    }
  }

  lemma PdpFails(s0: State, s1: State, root: nat, virt: Word, end: Word, n: nat, a: Word, t: nat, j: nat,
                 done: seq<nat>, flags: nat, made: set<Label>)
    requires PdpLoop(s1, root, virt, end, n, a, t) && j == a / L3_RANGE % ENTRIES
    requires Progress(s0, s1, root, Vpn(virt), Visited(virt, end), done, flags, made) && |done| == n
    requires t < |s1.mem| && !s1.mem[t][j].present && s1.avail == []
    ensures Outcome(s0, s1, root, Vpn(virt), Visited(virt, end), done, flags, ENoMem, made)
  {
    hide Sound, Needed, Tree, Table, Vpn, Visited, Mapped, Progress, Outcome;
    PdpLoopFacts(s1, root, virt, end, n, a, t, j);
    var lo, total := Vpn(virt), Visited(virt, end);
    NoFrameLeft(s1, root, lo + n, total - n, flags, Label(2, Vpn(a) / Span(2)));
    ProgressFails(s0, s1, s1, root, lo, total, done, [], total - n, flags, made, {});
    assert done + [] == done && made + {} == made;
  }

  lemma PdpPartFails(s0: State, s1: State, s2: State, root: nat, virt: Word, end: Word, n: nat, a: Word, t: nat,
                     to: Word,
                     done: seq<nat>, part: seq<nat>, flags: nat, made: set<Label>, made': set<Label>)
    requires PdpLoop(s1, root, virt, end, n, a, t) && |done| == n
    requires Progress(s0, s1, root, Vpn(virt), Visited(virt, end), done, flags, made)
    requires Outcome(s1, s2, root, Vpn(a), Pages(a, to), part, flags, ENoMem, made')
    requires n + Pages(a, to) <= Visited(virt, end)
    ensures Outcome(s0, s2, root, Vpn(virt), Visited(virt, end), done + part, flags, ENoMem, made + made')
  {
    hide Progress, Sound, Needed, Tree, Table, Vpn, Pages, Visited, Outcome;
    PdpLoopAddr(virt, end, n, a, a / L3_RANGE % ENTRIES);
    ProgressFails(s0, s1, s2, root, Vpn(virt), Visited(virt, end), done, part, Pages(a, to), flags, made, made');
  }
}
