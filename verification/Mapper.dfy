/** The page-table mapper of eza/amd64/mm/pt.c: four nested loops that walk and create tables in
    place. */
module Mapper {
  import opened Words
  import opened PageTable
  import opened PageAccess
  import opened MapState
  import opened PageRanges
  import opened MapRequests
  import opened PageRights
  import opened MappedRights

  /** `memory` (all frames, seen as arrays of 512 entries) and the pool behind `alloc_page`. */
  class PageMemory {
    const frames: array2<Entry>
    const root: nat
    var avail: seq<nat>
    ghost var own: map<nat, Label>

    ghost function Mem(): (m: Memory)
      requires frames.Length1 == ENTRIES
      reads frames
      ensures |m| == frames.Length0
    {
      seq(frames.Length0, f requires 0 <= f < frames.Length0 && frames.Length1 == ENTRIES reads frames =>
        seq(ENTRIES, i requires 0 <= i < ENTRIES && f < frames.Length0
            && frames.Length1 == ENTRIES reads frames => frames[f, i]))
    }

    ghost function Now(): State
      requires frames.Length1 == ENTRIES
      reads this, frames
    {
      State(Mem(), own, avail)
    }

    ghost predicate Valid()
      reads this, frames
    {
      frames.Length1 == ENTRIES && Sound(Now(), root)
    }

    /** `size` frames of memory, a zeroed root table in frame `directory`, and a pool of free frames. */
    constructor (size: nat, directory: nat, pool: seq<nat>)
      requires directory < size && directory < TABLE_LIMIT && directory !in pool
      requires forall k :: 0 <= k < |pool| ==> pool[k] < size && pool[k] < TABLE_LIMIT
      requires forall j, k :: 0 <= j < k < |pool| ==> pool[j] != pool[k]
      ensures Valid() && root == directory && avail == pool && |Mem()| == size && fresh(frames)
      ensures (forall v: nat :: v < VPNS ==> Translate(Mem(), root, v) == None) && KernelLinks(Mem(), root)
    {
      frames := new Entry[size, ENTRIES]((_, _) => EMPTY);
      root, avail := directory, pool;
      own := map[directory := Label(4, 0)];
      new;
      assert forall i :: 0 <= i < ENTRIES ==> Mem()[directory][i] == EMPTY;
      assert forall b :: Table(Mem(), root, 4, b) == Some(root);
      assert forall b :: Table(Mem(), root, 3, b) == None;
      BlankLinks(Mem(), root);
    }

    method Store(f: nat, i: nat, e: Entry)
      requires frames.Length1 == ENTRIES && f < frames.Length0 && i < ENTRIES
      modifies frames
      ensures Mem() == Put(old(Mem()), f, i, e)
    {
      frames[f, i] := e;
      assert forall g | 0 <= g < frames.Length0 :: Mem()[g] == Put(old(Mem()), f, i, e)[g];
    }

    /** `alloc_page`: the next frame of the pool, zeroed if asked for. */
    method AllocPage(clean: bool) returns (r: Option<nat>)
      requires Valid()
      modifies this`avail, frames
      ensures Valid()
      ensures old(avail) == [] ==> r == None && Now() == old(Now())
      ensures old(avail) != [] ==>
                && r == Some(old(avail)[0]) && avail == old(avail)[1..]
                && Mem() == if clean then old(Mem())[r.value := Blank()] else old(Mem())
    {
      if avail == [] {
        return None;
      }
      var f := avail[0];
      avail := avail[1..];
      if clean {
        forall i | 0 <= i < ENTRIES {
          frames[f, i] := EMPTY;
        }
        assert forall g | 0 <= g < frames.Length0 :: Mem()[g] == old(Mem())[f := Blank()][g];
        FreshWriteTranslates(old(Mem()), root, own, f);
      }
      r := Some(f);
    }

    /** `populate_pml4_entry`, `populate_pdp3_entry` and `populate_pde2_entry`: the same steps on
        entries of levels 4, 3 and 2. */
    method PopulateEntry(f: nat, i: nat, ghost lo: nat, ghost flags: nat) returns (ok: bool)
      requires Valid() && f in own && own[f].level >= 2 && i < ENTRIES && !Mem()[f][i].present
      requires Table(Mem(), root, own[f].level, own[f].base) == Some(f)
      modifies this`avail, this`own, frames
      ensures Valid()
      ensures ok <==> old(avail) != []
      ensures !ok ==> Now() == old(Now())
      ensures ok ==> Effect(old(Now()), Now(), root, lo, [], flags, {old(ChildLabel(own, f, i))})
      ensures ok ==> Mem()[f][i] == PointTo(old(avail)[0])
    {
      var pf := AllocPage(true);
      if pf.None? {
        return false;
      }
      var g := pf.value;
      Store(f, i, PointTo(g));
      own := own[g := ChildLabel(own, f, i)];
      PopulateEffect(old(Now()), root, f, i, lo, flags);
      assert Now() == old(Populated(Now(), f, i));
      return true;
    }

    /** The frame of the table that entry i of table f points to. */
    method BaseOf(f: nat, i: nat) returns (t: nat)
      requires frames.Length1 == ENTRIES && f < frames.Length0 && i < ENTRIES
      ensures t == TableFrame(Mem()[f][i])
    {
      t := FrameOfAddr(TableAddr(frames[f, i]));
    }

    /** The check that opens every round of the three upper loops: an absent entry is populated. */
    method EnsureEntry(f: nat, i: nat, ghost lo: nat, ghost flags: nat) returns (ok: bool)
      requires Valid() && f in own && own[f].level >= 2 && i < ENTRIES && f < frames.Length0
      requires Table(Mem(), root, own[f].level, own[f].base) == Some(f)
      modifies this`avail, this`own, frames
      ensures Valid()
      ensures ok == (old(avail) != [] || old(Mem()[f][i].present))
      ensures !ok || old(Mem()[f][i].present) ==> Now() == old(Now())
      ensures ok && !old(Mem()[f][i].present) ==>
              Effect(old(Now()), Now(), root, lo, [], flags, {old(ChildLabel(own, f, i))})
      ensures ok ==> Mem()[f][i].present
    {
      ok := true;
      if !frames[f, i].present {
        ok := PopulateEntry(f, i, lo, flags);
      }
    }

    /** `map_pde2_range`: fills PTEs of the table behind entry i of page-directory table f. */
    method MapPde2Range(f: nat, i: nat, virt: Word, end: Word, acc: FrameAccessor, flags: nat)
      requires Valid() && acc.Valid() && InBlock(virt, end, L2_RANGE)
      requires Table(Mem(), root, 2, Vpn(virt) / Span(2)) == Some(f) && f < frames.Length0
      requires i == Vpn(virt) / ENTRIES % ENTRIES && Mem()[f][i].present
      modifies frames, acc`currPage, acc`curr, acc`pagesLeft, acc`pos
      ensures Valid() && acc.Valid() && acc.pos == old(acc.pos) + Pages(virt, end)
      ensures Effect(old(Now()), Now(), root, Vpn(virt), acc.Slice(old(acc.pos), Pages(virt, end)), flags, {})
    {
      hide Effect, Sound, Tree, Table, TableAddr, FrameOfAddr, Pte, Put, Vpn, Pages, InBlock, Add64;
      hide FrameAccessor.Valid, FrameAccessor.Stream;
      ghost var lo, total := Vpn(virt), Pages(virt, end);
      var t := BaseOf(f, i);
      LeafTable(Now(), root, virt, f, i, t);
      EffectRefl(Now(), root, lo, flags);
      assert acc.Slice(acc.pos, 0) == [];
      PagesPositive(virt, end);

      var a := virt;
      var more := true;
      ghost var n := 0;
      while more
        invariant Valid() && acc.Valid() && n <= total && acc.pos == old(acc.pos) + n
        invariant more ==> n < total && a == virt + PAGE_SIZE * n
        invariant !more ==> n == total
        invariant Table(Mem(), root, 1, lo / ENTRIES) == Some(t)
        invariant Effect(old(Now()), Now(), root, lo, acc.Slice(old(acc.pos), n), flags, {})
        decreases total - n, more
      {
        PageLoop(virt, end, n);
        ghost var s1 := Now();
        var idx := acc.NextFrame();
        PteStep(old(Now()), s1, root, t, lo, acc.Slice(old(acc.pos), n), idx, flags);
        assert acc.Slice(old(acc.pos), n) + [idx] == acc.Slice(old(acc.pos), n + 1);
        Store(t, a / PAGE_SIZE % ENTRIES, Pte(idx, flags));
        a := Add64(a, PAGE_SIZE);
        more := a < end;
        n := n + 1;
      }
    }

    /** `map_pdp3_range`: creates the missing page tables below entry i of table f and fills them. */
    method MapPdp3Range(f: nat, i: nat, virt: Word, end: Word, acc: FrameAccessor, flags: nat)
      returns (r: Status, ghost n: nat, ghost made: set<Label>)
      requires Valid() && acc.Valid() && InBlock(virt, end, L3_RANGE)
      requires Table(Mem(), root, 3, Vpn(virt) / Span(3)) == Some(f) && f < frames.Length0
      requires i == Vpn(virt) / Span(2) % ENTRIES && Mem()[f][i].present
      modifies this`avail, this`own, frames, acc`currPage, acc`curr, acc`pagesLeft, acc`pos
      ensures Valid() && acc.Valid() && acc.pos == old(acc.pos) + n
      ensures r == Ok || r == ENoMem
      ensures Outcome(old(Now()), Now(), root, Vpn(virt), Pages(virt, end), acc.Slice(old(acc.pos), n), flags, r, made)
    {
      hide Outcome, Progress, Sound, Effect, Needed, Tree, Table, TableFrame, Put, Vpn, Pages, PdeLoop, InBlock,
           Add64, Sub64, AlignDown;
      hide PageMemory.Mem, FrameAccessor.Valid, FrameAccessor.Stream, FrameAccessor.Slice;
      ghost var lo, total, s0 := Vpn(virt), Pages(virt, end), Now();
      var t := BaseOf(f, i);
      var length: Word := Sub64(end, virt);
      var a: Word := virt;
      var j := virt / L2_RANGE % ENTRIES;
      var more := true;
      n, made := 0, {};
      PdeLoopStart(s0, root, virt, end, f, i, t);
      ProgressStart(s0, root, lo, total, flags);
      acc.SliceEmpty(acc.pos);
      while more
        invariant Valid() && acc.Valid() && acc.pos == old(acc.pos) + n
        invariant Progress(s0, Now(), root, lo, total, acc.Slice(old(acc.pos), n), flags, made)
        invariant more ==>
                    PdeLoop(Now(), root, virt, end, n, a, t) && j == a / L2_RANGE % ENTRIES
                    && length == Sub64(end, a)
        invariant more ==> n < total
        invariant !more ==> n == total
        decreases total - n, more
      {
        PdeLoopFacts(Now(), root, virt, end, n, a, t, j);
        ghost var s1, done := Now(), acc.Slice(old(acc.pos), n);
        var ok := EnsureEntry(t, j, lo + n, flags);
        if !ok {
          PdeFails(s0, s1, root, virt, end, n, a, t, j, done, flags, made);
          return ENoMem, n, made;
        }
        ghost var made1 := PdeTable(s0, s1, Now(), root, virt, end, n, a, t, j, done, flags, made);
        made := made1;
        var to: Word := Add64(a, length);
        if to > AlignDown(Add64(a, L2_RANGE), L2_RANGE) {
          to := AlignDown(Add64(a, L2_RANGE), L2_RANGE);
        }
        PdeRoundFacts(Now(), root, virt, end, n, a, t);
        ghost var s2, c := Now(), Pages(a, to);
        length := Sub64(length, Sub64(to, a));
        MapPde2Range(t, j, a, to, acc, flags);
        PdeAdvance(s0, s2, Now(), root, virt, end, n, a, t, done, acc.Slice(old(acc.pos) + n, c), flags, made);
        acc.SliceJoin(old(acc.pos), n, c);
        more := to < end;
        a := to;
        j := j + 1;
        n := n + c;
      }
      ProgressDone(s0, Now(), root, lo, total, acc.Slice(old(acc.pos), n), flags, made, Ok);
      r := Ok;
    }

    /** `map_pml4_range`: creates the missing page directories below entry i of the root table f. */
    method MapPml4Range(f: nat, i: nat, virt: Word, end: Word, acc: FrameAccessor, flags: nat)
      returns (r: Status, ghost n: nat, ghost made: set<Label>)
      requires Valid() && acc.Valid() && InSlot(virt, end)
      requires Table(Mem(), root, 4, Vpn(virt) / Span(4)) == Some(f) && f < frames.Length0
      requires i == Vpn(virt) / Span(3) % ENTRIES && Mem()[f][i].present
      modifies this`avail, this`own, frames, acc`currPage, acc`curr, acc`pagesLeft, acc`pos
      ensures Valid() && acc.Valid() && acc.pos == old(acc.pos) + n
      ensures r == ENoMem || r == (if Strays(virt, end) then Astray else Ok)
      ensures Outcome(old(Now()), Now(), root, Vpn(virt), Visited(virt, end), acc.Slice(old(acc.pos), n), flags, r,
                      made)
    {
      hide Outcome, Progress, Sound, Effect, Needed, Tree, Table, TableFrame, Put, Vpn, Pages, Visited, Strays,
           PdpAddr, PdpLoop, InBlock, InSlot, Add64, Sub64, AlignDown;
      hide PageMemory.Mem, FrameAccessor.Valid, FrameAccessor.Stream, FrameAccessor.Slice;
      ghost var lo, total, s0 := Vpn(virt), Visited(virt, end), Now();
      var t := BaseOf(f, i);
      var length: Word := Sub64(end, virt);
      var a: Word := virt;
      var j := virt / L3_RANGE % ENTRIES;
      var more := true;
      n, made := 0, {};
      PdpLoopStart(s0, root, virt, end, f, i, t);
      ProgressStart(s0, root, lo, total, flags);
      acc.SliceEmpty(acc.pos);
      while more
        invariant Valid() && acc.Valid() && acc.pos == old(acc.pos) + n
        invariant Progress(s0, Now(), root, lo, total, acc.Slice(old(acc.pos), n), flags, made)
        invariant more && j < ENTRIES ==>
                  PdpLoop(Now(), root, virt, end, n, a, t) && j == a / L3_RANGE % ENTRIES && length == Sub64(end, a)
                    && n < total
        invariant more && j >= ENTRIES ==> Strays(virt, end) && n == total
        invariant !more ==> n == total && !Strays(virt, end)
        decreases total - n, more
      {
        if j >= ENTRIES {
          // the entry pointer has left the table; what the program reads from here on is not modelled
          ProgressDone(s0, Now(), root, lo, total, acc.Slice(old(acc.pos), n), flags, made, Astray);
          return Astray, n, made;
        }
        PdpLoopFacts(Now(), root, virt, end, n, a, t, j);
        ghost var s1, done := Now(), acc.Slice(old(acc.pos), n);
        var ok := EnsureEntry(t, j, lo + n, flags);
        if !ok {
          PdpFails(s0, s1, root, virt, end, n, a, t, j, done, flags, made);
          return ENoMem, n, made;
        }
        ghost var made1 := PdpTable(s0, s1, Now(), root, virt, end, n, a, t, j, done, flags, made);
        var to: Word := Add64(a, length);
        if to > AlignDown(Add64(a, L3_RANGE), L3_RANGE) {
          to := AlignDown(Add64(a, L3_RANGE), L3_RANGE);
        }
        PdpRound(Now(), root, virt, end, n, a, t, j);
        ghost var s2 := Now();
        length := Sub64(length, Sub64(to, a));
        ghost var c, made2;
        r, c, made2 := MapPdp3Range(t, j, a, to, acc, flags);
        acc.SliceJoin(old(acc.pos), n, c);
        OutcomeLength(s2, Now(), root, Vpn(a), Pages(a, to), acc.Slice(old(acc.pos) + n, c), flags, r, made2);
        if r != Ok {
          PdpPartFails(s0, s2, Now(), root, virt, end, n, a, t, to, done, acc.Slice(old(acc.pos) + n, c), flags,
                       made1, made2);
          return ENoMem, n + c, made1 + made2;
        }
        PdpAdvance(s0, s2, Now(), root, virt, end, n, a, t, to, done, acc.Slice(old(acc.pos) + n, c), flags, made1,
                   made2);
        made := made1 + made2;
        more := to < end;
        a := to;
        j := j + 1;
        n := n + c;
      }
      ProgressDone(s0, Now(), root, lo, total, acc.Slice(old(acc.pos), n), flags, made, Ok);
      r := Ok;
    }

    /** `mm_map_pages`. The third result is the number of frames taken from the accessor. */
    method MmMapPages(pd: Option<Directory>, acc: FrameAccessor?, virt: Word, numPages: Word, flags: nat)
      returns (r: Status, ghost n: nat, ghost made: set<Label>)
      requires Valid() && (acc != null ==> acc.Valid())
      requires pd.Some? && pd.value.entries != 0 && pd.value.entries % PAGE_SIZE == 0 ==>
               FrameOfAddr(pd.value.entries) == root
      modifies this`avail, this`own, frames
      modifies if acc == null then {} else {acc}
      ensures Valid() && (acc != null ==>
                          acc.Valid() && acc.pos == old(acc.pos) + n && acc.startPage == old(acc.startPage))
      ensures r == EInval <==> Rejected(pd, acc != null, virt, numPages)
      ensures r == EInval ==> Now() == old(Now()) && n == 0
      ensures r != EInval ==> Ran(old(Now()), Now(), root, virt, numPages, acc.Slice(old(acc.pos), n), flags, r, made)
    {
      hide Outcome, Progress, Sound, Effect, Needed, Tree, Table, TableFrame, Put, Vpn, Pages, Visited, Strays,
           InSlot, Clamp, Add64, Sub64;
      hide PageMemory.Mem, FrameAccessor.Valid, FrameAccessor.Stream, FrameAccessor.Slice;
      n, made := 0, {};
      if pd.None? || pd.value.entries == 0 || numPages == 0 || virt == 0 || acc == null {
        return EInval, n, made;
      }
      if pd.value.entries % PAGE_SIZE != 0 {
        return EInval, n, made;
      }
      var end: Word := EndAddr(virt, numPages);
      if end < virt || end > MAX_VIRT_ADDRESS {
        return EInval, n, made;
      }
      var base: Word := AlignDown(virt, PAGE_SIZE);
      var i := base / L4_RANGE % ENTRIES;
      var length: Word := Sub64(end, base);
      ghost var lo, total, s0 := Vpn(virt), Planned(virt, numPages), Now();
      SlotRange(virt, numPages);
      SlotIndex(base);
      RootFacts(s0, root, lo);
      VisitedPositive(base, SlotEnd(virt, numPages));
      acc.SliceEmpty(acc.pos);

      // the do-while loop over the root's entries; an unconditional break ends it after one round
      var ok := EnsureEntry(root, i, lo, flags);
      if !ok {
        PdpNeeded(s0.mem, root, lo, lo + total);
        NoFrameLeft(s0, root, lo, total, flags, Label(3, lo / Span(3)));
        return ENoMem, 0, {};
      }
      var to: Word := Add64(base, length);
      if base < MAX_VIRT_ADDRESS - L4_RANGE && to > AlignDown(Add64(base, L4_RANGE), L4_RANGE) {
        to := AlignDown(Add64(base, L4_RANGE), L4_RANGE);
      }
      SubExact(end, base);
      ghost var s1 := Now();
      RootFacts(s1, root, lo);
      r, n, made := MapPml4Range(root, i, base, to, acc, flags);
      made := RootThenRange(s0, s1, Now(), root, lo, total, acc.Slice(old(acc.pos), n), flags, r, made);
    }

    /** `mm_pin_virtual_address` */
    method PinVirtualAddress(virt: Word) returns (idx: nat)
      requires Valid()
      ensures idx == Lookup(Mem(), root, virt)
    {
      hide Vpn, TableAddr, FrameOfAddr;
      ghost var v := Vpn(virt);
      WalkSteps(Now(), root, virt);
      idx := INVALID_PAGE_IDX;
      var i4 := virt / L4_RANGE % ENTRIES;
      if frames[root, i4].present {
        var pdp := FrameOfAddr(TableAddr(frames[root, i4]));
        var i3 := virt / L3_RANGE % ENTRIES;
        if frames[pdp, i3].present {
          var pd := FrameOfAddr(TableAddr(frames[pdp, i3]));
          var i2 := virt / L2_RANGE % ENTRIES;
          if frames[pd, i2].present {
            var pt := FrameOfAddr(TableAddr(frames[pd, i2]));
            var i1 := virt / PAGE_SIZE % ENTRIES;
            if frames[pt, i1].present {
              idx := FrameIndex(frames[pt, i1]);
            }
          }
        }
      }
    }
  }
}
