/** The access that mapped pages give: what `mm_map_pages` (eza/amd64/mm/pt.c) writes into the entries of all four
    levels, read field by field. */
module MappedRights {
  import opened Words
  import opened PageTable
  import opened PageRights
  import opened MapState
  import opened PageRanges
  import opened MapRequests

  /** Page v is mapped to the frame with what the flags ask for: bit 0 (PF_KERNEL_PAGE) is for the kernel
      only, bit 1 (PF_IO_PAGE) uncached. */
  ghost predicate Granted(m: Memory, root: nat, v: nat, frame: nat, flags: nat) {
    match Translate(m, root, v)
    case None => false
    case Some(e) =>
      && e.present && e.rw && e.global && (e.us <==> flags % 2 == 0) && (e.pcd <==> flags / 2 % 2 == 1)
      && e.baseLow < 0x10_0000 && e.baseLow + 0x10_0000 * e.baseHigh == frame
  }

  lemma LeafGranted(m: Memory, root: nat, v: nat, frame: nat, flags: nat)
    requires Translate(m, root, v) == Some(Pte(frame, flags)) && frame < TWO32
    ensures Granted(m, root, v, frame, flags)
  {
    hide Translate;
  }

  /** A translated page has all tables on its path. */
  lemma TranslatedPath(m: Memory, root: nat, v: nat)
    requires v < VPNS && Translate(m, root, v).Some?
    ensures forall l: nat :: 1 <= l < 4 ==>
            Table(m, root, l, v / Span(l)).Some? && Through(m, root, l, v / Span(l)).Some?
  {
    Prefixes(v);
    TableStep(m, root, 1, v / Span(1));
    TableStep(m, root, 2, v / Span(2));
    TableStep(m, root, 3, v / Span(3));
  }

  lemma PathLabel(l: nat, v: nat)
    requires v < VPNS && 1 <= l < 4
    ensures IsLabel(l, v / Span(l))
  {
    Prefixes(v);
  }

  /** A page that translates as before, and was mapped before, keeps its rights. */
  lemma RightsKept(m: Memory, m': Memory, root: nat, made: set<Label>, v: nat)
    requires v < VPNS && Extends(m, m', root, made) && LinksKept(m, m', root, made)
    requires Translate(m', root, v) == Translate(m, root, v)
    ensures RightsOf(m', root, v) == RightsOf(m, root, v)
  {
    hide Translate, Table, Through;
    if Translate(m, root, v).Some? {
      TranslatedPath(m, root, v);
      forall l: nat | 1 <= l < 4 ensures Through(m', root, l, v / Span(l)) == Through(m, root, l, v / Span(l)) {
        PathLabel(l, v);
      }
    }
  }

  /** What a request that fits does to the entries: each mapped page gets what the flags ask for, each
      table on its path that the call made is reached through a writable entry for the kernel only, all
      other entries on paths are as before, and so are the rights of all other pages. */
  lemma MapRights(s: State, s': State, root: nat, virt: Word, n: Word, frames: seq<nat>, flags: nat, r: Status,
                  made: set<Label>)
    requires 0 < n && Fits(virt, n) && Outcome(s, s', root, Vpn(virt), n, frames, flags, r, made)
    requires forall k :: 0 <= k < |frames| ==> frames[k] < TWO32
    ensures forall k: nat :: k < |frames| ==> Granted(s'.mem, root, Vpn(virt) + k, frames[k], flags)
    ensures forall l: nat, v: nat :: 1 <= l < 4 && v < VPNS && Label(l, v / Span(l)) !in made ==>
              Through(s'.mem, root, l, v / Span(l)) == Through(s.mem, root, l, v / Span(l))
    ensures forall l: nat, v: nat :: 1 <= l < 4 && v < VPNS && Label(l, v / Span(l)) in made ==>
              var e := Through(s'.mem, root, l, v / Span(l)); e.Some? && e.value.rw && !e.value.us && !e.value.pcd
    ensures forall v: nat :: v < VPNS && !(Vpn(virt) <= v < Vpn(virt) + |frames|) ==>
              RightsOf(s'.mem, root, v) == RightsOf(s.mem, root, v)
  {
    hide Translate, Through, Vpn, Fits, Needed, RightsOf, Granted, Extends, Pte, Table;
    FittingPages(virt, n, 0);
    forall k: nat | k < |frames| ensures Granted(s'.mem, root, Vpn(virt) + k, frames[k], flags) {
      LeafGranted(s'.mem, root, Vpn(virt) + k, frames[k], flags);
    }
    forall l: nat, v: nat | 1 <= l < 4 && v < VPNS ensures IsLabel(l, v / Span(l)) {
      PathLabel(l, v);
    }
    forall v: nat | v < VPNS && !(Vpn(virt) <= v < Vpn(virt) + |frames|)
      ensures RightsOf(s'.mem, root, v) == RightsOf(s.mem, root, v)
    {
      RightsKept(s.mem, s'.mem, root, made, v);
    }
  }

  // ---------- memory that the mapper alone has written ----------

  /** Every table is reached through an entry that is writable, for the kernel only, and cached. */
  ghost predicate KernelLinks(m: Memory, root: nat) {
    forall l: nat, b: nat :: IsLabel(l, b) && l < 4 && Through(m, root, l, b).Some? ==>
      KernelLink(Through(m, root, l, b).value)
  }

  lemma BlankLinks(m: Memory, root: nat)
    requires forall b :: 0 <= b ==> Table(m, root, 3, b) == None
    ensures KernelLinks(m, root)
  {
    forall l: nat, b: nat | IsLabel(l, b) && l < 4 ensures Through(m, root, l, b).None? {
      if l == 3 {
        TableStep(m, root, 3, b);
      } else {
        assert Table(m, root, 3, if l == 2 then b / ENTRIES else b / ENTRIES / ENTRIES) == None;
      }
    }
  }

  /** No call of the mapper changes that. */
  lemma KernelLinksKept(s: State, s': State, root: nat, lo: nat, frames: seq<nat>, flags: nat, made: set<Label>)
    requires KernelLinks(s.mem, root) && Effect(s, s', root, lo, frames, flags, made)
    ensures KernelLinks(s'.mem, root)
  {
    hide Through, KernelLink, Mapped, Extends;
    forall l: nat, b: nat | IsLabel(l, b) && l < 4 && Through(s'.mem, root, l, b).Some?
      ensures KernelLink(Through(s'.mem, root, l, b).value)
    {
      if Label(l, b) !in made {
        assert Through(s'.mem, root, l, b) == Through(s.mem, root, l, b);
      }
    }
  }

  /** In such memory every mapped page can be written by the kernel and is never reached from user mode,
      whatever bit 0 of the flags says; bit 1 decides about caching. */
  lemma MappedForKernel(s: State, s': State, root: nat, virt: Word, n: Word, frames: seq<nat>, flags: nat, r: Status,
                        made: set<Label>, k: nat)
    requires 0 < n && Fits(virt, n) && Outcome(s, s', root, Vpn(virt), n, frames, flags, r, made) && k < |frames|
    requires (forall j :: 0 <= j < |frames| ==> frames[j] < TWO32) && KernelLinks(s.mem, root)
    ensures Vpn(virt) + k < VPNS
    ensures RightsOf(s'.mem, root, Vpn(virt) + k)
         == Some(Rights(writable := true, user := false, cached := flags / 2 % 2 == 0, global := true))
  {
    hide Vpn, Fits, Needed, Translate, Through, Table, Effect;
    FittingPages(virt, n, 0);
    MapRights(s, s', root, virt, n, frames, flags, r, made);
    KernelLinksKept(s, s', root, Vpn(virt), frames, flags, made);
    var v := Vpn(virt) + k;
    assert Granted(s'.mem, root, v, frames[k], flags);
    TranslatedPath(s'.mem, root, v);
    PathLabel(1, v);
    PathLabel(2, v);
    PathLabel(3, v);
  }

  /** A page of such memory is never reached from user mode. */
  lemma NoUserPages(m: Memory, root: nat, v: nat)
    requires KernelLinks(m, root) && v < VPNS
    ensures RightsOf(m, root, v).Some? ==> !RightsOf(m, root, v).value.user
  {
    hide Translate, Through;
    PathLabel(1, v);
  }

  // ---------- requests as a caller sees them ----------

  /** The page-table entry that translates an address. */
  ghost function EntryAt(m: Memory, root: nat, a: Word): Option<Entry> {
    Translate(m, root, Vpn(a))
  }

  lemma LookupEntry(m: Memory, root: nat, a: Word)
    ensures Lookup(m, root, a) == match EntryAt(m, root, a) case None => INVALID_PAGE_IDX case Some(e) => FrameIndex(e)
  {
    hide Translate;
  }

  /** The same as MapRights, by addresses. */
  lemma MapEntries(s: State, s': State, root: nat, virt: Word, n: Word, frames: seq<nat>, flags: nat, r: Status,
                   made: set<Label>)
    requires 0 < n && Fits(virt, n) && Outcome(s, s', root, Vpn(virt), n, frames, flags, r, made)
    requires forall k :: 0 <= k < |frames| ==> frames[k] < TWO32
    ensures |frames| <= n && (|frames| < n <==> r == ENoMem)
    ensures forall k: nat :: k < |frames| ==>
              var e := EntryAt(s'.mem, root, Add64(virt, PAGE_SIZE * k));
              e.Some? && FrameIndex(e.value) == frames[k] && e.value.rw && (e.value.pcd <==> flags / 2 % 2 == 1)
    ensures forall x: Word :: !(Vpn(virt) <= Vpn(x) < Vpn(virt) + |frames|) ==>
              EntryAt(s'.mem, root, x) == EntryAt(s.mem, root, x)
    ensures KernelLinks(s.mem, root) ==> KernelLinks(s'.mem, root)
  {
    hide Vpn, Fits, Needed, Translate, Through, Table, Extends, KernelLinks, Pte, FrameIndex;
    FittingPages(virt, n, 0);
    if KernelLinks(s.mem, root) {
      KernelLinksKept(s, s', root, Vpn(virt), frames, flags, made);
    }
    forall k: nat | k < |frames|
      ensures var e := EntryAt(s'.mem, root, Add64(virt, PAGE_SIZE * k));
              e.Some? && FrameIndex(e.value) == frames[k] && e.value.rw && (e.value.pcd <==> flags / 2 % 2 == 1)
    {
      FittingPages(virt, n, k);
      PteFields(frames[k], flags);
    }
    forall x: Word | !(Vpn(virt) <= Vpn(x) < Vpn(virt) + |frames|)
      ensures EntryAt(s'.mem, root, x) == EntryAt(s.mem, root, x)
    {
      VpnBound(x);
    }
  }

  lemma EntrySame(m: Memory, m': Memory, root: nat, x: Word)
    requires Mapped(m, m', root, 0, [], 0)
    ensures EntryAt(m', root, x) == EntryAt(m, root, x)
  {
    hide Translate;
    VpnBound(x);
  }

  lemma SameLinks(m: Memory, m': Memory, root: nat)
    requires LinksKept(m, m', root, {}) && KernelLinks(m, root)
    ensures KernelLinks(m', root)
  {
    hide Through, KernelLink;
  }

  lemma PteFields(idx: nat, flags: nat)
    requires idx < TWO32
    ensures var e := Pte(idx, flags); FrameIndex(e) == idx && e.rw && (e.pcd <==> flags / 2 % 2 == 1)
  {
  }

  lemma VpnBound(x: Word)
    ensures Vpn(x) < VPNS
  {
  }
}
