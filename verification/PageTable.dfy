/** Four-level AMD64 page tables as values: the entry formats of eza/amd64/mm/pt.c, the table
    that covers a given range of virtual page numbers, the translation of one page number, and
    the invariant that the tables form a tree. */
module PageTable {
  import opened Words

  const ENTRIES: nat := 512
  const INVALID_PAGE_IDX: nat := 0xffff_ffff

  /** Frames at or above this number cannot be named as a table (see TableFrameExact). */
  const TABLE_LIMIT: nat := 0x8_0000

  /** Virtual page numbers: address bits 12..47. */
  const VPNS: nat := 0x10_0000_0000

  /** One 8-byte entry, at any of the four levels; bits that the mapper always clears are left out. */
  datatype Entry = Entry(present: bool, rw: bool, us: bool, pcd: bool, global: bool, baseLow: nat, baseHigh: nat)

  const EMPTY := Entry(false, false, false, false, false, 0, 0)

  type Frame = s: seq<Entry> | |s| == ENTRIES witness seq(ENTRIES, _ => EMPTY)
  type Memory = seq<Frame>

  function Blank(): Frame {
    seq(ENTRIES, _ => EMPTY)
  }

  /** The entry that the populate functions write for a table in frame `pfn`. */
  function PointTo(pfn: nat): Entry {
    Entry(true, true, false, false, false, pfn % 0x10_0000, pfn / 0x10_0000 % 0x10_0000)
  }

  /** The entry that maps a page to frame `idx`. */
  function Pte(idx: nat, flags: nat): Entry {
    Entry(true, true, flags % 2 == 0, flags / 2 % 2 == 1, true, idx % 0x10_0000, idx / 0x10_0000 % 0x10_0000)
  }

  /** `base_0_19 | (base_20_39 << 20)`, computed in 32-bit `int` arithmetic. */
  function FrameIndex(e: Entry): nat {
    (e.baseLow + e.baseHigh * 0x10_0000) % TWO32
  }

  /** `p2k_code((base_0_19 | (base_20_39 << 20)) << 12)`: the shift is done on a signed 32-bit
      `int`, which is then sign-extended to 64 bits. */
  function TableAddr(e: Entry): Word {
    var shifted := FrameIndex(e) * PAGE_SIZE % TWO32;
    var extended := if shifted < TWO32 / 2 then shifted else shifted + (TWO64 - TWO32);
    Add64(extended, KERNEL_BASE)
  }

  /** The frame behind an address of the kernel's direct map. */
  function FrameOfAddr(a: Word): nat {
    Sub64(a, KERNEL_BASE) / PAGE_SIZE
  }

  function TableFrame(e: Entry): nat {
    FrameOfAddr(TableAddr(e))
  }

  /** A table is reached through the entry that points to it exactly if its frame number is below
      2^19: above that, the signed shift produces an address outside the direct map. */
  lemma TableFrameExact(pfn: nat)
    requires pfn < TWO32
    ensures TableFrame(PointTo(pfn)) == pfn <==> pfn < TABLE_LIMIT
  {
    hide Add64, Sub64;
    var e := PointTo(pfn);
    assert FrameIndex(e) == pfn;
    var shifted := pfn * PAGE_SIZE % TWO32;
    var extended := if shifted < TWO32 / 2 then shifted else shifted + (TWO64 - TWO32);
    AddThenSub(extended, KERNEL_BASE);
    if pfn < TABLE_LIMIT {
      assert shifted == pfn * PAGE_SIZE;
    }
  }

  /** Any 32-bit frame number survives being stored in, and read back from, a page-table entry. */
  lemma FrameIndexRoundTrip(idx: nat, flags: nat)
    requires idx < TWO32
    ensures FrameIndex(Pte(idx, flags)) == idx
  {
  }

  /** The number of pages below one entry of a level `level`+1 table. */
  function Span(level: nat): nat
    requires level <= 4
  {
    if level == 0 then 1 else
    if level == 1 then 0x200 else
    if level == 2 then 0x4_0000 else
    if level == 3 then 0x800_0000 else 0x10_0000_0000
  }

  function Vpn(a: Word): nat {
    a / PAGE_SIZE % VPNS
  }

  /** A table is identified by its level (4 is the root, 1 holds PTEs) and by the page-number
      prefix that it covers: pages v with v / Span(level) == base. */
  datatype Label = Label(level: nat, base: nat)

  ghost predicate IsLabel(l: nat, b: nat) {
    1 <= l <= 4 && b < Span(4 - l)
  }

  /** The frame of the table labelled (l, b), if the walk from the root reaches one. */
  ghost function Table(m: Memory, root: nat, l: nat, b: nat): Option<nat>
    requires 1 <= l <= 4
    decreases 4 - l
  {
    if l == 4 then Some(root) else
    match Table(m, root, l + 1, b / ENTRIES)
    case None => None
    case Some(f) =>
      if f < |m| && m[f][b % ENTRIES].present then Some(TableFrame(m[f][b % ENTRIES])) else None
  }

  lemma EntryTable(m: Memory, root: nat, l: nat, b: nat, f: nat, i: nat)
    requires 2 <= l <= 4 && Table(m, root, l, b) == Some(f) && f < |m| && i < ENTRIES
    ensures Table(m, root, l - 1, b * ENTRIES + i) == if m[f][i].present then Some(TableFrame(m[f][i])) else None
  {
    assert (b * ENTRIES + i) / ENTRIES == b && (b * ENTRIES + i) % ENTRIES == i;
  }

  /** The translation of a virtual page number: the PTE, if all four levels are present. */
  ghost function Translate(m: Memory, root: nat, v: nat): Option<Entry> {
    match Table(m, root, 1, v / ENTRIES)
    case None => None
    case Some(t) =>
      if t < |m| && m[t][v % ENTRIES].present then Some(m[t][v % ENTRIES]) else None
  }

  /** `own` labels every table frame; each present non-leaf entry points to the frame with the
      matching label. Since `own` is a function, no table can be reached by two paths. */
  ghost predicate Tree(m: Memory, root: nat, own: map<nat, Label>) {
    && root in own && own[root] == Label(4, 0)
    && (forall f :: f in own ==>
          f < |m| && f < TABLE_LIMIT && IsLabel(own[f].level, own[f].base) && (own[f].level == 4 ==> f == root))
    && (forall f, i :: f in own && own[f].level >= 2 && 0 <= i < ENTRIES && m[f][i].present ==>
          var g := TableFrame(m[f][i]);
          g in own && own[g] == Label(own[f].level - 1, own[f].base * ENTRIES + i))
  }

  lemma {:induction false} TableLabelled(m: Memory, root: nat, own: map<nat, Label>, l: nat, b: nat)
    requires Tree(m, root, own) && IsLabel(l, b)
    ensures Table(m, root, l, b).Some? ==>
              Table(m, root, l, b).value in own && own[Table(m, root, l, b).value] == Label(l, b)
    decreases 4 - l
  {
    if l < 4 {
      TableLabelled(m, root, own, l + 1, b / ENTRIES);
    }
  }

  lemma OwnFacts(m: Memory, root: nat, own: map<nat, Label>, f: nat)
    requires Tree(m, root, own) && f in own
    ensures f < |m| && IsLabel(own[f].level, own[f].base) && root in own
  {
  }

  /** No sharing: two different paths from the root never reach the same table. */
  lemma TablesDistinct(m: Memory, root: nat, own: map<nat, Label>, l: nat, b: nat, l': nat, b': nat)
    requires Tree(m, root, own) && IsLabel(l, b) && IsLabel(l', b')
    requires Table(m, root, l, b).Some? && Table(m, root, l, b) == Table(m, root, l', b')
    ensures l == l' && b == b'
  {
    TableLabelled(m, root, own, l, b);
    TableLabelled(m, root, own, l', b');
  }

  function Put(m: Memory, f: nat, i: nat, e: Entry): Memory
    requires f < |m| && i < ENTRIES
  {
    m[f := m[f][i := e]]
  }

  lemma PutReads(m: Memory, f: nat, i: nat, e: Entry)
    requires f < |m| && i < ENTRIES
    ensures |Put(m, f, i, e)| == |m| && Put(m, f, i, e)[f][i] == e
    ensures forall g, j :: 0 <= g < |m| && 0 <= j < ENTRIES && (g != f || j != i) ==> Put(m, f, i, e)[g][j] == m[g][j]
  {
  }

  /** One level of the walk. */
  lemma TableStep(m: Memory, root: nat, l: nat, b: nat)
    requires 1 <= l < 4
    ensures Table(m, root, l, b) ==
              match Table(m, root, l + 1, b / ENTRIES)
              case None => None
              case Some(f) =>
                if f < |m| && m[f][b % ENTRIES].present then Some(TableFrame(m[f][b % ENTRIES])) else None
  {
  }

  // ---------- effect of single writes ----------

  /** `m'` has the tables of `m` plus those labelled in `made`. */
  ghost predicate Extends(m: Memory, m': Memory, root: nat, made: set<Label>) {
    && |m'| == |m|
    && (forall l, b :: IsLabel(l, b) && Label(l, b) !in made ==> Table(m', root, l, b) == Table(m, root, l, b))
    && (forall l, b :: Label(l, b) in made ==>
          IsLabel(l, b) && l < 4 && Table(m, root, l, b).None? && Table(m', root, l, b).Some?)
  }

  /** Exactly the pages lo..lo+|frames| are remapped, to `frames`; all others translate as before. */
  ghost predicate Mapped(m: Memory, m': Memory, root: nat, lo: nat, frames: seq<nat>, flags: nat) {
    forall v :: 0 <= v < VPNS ==>
      Translate(m', root, v) ==
        if lo <= v < lo + |frames| then Some(Pte(frames[v - lo], flags)) else Translate(m, root, v)
  }

  lemma {:induction false} PteWriteKeepsTable(m: Memory, root: nat, own: map<nat, Label>, t: nat, j: nat, e: Entry,
                                              l: nat, b: nat)
    requires Tree(m, root, own) && IsLabel(l, b)
    requires t in own && own[t].level == 1 && j < ENTRIES
    ensures Table(Put(m, t, j, e), root, l, b) == Table(m, root, l, b)
    decreases 4 - l
  {
    hide Tree, TableFrame, Put;
    if l < 4 {
      PteWriteKeepsTable(m, root, own, t, j, e, l + 1, b / ENTRIES);
      TableLabelled(m, root, own, l + 1, b / ENTRIES);
      OwnFacts(m, root, own, t);
      PutReads(m, t, j, e);
    }
  }

  lemma PteWriteKeepsTree(m: Memory, root: nat, own: map<nat, Label>, t: nat, j: nat, e: Entry)
    requires Tree(m, root, own) && t in own && own[t].level == 1 && j < ENTRIES
    ensures Tree(Put(m, t, j, e), root, own)
  {
    var m' := Put(m, t, j, e);
    forall f, i | f in own && own[f].level >= 2 && 0 <= i < ENTRIES && m'[f][i].present
      ensures TableFrame(m'[f][i]) in own
      ensures own[TableFrame(m'[f][i])] == Label(own[f].level - 1, own[f].base * ENTRIES + i)
    {
      assert m'[f][i] == m[f][i];
    }
  }

  lemma PteWriteTranslates(m: Memory, root: nat, own: map<nat, Label>, t: nat, v: nat, e: Entry, w: nat)
    requires Tree(m, root, own) && v < VPNS && w < VPNS
    requires Table(m, root, 1, v / ENTRIES) == Some(t) && t in own && own[t] == Label(1, v / ENTRIES) && e.present
    ensures Translate(Put(m, t, v % ENTRIES, e), root, w) == if w == v then Some(e) else Translate(m, root, w)
  {
    assert IsLabel(1, w / ENTRIES);
    TableLabelled(m, root, own, 1, w / ENTRIES);
    PteWriteKeepsTable(m, root, own, t, v % ENTRIES, e, 1, w / ENTRIES);
  }

  /** Writing one PTE changes the translation of that page and of no other. */
  lemma PteWrite(m: Memory, root: nat, own: map<nat, Label>, t: nat, v: nat, idx: nat, flags: nat)
    requires Tree(m, root, own) && v < VPNS
    requires Table(m, root, 1, v / ENTRIES) == Some(t) && t < |m|
    ensures var m' := Put(m, t, v % ENTRIES, Pte(idx, flags));
            Tree(m', root, own) && Extends(m, m', root, {}) && Mapped(m, m', root, v, [idx], flags)
  {
    var e := Pte(idx, flags);
    assert IsLabel(1, v / ENTRIES);
    TableLabelled(m, root, own, 1, v / ENTRIES);
    PteWriteKeepsTree(m, root, own, t, v % ENTRIES, e);
    forall l, b | IsLabel(l, b) ensures Table(Put(m, t, v % ENTRIES, e), root, l, b) == Table(m, root, l, b) {
      PteWriteKeepsTable(m, root, own, t, v % ENTRIES, e, l, b);
    }
    forall w | 0 <= w < VPNS
      ensures Translate(Put(m, t, v % ENTRIES, e), root, w) == if w == v then Some(e) else Translate(m, root, w)
    {
      PteWriteTranslates(m, root, own, t, v, e, w);
    }
  }

  lemma {:induction false} FreshWriteKeepsTable(m: Memory, root: nat, own: map<nat, Label>, g: nat, l: nat, b: nat)
    requires Tree(m, root, own) && IsLabel(l, b)
    requires g < |m| && g !in own
    ensures Table(m[g := Blank()], root, l, b) == Table(m, root, l, b)
    decreases 4 - l
  {
    hide Tree, TableFrame;
    if l < 4 {
      FreshWriteKeepsTable(m, root, own, g, l + 1, b / ENTRIES);
      TableLabelled(m, root, own, l + 1, b / ENTRIES);
    }
  }

  /** Entry i of table f is absent, and frame g is blank and not yet part of the tree. */
  ghost predicate Linkable(m: Memory, root: nat, own: map<nat, Label>, f: nat, i: nat, g: nat) {
    && Tree(m, root, own)
    && f in own && own[f].level >= 2 && i < ENTRIES && !m[f][i].present
    && Table(m, root, own[f].level, own[f].base) == Some(f)
    && g < |m| && g !in own && g < TABLE_LIMIT && m[g] == Blank()
  }

  ghost function ChildLabel(own: map<nat, Label>, f: nat, i: nat): Label
    requires f in own && own[f].level >= 2
  {
    Label(own[f].level - 1, own[f].base * ENTRIES + i)
  }

  lemma {:induction false} LinkKeepsTable(m: Memory, root: nat, own: map<nat, Label>, f: nat, i: nat, g: nat, l: nat,
                                          b: nat)
    requires Linkable(m, root, own, f, i, g) && IsLabel(l, b)
    ensures var m' := Put(m, f, i, PointTo(g));
            if Label(l, b) == ChildLabel(own, f, i) then Table(m', root, l, b) == Some(g) && Table(m, root, l, b).None?
            else Table(m', root, l, b) == Table(m, root, l, b)
    decreases 4 - l
  {
    hide Tree, TableFrame, Table, PointTo, Put;
    OwnFacts(m, root, own, f);
    TableRoot(m, root, b);
    TableRoot(Put(m, f, i, PointTo(g)), root, b);
    if l < 4 {
      LinkKeepsTable(m, root, own, f, i, g, l + 1, b / ENTRIES);
      TableLabelled(m, root, own, l + 1, b / ENTRIES);
      TableFrameExact(g);
      PutReads(m, f, i, PointTo(g));
      var m' := Put(m, f, i, PointTo(g));
      if Label(l, b) == ChildLabel(own, f, i) {
        assert own[f] == Label(l + 1, b / ENTRIES) && i == b % ENTRIES;
        PointToPresent(g);
        EntryTable(m, root, l + 1, b / ENTRIES, f, i);
        EntryTable(m', root, l + 1, b / ENTRIES, f, i);
      } else {
        TableStep(m, root, l, b);
        TableStep(m', root, l, b);
      }
    }
  }

  lemma TableRoot(m: Memory, root: nat, b: nat)
    ensures Table(m, root, 4, b) == Some(root)
  {
  }

  lemma PointToPresent(g: nat)
    ensures PointTo(g).present
  {
  }

  lemma LinkKeepsTree(m: Memory, root: nat, own: map<nat, Label>, f: nat, i: nat, g: nat)
    requires Linkable(m, root, own, f, i, g)
    ensures IsLabel(ChildLabel(own, f, i).level, ChildLabel(own, f, i).base)
    ensures Tree(Put(m, f, i, PointTo(g)), root, own[g := ChildLabel(own, f, i)])
  {
    var m', own' := Put(m, f, i, PointTo(g)), own[g := ChildLabel(own, f, i)];
    TableFrameExact(g);
    forall f', i' | f' in own' && own'[f'].level >= 2 && 0 <= i' < ENTRIES && m'[f'][i'].present
      ensures TableFrame(m'[f'][i']) in own'
      ensures own'[TableFrame(m'[f'][i'])] == Label(own'[f'].level - 1, own'[f'].base * ENTRIES + i')
    {
      if f' != g && (f' != f || i' != i) {
        assert m'[f'][i'] == m[f'][i'];
      }
    }
  }

  lemma LinkTranslates(m: Memory, root: nat, own: map<nat, Label>, f: nat, i: nat, g: nat, v: nat)
    requires Linkable(m, root, own, f, i, g) && v < VPNS
    ensures Translate(Put(m, f, i, PointTo(g)), root, v) == Translate(m, root, v)
  {
    assert IsLabel(1, v / ENTRIES);
    TableLabelled(m, root, own, 1, v / ENTRIES);
    LinkKeepsTable(m, root, own, f, i, g, 1, v / ENTRIES);
  }

  lemma FreshWriteTranslates(m: Memory, root: nat, own: map<nat, Label>, g: nat)
    requires Tree(m, root, own) && g < |m| && g !in own
    ensures Tree(m[g := Blank()], root, own)
    ensures Extends(m, m[g := Blank()], root, {}) && Mapped(m, m[g := Blank()], root, 0, [], 0)
  {
    forall l, b | IsLabel(l, b) ensures Table(m[g := Blank()], root, l, b) == Table(m, root, l, b) {
      FreshWriteKeepsTable(m, root, own, g, l, b);
    }
    forall v | 0 <= v < VPNS ensures Translate(m[g := Blank()], root, v) == Translate(m, root, v) {
      assert IsLabel(1, v / ENTRIES);
      TableLabelled(m, root, own, 1, v / ENTRIES);
    }
  }

  /** Hanging a blank, so far unused frame below an absent entry adds one table to the tree and
      changes no translation. */
  lemma Link(m: Memory, root: nat, own: map<nat, Label>, f: nat, i: nat, g: nat)
    requires Linkable(m, root, own, f, i, g)
    ensures var m' := Put(m, f, i, PointTo(g));
            var l := ChildLabel(own, f, i);
            && Tree(m', root, own[g := l])
            && Extends(m, m', root, {l}) && Table(m', root, l.level, l.base) == Some(g)
            && Mapped(m, m', root, 0, [], 0)
  {
    var m' := Put(m, f, i, PointTo(g));
    LinkKeepsTree(m, root, own, f, i, g);
    forall l, b | IsLabel(l, b)
      ensures if Label(l, b) == ChildLabel(own, f, i) then Table(m', root, l, b) == Some(g)
              && Table(m, root, l, b).None?
              else Table(m', root, l, b) == Table(m, root, l, b)
    {
      LinkKeepsTable(m, root, own, f, i, g, l, b);
    }
    forall v | 0 <= v < VPNS ensures Translate(m', root, v) == Translate(m, root, v) {
      LinkTranslates(m, root, own, f, i, g, v);
    }
  }

  // ---------- composition of effects ----------

  lemma ExtendsTrans(m0: Memory, m1: Memory, m2: Memory, root: nat, a: set<Label>, b: set<Label>)
    requires Extends(m0, m1, root, a) && Extends(m1, m2, root, b)
    ensures Extends(m0, m2, root, a + b) && a !! b
  {
    forall x | x in a ensures x !in b {
      assert x == Label(x.level, x.base);
    }
  }

  lemma MappedTrans(m0: Memory, m1: Memory, m2: Memory, root: nat, lo: nat, a: seq<nat>, b: seq<nat>, flags: nat)
    requires Mapped(m0, m1, root, lo, a, flags) && Mapped(m1, m2, root, lo + |a|, b, flags)
    ensures Mapped(m0, m2, root, lo, a + b, flags)
  {
  }

  // ---------- the tables a range needs ----------

  /** Some page of lo..hi lies below the table labelled (l, b). */
  ghost predicate Touches(l: nat, b: nat, lo: nat, hi: nat)
    requires l <= 4
  {
    lo < hi && b * Span(l) < hi && lo < (b + 1) * Span(l)
  }

  /** The tables on the paths of the pages lo..hi that do not exist yet. */
  ghost function Needed(m: Memory, root: nat, lo: nat, hi: nat): set<Label> {
    set l: nat, b: nat | 1 <= l <= 3 && 0 <= b < Span(4 - l) && Touches(l, b, lo, hi)
      && Table(m, root, l, b).None? :: Label(l, b)
  }

  /** Making some of the needed tables leaves exactly the others to be made. */
  lemma NeededAfter(m: Memory, m': Memory, root: nat, lo: nat, hi: nat, made: set<Label>)
    requires Extends(m, m', root, made) && made <= Needed(m, root, lo, hi)
    ensures Needed(m, root, lo, hi) == made + Needed(m', root, lo, hi) && made !! Needed(m', root, lo, hi)
  {
    forall x ensures x in Needed(m, root, lo, hi) <==> x in made || x in Needed(m', root, lo, hi) {
      assert x == Label(x.level, x.base);
    }
    forall x | x in made ensures x !in Needed(m', root, lo, hi) {
      assert x == Label(x.level, x.base);
    }
  }

  /** A range needs what its two parts need. */
  lemma NeededSplit(m: Memory, root: nat, lo: nat, mid: nat, hi: nat)
    requires lo <= mid <= hi
    ensures Needed(m, root, lo, hi) == Needed(m, root, lo, mid) + Needed(m, root, mid, hi)
  {
    forall x ensures x in Needed(m, root, lo, hi) <==> x in Needed(m, root, lo, mid) || x in Needed(m, root, mid, hi) {
      assert x == Label(x.level, x.base);
    }
  }

  /** After all tables for lo..mid have been made, lo..hi needs those and what mid..hi still needs. */
  lemma NeededAdvance(m: Memory, m': Memory, root: nat, lo: nat, mid: nat, hi: nat)
    requires lo <= mid <= hi && Extends(m, m', root, Needed(m, root, lo, mid))
    ensures Needed(m, root, lo, hi) == Needed(m, root, lo, mid) + Needed(m', root, mid, hi)
    ensures Needed(m, root, lo, mid) !! Needed(m', root, mid, hi)
  {
    NeededSplit(m, root, lo, mid, hi);
    NeededSplit(m', root, lo, mid, hi);
    NeededAfter(m, m', root, lo, mid, Needed(m, root, lo, mid));
    NeededAfter(m, m', root, lo, hi, Needed(m, root, lo, mid));
  }
}
