/** What the entries of a page table allow: the entry through which each table is reached, the rights of a page,
    and what single writes do to them (eza/amd64/mm/pt.c). */
module PageRights {
  import opened Words
  import opened PageTable

  /** The entry through which the walk reaches the table labelled (l, b). */
  ghost function Through(m: Memory, root: nat, l: nat, b: nat): Option<Entry>
    requires 1 <= l < 4
  {
    match Table(m, root, l + 1, b / ENTRIES)
    case None => None
    case Some(f) => if f < |m| && m[f][b % ENTRIES].present then Some(m[f][b % ENTRIES]) else None
  }

  /** The access that a page gives. */
  datatype Rights = Rights(writable: bool, user: bool, cached: bool, global: bool)

  /** Section 5.6 of the AMD64 Architecture Programmer's Manual, Volume 2: a page can be written, and
      reached from user mode, only if the entries of all four levels allow it. */
  ghost function RightsOf(m: Memory, root: nat, v: nat): Option<Rights>
    requires v < VPNS
  {
    match Translate(m, root, v)
    case None => None
    case Some(e) =>
      match (Through(m, root, 1, v / Span(1)), Through(m, root, 2, v / Span(2)), Through(m, root, 3, v / Span(3)))
      case (Some(e1), Some(e2), Some(e3)) =>
        Some(Rights(e.rw && e1.rw && e2.rw && e3.rw, e.us && e1.us && e2.us && e3.us, !e.pcd, e.global))
      case _ => None
  }

  /** An entry that leads to a table made by the mapper: writable, for the kernel only, and cached. */
  predicate KernelLink(e: Entry) {
    e.present && e.rw && !e.us && !e.pcd && !e.global
  }

  /** The tables in `made` are reached through new kernel links, all others through the entries as before. */
  ghost predicate LinksKept(m: Memory, m': Memory, root: nat, made: set<Label>) {
    && (forall l: nat, b: nat :: IsLabel(l, b) && l < 4 && Label(l, b) !in made ==>
        Through(m', root, l, b) == Through(m, root, l, b))
    && (forall l: nat, b: nat :: Label(l, b) in made ==>
          1 <= l < 4 && Through(m', root, l, b).Some? && KernelLink(Through(m', root, l, b).value))
  }

  lemma LinksTrans(m0: Memory, m1: Memory, m2: Memory, root: nat, a: set<Label>, b: set<Label>)
    requires LinksKept(m0, m1, root, a) && LinksKept(m1, m2, root, b)
    requires forall x :: x in a + b ==> IsLabel(x.level, x.base)
    ensures LinksKept(m0, m2, root, a + b)
  {
    hide Through, KernelLink;
    forall l: nat, b': nat | Label(l, b') in a + b
      ensures 1 <= l < 4 && Through(m2, root, l, b').Some? && KernelLink(Through(m2, root, l, b').value)
    {
      assert IsLabel(l, b');
    }
  }

  /** A write outside the tables above level 1 changes no link. */
  lemma SameThrough(m: Memory, m': Memory, root: nat, own: map<nat, Label>, l: nat, b: nat)
    requires Tree(m, root, own) && IsLabel(l, b) && l < 4 && |m'| == |m|
    requires Table(m', root, l + 1, b / ENTRIES) == Table(m, root, l + 1, b / ENTRIES)
    requires forall f :: f in own && f < |m| && own[f].level >= 2 ==> m'[f] == m[f]
    ensures Through(m', root, l, b) == Through(m, root, l, b)
  {
    hide Tree, Table;
    assert IsLabel(l + 1, b / ENTRIES);
    TableLabelled(m, root, own, l + 1, b / ENTRIES);
  }

  lemma PteWriteLinks(m: Memory, root: nat, own: map<nat, Label>, t: nat, j: nat, e: Entry)
    requires Tree(m, root, own) && t in own && own[t].level == 1 && j < ENTRIES
    ensures LinksKept(m, Put(m, t, j, e), root, {})
  {
    hide Tree, Table, Put, Through;
    OwnFacts(m, root, own, t);
    OtherFrames(m, t, j, e);
    var m' := Put(m, t, j, e);
    forall l: nat, b: nat | IsLabel(l, b) && l < 4 ensures Through(m', root, l, b) == Through(m, root, l, b) {
      PteWriteKeepsTable(m, root, own, t, j, e, l + 1, b / ENTRIES);
      SameThrough(m, m', root, own, l, b);
    }
  }

  lemma OtherFrames(m: Memory, f: nat, i: nat, e: Entry)
    requires f < |m| && i < ENTRIES
    ensures |Put(m, f, i, e)| == |m| && forall g :: 0 <= g < |m| && g != f ==> Put(m, f, i, e)[g] == m[g]
  {
  }

  lemma FreshWriteLinks(m: Memory, root: nat, own: map<nat, Label>, g: nat)
    requires Tree(m, root, own) && g < |m| && g !in own
    ensures LinksKept(m, m[g := Blank()], root, {})
  {
    hide Tree, Table, Through;
    forall l: nat, b: nat | IsLabel(l, b) && l < 4
      ensures Through(m[g := Blank()], root, l, b) == Through(m, root, l, b) {
      FreshWriteKeepsTable(m, root, own, g, l + 1, b / ENTRIES);
      SameThrough(m, m[g := Blank()], root, own, l, b);
    }
  }

  lemma NewLink(g: nat)
    ensures KernelLink(PointTo(g)) && PointTo(g).present
  {
  }

  lemma BlankLink(i: nat)
    requires i < ENTRIES
    ensures !Blank()[i].present
  {
  }

  lemma LinkThrough(m: Memory, root: nat, own: map<nat, Label>, f: nat, i: nat, g: nat, l: nat, b: nat)
    requires Linkable(m, root, own, f, i, g) && IsLabel(l, b) && l < 4
    ensures var m' := Put(m, f, i, PointTo(g));
            Through(m', root, l, b) == if Label(l, b) == ChildLabel(own, f, i) then Some(PointTo(g))
                                       else Through(m, root, l, b)
  {
    hide Tree, Table, Put, PointTo, Blank;
    OwnFacts(m, root, own, f);
    var m' := Put(m, f, i, PointTo(g));
    LinkKeepsTable(m, root, own, f, i, g, l + 1, b / ENTRIES);
    TableLabelled(m, root, own, l + 1, b / ENTRIES);
    PutReads(m, f, i, PointTo(g));
    OtherFrames(m, f, i, PointTo(g));
    NewLink(g);
    BlankLink(b % ENTRIES);
    if Label(l, b) == ChildLabel(own, f, i) {
      assert own[f] == Label(l + 1, b / ENTRIES) && i == b % ENTRIES;
    }
  }

  /** Hanging a frame below an absent entry makes one kernel link and changes no other. */
  lemma LinkLinks(m: Memory, root: nat, own: map<nat, Label>, f: nat, i: nat, g: nat)
    requires Linkable(m, root, own, f, i, g)
    ensures LinksKept(m, Put(m, f, i, PointTo(g)), root, {ChildLabel(own, f, i)})
  {
    hide Through, KernelLink, Put, PointTo, Tree, Table;
    OwnFacts(m, root, own, f);
    NewLink(g);
    LinkKeepsTree(m, root, own, f, i, g);
    forall l: nat, b: nat | IsLabel(l, b) && l < 4
      ensures Through(Put(m, f, i, PointTo(g)), root, l, b) ==
                if Label(l, b) == ChildLabel(own, f, i) then Some(PointTo(g)) else Through(m, root, l, b)
    {
      LinkThrough(m, root, own, f, i, g, l, b);
    }
  }
}
