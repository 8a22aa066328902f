/** The state of the page-table mapper of eza/amd64/mm/pt.c as a value, and what a partial run over a
    range of pages does to it. */
module MapState {
  import opened Words
  import opened PageTable
  import opened PageRights

  const L2_RANGE: nat := 0x20_0000
  const L3_RANGE: nat := 0x4000_0000
  const L4_RANGE: nat := 0x80_0000_0000

  /** `Astray` is not a return value of the program: it marks the point where the loop of
      `map_pml4_range` steps past the last entry of its table (see MapPml4Range). */
  datatype Status = Ok | EInval | ENoMem | Astray

  /** A page directory; `entries` is the address of the root table, 0 for NULL. */
  datatype Directory = Directory(entries: Word)

  /** The directory that every task shares (`kernel_pt_directory`), with its root table in frame `root`. */
  function KernelDirectory(root: nat): Directory {
    Directory(Add64(KERNEL_BASE, root * PAGE_SIZE % TWO64))
  }

  // ---------- the state of the mapper, as a value ----------

  datatype State = State(mem: Memory, own: map<nat, Label>, avail: seq<nat>)

  /** The tables form a tree, and the frames left to the allocator are distinct and not tables. */
  ghost predicate Sound(s: State, root: nat) {
    && Tree(s.mem, root, s.own)
    && (forall k :: 0 <= k < |s.avail| ==> s.avail[k] < |s.mem| && s.avail[k] < TABLE_LIMIT && s.avail[k] !in s.own)
    && (forall j, k :: 0 <= j < k < |s.avail| ==> s.avail[j] != s.avail[k])
  }

  /** From s to s': the pages from lo on are mapped to `frames`, the tables in `made` were created
      in the first |made| available frames and are reached through new entries, and nothing else changed. */
  ghost predicate Effect(s: State, s': State, root: nat, lo: nat, frames: seq<nat>, flags: nat, made: set<Label>) {
    && Extends(s.mem, s'.mem, root, made)
    && Mapped(s.mem, s'.mem, root, lo, frames, flags)
    && LinksKept(s.mem, s'.mem, root, made)
    && Taken(s, s', |made|)
  }

  /** The first k available frames have become tables; all other frames outside the tree are as before. */
  ghost predicate Taken(s: State, s': State, k: nat) {
    && k <= |s.avail| && s'.avail == s.avail[k..] && |s'.mem| == |s.mem|
    && s'.own.Keys == s.own.Keys + (set f | f in s.avail[..k])
    && (forall f :: f in s.own ==> s'.own[f] == s.own[f])
    && (forall f :: 0 <= f < |s.mem| && f !in s'.own ==> s'.mem[f] == s.mem[f])
  }

  lemma EffectTrans(s0: State, s1: State, s2: State, root: nat, lo: nat, a: seq<nat>, b: seq<nat>, flags: nat,
                    made: set<Label>, made': set<Label>)
    requires Effect(s0, s1, root, lo, a, flags, made) && Effect(s1, s2, root, lo + |a|, b, flags, made')
    ensures Effect(s0, s2, root, lo, a + b, flags, made + made') && made !! made'
  {
    hide Mapped, LinksKept, Extends, Taken;
    MadeLabels(s0.mem, s1.mem, root, made);
    MadeLabels(s1.mem, s2.mem, root, made');
    LinksTrans(s0.mem, s1.mem, s2.mem, root, made, made');
    ExtendsTrans(s0.mem, s1.mem, s2.mem, root, made, made');
    MappedTrans(s0.mem, s1.mem, s2.mem, root, lo, a, b, flags);
    assert |made + made'| == |made| + |made'|;
    TakenTrans(s0, s1, s2, |made|, |made'|);
  }

  lemma TakenTrans(s0: State, s1: State, s2: State, k: nat, k': nat)
    requires Taken(s0, s1, k) && Taken(s1, s2, k') && |s1.mem| == |s0.mem|
    ensures Taken(s0, s2, k + k')
  {
    assert s0.avail[..k + k'] == s0.avail[..k] + s0.avail[k..][..k'];
    assert s0.avail[k + k'..] == s0.avail[k..][k'..];
  }

  lemma MadeLabels(m: Memory, m': Memory, root: nat, made: set<Label>)
    requires Extends(m, m', root, made)
    ensures |m'| == |m| && forall x :: x in made ==> IsLabel(x.level, x.base)
  {
    forall x | x in made ensures IsLabel(x.level, x.base) {
      assert x == Label(x.level, x.base);
    }
  }

  /** Tables that exist after the effect are no longer needed. */
  lemma MadeNotNeeded(m: Memory, m': Memory, root: nat, made: set<Label>, lo: nat, hi: nat)
    requires Extends(m, m', root, made)
    ensures made !! Needed(m', root, lo, hi)
  {
    forall x | x in made ensures x !in Needed(m', root, lo, hi) {
      assert x == Label(x.level, x.base);
    }
  }

  /** The state after `populate_*`: the first available frame, zeroed and hung below entry i of table f. */
  ghost function Populated(s: State, f: nat, i: nat): State
    requires s.avail != [] && s.avail[0] < |s.mem| && f < |s.mem| && i < ENTRIES && f in s.own && s.own[f].level >= 2
  {
    var g := s.avail[0];
    State(Put(s.mem[g := Blank()], f, i, PointTo(g)), s.own[g := ChildLabel(s.own, f, i)], s.avail[1..])
  }

  lemma PopulateEffect(s: State, root: nat, f: nat, i: nat, lo: nat, flags: nat)
    requires Sound(s, root) && s.avail != []
    requires f in s.own && s.own[f].level >= 2 && i < ENTRIES && !s.mem[f][i].present
    requires Table(s.mem, root, s.own[f].level, s.own[f].base) == Some(f)
    ensures Sound(Populated(s, f, i), root)
    ensures Effect(s, Populated(s, f, i), root, lo, [], flags, {ChildLabel(s.own, f, i)})
  {
    hide Tree, Table, Translate, Blank, PointTo, Mapped, LinksKept;
    OwnFacts(s.mem, root, s.own, f);
    var g := s.avail[0];
    var l := ChildLabel(s.own, f, i);
    var m0 := s.mem[g := Blank()];
    FreshWriteTranslates(s.mem, root, s.own, g);
    FreshWriteLinks(s.mem, root, s.own, g);
    Link(m0, root, s.own, f, i, g);
    LinkLinks(m0, root, s.own, f, i, g);
    assert s.avail[..1] == [g];
    var s' := Populated(s, f, i);
    ExtendsTrans(s.mem, m0, s'.mem, root, {}, {l});
    MadeLabels(m0, s'.mem, root, {l});
    LinksTrans(s.mem, m0, s'.mem, root, {}, {l});
    assert {} + {l} == {l};
    MappedSame(s.mem, m0, s'.mem, root, lo, flags);
  }

  lemma MappedSame(m0: Memory, m1: Memory, m2: Memory, root: nat, lo: nat, flags: nat)
    requires Mapped(m0, m1, root, 0, [], 0) && Mapped(m1, m2, root, 0, [], 0)
    ensures Mapped(m0, m2, root, lo, [], flags)
  {
  }

  lemma TableInMemory(s: State, root: nat, l: nat, b: nat)
    requires Sound(s, root) && IsLabel(l, b) && Table(s.mem, root, l, b).Some?
    ensures var t := Table(s.mem, root, l, b).value;
            t < |s.mem| && t in s.own && s.own[t] == Label(l, b)
  {
    TableLabelled(s.mem, root, s.own, l, b);
  }

  lemma PteEffect(s: State, root: nat, t: nat, v: nat, idx: nat, flags: nat)
    requires Sound(s, root) && v < VPNS && Table(s.mem, root, 1, v / ENTRIES) == Some(t) && t < |s.mem|
    ensures var s' := s.(mem := Put(s.mem, t, v % ENTRIES, Pte(idx, flags)));
            && Sound(s', root) && Effect(s, s', root, v, [idx], flags, {})
            && Table(s'.mem, root, 1, v / ENTRIES) == Some(t)
  {
    hide LinksKept, Mapped, Pte, Tree, Table;
    PteWrite(s.mem, root, s.own, t, v, idx, flags);
    assert IsLabel(1, v / ENTRIES);
    TableLabelled(s.mem, root, s.own, 1, v / ENTRIES);
    PteWriteLinks(s.mem, root, s.own, t, v % ENTRIES, Pte(idx, flags));
    PutReads(s.mem, t, v % ENTRIES, Pte(idx, flags));
    OtherFrames(s.mem, t, v % ENTRIES, Pte(idx, flags));
  }

  // ---------- progress through a range ----------

  /** What a (partial) run over the pages lo..lo+total did. With status ENoMem the mapped pages stop
      at a 2 MB boundary, the pool is empty, and some needed table is missing. */
  ghost predicate Outcome(s: State, s': State, root: nat, lo: nat, total: nat, frames: seq<nat>, flags: nat,
                          r: Status, made: set<Label>) {
    && Effect(s, s', root, lo, frames, flags, made)
    && (r != ENoMem ==> |frames| == total && made == Needed(s.mem, root, lo, lo + total))
    && (r == ENoMem ==>
          && |frames| < total && (frames == [] || (lo + |frames|) % ENTRIES == 0)
          && made < Needed(s.mem, root, lo, lo + total) && s'.avail == [])
  }

  /** The first |frames| pages of lo..lo+total are done. */
  ghost predicate Progress(s: State, s': State, root: nat, lo: nat, total: nat, frames: seq<nat>, flags: nat,
                           made: set<Label>) {
    && Effect(s, s', root, lo, frames, flags, made)
    && |frames| <= total
    && Needed(s.mem, root, lo, lo + total) == made + Needed(s'.mem, root, lo + |frames|, lo + total)
  }

  lemma ProgressStart(s: State, root: nat, lo: nat, total: nat, flags: nat)
    ensures Progress(s, s, root, lo, total, [], flags, {})
  {
  }

  /** Creating one needed table. */
  lemma ProgressTable(s: State, s1: State, s2: State, root: nat, lo: nat, total: nat, frames: seq<nat>, flags: nat,
                      made: set<Label>, l: Label)
    requires Progress(s, s1, root, lo, total, frames, flags, made)
    requires Effect(s1, s2, root, lo + |frames|, [], flags, {l}) && l in Needed(s1.mem, root, lo + |frames|, lo + total)
    ensures Progress(s, s2, root, lo, total, frames, flags, made + {l})
  {
    hide Extends, Mapped, Needed, LinksKept, Effect;
    EffectTrans(s, s1, s2, root, lo, frames, [], flags, made, {l});
    assert frames + [] == frames;
    EffectExtends(s1, s2, root, lo + |frames|, [], flags, {l});
    NeededAfter(s1.mem, s2.mem, root, lo + |frames|, lo + total, {l});
  }

  lemma EffectExtends(s: State, s': State, root: nat, lo: nat, frames: seq<nat>, flags: nat, made: set<Label>)
    requires Effect(s, s', root, lo, frames, flags, made)
    ensures Extends(s.mem, s'.mem, root, made)
  {
  }

  /** Finishing the next part of the range. */
  lemma ProgressPart(s: State, s1: State, s2: State, root: nat, lo: nat, total: nat, a: seq<nat>, b: seq<nat>,
                     flags: nat, made: set<Label>, made': set<Label>)
    requires Progress(s, s1, root, lo, total, a, flags, made)
    requires Effect(s1, s2, root, lo + |a|, b, flags, made') && |a| + |b| <= total
    requires made' == Needed(s1.mem, root, lo + |a|, lo + |a| + |b|)
    ensures Progress(s, s2, root, lo, total, a + b, flags, made + made')
  {
    hide Extends, Mapped, Needed, LinksKept, Effect;
    EffectTrans(s, s1, s2, root, lo, a, b, flags, made, made');
    EffectExtends(s1, s2, root, lo + |a|, b, flags, made');
    NeededAdvance(s1.mem, s2.mem, root, lo + |a|, lo + |a| + |b|, lo + total);
  }

  /** At the end of the range nothing more is needed. */
  lemma ProgressDone(s: State, s1: State, root: nat, lo: nat, total: nat, frames: seq<nat>, flags: nat,
                     made: set<Label>, r: Status)
    requires Progress(s, s1, root, lo, total, frames, flags, made) && |frames| == total && r != ENoMem
    ensures Outcome(s, s1, root, lo, total, frames, flags, r, made)
  {
    assert Needed(s1.mem, root, lo + total, lo + total) == {};
  }

  /** Running out of frames in the next part of the range. */
  lemma ProgressFails(s: State, s1: State, s2: State, root: nat, lo: nat, total: nat, a: seq<nat>, b: seq<nat>,
                      part: nat, flags: nat, made: set<Label>, made': set<Label>)
    requires Progress(s, s1, root, lo, total, a, flags, made)
    requires Outcome(s1, s2, root, lo + |a|, part, b, flags, ENoMem, made') && |a| + part <= total
    requires a == [] || (lo + |a|) % ENTRIES == 0
    ensures Outcome(s, s2, root, lo, total, a + b, flags, ENoMem, made + made')
  {
    hide Extends, Mapped, Needed, LinksKept, Effect;
    EffectTrans(s, s1, s2, root, lo, a, b, flags, made, made');
    EffectExtends(s, s1, root, lo, a, flags, made);
    MadeNotNeeded(s.mem, s1.mem, root, made, lo + |a|, lo + total);
    NeededSplit(s1.mem, root, lo + |a|, lo + |a| + part, lo + total);
    var x :| x in Needed(s1.mem, root, lo + |a|, lo + |a| + part) && x !in made';
    assert x in Needed(s1.mem, root, lo + |a|, lo + total);
    assert x !in made + made';
  }

  /** Failing to create the next needed table. */
  lemma NoFrameLeft(s: State, root: nat, lo: nat, total: nat, flags: nat, l: Label)
    requires l in Needed(s.mem, root, lo, lo + total) && s.avail == [] && total > 0
    ensures Outcome(s, s, root, lo, total, [], flags, ENoMem, {})
  {
  }

  lemma DirectoryFacts(s: State, root: nat)
    requires Sound(s, root)
    ensures var a := KernelDirectory(root).entries;
            a != 0 && a % PAGE_SIZE == 0 && FrameOfAddr(a) == root
  {
    assert root < TABLE_LIMIT;
    var a := KERNEL_BASE + root * PAGE_SIZE;
    assert a < TWO64;
    Remainder(KERNEL_BASE / PAGE_SIZE + root, 0, PAGE_SIZE);
  }
}
