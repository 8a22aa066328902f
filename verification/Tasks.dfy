/** Task creation (eza/generic_api/task.c): a task owns one page for its structure, four pages for
    its kernel stack, and one slot of kernel addresses in which both are mapped. */
module Tasks {
  import opened Words
  import opened PageTable
  import opened PageAccess
  import opened MapState
  import opened PageRanges
  import opened MapRequests
  import opened PageRights
  import opened MappedRights
  import opened Mapper
  import opened Lists
  import opened KernelStacks

  const CLONE_MM: nat := 1
  const KERNEL_STACK_PAGE_FLAGS: nat := 0
  const ENOMEM: int := 12
  const EINVAL: int := 22

  /** The fields of `kernel_task_data_t` that creation fills in. */
  datatype TaskStruct = TaskStruct(pid: nat, ppid: nat, stack: KernelStack, entries: Word, cpuId: nat, irqNum: nat)

  const BLANK_TASK := TaskStruct(0, 0, KernelStack(0, 0, 0), 0, 0, 0)

  /** Live tasks: the frame of the task structure, with the frames of the stack pages, low to high. */
  type Live = map<nat, seq<nat>>

  ghost function Frames(live: Live, f: nat): seq<nat>
    requires f in live
  {
    [f] + live[f]
  }

  ghost predicate Distinct(xs: seq<nat>) {
    forall i, j :: 0 <= i < j < |xs| ==> xs[i] != xs[j]
  }

  /** A frame in use, but not as a table. */
  ghost predicate Private(s: State, x: nat) {
    x < |s.mem| && x !in s.own && x !in s.avail
  }

  /** Page k of the stack in slot `id`. */
  function StackAddr(id: nat, k: nat): Word
    requires id < BITMAP_ENTRIES_COUNT && k < KERNEL_STACK_PAGES
  {
    StackLow(id) + PAGE_SIZE * k
  }

  /** Address a translates to the frame, through an entry that allows writing and caching. */
  ghost predicate Backed(m: Memory, root: nat, a: Word, frame: nat) {
    var e := EntryAt(m, root, a);
    e.Some? && FrameIndex(e.value) == frame && e.value.rw && !e.value.pcd
  }

  /** The stack and the structure of task f are mapped in its slot, to its own frames. */
  ghost predicate TaskMapped(m: Memory, root: nat, ts: TaskStruct, f: nat, stack: seq<nat>) {
    && ts.stack.id < BITMAP_ENTRIES_COUNT && |stack| == KERNEL_STACK_PAGES
    && ts.stack == KernelStack(ts.stack.id, StackHigh(ts.stack.id), StackLow(ts.stack.id))
    && Backed(m, root, SlotBase(ts.stack.id), f)
    && forall k: nat :: k < KERNEL_STACK_PAGES ==> Backed(m, root, StackAddr(ts.stack.id, k), stack[k])
  }

  ghost predicate AllMapped(m: Memory, root: nat, structs: map<nat, TaskStruct>, live: Live) {
    forall f :: f in live ==> f in structs && TaskMapped(m, root, structs[f], f, live[f])
  }

  ghost predicate DistinctIds(structs: map<nat, TaskStruct>, live: Live, issued: set<nat>) {
    && (forall f :: f in live ==> f in structs && structs[f].stack.id in issued)
    && (forall f, g :: f in live && g in live && structs[f].stack.id == structs[g].stack.id ==> f == g)
  }

  /** The frames of the live tasks are pairwise distinct; none is a page table or free. */
  ghost predicate OwnFrames(s: State, live: Live) {
    && (forall f, x :: f in live && x in Frames(live, f) ==> Private(s, x))
    && (forall f :: f in live ==> Distinct(Frames(live, f)))
    && (forall f, g, x :: f in live && g in live && x in Frames(live, f) && x in Frames(live, g) ==> f == g)
  }

  /** Every live task has an id and frames of its own, and they are mapped. */
  ghost predicate AllTasks(s: State, root: nat, structs: map<nat, TaskStruct>, live: Live, issued: set<nat>) {
    AllMapped(s.mem, root, structs, live) && DistinctIds(structs, live, issued) && OwnFrames(s, live)
  }

  ghost predicate SlotPage(id: nat, x: Word)
    requires id < BITMAP_ENTRIES_COUNT
  {
    Vpn(SlotBase(id)) <= Vpn(x) < Vpn(SlotBase(id)) + 8
  }

  /** `id` may be BITMAP_ENTRIES_COUNT, for no slot at all. */
  ghost predicate Outside(id: nat, x: Word) {
    id < BITMAP_ENTRIES_COUNT ==> !SlotPage(id, x)
  }

  lemma SlotVpn(id: nat, k: nat)
    requires id < BITMAP_ENTRIES_COUNT && k < 8
    ensures Vpn(SlotBase(id)) == 0xf_fff8_0000 - 8 * (id + 1)
    ensures SlotBase(id) + PAGE_SIZE * k < TWO64 && Vpn(SlotBase(id) + PAGE_SIZE * k) == Vpn(SlotBase(id)) + k
    ensures StackLow(id) == SlotBase(id) + PAGE_SIZE * 3
  {
    var v := 0xf_fff8_0000 - 8 * (id + 1) + k;
    assert SlotBase(id) == KERNEL_BASE - 0x8000 * id - 0x8000;
    PageVpn(SlotBase(id), 0xf_ffff_fff8_0000 - 8 * (id + 1), 0);
    PageVpn(SlotBase(id), 0xf_ffff_fff8_0000 - 8 * (id + 1), k);
  }

  lemma PageVpn(a: Word, p: nat, k: nat)
    requires a == p * PAGE_SIZE && 0xf_fff0_0000_0000 <= p && p + k < 0xf_ffff_fff8_0000
    ensures a + PAGE_SIZE * k < TWO64 && Vpn(a + PAGE_SIZE * k) == p + k - 0xf_fff0_0000_0000
  {
    assert (a + PAGE_SIZE * k) / PAGE_SIZE == p + k;
  }

  /** What a step that works on slot `id` leaves alone: all other pages, and all frames but free ones. Tables are
      made for the kernel only. */
  ghost predicate SlotOnly(s: State, s': State, root: nat, id: nat) {
    && |s'.mem| == |s.mem|
    && s'.own.Keys <= s.own.Keys + (set x | x in s.avail)
    && (forall x :: x in s'.avail ==> x in s.avail)
    && (forall x: Word :: Outside(id, x) ==> EntryAt(s'.mem, root, x) == EntryAt(s.mem, root, x))
    && (KernelLinks(s.mem, root) ==> KernelLinks(s'.mem, root))
  }

  /** Such steps in an unused slot leave all live tasks as they are. */
  lemma TasksUndisturbed(s: State, s': State, root: nat, structs: map<nat, TaskStruct>,
                         structs': map<nat, TaskStruct>, live: Live, issued: set<nat>, issued': set<nat>, id: nat)
    requires AllTasks(s, root, structs, live, issued) && issued <= issued' && id !in issued
    requires forall f :: f in live ==> f in structs' && structs'[f] == structs[f]
    requires SlotOnly(s, s', root, id)
    ensures AllTasks(s', root, structs', live, issued')
  {
    hide EntryAt, Vpn, TaskMapped, SlotPage, OwnFrames, Outside;
    forall f | f in live ensures TaskMapped(s'.mem, root, structs'[f], f, live[f]) {
      TaskId(s.mem, root, structs[f], f, live[f]);
      TaskUndisturbed(s, s', root, structs[f], f, live[f], id);
    }
    FramesStay(s, s', live);
  }

  lemma TaskId(m: Memory, root: nat, ts: TaskStruct, f: nat, stack: seq<nat>)
    requires TaskMapped(m, root, ts, f, stack)
    ensures ts.stack.id < BITMAP_ENTRIES_COUNT
  {
  }

  lemma FramesStay(s: State, s': State, live: Live)
    requires OwnFrames(s, live)
    requires |s'.mem| == |s.mem| && s'.own.Keys <= s.own.Keys + (set x | x in s.avail)
             && forall x :: x in s'.avail ==> x in s.avail
    ensures OwnFrames(s', live)
  {
    forall f, x | f in live && x in Frames(live, f) ensures Private(s', x) {
      assert Private(s, x);
      assert x !in s.own.Keys + (set y | y in s.avail);
    }
  }

  lemma TaskUndisturbed(s: State, s': State, root: nat, ts: TaskStruct, f: nat, stack: seq<nat>, id: nat)
    requires TaskMapped(s.mem, root, ts, f, stack) && id != ts.stack.id
    requires forall x: Word :: Outside(id, x) ==> EntryAt(s'.mem, root, x) == EntryAt(s.mem, root, x)
    ensures TaskMapped(s'.mem, root, ts, f, stack)
  {
    hide EntryAt, Vpn, StackHigh;
    if id < BITMAP_ENTRIES_COUNT {
      SlotVpn(id, 0);
    }
    SlotVpn(ts.stack.id, 0);
    forall k: nat | k < KERNEL_STACK_PAGES
      ensures Backed(s'.mem, root, StackAddr(ts.stack.id, k), stack[k])
    {
      SlotVpn(ts.stack.id, 3 + k);
    }
  }

  /** A new task, mapped in a new slot to frames taken from the pool, joins the live ones. */
  lemma TaskJoins(s: State, root: nat, structs: map<nat, TaskStruct>, live: Live, issued: set<nat>, f: nat,
                  stack: seq<nat>, issued0: set<nat>)
    requires AllTasks(s, root, structs, live, issued0) && issued0 <= issued && f in structs && f !in live
    requires TaskMapped(s.mem, root, structs[f], f, stack) && structs[f].stack.id in issued
             && structs[f].stack.id !in issued0
    requires forall x :: x in [f] + stack ==> Private(s, x)
    requires Distinct([f] + stack)
    requires forall g, x :: g in live && x in Frames(live, g) ==> x !in [f] + stack
    ensures AllTasks(s, root, structs, live[f := stack], issued)
  {
    hide TaskMapped, Private, Distinct;
    var live' := live[f := stack];
    assert Frames(live', f) == [f] + stack;
    assert forall g :: g in live ==> g != f && Frames(live', g) == Frames(live, g);
    assert AllMapped(s.mem, root, structs, live');
    assert DistinctIds(structs, live', issued);
    forall g, h, x | g in live' && h in live' && x in Frames(live', g) && x in Frames(live', h) ensures g == h {
      assert g != f && h != f ==> x in Frames(live, g) && x in Frames(live, h);
    }
  }

  // ---------- the two maps of a new task ----------

  lemma SlotRequests(id: nat)
    requires id < BITMAP_ENTRIES_COUNT
    ensures Fits(StackLow(id), 4) && EndAddr(StackLow(id), 4) >= StackLow(id) && Planned(StackLow(id), 4) == 4
            && !PlanStrays(StackLow(id), 4)
    ensures Fits(SlotBase(id), 1) && EndAddr(SlotBase(id), 1) >= SlotBase(id) && Planned(SlotBase(id), 1) == 1
            && !PlanStrays(SlotBase(id), 1)
    ensures Vpn(StackLow(id)) == Vpn(SlotBase(id)) + 3 && StackMask(StackLow(id)) == SlotBase(id) > 0
  {
    hide Planned, PlanStrays, Vpn;
    SlotVpn(id, 3);
    MaskFindsSlot(id, 0);
    SlotFits(id);
    PlannedExact(StackLow(id), 4);
    PlannedExact(SlotBase(id), 1);
  }

  lemma SlotFits(id: nat)
    requires id < BITMAP_ENTRIES_COUNT
    ensures Fits(StackLow(id), 4) && EndAddr(StackLow(id), 4) >= StackLow(id)
    ensures Fits(SlotBase(id), 1) && EndAddr(SlotBase(id), 1) >= SlotBase(id)
  {
    FitsBelowKernel(SlotBase(id) + 3 * PAGE_SIZE, 0xf_ffff_fff8_0000 - 8 * (id + 1) + 3, 4);
    FitsBelowKernel(SlotBase(id), 0xf_ffff_fff8_0000 - 8 * (id + 1), 1);
  }

  lemma FitsBelowKernel(a: Word, p: nat, n: nat)
    requires a == p * PAGE_SIZE && 0xf_ffff_f800_0000 <= p && n < 5 && p + n <= 0xf_ffff_fff8_0000
    ensures Fits(a, n) && EndAddr(a, n) >= a
  {
  }

  lemma SlotOnlyTrans(s0: State, s1: State, s2: State, root: nat, id: nat)
    requires SlotOnly(s0, s1, root, id) && SlotOnly(s1, s2, root, id)
    ensures SlotOnly(s0, s2, root, id)
  {
    hide EntryAt, Outside;
    forall x | x in s2.own.Keys ensures x in s0.own.Keys + (set y | y in s0.avail) {
      assert x in s1.own.Keys || x in s1.avail by { assert x in s1.own.Keys + (set y | y in s1.avail); }
      if x in s1.own.Keys {
        assert x in s0.own.Keys + (set y | y in s0.avail);
      }
    }
  }

  lemma EffectFrames(s: State, s': State, root: nat, lo: nat, total: nat, frames: seq<nat>, flags: nat, r: Status,
                     made: set<Label>)
    requires Outcome(s, s', root, lo, total, frames, flags, r, made)
    ensures |s'.mem| == |s.mem|
    ensures s'.own.Keys <= s.own.Keys + (set x | x in s.avail)
    ensures forall x :: x in s'.avail ==> x in s.avail
    ensures |s'.avail| <= |s.avail|
  {
    forall x | x in s'.own.Keys ensures x in s.own.Keys + (set x | x in s.avail) {
      assert x in s.own.Keys || x in s.avail[..|made|];
    }
  }

  lemma StackMap(s: State, s': State, root: nat, id: nat, stack: seq<nat>, n: nat, r: Status, made: set<Label>)
    requires id < BITMAP_ENTRIES_COUNT && |stack| == 4 && n <= 4 && forall k :: 0 <= k < 4 ==> stack[k] < TWO32
    requires Ran(s, s', root, StackLow(id), 4, stack[..n], KERNEL_STACK_PAGE_FLAGS, r, made)
    ensures SlotOnly(s, s', root, id)
    ensures r == Ok <==> |Needed(s.mem, root, Vpn(StackLow(id)), Vpn(StackLow(id)) + 4)| <= |s.avail|
    ensures r == Ok || r == ENoMem
    ensures r == Ok ==> forall k: nat :: k < 4 ==> Backed(s'.mem, root, StackAddr(id, k), stack[k])
    ensures r == Ok ==> Needed(s'.mem, root, Vpn(SlotBase(id)), Vpn(SlotBase(id)) + 1) == {}
  {
    hide Outcome, Fits, Planned, PlanStrays, Needed, Vpn, EntryAt, KernelLinks, FrameIndex, StackHigh;
    SlotRequests(id);
    SlotVpn(id, 0);
    MapEntries(s, s', root, StackLow(id), 4, stack[..n], KERNEL_STACK_PAGE_FLAGS, r, made);
    MemorySuffices(s, s', root, Vpn(StackLow(id)), 4, stack[..n], KERNEL_STACK_PAGE_FLAGS, r, made);
    EffectFrames(s, s', root, Vpn(StackLow(id)), 4, stack[..n], KERNEL_STACK_PAGE_FLAGS, r, made);
    if r == Ok {
      RemapIsFree(s, s', root, Vpn(StackLow(id)), 4, stack[..n], KERNEL_STACK_PAGE_FLAGS, r, made);
      SlotTable(s'.mem, root, Vpn(SlotBase(id)));
      forall k: nat | k < 4 ensures Backed(s'.mem, root, StackAddr(id, k), stack[k]) {
        SlotVpn(id, 3 + k);
        assert Add64(StackLow(id), PAGE_SIZE * k) == StackAddr(id, k);
      }
    }
  }

  /** The slot's first page lies below the same page table as the stack. */
  lemma SlotTable(m: Memory, root: nat, v: nat)
    requires v % 8 == 0 && v + 8 <= VPNS && Needed(m, root, v + 3, v + 7) == {}
    ensures Needed(m, root, v, v + 1) == {}
  {
    hide Table;
    Prefixes(v + 3);
    assert (v + 3) / ENTRIES == v / ENTRIES;
    if Table(m, root, 1, v / ENTRIES).None? {
      LeafNeeded(m, root, v + 3, v + 7);
    }
    NeededNone(m, root, v, v + 1);
  }

  lemma StructMap(s: State, s': State, root: nat, id: nat, f: nat, n: nat, r: Status, made: set<Label>)
    requires id < BITMAP_ENTRIES_COUNT && n <= 1 && f < TWO32
    requires Ran(s, s', root, SlotBase(id), 1, [f][..n], KERNEL_STACK_PAGE_FLAGS, r, made)
    requires Needed(s.mem, root, Vpn(SlotBase(id)), Vpn(SlotBase(id)) + 1) == {}
    ensures SlotOnly(s, s', root, id) && r == Ok && Backed(s'.mem, root, SlotBase(id), f)
    ensures forall k: nat :: k < 4 ==>
            EntryAt(s'.mem, root, StackAddr(id, k)) == EntryAt(s.mem, root, StackAddr(id, k))
  {
    hide Outcome, Fits, Planned, PlanStrays, Needed, Vpn, EntryAt, KernelLinks, FrameIndex, StackHigh;
    SlotRequests(id);
    SlotVpn(id, 0);
    MapEntries(s, s', root, SlotBase(id), 1, [f][..n], KERNEL_STACK_PAGE_FLAGS, r, made);
    MemorySuffices(s, s', root, Vpn(SlotBase(id)), 1, [f][..n], KERNEL_STACK_PAGE_FLAGS, r, made);
    EffectFrames(s, s', root, Vpn(SlotBase(id)), 1, [f][..n], KERNEL_STACK_PAGE_FLAGS, r, made);
    assert Add64(SlotBase(id), PAGE_SIZE * 0) == SlotBase(id);
    forall k: nat | k < 4
      ensures EntryAt(s'.mem, root, StackAddr(id, k)) == EntryAt(s.mem, root, StackAddr(id, k))
    {
      SlotVpn(id, 3 + k);
    }
  }

  /** Taking and cleaning a free frame changes no translation. */
  lemma FrameTaken(s: State, s': State, root: nat, id: nat, lo: nat, hi: nat)
    requires Sound(s, root) && s.avail != []
    requires s' == State(s.mem[s.avail[0] := Blank()], s.own, s.avail[1..])
    ensures SlotOnly(s, s', root, id) && Needed(s'.mem, root, lo, hi) == Needed(s.mem, root, lo, hi)
  {
    hide EntryAt, Table, Tree, Mapped, LinksKept, KernelLinks;
    FreshWriteTranslates(s.mem, root, s.own, s.avail[0]);
    FreshWriteLinks(s.mem, root, s.own, s.avail[0]);
    if KernelLinks(s.mem, root) {
      SameLinks(s.mem, s'.mem, root);
    }
    forall x: Word ensures EntryAt(s'.mem, root, x) == EntryAt(s.mem, root, x) {
      EntrySame(s.mem, s'.mem, root, x);
    }
    NeededAfter(s.mem, s'.mem, root, lo, hi, {});
  }

  // ---------- the system ----------

  /** Masking any stack pointer of a live task gives an address that translates to the page of its own
      structure: this is how `arch_current_task` finds it. */
  lemma CurrentTaskFound(s: State, root: nat, structs: map<nat, TaskStruct>, live: Live, issued: set<nat>, f: nat,
                         rsp: Word)
    requires AllTasks(s, root, structs, live, issued) && f in live
    requires structs[f].stack.lowAddress <= rsp <= structs[f].stack.highAddress
    ensures Lookup(s.mem, root, StackMask(rsp)) == f && Backed(s.mem, root, StackMask(rsp), f)
  {
    hide EntryAt, Lookup, OwnFrames, DistinctIds, StackMask, StackHigh, SlotBase;
    assert TaskMapped(s.mem, root, structs[f], f, live[f]);
    MaskFindsSlot(structs[f].stack.id, rsp);
    LookupEntry(s.mem, root, StackMask(rsp));
  }

  /** The kernel can write to every page of a live task's stack, and user mode cannot reach it, as long as the
      tables were all made by the mapper. */
  lemma StackRights(s: State, root: nat, structs: map<nat, TaskStruct>, live: Live, issued: set<nat>, f: nat, a: Word)
    requires AllTasks(s, root, structs, live, issued) && f in live && KernelLinks(s.mem, root)
    requires structs[f].stack.lowAddress <= a < structs[f].stack.highAddress
    ensures Vpn(a) < VPNS
    ensures var r := RightsOf(s.mem, root, Vpn(a)); r.Some? && r.value.writable && !r.value.user && r.value.cached
    ensures Lookup(s.mem, root, a) in live[f]
  {
    hide Lookup, OwnFrames, DistinctIds, Vpn, KernelLinks, RightsOf, EntryAt, Outside;
    assert TaskMapped(s.mem, root, structs[f], f, live[f]);
    var low := structs[f].stack.lowAddress;
    var k := (a - low) / PAGE_SIZE;
    StackPage(structs[f].stack.id, a, k);
    var p := low + PAGE_SIZE * k;
    assert Backed(s.mem, root, p, live[f][k]);
    SameEntry(s.mem, root, a, p);
    LookupEntry(s.mem, root, a);
    BackedRights(s.mem, root, a);
  }

  lemma StackPage(id: nat, a: Word, k: nat)
    requires id < BITMAP_ENTRIES_COUNT && StackLow(id) <= a < StackHigh(id) && k == (a - StackLow(id)) / PAGE_SIZE
    ensures k < 4 && StackLow(id) + PAGE_SIZE * k < TWO64 && Vpn(a) == Vpn(StackAddr(id, k))
  {
    var q := KERNEL_BASE / PAGE_SIZE - 8 * (id + 1) + 3;
    assert StackLow(id) == q * PAGE_SIZE && StackHigh(id) == q * PAGE_SIZE + 4 * PAGE_SIZE;
    Quotient(a - StackLow(id), PAGE_SIZE);
    Remainder(q + k, (a - StackLow(id)) % PAGE_SIZE, PAGE_SIZE);
    Remainder(q + k, 0, PAGE_SIZE);
  }

  lemma SameEntry(m: Memory, root: nat, a: Word, b: Word)
    requires Vpn(a) == Vpn(b)
    ensures EntryAt(m, root, a) == EntryAt(m, root, b)
  {
  }

  lemma BackedRights(m: Memory, root: nat, a: Word)
    requires KernelLinks(m, root) && EntryAt(m, root, a).Some? && EntryAt(m, root, a).value.rw
    requires !EntryAt(m, root, a).value.pcd
    ensures Vpn(a) < VPNS
    ensures var r := RightsOf(m, root, Vpn(a)); r.Some? && r.value.writable && !r.value.user && r.value.cached
  {
    hide Translate, Through, Vpn;
    VpnBound(a);
    TranslatedPath(m, root, Vpn(a));
    PathLabel(1, Vpn(a));
    PathLabel(2, Vpn(a));
    PathLabel(3, Vpn(a));
  }

  /** The tables that the stack of the next task needs. */
  ghost function NewTables(m: Memory, root: nat, id: nat): set<Label> {
    if id < BITMAP_ENTRIES_COUNT then Needed(m, root, Vpn(StackLow(id)), Vpn(StackLow(id)) + 4) else {}
  }

  /** The page pool with the page tables, the list nodes of the pages, the stack slots, and the
      contents of the pages that hold task structures. */
  class TaskSystem {
    const mm: PageMemory
    const arena: ListArena
    const stacks: StackAllocator
    var structs: map<nat, TaskStruct>
    var nextPid: nat
    ghost var live: Live

    ghost predicate Valid()
      reads this, mm, mm.frames, arena, arena.next, arena.prev, stacks, stacks.bitmap
    {
      && mm.Valid() && arena.Valid() && stacks.Valid() && Separate()
      && AllTasks(mm.Now(), mm.root, structs, live, stacks.issued)
      && Unlisted(arena.lists, mm.avail) && nextPid < TWO32
    }

    /** The state before the first creation. */
    constructor (mm: PageMemory, arena: ListArena, stacks: StackAllocator)
      requires mm.Valid() && arena.Valid() && stacks.Valid() && arena.lists == map[]
      requires stacks.bitmap as object != arena.next && stacks.bitmap as object != arena.prev
               && mm.frames.Length0 <= arena.next.Length
      ensures Valid() && live == map[] && nextPid == 1 && this.mm == mm && this.arena == arena && this.stacks == stacks
    {
      this.mm, this.arena, this.stacks := mm, arena, stacks;
      structs, nextPid, live := map[], 1, map[];
    }

    ghost predicate Separate()
      reads mm, arena, stacks
    {
      && stacks.bitmap as object != arena.next && stacks.bitmap as object != arena.prev
      && mm.frames.Length0 <= arena.next.Length
    }

    /** `create_new_task` for a parent that uses the shared directory. A task is named by the frame of
        its structure. */
    method CreateNewTask(parent: TaskStruct, flags: nat) returns (r: int, task: Option<nat>)
      requires Valid() && parent.entries == KernelDirectory(mm.root).entries
      modifies this, mm`avail, mm`own, mm.frames, arena, arena.next, arena.prev, stacks`freeItems, stacks`issued,
               stacks.bitmap
      ensures Valid()
      ensures r == 0 <==>
                && flags % 2 == CLONE_MM && old(stacks.freeItems) > 0
                && |old(mm.avail)| >= 5 + |NewTables(old(mm.Mem()), mm.root, |old(stacks.issued)|)|
      ensures r == 0 ==>
                && old(|mm.avail|) >= 5
                && task == Some(old(mm.avail)[0]) && task.value !in old(live)
                && live == old(live)[task.value := old(mm.avail)[1..5]]
                && structs[task.value] == TaskStruct(old(nextPid), parent.pid, structs[task.value].stack,
                                                     parent.entries, 0, 0)
                && nextPid == (old(nextPid) + 1) % TWO32
                && structs[task.value].stack.id == |old(stacks.issued)|
      ensures r == 1 <==> old(mm.avail) != [] && old(stacks.freeItems) == 0
      ensures r == -22 <==> old(mm.avail) != [] && old(stacks.freeItems) > 0 && flags % 2 != CLONE_MM
      ensures r != 0 ==> r in {1, -12, -22} && task == None && live == old(live) && nextPid == old(nextPid)
      ensures forall f :: f in old(live) ==> f in structs && structs[f] == old(structs)[f]
      ensures SlotOnly(old(mm.Now()), mm.Now(), mm.root, |old(stacks.issued)|)
    {
      hide Sound, PageMemory.Mem, Unlisted, EntryAt, SlotOnly, SlotMapped, AllTasks, TaskMapped, NewTables, Needed,
           Vpn, KernelDirectory, StackHigh, StackLow;
      hide ListArena.Valid, StackAllocator.Valid;
      task := None;
      ghost var issued0 := stacks.issued;
      ghost var id, s0 := |issued0|, mm.Now();
      var f, stack;
      r, f, stack := AllocTask();
      if r != 0 {
        return r, None;
      }
      ghost var s1, structs1 := mm.Now(), structs;
      LiveStructs(s1, mm.root, structs1, live, issued0);
      assert f !in live;
      if flags % 2 != CLONE_MM {
        return -EINVAL, None;
      }
      structs := structs[f := structs[f].(entries := parent.entries)];

      var ok := MapNewTask(f, id, stack, structs[f].entries);
      SlotOnlyTrans(s0, s1, mm.Now(), mm.root, id);
      TasksUndisturbed(s1, mm.Now(), mm.root, structs1, structs, live, issued0, stacks.issued, id);
      if !ok {
        return -ENOMEM, None;
      }

      structs := structs[f := structs[f].(cpuId := 0, irqNum := 0, pid := nextPid, ppid := parent.pid)];
      nextPid := (nextPid + 1) % TWO32;
      CreationDone(s1, mm.Now(), mm.root, structs1, structs, live, issued0, stacks.issued, id, f);
      assert s1.avail[..4] == s0.avail[1..5];
      live := live[f := s1.avail[..4]];
      return 0, Some(f);
    }

    /** The first part of `create_new_task`: a zeroed page for the structure, and a stack slot. The
        result of `allocate_kernel_stack(...) != 0` is what a failure there returns. */
    method AllocTask() returns (r: int, f: nat, stack: KernelStack)
      requires Valid()
      modifies this`structs, mm`avail, mm.frames, stacks`freeItems, stacks`issued, stacks.bitmap
      ensures Valid() && live == old(live) && nextPid == old(nextPid)
      ensures forall g :: g in live ==> g in structs && structs[g] == old(structs)[g]
      ensures SlotOnly(old(mm.Now()), mm.Now(), mm.root, |old(stacks.issued)|)
              && |old(stacks.issued)| !in old(stacks.issued)
      ensures old(stacks.issued) <= stacks.issued
      ensures old(mm.avail) == [] ==> r == -ENOMEM
      ensures old(mm.avail) != [] && old(stacks.freeItems) == 0 ==> r == 1
      ensures old(mm.avail) != [] && old(stacks.freeItems) > 0 ==>
                var id := |old(stacks.issued)|;
                && r == 0 && id < BITMAP_ENTRIES_COUNT && stacks.issued == old(stacks.issued) + {id}
                && f == old(mm.avail)[0] && f < TWO32 && mm.avail == old(mm.avail)[1..]
                && f in structs && stack == structs[f].stack
                  && structs[f] == BLANK_TASK.(stack := KernelStack(id, StackHigh(id), StackLow(id)))
                && f !in live && Newcomer(mm.Now(), live, f)
                  && AllTasks(mm.Now(), mm.root, structs, live, old(stacks.issued))
                && NewTables(mm.Mem(), mm.root, id) == NewTables(old(mm.Mem()), mm.root, id)
    {
      hide Sound, PageMemory.Mem, Unlisted, EntryAt, SlotOnly, AllTasks, NewTables, Newcomer, StackHigh, StackLow;
      hide ListArena.Valid, StackAllocator.Valid;
      ghost var s0, structs0, issued0 := mm.Now(), structs, stacks.issued;
      ghost var id := |issued0|;
      f, stack := 0, BLANK_TASK.stack;
      LiveStructs(s0, mm.root, structs0, live, issued0);
      SlotOnlyRefl(s0, mm.root, id);
      stacks.NextId();
      var ts := mm.AllocPage(true);
      if ts.None? {
        return -ENOMEM, f, stack;
      }
      f := ts.value;
      FreeFrames(s0, mm.root);
      assert f in s0.avail;
      BecomesNewcomer(s0, mm.Now(), mm.root, structs0, live, issued0);
      structs := structs[f := BLANK_TASK];
      FrameTaken(s0, mm.Now(), mm.root, id, 0, 0);
      FrameTakenForTask(s0, mm.Now(), mm.root, id);
      TasksUndisturbed(s0, mm.Now(), mm.root, structs0, structs, live, issued0, issued0, id);
      UnlistedSome(arena.lists, s0.avail, mm.avail);

      var status;
      status, stack := stacks.AllocateKernelStack(structs[f].stack);
      structs := structs[f := structs[f].(stack := stack)];
      SlotOnlyRefl(mm.Now(), mm.root, id);
      TasksUndisturbed(s0, mm.Now(), mm.root, structs0, structs, live, issued0, issued0, id);
      TasksUndisturbed(s0, mm.Now(), mm.root, structs0, structs, live, issued0, stacks.issued, id);
      r := if status != 0 then 1 else 0;
    }

    /** The part of `create_new_task` that allocates the stack pages and maps the stack and the
        structure of task f. */
    method MapNewTask(f: nat, ghost id: nat, stack: KernelStack, entries: Word) returns (ok: bool)
      requires mm.Valid() && arena.Valid() && Separate() && Unlisted(arena.lists, mm.avail)
      requires id < BITMAP_ENTRIES_COUNT && stack == KernelStack(id, StackHigh(id), StackLow(id))
      requires entries == KernelDirectory(mm.root).entries && f < TWO32
      modifies mm`avail, mm`own, mm.frames, arena, arena.next, arena.prev
      ensures mm.Valid() && arena.Valid() && Unlisted(arena.lists, mm.avail)
      ensures SlotOnly(old(mm.Now()), mm.Now(), mm.root, id)
      ensures ok <==> |old(mm.avail)| >= 4 + |NewTables(old(mm.Mem()), mm.root, id)|
      ensures ok ==> SlotMapped(old(mm.Now()), mm.Now(), mm.root, id, f)
    {
      hide Sound, AllRings, PageMemory.Mem, Unlisted, EntryAt, SlotOnly, SlotMapped, Needed, NewTables,
           KernelDirectory, Vpn;
      ghost var s0 := mm.Now();
      ok := MapStack(id, stack, entries);
      if ok {
        ghost var s2 := mm.Now();
        MapStruct(f, id, stack, entries);
        SlotMappedByBoth(s0, s2, mm.Now(), mm.root, id, f);
        SlotOnlyTrans(s0, s2, mm.Now(), mm.root, id);
        UnlistedAfter(arena.lists, s2, mm.Now(), mm.root, id);
      }
    }

    method MapStack(ghost id: nat, stack: KernelStack, entries: Word) returns (ok: bool)
      requires mm.Valid() && arena.Valid() && Separate() && Unlisted(arena.lists, mm.avail)
      requires id < BITMAP_ENTRIES_COUNT && stack == KernelStack(id, StackHigh(id), StackLow(id))
      requires entries == KernelDirectory(mm.root).entries
      modifies mm`avail, mm`own, mm.frames, arena, arena.next, arena.prev
      ensures mm.Valid() && arena.Valid() && Unlisted(arena.lists, mm.avail)
      ensures SlotOnly(old(mm.Now()), mm.Now(), mm.root, id)
      ensures ok <==> |old(mm.avail)| >= 4 + |NewTables(old(mm.Mem()), mm.root, id)|
      ensures ok ==> StackMapped(old(mm.Now()), mm.Now(), mm.root, id)
    {
      hide Sound, PageMemory.Mem, Unlisted, Ring, EntryAt, SlotOnly, Needed, Ran, NewTables, KernelDirectory, Vpn,
           Fits, Planned, PlanStrays, EndAddr, FrameOfAddr, StackHigh, StackLow, SlotBase;
      hide ListArena.Valid, FrameAccessor.Valid, FrameAccessor.Stream, FrameAccessor.Slice;
      ghost var s0 := mm.Now();
      FreeFrames(s0, mm.root);
      NewTablesOf(s0.mem, mm.root, id);
      var first := AllocStackPages();
      ghost var s1 := mm.Now();
      PoolShrinks(s0, s1, mm.root, id);
      if first.None? {
        return false;
      }
      DirectoryFacts(s1, mm.root);
      SlotRequests(id);
      RingLength(arena.lists, first.value);

      var pages := new FrameAccessor.List(arena, first.value, KERNEL_STACK_PAGES);
      var res, n, made := mm.MmMapPages(Some(Directory(entries)), pages, stack.lowAddress, KERNEL_STACK_PAGES,
                                        KERNEL_STACK_PAGE_FLAGS);
      pages.SliceLength(0, n);
      RanLength(s1, mm.Now(), mm.root, StackLow(id), 4, pages.Slice(0, n), KERNEL_STACK_PAGE_FLAGS, res, made);
      pages.ListSlice(n);
      assert pages.Slice(0, n) == s0.avail[..4][..n];
      assert forall k :: 0 <= k < 4 ==> s0.avail[..4][k] in s0.avail;
      StackMap(s1, mm.Now(), mm.root, id, s0.avail[..4], n, res, made);
      SlotOnlyTrans(s0, s1, mm.Now(), mm.root, id);
      UnlistedAfter(arena.lists, s1, mm.Now(), mm.root, id);
      ok := res == Ok;
    }

    method MapStruct(f: nat, ghost id: nat, stack: KernelStack, entries: Word)
      requires mm.Valid() && f < TWO32
      requires id < BITMAP_ENTRIES_COUNT && stack == KernelStack(id, StackHigh(id), StackLow(id))
      requires entries == KernelDirectory(mm.root).entries
      requires Needed(mm.Mem(), mm.root, Vpn(SlotBase(id)), Vpn(SlotBase(id)) + 1) == {}
      modifies mm`avail, mm`own, mm.frames
      ensures mm.Valid() && StructMapped(old(mm.Now()), mm.Now(), mm.root, id, f)
    {
      hide Sound, PageMemory.Mem, EntryAt, SlotOnly, Needed, Ran, KernelDirectory, Vpn, StackMask, FrameAccessor.Valid,
           FrameAccessor.Stream, FrameAccessor.Slice;
      hide StackHigh, StackLow, SlotBase, Fits, Planned, PlanStrays, EndAddr, FrameOfAddr;
      ghost var s := mm.Now();
      DirectoryFacts(s, mm.root);
      SlotRequests(id);
      var page := new FrameAccessor.Linear(f, f);
      var res, n, made := mm.MmMapPages(Some(Directory(entries)), page, StackMask(stack.lowAddress), 1,
                                        KERNEL_STACK_PAGE_FLAGS);
      page.SliceLength(0, n);
      RanLength(s, mm.Now(), mm.root, SlotBase(id), 1, page.Slice(0, n), KERNEL_STACK_PAGE_FLAGS, res, made);
      page.LinearSlice(n);
      StructMap(s, mm.Now(), mm.root, id, f, n, res, made);
    }

    /** `alloc_stack_pages`: four pages on a circular list that starts at the first. */
    method AllocStackPages() returns (first: Option<nat>)
      requires mm.Valid() && arena.Valid() && Separate() && Unlisted(arena.lists, mm.avail)
      modifies mm`avail, mm.frames, arena, arena.next, arena.prev
      ensures mm.Valid() && arena.Valid() && Unlisted(arena.lists, mm.avail)
      ensures mm.Mem() == old(mm.Mem()) && forall x :: x in mm.avail ==> x in old(mm.avail)
      ensures first.Some? <==> |old(mm.avail)| >= 4
      ensures first.Some? ==>
                && mm.avail == old(mm.avail)[4..] && first.value in arena.lists
                && Ring(arena.lists, first.value) == old(mm.avail)[..4]
    {
      hide Sound, AllRings, PageMemory.Mem, Unlisted, Ring;
      first := None;
      var i := 0;
      while i < KERNEL_STACK_PAGES
        invariant i <= 4 && mm.Valid() && arena.Valid() && Unlisted(arena.lists, mm.avail)
        invariant mm.Mem() == old(mm.Mem()) && mm.own == old(mm.own) && i <= |old(mm.avail)|
                  && mm.avail == old(mm.avail)[i..]
        invariant first.None? <==> i == 0
        invariant first.Some? ==> first.value in arena.lists && Ring(arena.lists, first.value) == old(mm.avail)[..i]
      {
        var ok;
        ok, first := TakeStackPage(first);
        if !ok {
          return None;
        }
        i := i + 1;
      }
    }

    /** One round of the loop: a page is allocated and put on the list. */
    method TakeStackPage(first: Option<nat>) returns (ok: bool, head: Option<nat>)
      requires mm.Valid() && arena.Valid() && Separate() && Unlisted(arena.lists, mm.avail)
      requires first.Some? ==> first.value in arena.lists
      modifies mm`avail, mm.frames, arena, arena.next, arena.prev
      ensures mm.Valid() && arena.Valid() && Unlisted(arena.lists, mm.avail) && mm.Mem() == old(mm.Mem())
      ensures ok <==> old(mm.avail) != []
      ensures !ok ==> mm.avail == []
      ensures ok ==>
                && mm.avail == old(mm.avail)[1..] && head.Some? && head.value in arena.lists
                && Ring(arena.lists, head.value) == (if first.None? then []
                                                     else old(Ring(arena.lists, first.value))) + [old(mm.avail)[0]]
    {
      hide Sound, AllRings, PageMemory.Mem, Ring;
      ghost var s := mm.Now();
      FreeFrames(s, mm.root);
      var p := mm.AllocPage(false);
      if p.None? {
        return false, None;
      }
      assert p.value in s.avail && |s.mem| == mm.frames.Length0;
      ghost var before := arena.lists;
      UnlistedSome(before, s.avail, mm.avail);
      head := ListStackPage(p.value, first);
      StillUnlisted(before, arena.lists, mm.avail, p.value);
      ok := true;
    }

    /** The first page becomes the list, each later one goes to its tail. */
    method ListStackPage(p: nat, first: Option<nat>) returns (head: Option<nat>)
      requires arena.Valid() && p < arena.next.Length && Unlisted(arena.lists, [p])
      requires first.Some? ==> first.value in arena.lists
      modifies arena, arena.next, arena.prev
      ensures arena.Valid() && head.Some? && head.value in arena.lists
      ensures Ring(arena.lists, head.value) == (if first.None? then [] else old(Ring(arena.lists, first.value))) + [p]
      ensures forall h, x :: h in arena.lists && x in Ring(arena.lists, h) ==>
                x == p || exists g :: g in old(arena.lists) && x in Ring(old(arena.lists), g)
    {
      hide AllRings;
      ghost var lists := arena.lists;
      assert forall h :: h in lists && p in Ring(lists, h) ==> p in [p];
      arena.InitListHead(p);
      ghost var lists1 := arena.lists;
      assert forall h :: h in lists1 && h != p ==> Ring(lists1, h) == Ring(lists, h);
      if first.None? {
        head := Some(p);
      } else {
        assert first.value in Ring(lists, first.value);
        head := first;
        arena.ListAddTail(p, first.value);
        assert forall h :: h in arena.lists && h != first.value ==> Ring(arena.lists, h) == Ring(lists1, h);
      }
    }
  }

  lemma StillUnlisted(lists: Heads, lists': Heads, avail: seq<nat>, p: nat)
    requires Unlisted(lists, avail) && p !in avail
    requires forall h, x :: h in lists' && x in Ring(lists', h) ==>
             x == p || exists g :: g in lists && x in Ring(lists, g)
    ensures Unlisted(lists', avail)
  {
  }

  /** Free pages are on none of the stack-page lists. */
  ghost predicate Unlisted(lists: Heads, avail: seq<nat>) {
    forall h, x :: h in lists && x in avail ==> x !in Ring(lists, h)
  }

  lemma FreeFrames(s: State, root: nat)
    requires Sound(s, root)
    ensures Distinct(s.avail) && forall x :: x in s.avail ==> x < |s.mem| && x < TABLE_LIMIT && x !in s.own
    ensures s.avail != [] ==> s.avail[0] !in s.avail[1..]
  {
  }

  lemma UnlistedSome(lists: Heads, avail: seq<nat>, avail': seq<nat>)
    requires Unlisted(lists, avail) && forall x :: x in avail' ==> x in avail
    ensures Unlisted(lists, avail')
  {
  }

  lemma NotLive(s: State, root: nat, structs: map<nat, TaskStruct>, live: Live, issued: set<nat>, f: nat)
    requires AllTasks(s, root, structs, live, issued) && f in s.avail
    ensures f !in live
  {
    hide AllMapped, DistinctIds;
    assert f in live ==> Frames(live, f)[0] == f && Private(s, f);
  }

  /** Slot `id` has been mapped: its first page to f, its stack to the first four free frames. */
  ghost predicate SlotMapped(s: State, s': State, root: nat, id: nat, f: nat)
    requires id < BITMAP_ENTRIES_COUNT
  {
    && |s.avail| >= 4 && SlotOnly(s.(avail := s.avail[4..]), s', root, id)
    && Backed(s'.mem, root, SlotBase(id), f)
    && forall k: nat :: k < 4 ==> Backed(s'.mem, root, StackAddr(id, k), s.avail[k])
  }

  /** The stack part of that: the first four free frames are mapped, and the rest of the pool is left. */
  ghost predicate StackMapped(s: State, s': State, root: nat, id: nat)
    requires id < BITMAP_ENTRIES_COUNT
  {
    && |s.avail| >= 4 && SlotOnly(s.(avail := s.avail[4..]), s', root, id)
    && (forall k: nat :: k < 4 ==> Backed(s'.mem, root, StackAddr(id, k), s.avail[k]))
    && Needed(s'.mem, root, Vpn(SlotBase(id)), Vpn(SlotBase(id)) + 1) == {}
  }

  ghost predicate StructMapped(s: State, s': State, root: nat, id: nat, f: nat)
    requires id < BITMAP_ENTRIES_COUNT
  {
    && SlotOnly(s, s', root, id) && Backed(s'.mem, root, SlotBase(id), f)
    && forall k: nat :: k < 4 ==>
      EntryAt(s'.mem, root, StackAddr(id, k)) == EntryAt(s.mem, root, StackAddr(id, k))
  }

  lemma SlotMappedByBoth(s0: State, s2: State, s3: State, root: nat, id: nat, f: nat)
    requires id < BITMAP_ENTRIES_COUNT && StackMapped(s0, s2, root, id) && StructMapped(s2, s3, root, id, f)
    ensures SlotMapped(s0, s3, root, id, f)
  {
    hide EntryAt, SlotOnly, Needed;
    SlotOnlyTrans(s0.(avail := s0.avail[4..]), s2, s3, root, id);
  }

  lemma LiveStructs(s: State, root: nat, structs: map<nat, TaskStruct>, live: Live, issued: set<nat>)
    requires AllTasks(s, root, structs, live, issued)
    ensures forall f :: f in live ==> f in structs
  {
  }

  lemma FrameTakenForTask(s: State, s': State, root: nat, id: nat)
    requires Sound(s, root) && s.avail != [] && s' == State(s.mem[s.avail[0] := Blank()], s.own, s.avail[1..])
    ensures NewTables(s'.mem, root, id) == NewTables(s.mem, root, id)
  {
    if id < BITMAP_ENTRIES_COUNT {
      FrameTaken(s, s', root, id, Vpn(StackLow(id)), Vpn(StackLow(id)) + 4);
    }
  }

  /** Frame f has left the pool and belongs to no live task. */
  ghost predicate Newcomer(s: State, live: Live, f: nat) {
    Private(s, f) && f !in live && forall g :: g in live ==> f !in Frames(live, g)
  }

  lemma BecomesNewcomer(s: State, s': State, root: nat, structs: map<nat, TaskStruct>, live: Live, issued: set<nat>)
    requires Sound(s, root) && AllTasks(s, root, structs, live, issued) && s.avail != []
    requires s' == State(s.mem[s.avail[0] := Blank()], s.own, s.avail[1..])
    ensures Newcomer(s', live, s.avail[0]) && s.avail[0] !in live
  {
    hide AllMapped, DistinctIds, Tree;
    var f := s.avail[0];
    NotLive(s, root, structs, live, issued, f);
    FreeFrames(s, root);
    forall g | g in live ensures f !in Frames(live, g) {
      assert f in Frames(live, g) ==> Private(s, f);
    }
  }

  /** A structure in frame f with stack `id`, and the slot mapped to f and to the four frames taken
      after it, make f a live task. */
  lemma CreationDone(s1: State, s: State, root: nat, structs1: map<nat, TaskStruct>, structs: map<nat, TaskStruct>,
                     live: Live,
                     issued0: set<nat>, issued: set<nat>, id: nat, f: nat)
    requires Sound(s1, root) && AllTasks(s1, root, structs1, live, issued0) && Newcomer(s1, live, f)
    requires id < BITMAP_ENTRIES_COUNT && SlotOnly(s1, s, root, id) && SlotMapped(s1, s, root, id, f)
             && issued == issued0 + {id} && id !in issued0
    requires f in structs && structs[f].stack == KernelStack(id, StackHigh(id), StackLow(id))
    requires forall g :: g in live ==> g in structs && structs[g] == structs1[g]
    ensures |s1.avail| >= 4 && AllTasks(s, root, structs, live[f := s1.avail[..4]], issued)
  {
    hide EntryAt, Tree, TaskMapped, Outside;
    var stack := s1.avail[..4];
    TasksUndisturbed(s1, s, root, structs1, structs, live, issued0, issued0, id);
    FreeFrames(s1, root);
    NewTaskMapped(s1, s, root, structs[f], id, f);
    forall x | x in [f] + stack ensures Private(s, x) && forall g :: g in live ==> x !in Frames(live, g) {
      NotTaken(s1, s, root, id, f, x);
      forall g | g in live ensures x !in Frames(live, g) {
        assert x in Frames(live, g) ==> Private(s1, x);
      }
    }
    TaskJoins(s, root, structs, live, issued, f, stack, issued0);
  }

  lemma NewTaskMapped(s1: State, s: State, root: nat, ts: TaskStruct, id: nat, f: nat)
    requires id < BITMAP_ENTRIES_COUNT && SlotMapped(s1, s, root, id, f)
             && ts.stack == KernelStack(id, StackHigh(id), StackLow(id))
    ensures TaskMapped(s.mem, root, ts, f, s1.avail[..4])
  {
    hide EntryAt, SlotOnly;
  }

  lemma NotTaken(s1: State, s: State, root: nat, id: nat, f: nat, x: nat)
    requires Sound(s1, root) && |s1.avail| >= 4 && Private(s1, f)
    requires SlotOnly(s1.(avail := s1.avail[4..]), s, root, id) && x in [f] + s1.avail[..4]
    ensures Private(s, x)
  {
    hide EntryAt, Tree, Outside;
    FreeFrames(s1, root);
    assert x !in s1.avail[4..];
    assert x !in s1.own.Keys + (set y | y in s1.avail[4..]);
  }

  lemma RingLength(lists: Heads, h: int)
    requires h in lists
    ensures |Ring(lists, h)| == 1 + |lists[h]|
  {
  }

  lemma NewTablesOf(m: Memory, root: nat, id: nat)
    requires id < BITMAP_ENTRIES_COUNT
    ensures NewTables(m, root, id) == Needed(m, root, Vpn(StackLow(id)), Vpn(StackLow(id)) + 4)
  {
  }

  lemma UnlistedAfter(lists: Heads, s: State, s': State, root: nat, id: nat)
    requires SlotOnly(s, s', root, id) && Unlisted(lists, s.avail)
    ensures Unlisted(lists, s'.avail)
  {
    hide EntryAt;
  }

  lemma SlotOnlyRefl(s: State, root: nat, id: nat)
    ensures SlotOnly(s, s, root, id)
  {
  }

  lemma PoolShrinks(s: State, s': State, root: nat, id: nat)
    requires s'.mem == s.mem && s'.own == s.own && forall x :: x in s'.avail ==> x in s.avail
    ensures SlotOnly(s, s', root, id)
  {
  }

  lemma RanLength(s: State, s': State, root: nat, virt: Word, n: Word, frames: seq<nat>, flags: nat, r: Status,
                  made: set<Label>)
    requires Ran(s, s', root, virt, n, frames, flags, r, made)
    ensures |frames| <= Planned(virt, n)
  {
  }
}
