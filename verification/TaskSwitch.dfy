/** Switching between kernel tasks (include/eza/amd64/scheduler.h) and fabricating the first frame of a
    new one (eza/amd64/sched/task.c): a system of one running and any number of suspended tasks, each
    on its own kernel stack. */
module TaskSwitch {
  import opened Words
  import opened Machine
  import opened ContextSwitch
  import opened KernelStacks

  type StackId = i: nat | i < BITMAP_ENTRIES_COUNT

  // ---------- the frame of a new task ----------

  const REGS_SIZE: nat := 152
  const KTEXT_DES: nat := 1
  const KDATA_DES: nat := 2
  const FLAGS_IF: nat := 0x200

  datatype Privilege = TplKernel | TplUser

  function GdtSelector(des: nat): nat {
    des * 8
  }

  function ZeroRegs(): Regs {
    seq(16, _ => 0)
  }

  /** `flags | 0x200` */
  function WithInterrupts(flags: Word): (w: Word)
    ensures w / FLAGS_IF % 2 == 1
  {
    if flags / FLAGS_IF % 2 == 1 then flags else
      NextBlock(flags);
      flags + FLAGS_IF
  }

  lemma NextBlock(flags: Word)
    requires flags / FLAGS_IF % 2 == 0
    ensures flags + FLAGS_IF < TWO64 && (flags + FLAGS_IF) / FLAGS_IF % 2 == 1
  {
    var q := flags / FLAGS_IF;
    assert (flags + FLAGS_IF) / FLAGS_IF == q + 1;
  }

  /** The flags are those of the creator with the interrupt flag set. */
  lemma OnlyInterruptFlag(flags: Word)
    ensures var w := WithInterrupts(flags);
            w / 512 % 2 == 1 && w % 512 == flags % 512 && w / 1024 == flags / 1024
  {
    var q, r := flags / 512, flags % 512;
    Quotient(flags, 512);
    Remainder(q + 1, r, 512);
    Digits(flags, 512, 2);
    Digits(flags + 512, 512, 2);
  }

  /** What a task that `kernel_thread` creates starts with. */
  function FirstRun(sym: Symbols, high: Word, priv: Privilege, fn: Word, data: Word, flags: Word): Snap
    requires high >= 40
  {
    var kernel := priv == TplKernel;
    Forked(ZeroRegs()[RDI := fn][RSI := data], high - 40,
           if kernel then sym.kernelThreadHelper else 0,
           if kernel then GdtSelector(KTEXT_DES) else GdtSelector(0),
           WithInterrupts(flags),
           if kernel then high else 0,
           if kernel then GdtSelector(KDATA_DES) else GdtSelector(0))
  }

  function ClearWords(mem: Ram, a: nat, n: nat): Ram {
    mem + map x: nat | a <= x < a + n && WordOf(a, x) :: 0
  }

  /** The distance from `regs_t` down to the FX area, computed for "any page-aligned address". */
  function SaveDelta(): nat {
    var t1 := 0x1000 - REGS_SIZE;
    var t2 := AlignDown(t1, 512);
    t1 - t2 + 512
  }

  /** The faked `regs_t`: zero but for the words that the CPU would have pushed. */
  function RegsPart(mem: Ram, regs: nat, snap: Snap): Ram
    requires snap.Forked?
  {
    ClearWords(mem, regs, REGS_SIZE)
      [regs + 120 := snap.cs][regs + 144 := snap.ss][regs + 112 := snap.rip]
      [regs + 136 := snap.rsp][regs + 128 := snap.flags]
  }

  /** The FX area, its distance from `regs_t`, and the address to return to. */
  function FxPart(sym: Symbols, mem: Ram, fsave: nat): Ram
    requires fsave >= 16
  {
    ClearWords(mem, fsave, 512)[fsave - 8 := SaveDelta()][fsave - 16 := sym.childForkPath]
  }

  /** Memory after `arch_setup_task_context` and then `kernel_thread` wrote the frame below `high`. */
  function Frame(sym: Symbols, mem: Ram, high: Word, priv: Privilege, fn: Word, data: Word, flags: Word): Ram
    requires high >= 1040
  {
    var regs := high - REGS_SIZE;
    FxPart(sym, RegsPart(mem, regs, FirstRun(sym, high, priv, fn, data, flags)), regs - SaveDelta())
      [regs + 16 := fn][regs + 8 := data]
  }

  lemma ClearedWords(mem: Ram, a: nat, n: nat)
    ensures forall x: nat :: a <= x < a + n && WordOf(a, x) ==> Load(ClearWords(mem, a, n), x) == 0
    ensures forall x: nat :: !(a <= x < a + n) ==> Load(ClearWords(mem, a, n), x) == Load(mem, x)
  {
  }

  lemma RegsWords(mem: Ram, regs: nat, snap: Snap)
    requires snap.Forked?
    ensures var m := RegsPart(mem, regs, snap);
            && (forall i :: 0 <= i < 14 ==> Load(m, regs + 8 * i) == 0)
            && Load(m, regs + 112) == snap.rip && Load(m, regs + 120) == snap.cs && Load(m, regs + 128) == snap.flags
            && Load(m, regs + 136) == snap.rsp && Load(m, regs + 144) == snap.ss
            && forall x: nat :: !(regs <= x < regs + REGS_SIZE) ==> Load(m, x) == Load(mem, x)
  {
    hide ClearWords;
    ClearedWords(mem, regs, REGS_SIZE);
    forall i | 0 <= i < 14 ensures Load(ClearWords(mem, regs, REGS_SIZE), regs + 8 * i) == 0 {
      assert WordOf(regs, regs + 8 * i);
    }
  }

  lemma FxWords(sym: Symbols, mem: Ram, fsave: nat)
    requires fsave >= 16
    ensures var m := FxPart(sym, mem, fsave);
            && SaveDelta() == 872 && Load(m, fsave - 8) == 872 && Load(m, fsave - 16) == sym.childForkPath
            && LoadImage(m, fsave) == NoFx()
            && forall x: nat :: !(fsave - 16 <= x < fsave + 512) ==> Load(m, x) == Load(mem, x)
  {
    hide ClearWords;
    ClearedWords(mem, fsave, 512);
    var m := FxPart(sym, mem, fsave);
    forall k | 0 <= k < 64 ensures Load(m, fsave + 8 * k) == 0 {
      assert WordOf(fsave, fsave + 8 * k);
    }
  }

  lemma TopAligned(high: nat)
    requires high % PAGE_SIZE == 0 && PAGE_SIZE <= high
    ensures (high - 1024) % 512 == 0 && (high - 1040) % 8 == 0 && (high - 1032) % 8 == 0 && (high - 40) % 8 == 0
  {
    var q := high / PAGE_SIZE;
    assert high == 4096 * q;
    Remainder(8 * q - 2, 0, 512);
    Remainder(512 * q - 130, 0, 8);
    Remainder(512 * q - 129, 0, 8);
    Remainder(512 * q - 5, 0, 8);
  }

  /** Every page-aligned stack top gets a frame that a task can be resumed from; it occupies the 1040
      bytes below the top, and its FX area is 512-aligned and lies below `regs_t`. */
  lemma FrameIsSuspended(sym: Symbols, mem: Ram, high: Word, priv: Privilege, fn: Word, data: Word, flags: Word)
    requires high % PAGE_SIZE == 0 && PAGE_SIZE <= high < TWO64 - 512
    ensures var mem' := Frame(sym, mem, high, priv, fn, data, flags);
            && Suspended(sym, mem', high - 1040, FirstRun(sym, high, priv, fn, data, flags))
            && (high - 1024) % 512 == 0 && high - 1024 + 512 <= high - REGS_SIZE
            && forall x: nat :: !(high - 1040 <= x < high) ==> Load(mem', x) == Load(mem, x)
  {
    hide LoadImage, NoFx, RegsPart, FxPart, SaveDelta, WithInterrupts, RESTORE_GPR;
    var regs := high - REGS_SIZE;
    var snap := FirstRun(sym, high, priv, fn, data, flags);
    var m1 := RegsPart(mem, regs, snap);
    RegsWords(mem, regs, snap);
    FxWords(sym, m1, regs - 872);
    var m2 := FxPart(sym, m1, regs - 872);
    TopAligned(high);
    var mem' := Frame(sym, mem, high, priv, fn, data, flags);
    ImageAbove(m2, regs - 872, regs + 16, fn);
    ImageAbove(m2[regs + 16 := fn], regs - 872, regs + 8, data);
    GprOrder();
    forall i | 0 <= i < 14 ensures Load(mem', high - 40 - 112 + 8 * i) == snap.regs[RESTORE_GPR[i]] {
      assert Load(m1, regs + 8 * i) == 0;
    }
  }

  lemma GprOrder()
    ensures |RESTORE_GPR| == 14 && RESTORE_GPR[1] == RSI && RESTORE_GPR[2] == RDI
    ensures forall i :: 0 <= i < 14 && i != 1 && i != 2 ==> RESTORE_GPR[i] != RSI && RESTORE_GPR[i] != RDI
  {
  }

  lemma ImageAbove(mem: Ram, a: nat, x: nat, v: Word)
    requires x >= a + 512
    ensures LoadImage(mem[x := v], a) == LoadImage(mem, a)
  {
  }

  // ---------- the system ----------

  datatype Sys = Sys(cpu: Cpu, current: StackId, snaps: map<StackId, Snap>)

  datatype Event =
    | Work(cpu: Cpu)                                            // the running task computes
    | Create(id: StackId, cr3: Word, fn: Word, data: Word, flags: Word)   // it creates a kernel thread
    | Activate(to: StackId, ret: Word)                          // it calls arch_activate_task

  function CtxCr3(sym: Symbols, id: StackId): nat {
    SlotBase(id) + sym.archContext
  }

  function CtxRsp(sym: Symbols, id: StackId): nat {
    SlotBase(id) + sym.archContext + 8
  }

  ghost predicate GoodSymbols(sym: Symbols) {
    sym.returnFromSleep != sym.childForkPath && sym.archContext % 8 == 0 && sym.archContext + 16 <= PAGE_SIZE
  }

  ghost predicate InStack(id: StackId, a: nat) {
    StackLow(id) <= a <= StackHigh(id)
  }

  function WakeRsp(snap: Snap): nat {
    match snap
    case Slept(regs, _, _) => regs[RSP] + 8
    case Forked(_, _, _, _, _, rsp, _) => rsp
  }

  /** The saved stack pointer of task `id` points to an intact frame inside its own stack. */
  ghost predicate Parked(sym: Symbols, mem: Ram, id: StackId, snap: Snap) {
    var sp := Load(mem, CtxRsp(sym, id));
    Suspended(sym, mem, sp, snap) && StackLow(id) <= sp && SnapTop(snap) <= StackHigh(id) && InStack(id, WakeRsp(snap))
  }

  ghost predicate AllParked(sym: Symbols, mem: Ram, snaps: map<StackId, Snap>) {
    forall id :: id in snaps ==> Parked(sym, mem, id, snaps[id])
  }

  /** What every run keeps. */
  ghost predicate Inv(sym: Symbols, sys: Sys) {
    && GoodSymbols(sym) && sys.current !in sys.snaps && sys.cpu.ok
    && InStack(sys.current, sys.cpu.regs[RSP])
    && AllParked(sym, sys.cpu.mem, sys.snaps)
  }

  /** The stack and the saved context of task `id` are as they were. */
  ghost predicate Untouched(sym: Symbols, mem: Ram, mem': Ram, id: StackId) {
    && Agree(mem, mem', StackLow(id), StackHigh(id))
    && Load(mem', CtxCr3(sym, id)) == Load(mem, CtxCr3(sym, id))
      && Load(mem', CtxRsp(sym, id)) == Load(mem, CtxRsp(sym, id))
  }

  /** `arch_activate_task` up to the first instruction of `arch_hw_activate_task`: the arguments are
      loaded and the return address is pushed. */
  function CallSwitch(sym: Symbols, s: Cpu, from: StackId, to: StackId, ret: Word): Cpu
    requires s.regs[RSP] >= 8 && CtxRsp(sym, from) < TWO64
  {
    var p := s.regs[RSP] - 8;
    s.(regs := s.regs[RDI := Load(s.mem, CtxCr3(sym, to))][RSI := Load(s.mem, CtxRsp(sym, to))]
                     [RDX := CtxRsp(sym, from)][RSP := p],
       mem := s.mem[p := ret])
  }

  /** The running task may compute at will but keeps to its own stack and leaves those of the suspended
      tasks and their saved contexts alone; a new task gets a stack that is not in use; a task is
      switched to while it is suspended, and the running one has room for its frame. */
  ghost predicate Possible(sym: Symbols, sys: Sys, e: Event) {
    match e
    case Work(cpu) => cpu.ok && InStack(sys.current, cpu.regs[RSP]) && forall id :: id in sys.snaps ==>
      Untouched(sym, sys.cpu.mem, cpu.mem, id)
    case Create(id, _, _, _, _) => id != sys.current && id !in sys.snaps
    case Activate(to, _) =>
      to in sys.snaps && sys.cpu.regs[RSP] % 8 == 0
      && sys.cpu.regs[RSP] >= StackLow(sys.current) + 1160
  }

  function NewTask(sym: Symbols, mem: Ram, id: StackId, cr3: Word, fn: Word, data: Word, flags: Word): Ram
    requires 1040 <= StackHigh(id) < TWO64
  {
    Frame(sym, mem, StackHigh(id), TplKernel, fn, data, flags)
      [CtxCr3(sym, id) := cr3][CtxRsp(sym, id) := StackHigh(id) - 1040]
  }

  function Next(sym: Symbols, sys: Sys, e: Event): Sys
    requires sys.cpu.regs[RSP] >= 8 && CtxRsp(sym, sys.current) < TWO64
  {
    match e
    case Work(cpu) => sys.(cpu := cpu)
    case Create(id, cr3, fn, data, flags) =>
      StackPlace(id);
      sys.(cpu := sys.cpu.(mem := NewTask(sym, sys.cpu.mem, id, cr3, fn, data, flags)),
           snaps := sys.snaps[id := FirstRun(sym, StackHigh(id), TplKernel, fn, data, flags)])
    case Activate(to, ret) =>
      var call := CallSwitch(sym, sys.cpu, sys.current, to, ret);
      Sys(Resume(sym, Run(call, HwActivate(sym))), to,
          (sys.snaps - {to})[sys.current := Slept(call.regs, call.fx, ret)])
  }

  lemma StackPlace(id: StackId)
    ensures PAGE_SIZE <= StackLow(id) && StackLow(id) + 4 * PAGE_SIZE == StackHigh(id) < TWO64 - 600
            && StackHigh(id) % PAGE_SIZE == 0
  {
  }

  /** Stacks, and the saved contexts of tasks, do not overlap. */
  lemma Places(sym: Symbols, i: StackId, j: StackId)
    requires GoodSymbols(sym)
    ensures CtxRsp(sym, i) == CtxCr3(sym, i) + 8 && CtxRsp(sym, i) < StackLow(i) && CtxRsp(sym, i) % 8 == 0
            && CtxCr3(sym, i) % 8 == 0
    ensures i != j ==> StackHigh(i) < StackLow(j) || StackHigh(j) < StackLow(i)
    ensures i != j ==>
              CtxRsp(sym, i) != CtxRsp(sym, j) && CtxRsp(sym, i) != CtxCr3(sym, j)
              && CtxCr3(sym, i) != CtxCr3(sym, j)
    ensures CtxRsp(sym, j) < StackLow(i) || StackHigh(i) < CtxCr3(sym, j)
  {
  }

  lemma ParkedUntouched(sym: Symbols, mem: Ram, mem': Ram, id: StackId, snap: Snap)
    requires Parked(sym, mem, id, snap) && Untouched(sym, mem, mem', id)
    ensures Parked(sym, mem', id, snap)
  {
    hide StackLow, StackHigh, CtxRsp, CtxCr3, Suspended, Load;
    SuspendedAgree(sym, mem, mem', Load(mem, CtxRsp(sym, id)), snap);
  }

  // ---------- one event ----------

  lemma CanStep(sym: Symbols, sys: Sys)
    requires Inv(sym, sys)
    ensures sys.cpu.regs[RSP] >= 8 && CtxRsp(sym, sys.current) < TWO64
  {
    hide AllParked;
  }

  /** The state of the machine when the stack has been changed: the running task is suspended, and the
      other tasks are untouched. */
  lemma LeaveTask(sym: Symbols, sys: Sys, to: StackId, ret: Word) returns (t: Cpu)
    requires Inv(sym, sys) && Possible(sym, sys, Activate(to, ret))
    requires sys.cpu.regs[RSP] >= 8 && CtxRsp(sym, sys.current) < TWO64
    ensures var call := CallSwitch(sym, sys.cpu, sys.current, to, ret);
            && t == Run(call, HwActivate(sym))
              && t == sys.cpu.(regs := t.regs, mem := t.mem, cr3 := call.regs[RDI], rip := t.rip, intEnabled := false)
            && Parked(sym, t.mem, sys.current, Slept(call.regs, call.fx, ret))
            && t.rip == Load(t.mem, Load(sys.cpu.mem, CtxRsp(sym, to)))
              && t.regs[RSP] == Load(sys.cpu.mem, CtxRsp(sym, to)) + 8
            && (forall x: nat :: !(sys.cpu.regs[RSP] - 1160 <= x < sys.cpu.regs[RSP]) && x != CtxRsp(sym, sys.current)
                                 ==> Load(t.mem, x) == Load(sys.cpu.mem, x))
  {
    hide StackLow, StackHigh, CtxRsp, CtxCr3, Load, Run, HwActivate, Saved, AllParked;
    var mem, from := sys.cpu.mem, sys.current;
    var call := CallSwitch(sym, sys.cpu, from, to, ret);
    ParkedSp(sym, sys, to);
    StackPlace(from);
    Places(sym, from, to);
    StoreLoad(mem, sys.cpu.regs[RSP] - 8, ret);
    Aligned8(sys.cpu.regs[RSP]);
    HwActivateEffect(sym, call);
    t := Run(call, HwActivate(sym));
  }

  lemma Aligned8(p: nat)
    requires p % 8 == 0 && p >= 8
    ensures (p - 8) % 8 == 0
  {
  }

  lemma StoreLoad(mem: Ram, a: nat, v: Word)
    ensures Load(mem[a := v], a) == v && forall x: nat :: x != a ==> Load(mem[a := v], x) == Load(mem, x)
  {
  }

  lemma ParkedSp(sym: Symbols, sys: Sys, id: StackId)
    requires Inv(sym, sys) && id in sys.snaps
    ensures Parked(sym, sys.cpu.mem, id, sys.snaps[id])
    ensures var sp := Load(sys.cpu.mem, CtxRsp(sym, id)); sp % 8 == 0 && sp < TWO64 - 520 && id != sys.current
  {
    hide StackLow, StackHigh, CtxRsp, CtxCr3, Load, Saved;
    var sp := Load(sys.cpu.mem, CtxRsp(sym, id));
    SuspendedBelow(sym, sys.cpu.mem, sp, sys.snaps[id]);
  }

  lemma SuspendedBelow(sym: Symbols, mem: Ram, sp: nat, snap: Snap)
    requires Suspended(sym, mem, sp, snap)
    ensures sp < SnapTop(snap) - 8
  {
    hide LoadImage;
  }

  /** Writes that stay inside the stack of `from`, below `top`, and the stack-pointer slot of its saved
      context do not touch other tasks. */
  lemma OthersUntouched(sym: Symbols, mem: Ram, mem': Ram, from: StackId, top: nat, id: StackId)
    requires GoodSymbols(sym) && id != from && StackLow(from) + 1160 <= top <= StackHigh(from)
    requires forall x: nat :: !(top - 1160 <= x < top) && x != CtxRsp(sym, from) ==> Load(mem', x) == Load(mem, x)
    ensures Untouched(sym, mem, mem', id)
  {
    hide StackLow, StackHigh, CtxRsp, CtxCr3, Load;
    Places(sym, from, id);
    Places(sym, id, from);
    Places(sym, from, from);
    StackPlace(id);
    StackPlace(from);
  }

  lemma AllParkedUntouched(sym: Symbols, mem: Ram, mem': Ram, snaps: map<StackId, Snap>)
    requires AllParked(sym, mem, snaps) && forall id :: id in snaps ==> Untouched(sym, mem, mem', id)
    ensures AllParked(sym, mem', snaps)
  {
    hide Parked, Untouched;
    forall id | id in snaps ensures Parked(sym, mem', id, snaps[id]) {
      ParkedUntouched(sym, mem, mem', id, snaps[id]);
    }
  }

  /** The snapshot of the running task at its call. */
  function Asleep(sym: Symbols, sys: Sys, to: StackId, ret: Word): Snap
    requires sys.cpu.regs[RSP] >= 8 && CtxRsp(sym, sys.current) < TWO64
  {
    Slept(CallSwitch(sym, sys.cpu, sys.current, to, ret).regs, sys.cpu.fx, ret)
  }

  ghost predicate ContinuesFrom(cpu: Cpu, snap: Snap, cr3: Word) {
    cpu.ok && exists t: Cpu :: cpu == Woken(t, snap) && t.cr3 == cr3
  }

  /** `arch_activate_task`: the caller is suspended with its registers at the call, the chosen task
      continues from its own snapshot with its own page directory, and every other task is untouched. */
  lemma ActivateEffect(sym: Symbols, sys: Sys, to: StackId, ret: Word)
    requires Inv(sym, sys) && Possible(sym, sys, Activate(to, ret))
    requires sys.cpu.regs[RSP] >= 8 && CtxRsp(sym, sys.current) < TWO64
    ensures var sys' := Next(sym, sys, Activate(to, ret));
            && Inv(sym, sys')
            && sys'.current == to && sys'.snaps == (sys.snaps - {to})[sys.current := Asleep(sym, sys, to, ret)]
            && ContinuesFrom(sys'.cpu, sys.snaps[to], Load(sys.cpu.mem, CtxCr3(sym, to)))
            && (forall id :: id != sys.current ==> Untouched(sym, sys.cpu.mem, sys'.cpu.mem, id))
            && (forall x: nat :: sys.cpu.regs[RSP] <= x < StackHigh(sys.current) ==>
                Load(sys'.cpu.mem, x) == Load(sys.cpu.mem, x))
  {
    hide StackLow, StackHigh, CtxRsp, CtxCr3, Load, Run, HwActivate, Resume, Suspended, Parked, Untouched, AllParked,
         SnapTop;
    var from, top, mem := sys.current, sys.cpu.regs[RSP], sys.cpu.mem;
    ParkedNow(sym, sys, to);
    var t := LeaveTask(sym, sys, to, ret);
    Places(sym, from, from);
    forall id | id != from ensures Untouched(sym, mem, t.mem, id) {
      OthersUntouched(sym, mem, t.mem, from, top, id);
    }
    AllParkedUntouched(sym, mem, t.mem, sys.snaps);
    WokenParked(sym, mem, t, to, sys.snaps[to]);
    var sys' := Next(sym, sys, Activate(to, ret));
    assert sys'.cpu == Woken(t, sys.snaps[to]);
    AllParkedSwap(sym, t.mem, sys.snaps, to, from, sys'.snaps[from]);
  }

  lemma ParkedNow(sym: Symbols, sys: Sys, id: StackId)
    requires Inv(sym, sys) && id in sys.snaps
    ensures Parked(sym, sys.cpu.mem, id, sys.snaps[id]) && id != sys.current
  {
    hide Parked;
  }

  lemma AllParkedSwap(sym: Symbols, mem: Ram, snaps: map<StackId, Snap>, to: StackId, from: StackId, snap: Snap)
    requires AllParked(sym, mem, snaps) && Parked(sym, mem, from, snap)
    ensures AllParked(sym, mem, (snaps - {to})[from := snap])
  {
    hide Parked;
  }

  /** On its own stack again, a parked task is itself. */
  lemma WokenParked(sym: Symbols, mem: Ram, t: Cpu, to: StackId, snap: Snap)
    requires GoodSymbols(sym) && Parked(sym, mem, to, snap) && Untouched(sym, mem, t.mem, to)
    requires t.rip == Load(t.mem, Load(mem, CtxRsp(sym, to))) && t.regs[RSP] == Load(mem, CtxRsp(sym, to)) + 8
    ensures Resume(sym, t) == Woken(t, snap) && Woken(t, snap).mem == t.mem && Woken(t, snap).ok == t.ok
    ensures InStack(to, Woken(t, snap).regs[RSP])
  {
    hide StackLow, StackHigh, CtxRsp, CtxCr3, Load, Resume, Suspended, Saved;
    ParkedUntouched(sym, mem, t.mem, to, snap);
    ResumeEffect(sym, t, Load(mem, CtxRsp(sym, to)), snap);
    StackPlace(to);
  }

  /** A new thread is parked in its own slot of virtual addresses, and no other task is touched. */
  lemma CreateEffect(sym: Symbols, sys: Sys, id: StackId, cr3: Word, fn: Word, data: Word, flags: Word)
    requires Inv(sym, sys) && Possible(sym, sys, Create(id, cr3, fn, data, flags))
    requires sys.cpu.regs[RSP] >= 8 && CtxRsp(sym, sys.current) < TWO64
    ensures var sys' := Next(sym, sys, Create(id, cr3, fn, data, flags));
            && Inv(sym, sys') && Load(sys'.cpu.mem, CtxCr3(sym, id)) == cr3 && 40 <= StackHigh(id) < TWO64
            && sys'.snaps == sys.snaps[id := FirstRun(sym, StackHigh(id), TplKernel, fn, data, flags)]
            && (forall other :: other != id ==> Untouched(sym, sys.cpu.mem, sys'.cpu.mem, other))
  {
    hide StackLow, StackHigh, CtxRsp, CtxCr3, Load, Suspended, Parked, Untouched, AllParked, SnapTop, Frame;
    var mem := sys.cpu.mem;
    StackPlace(id);
    var mem' := NewTask(sym, mem, id, cr3, fn, data, flags);
    var snap := FirstRun(sym, StackHigh(id), TplKernel, fn, data, flags);
    NewTaskParked(sym, mem, id, cr3, fn, data, flags);
    forall other | other != id ensures Untouched(sym, mem, mem', other) {
      NewTaskElsewhere(sym, mem, mem', id, other);
    }
    AllParkedUntouched(sym, mem, mem', sys.snaps);
    assert sys.snaps - {id} == sys.snaps;
    AllParkedSwap(sym, mem', sys.snaps, id, id, snap);
  }

  lemma NewTaskElsewhere(sym: Symbols, mem: Ram, mem': Ram, id: StackId, other: StackId)
    requires GoodSymbols(sym) && other != id
    requires forall x: nat :: !InStack(id, x) && x != CtxCr3(sym, id) && x != CtxRsp(sym, id) ==>
             Load(mem', x) == Load(mem, x)
    ensures Untouched(sym, mem, mem', other)
  {
    hide StackLow, StackHigh, CtxRsp, CtxCr3, Load;
    Places(sym, id, other);
    Places(sym, other, id);
    Places(sym, id, id);
    StackPlace(id);
    StackPlace(other);
  }

  lemma NewTaskParked(sym: Symbols, mem: Ram, id: StackId, cr3: Word, fn: Word, data: Word, flags: Word)
    requires GoodSymbols(sym) && 1040 <= StackHigh(id) < TWO64
    ensures var mem' := NewTask(sym, mem, id, cr3, fn, data, flags);
            && Parked(sym, mem', id, FirstRun(sym, StackHigh(id), TplKernel, fn, data, flags))
              && Load(mem', CtxCr3(sym, id)) == cr3
            && forall x: nat :: !InStack(id, x) && x != CtxCr3(sym, id) && x != CtxRsp(sym, id) ==>
              Load(mem', x) == Load(mem, x)
  {
    hide StackLow, StackHigh, CtxRsp, CtxCr3, Load, Suspended, Frame, WithInterrupts;
    StackPlace(id);
    Places(sym, id, id);
    var high := StackHigh(id);
    FrameIsSuspended(sym, mem, high, TplKernel, fn, data, flags);
    var m1 := Frame(sym, mem, high, TplKernel, fn, data, flags);
    StoreLoad(m1, CtxCr3(sym, id), cr3);
    StoreLoad(m1[CtxCr3(sym, id) := cr3], CtxRsp(sym, id), high - 1040);
    SuspendedAgree(sym, m1, NewTask(sym, mem, id, cr3, fn, data, flags), high - 1040,
                   FirstRun(sym, high, TplKernel, fn, data, flags));
  }

  lemma WorkEffect(sym: Symbols, sys: Sys, cpu: Cpu)
    requires Inv(sym, sys) && Possible(sym, sys, Work(cpu))
    ensures Inv(sym, sys.(cpu := cpu))
  {
    hide Parked, Untouched, InStack, AllParked;
    AllParkedUntouched(sym, sys.cpu.mem, cpu.mem, sys.snaps);
  }

  // ---------- runs ----------

  lemma NextKeepsInv(sym: Symbols, sys: Sys, e: Event)
    requires Inv(sym, sys) && Possible(sym, sys, e)
    requires sys.cpu.regs[RSP] >= 8 && CtxRsp(sym, sys.current) < TWO64
    ensures Inv(sym, Next(sym, sys, e))
  {
    hide Inv, Possible, CallSwitch, NewTask, CtxRsp;
    match e
    case Work(cpu) => WorkEffect(sym, sys, cpu);
    case Create(id, cr3, fn, data, flags) => CreateEffect(sym, sys, id, cr3, fn, data, flags);
    case Activate(to, ret) => ActivateEffect(sym, sys, to, ret);
  }

  /** The events happen one after the other, each possible in its turn, and lead from sys to last. */
  ghost predicate Leads(sym: Symbols, sys: Sys, events: seq<Event>, last: Sys)
    requires Inv(sym, sys)
    decreases |events|
  {
    if events == [] then last == sys else
      CanStep(sym, sys);
      Possible(sym, sys, events[0]) &&
      (NextKeepsInv(sym, sys, events[0]);
       Leads(sym, Next(sym, sys, events[0]), events[1..], last))
  }

  /** Every run keeps the invariant. */
  lemma {:induction false} RunKeepsInv(sym: Symbols, sys: Sys, events: seq<Event>, last: Sys)
    requires Inv(sym, sys) && Leads(sym, sys, events, last)
    ensures Inv(sym, last)
    decreases |events|
  {
    hide Inv, Possible, Next;
    if events != [] {
      CanStep(sym, sys);
      NextKeepsInv(sym, sys, events[0]);
      RunKeepsInv(sym, Next(sym, sys, events[0]), events[1..], last);
    }
  }

  /** No event of the run switches to task id. */
  ghost predicate NeverActivates(events: seq<Event>, id: StackId) {
    forall k :: 0 <= k < |events| && events[k].Activate? ==> events[k].to != id
  }

  lemma SleeperStep(sym: Symbols, sys: Sys, e: Event, id: StackId)
    requires Inv(sym, sys) && Possible(sym, sys, e) && id in sys.snaps && (e.Activate? ==> e.to != id)
    requires sys.cpu.regs[RSP] >= 8 && CtxRsp(sym, sys.current) < TWO64
    ensures var sys' := Next(sym, sys, e);
            && id in sys'.snaps && sys'.snaps[id] == sys.snaps[id] && Untouched(sym, sys.cpu.mem, sys'.cpu.mem, id)
  {
    hide Untouched, Parked, CallSwitch, NewTask, CtxRsp, CtxCr3, AllParked;
    match e
    case Work(cpu) =>
    case Create(other, cr3, fn, data, flags) => CreateEffect(sym, sys, other, cr3, fn, data, flags);
    case Activate(to, ret) => ActivateEffect(sym, sys, to, ret);
  }

  /** However the others interleave, a suspended task keeps its snapshot, its stack and its context. */
  lemma {:induction false} SleeperUndisturbed(sym: Symbols, sys: Sys, events: seq<Event>, last: Sys, id: StackId)
    requires Inv(sym, sys) && Leads(sym, sys, events, last) && id in sys.snaps && NeverActivates(events, id)
    ensures Inv(sym, last) && id in last.snaps && last.snaps[id] == sys.snaps[id]
            && Untouched(sym, sys.cpu.mem, last.cpu.mem, id)
    decreases |events|
  {
    hide Inv, Possible, Next, Agree, CtxRsp, CtxCr3, StackLow, StackHigh, Load, Untouched;
    if events == [] {
      UntouchedSelf(sym, sys.cpu.mem, id);
    } else {
      CanStep(sym, sys);
      NextKeepsInv(sym, sys, events[0]);
      var sys1 := Next(sym, sys, events[0]);
      SleeperStep(sym, sys, events[0], id);
      SleeperUndisturbed(sym, sys1, events[1..], last, id);
      UntouchedTrans(sym, sys.cpu.mem, sys1.cpu.mem, last.cpu.mem, id);
    }
  }

  lemma UntouchedSelf(sym: Symbols, mem: Ram, id: StackId)
    ensures Untouched(sym, mem, mem, id)
  {
  }

  lemma UntouchedTrans(sym: Symbols, a: Ram, b: Ram, c: Ram, id: StackId)
    requires Untouched(sym, a, b, id) && Untouched(sym, b, c, id)
    ensures Untouched(sym, a, c, id)
  {
    hide StackLow, StackHigh, CtxRsp, CtxCr3, Load;
  }

  /** A task that calls `arch_activate_task` and, after any run of the others, is switched to again,
      returns from that call: with its stack pointer, its general registers (but for the three that
      carried the arguments), its FX state and everything on its stack. */
  lemma TaskResumes(sym: Symbols, sys: Sys, to: StackId, ret: Word, events: seq<Event>, s2: Sys, ret2: Word)
    requires Inv(sym, sys) && Possible(sym, sys, Activate(to, ret))
    requires sys.cpu.regs[RSP] >= 8 && CtxRsp(sym, sys.current) < TWO64
    requires var s1 := Next(sym, sys, Activate(to, ret));
             Inv(sym, s1) && Leads(sym, s1, events, s2) && NeverActivates(events, sys.current)
    requires s2.cpu.regs[RSP] >= 8 && CtxRsp(sym, s2.current) < TWO64 && Possible(sym, s2, Activate(sys.current, ret2))
    ensures var s3 := Next(sym, s2, Activate(sys.current, ret2));
            && Inv(sym, s3) && s3.current == sys.current && s3.cpu.rip == ret && s3.cpu.intEnabled
            && s3.cpu.fx == sys.cpu.fx && s3.cpu.cr3 == Load(s2.cpu.mem, CtxCr3(sym, sys.current))
            && (forall r :: 0 <= r < 16 && r != RDI && r != RSI && r != RDX ==> s3.cpu.regs[r] == sys.cpu.regs[r])
            && (forall x: nat :: sys.cpu.regs[RSP] <= x < StackHigh(sys.current) ==>
                Load(s3.cpu.mem, x) == Load(sys.cpu.mem, x))
  {
    hide Inv, Possible, Untouched, CtxRsp, CtxCr3, StackLow, StackHigh, Load, Next, Asleep, ContinuesFrom, InStack;
    var id := sys.current;
    var s1 := Next(sym, sys, Activate(to, ret));
    ActivateEffect(sym, sys, to, ret);
    NotSelf(sym, sys, to, ret);
    SleeperUndisturbed(sym, s1, events, s2, id);
    ActivateEffect(sym, s2, id, ret2);
    NotSelf(sym, s2, id, ret2);
    var s3 := Next(sym, s2, Activate(id, ret2));
    UntouchedTrans(sym, s1.cpu.mem, s2.cpu.mem, s3.cpu.mem, id);
    StackAgrees(sym, s1.cpu.mem, s3.cpu.mem, id, sys.cpu.regs[RSP]);
    SleeperContinues(sym, sys, to, ret, s3.cpu, Load(s2.cpu.mem, CtxCr3(sym, id)));
  }

  lemma SleeperContinues(sym: Symbols, sys: Sys, to: StackId, ret: Word, cpu: Cpu, cr3: Word)
    requires sys.cpu.regs[RSP] >= 8 && CtxRsp(sym, sys.current) < TWO64
    requires ContinuesFrom(cpu, Asleep(sym, sys, to, ret), cr3)
    ensures cpu.rip == ret && cpu.intEnabled && cpu.fx == sys.cpu.fx && cpu.cr3 == cr3
    ensures forall r :: 0 <= r < 16 && r != RDI && r != RSI && r != RDX ==> cpu.regs[r] == sys.cpu.regs[r]
  {
    hide CtxRsp, CtxCr3, Load;
    PlainReturn(sys.cpu.regs[RSP]);
  }

  lemma ThreadContinues(sym: Symbols, high: Word, fn: Word, data: Word, flags: Word, cpu: Cpu, cr3: Word)
    requires high >= 40 && ContinuesFrom(cpu, FirstRun(sym, high, TplKernel, fn, data, flags), cr3)
    ensures cpu.rip == sym.kernelThreadHelper && cpu.regs[RDI] == fn && cpu.regs[RSI] == data
    ensures cpu.regs[RSP] == high && cpu.intEnabled && cpu.cs == 8 && cpu.ss == 16 && cpu.cr3 == cr3
    ensures forall r :: 0 <= r < 16 && r != RAX && r != RDI && r != RSI && r != RSP ==> cpu.regs[r] == 0
  {
    hide WithInterrupts;
    var snap := FirstRun(sym, high, TplKernel, fn, data, flags);
    var t: Cpu :| cpu == Woken(t, snap) && t.cr3 == cr3;
    assert cpu.regs == ZeroRegs()[RDI := fn][RSI := data][RAX := t.regs[RAX]][RSP := high];
  }

  lemma PlainReturn(p: Word)
    requires p >= 8
    ensures Add64(p - 8, 8) == p
  {
  }

  lemma NotSelf(sym: Symbols, sys: Sys, to: StackId, ret: Word)
    requires Inv(sym, sys) && Possible(sym, sys, Activate(to, ret))
    ensures to != sys.current && to in sys.snaps && InStack(sys.current, sys.cpu.regs[RSP])
  {
    hide AllParked;
  }

  lemma StackAgrees(sym: Symbols, mem: Ram, mem': Ram, id: StackId, a: nat)
    requires Untouched(sym, mem, mem', id) && InStack(id, a)
    ensures forall x: nat :: a <= x < StackHigh(id) ==> Load(mem', x) == Load(mem, x)
  {
    hide StackHigh, StackLow, Load;
  }

  /** A new thread, when first switched to after any run of the others, enters `kernel_thread_helper`
      with rdi = fn and rsi = data, in kernel segments, at the top of its stack, interrupts enabled. */
  lemma ThreadStarts(sym: Symbols, sys: Sys, id: StackId, cr3: Word, fn: Word, data: Word, flags: Word,
                     events: seq<Event>, s2: Sys, ret: Word)
    requires Inv(sym, sys) && Possible(sym, sys, Create(id, cr3, fn, data, flags))
    requires sys.cpu.regs[RSP] >= 8 && CtxRsp(sym, sys.current) < TWO64
    requires var s1 := Next(sym, sys, Create(id, cr3, fn, data, flags));
             Inv(sym, s1) && Leads(sym, s1, events, s2) && NeverActivates(events, id)
    requires s2.cpu.regs[RSP] >= 8 && CtxRsp(sym, s2.current) < TWO64 && Possible(sym, s2, Activate(id, ret))
    ensures var cpu := Next(sym, s2, Activate(id, ret)).cpu;
            && cpu.rip == sym.kernelThreadHelper && cpu.regs[RDI] == fn && cpu.regs[RSI] == data
            && cpu.regs[RSP] == StackHigh(id) && cpu.intEnabled && cpu.cs == 8 && cpu.ss == 16 && cpu.cr3 == cr3
            && (forall r :: 0 <= r < 16 && r != RAX && r != RDI && r != RSI && r != RSP ==> cpu.regs[r] == 0)
  {
    hide Inv, Possible, Untouched, CtxRsp, CtxCr3, StackLow, StackHigh, Load, Next, ContinuesFrom, FirstRun;
    StackPlace(id);
    CreateEffect(sym, sys, id, cr3, fn, data, flags);
    var s1 := Next(sym, sys, Create(id, cr3, fn, data, flags));
    SleeperUndisturbed(sym, s1, events, s2, id);
    SavedCr3(sym, s1.cpu.mem, s2.cpu.mem, id);
    ActivateEffect(sym, s2, id, ret);
    ThreadContinues(sym, StackHigh(id), fn, data, flags, Next(sym, s2, Activate(id, ret)).cpu, cr3);
  }

  lemma SavedCr3(sym: Symbols, mem: Ram, mem': Ram, id: StackId)
    requires Untouched(sym, mem, mem', id)
    ensures Load(mem', CtxCr3(sym, id)) == Load(mem, CtxCr3(sym, id))
  {
  }

  // ---------- the C functions ----------

  /** The order of stores to different words does not matter. */
  lemma StoresCommute(mem: Ram, c: nat, vc: Word, d: nat, vd: Word, a: nat, va: Word, b: nat, vb: Word)
    requires a != c && a != d && b != c && b != d
    ensures mem[c := vc][d := vd][a := va][b := vb] == mem[a := va][b := vb][c := vc][d := vd]
  {
  }

  lemma SameFrame(sym: Symbols, mem: Ram, high: Word, priv: Privilege, fn: Word, data: Word, flags: Word)
    requires high >= 1040
    ensures var regs := high - REGS_SIZE;
            Frame(sym, mem, high, priv, fn, data, flags) ==
              FxPart(sym, RegsPart(mem, regs, FirstRun(sym, high, priv, 0, 0, flags)), high - 1024)
                [regs + 16 := fn][regs + 8 := data]
  {
    hide ClearWords, FxPart, WithInterrupts;
  }

  /** The frame has zeros where the thread's function and argument will be put. */
  lemma BlankArgs(sym: Symbols, mem: Ram, high: Word, priv: Privilege, flags: Word)
    requires high >= 1040
    ensures var regs := high - REGS_SIZE;
            var m := FxPart(sym, RegsPart(mem, regs, FirstRun(sym, high, priv, 0, 0, flags)), high - 1024);
            Load(m, regs + 16) == 0 && Load(m, regs + 8) == 0
  {
    hide FxPart, RegsPart, LoadImage, WithInterrupts;
    var regs := high - REGS_SIZE;
    var snap := FirstRun(sym, high, priv, 0, 0, flags);
    var m := RegsPart(mem, regs, snap);
    RegsWords(mem, regs, snap);
    assert Load(m, regs + 8 * 1) == 0 && Load(m, regs + 8 * 2) == 0;
    FxWords(sym, m, high - 1024);
  }

  /** In mem' task `id` is suspended at the first frame of its stack, and nothing else differs from mem. */
  ghost predicate SetUp(sym: Symbols, mem: Ram, mem': Ram, id: StackId, priv: Privilege, flags: Word, pageDir: Word) {
    var high := StackHigh(id);
    && 1040 <= high < TWO64 && Suspended(sym, mem', high - 1040, FirstRun(sym, high, priv, 0, 0, flags))
    && Load(mem', CtxCr3(sym, id)) == pageDir && Load(mem', CtxRsp(sym, id)) == high - 1040
    && forall x: nat :: !(high - 1040 <= x < high) && x != CtxCr3(sym, id) && x != CtxRsp(sym, id) ==>
         Load(mem', x) == Load(mem, x)
  }

  lemma ContextReady(sym: Symbols, mem: Ram, id: StackId, priv: Privilege, flags: Word, pageDir: Word)
    ensures 1040 <= StackHigh(id) < TWO64
    ensures GoodSymbols(sym) ==>
              var high := StackHigh(id);
              var m := FxPart(sym, RegsPart(mem, high - REGS_SIZE, FirstRun(sym, high, priv, 0, 0, flags)),
                              high - 1024);
              var mem' := m[CtxCr3(sym, id) := pageDir][CtxRsp(sym, id) := high - 1040];
              SetUp(sym, mem, mem', id, priv, flags, pageDir)
  {
    hide StackLow, StackHigh, CtxRsp, CtxCr3, Suspended, Frame, FxPart, RegsPart, WithInterrupts;
    StackPlace(id);
    if GoodSymbols(sym) {
      Places(sym, id, id);
      var high := StackHigh(id);
      var snap := FirstRun(sym, high, priv, 0, 0, flags);
      var m := FxPart(sym, RegsPart(mem, high - REGS_SIZE, snap), high - 1024);
      FrameIsSuspended(sym, mem, high, priv, 0, 0, flags);
      SameFrame(sym, mem, high, priv, 0, 0, flags);
      BlankArgs(sym, mem, high, priv, flags);
      SuspendedAgree(sym, Frame(sym, mem, high, priv, 0, 0, flags),
                     m[CtxCr3(sym, id) := pageDir][CtxRsp(sym, id) := high - 1040],
                     high - 1040, snap);
    }
  }

  class TaskMachine {
    const sym: Symbols
    var cpu: Cpu
    ghost var current: StackId
    ghost var snaps: map<StackId, Snap>

    ghost function Now(): Sys
      reads this
    {
      Sys(cpu, current, snaps)
    }

    ghost predicate Valid()
      reads this
    {
      Inv(sym, Now())
    }

    /** The idle task `id` starts to run on the processor; it is the only task. */
    constructor (sym: Symbols, cpu: Cpu, id: StackId)
      requires GoodSymbols(sym) && cpu.ok && InStack(id, cpu.regs[RSP])
      ensures Valid() && Now() == Sys(cpu, id, map[]) && this.sym == sym
    {
      this.sym, this.cpu, this.current, this.snaps := sym, cpu, id, map[];
    }

    method Write(a: nat, v: Word)
      modifies this`cpu
      ensures cpu == old(cpu).(mem := old(cpu).mem[a := v])
    {
      cpu := cpu.(mem := cpu.mem[a := v]);
    }

    /** `memset(a, 0, n)` on whole words */
    method Clear(a: nat, n: nat)
      modifies this`cpu
      ensures cpu == old(cpu).(mem := ClearWords(old(cpu).mem, a, n))
    {
      cpu := cpu.(mem := ClearWords(cpu.mem, a, n));
    }

    /** `arch_setup_task_context`, with the flags register and the physical address of the page
        directory as arguments. */
    method ArchSetupTaskContext(id: StackId, high: Word, priv: Privilege, flags: Word, pageDir: Word)
      requires high == StackHigh(id) && high >= 1040
      modifies this`cpu
      ensures var regs := high - REGS_SIZE;
              var m := FxPart(sym, RegsPart(old(cpu).mem, regs, FirstRun(sym, high, priv, 0, 0, flags)), high - 1024);
              cpu == old(cpu).(mem := m[CtxCr3(sym, id) := pageDir][CtxRsp(sym, id) := high - 1040])
      ensures GoodSymbols(sym) ==> SetUp(sym, old(cpu).mem, cpu.mem, id, priv, flags, pageDir)
    {
      hide RegsPart, FxPart, WithInterrupts, CtxCr3, CtxRsp, StackHigh, SetUp, GoodSymbols;
      ContextReady(sym, cpu.mem, id, priv, flags, pageDir);
      var regs := high - REGS_SIZE;
      FakeRegs(high, priv, flags);
      var fsave := FakeFxArea(regs);
      Write(CtxCr3(sym, id), pageDir);
      Write(CtxRsp(sym, id), fsave);
    }

    /** The `regs_t` of a new task. */
    method FakeRegs(high: Word, priv: Privilege, flags: Word)
      requires high >= 1040
      modifies this`cpu
      ensures cpu == old(cpu).(mem := RegsPart(old(cpu).mem, high - REGS_SIZE, FirstRun(sym, high, priv, 0, 0, flags)))
    {
      hide ClearWords, WithInterrupts;
      var regs := high - REGS_SIZE;
      Clear(regs, REGS_SIZE);
      var cs, rip, ss, rsp := 0, 0, 0, 0;
      if priv == TplKernel {
        cs, rip, ss, rsp := KTEXT_DES, sym.kernelThreadHelper, KDATA_DES, high;
      }
      Write(regs + 120, GdtSelector(cs));
      Write(regs + 144, GdtSelector(ss));
      Write(regs + 112, rip);
      Write(regs + 136, rsp);
      Write(regs + 128, WithInterrupts(flags));
    }

    /** The FX area below it, at the distance computed for "any page-aligned address", and the words that
        SAVE_MM and the call would have left. */
    method FakeFxArea(regs: nat) returns (fsave: nat)
      requires 888 <= regs < TWO64
      modifies this`cpu
      ensures cpu == old(cpu).(mem := FxPart(sym, old(cpu).mem, regs - 872)) && fsave == regs - 888
    {
      hide ClearWords;
      var t1 := 0x1000 - REGS_SIZE;
      var t2 := AlignDown(t1, 512);
      var delta := t1 - t2 + 512;
      fsave := regs - delta;
      Clear(fsave, 512);
      fsave := fsave - 8;
      Write(fsave, delta);
      fsave := fsave - 8;
      Write(fsave, sym.childForkPath);
    }

    /** `kernel_thread`, after `create_task` provided the stack `id`. */
    method KernelThread(id: StackId, fn: Word, data: Word, flags: Word, pageDir: Word)
      requires Valid() && id != current && id !in snaps
      requires cpu.regs[RSP] >= 8 && CtxRsp(sym, current) < TWO64
      modifies this
      ensures Valid() && Now() == Next(sym, old(Now()), Create(id, pageDir, fn, data, flags))
    {
      hide Inv, WithInterrupts, CtxCr3, CtxRsp, StackHigh, StackLow, FxPart, RegsPart, GoodSymbols, SetUp;
      ghost var before := Now();
      NextKeepsInv(sym, before, Create(id, pageDir, fn, data, flags));
      StackPlace(id);
      SymbolsOf(sym, before);
      Places(sym, id, id);
      var high := StackHigh(id);
      ArchSetupTaskContext(id, high, TplKernel, flags, pageDir);
      var regs := high - REGS_SIZE;
      Write(regs + 16, fn);
      Write(regs + 8, data);
      SameFrame(sym, before.cpu.mem, high, TplKernel, fn, data, flags);
      StoresCommute(FxPart(sym, RegsPart(before.cpu.mem, regs, FirstRun(sym, high, TplKernel, 0, 0, flags)),
                           high - 1024),
                    CtxCr3(sym, id), pageDir, CtxRsp(sym, id), high - 1040, regs + 16, fn, regs + 8, data);
      snaps := snaps[id := FirstRun(sym, high, TplKernel, fn, data, flags)];
    }

    /** `arch_activate_task`: the running task is found by masking the stack pointer. */
    method ArchActivateTask(to: StackId, ret: Word)
      requires Valid() && Possible(sym, Now(), Activate(to, ret))
      requires cpu.regs[RSP] >= 8 && CtxRsp(sym, current) < TWO64
      modifies this
      ensures Valid() && Now() == Next(sym, old(Now()), Activate(to, ret))
    {
      hide Inv, Possible, HwActivate, Run, Resume, StackMask, Load;
      ghost var before := Now();
      NextKeepsInv(sym, before, Activate(to, ret));
      RunningStack(sym, before);
      var from := StackMask(cpu.regs[RSP]);
      var savedSp := from + sym.archContext + 8;
      var p := cpu.regs[RSP] - 8;
      cpu := cpu.(regs := cpu.regs[RDI := Load(cpu.mem, CtxCr3(sym, to))][RSI := Load(cpu.mem, CtxRsp(sym, to))]
                                  [RDX := savedSp]);
      cpu := cpu.(regs := cpu.regs[RSP := p], mem := cpu.mem[p := ret]);
      snaps := (snaps - {to})[current := Slept(cpu.regs, cpu.fx, ret)];
      cpu := Resume(sym, Run(cpu, HwActivate(sym)));
      current := to;
    }
  }

  lemma SymbolsOf(sym: Symbols, sys: Sys)
    requires Inv(sym, sys)
    ensures GoodSymbols(sym)
  {
    hide AllParked;
  }

  /** `arch_current_task` finds the running task. */
  lemma RunningStack(sym: Symbols, sys: Sys)
    requires Inv(sym, sys)
    ensures StackMask(sys.cpu.regs[RSP]) == SlotBase(sys.current)
  {
    hide AllParked, StackMask;
    MaskFindsSlot(sys.current, sys.cpu.regs[RSP]);
  }
}
