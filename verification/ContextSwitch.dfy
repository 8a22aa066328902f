/** Saving and restoring a task's registers: the macros of include/eza/amd64/context.h, the switch
    routine of eza/amd64/sched/context.S and `child_fork_path` of eza/amd64/asm.S, as programs. */
module ContextSwitch {
  import opened Words
  import opened Machine

  /** Addresses that the linker assigns, and the offset of `arch_context` in the task structure. */
  datatype Symbols = Symbols(returnFromSleep: Word, childForkPath: Word, kernelThreadHelper: Word, archContext: nat)

  const SAVE_GPR: RegList := [R8, R9, R10, R11, R12, R13, R14, R15, RBX, RCX, RDX, RDI, RSI, RBP]
  const RESTORE_GPR: RegList := [RBP, RSI, RDI, RDX, RCX, RBX, R15, R14, R13, R12, R11, R10, R9, R8]

  const SAVE_MM: Program :=
    [Mov(R8, RSP), And512(R8), Mov(R9, RSP), Sub(R9, R8), AddImm(R9, 512), Sub(RSP, R9), FxSave, Push(R9)]

  const RESTORE_MM: Program := [Pop(R10), FxRstor, Add(RSP, R10)]

  function SaveAll(): Program {
    Pushes(SAVE_GPR) + ([Cli] + SAVE_MM)
  }

  function RestoreAll(): Program {
    RESTORE_MM + Pops(RESTORE_GPR)
  }

  /** `arch_hw_activate_task`, up to its `retq` on the new stack. */
  function HwActivate(sym: Symbols): Program {
    [Push(RAX)] + (SaveAll() + Leave(sym))
  }

  function Leave(sym: Symbols): Program {
    [PushImm(sym.returnFromSleep), ReadCr3(RAX), SkipIfEqual(RDI, RAX), Mov(RAX, RDI), LoadCr3(RAX),
     Store(RDX, RSP), Mov(RSP, RSI), Ret]
  }

  /** `__return_from_sleep` */
  function ReturnFromSleep(): Program {
    RestoreAll() + [Pop(RAX), Sti, Ret]
  }

  /** `child_fork_path` */
  function ChildForkPath(): Program {
    RestoreAll() + [IRet]
  }

  // ---------- a saved frame ----------

  /** At p lies what SAVE_ALL leaves below `top`: the size word, the FX image on a 512-byte boundary,
      and the fourteen general registers. */
  ghost predicate Saved(mem: Ram, p: nat, regs: Regs, fx: FxImage, top: nat) {
    var delta := Load(mem, p);
    && p % 8 == 0 && top % 8 == 0 && top < TWO64 - 512
    && delta >= 512 && top == p + 8 + delta + 112 && (p + 8) % 512 == 0
    && LoadImage(mem, p + 8) == fx
    && forall i :: 0 <= i < 14 ==> Load(mem, top - 112 + 8 * i) == regs[RESTORE_GPR[i]]
  }

  /** Two memories agree on an address range. */
  ghost predicate Agree(mem: Ram, mem': Ram, lo: nat, hi: nat) {
    forall x: nat :: lo <= x < hi ==> Load(mem', x) == Load(mem, x)
  }

  lemma SavedAgree(mem: Ram, mem': Ram, p: nat, regs: Regs, fx: FxImage, top: nat)
    requires Saved(mem, p, regs, fx, top) && Agree(mem, mem', p, top)
    ensures Saved(mem', p, regs, fx, top)
  {
    assert LoadImage(mem', p + 8) == LoadImage(mem, p + 8);
  }

  /** The register arithmetic of SAVE_MM, up to the lowered stack pointer. */
  lemma SaveMmRegs(s: Cpu)
    requires s.regs[RSP] >= 1024
    ensures var p := s.regs[RSP];
            var base := AlignDown(p, 512);
            var s2 := Step(Step(s, SAVE_MM[0]), SAVE_MM[1]);
            var s4 := Step(Step(s2, SAVE_MM[2]), SAVE_MM[3]);
            base >= 512 &&
            Step(Step(s4, SAVE_MM[4]), SAVE_MM[5])
              == s.(regs := s.regs[R8 := base][R9 := p - base + 512][RSP := base - 512])
  {
    hide Step, AlignDown, Sub64, Add64;
    var p := s.regs[RSP];
    var base := AlignDown(p, 512);
    BelowBase(p);
    BaseNoWrap(p);
    StepMoves(s, R8, RSP, 0);
    var s1 := s.(regs := s.regs[R8 := p]);
    StepMoves(s1, R8, RSP, 0);
    var s2 := s.(regs := s.regs[R8 := base]);
    assert s1.(regs := s1.regs[R8 := base]) == s2;
    StepMoves(s2, R9, RSP, 0);
    var s3 := s2.(regs := s2.regs[R9 := p]);
    StepMoves(s3, R9, R8, 0);
    var s4 := s2.(regs := s2.regs[R9 := p - base]);
    assert s3.(regs := s3.regs[R9 := p - base]) == s4;
    StepMoves(s4, R9, R9, 512);
    var s5 := s2.(regs := s2.regs[R9 := p - base + 512]);
    assert s4.(regs := s4.regs[R9 := p - base + 512]) == s5;
    StepMoves(s5, RSP, R9, 0);
  }

  /** SAVE_MM: the FX image goes below the 512-byte boundary under the stack pointer, and the distance
      that the stack pointer moved goes below the image. */
  lemma SaveMmEffect(s: Cpu, p: nat, base: nat)
    requires p == s.regs[RSP] && p % 8 == 0 && p >= 1024 && base == AlignDown(p, 512)
    ensures base >= 512 && p - base + 512 < TWO64
    ensures Run(s, SAVE_MM) == s.(regs := s.regs[R8 := base][R9 := p - base + 512][RSP := base - 520],
                                  mem := StoreImage(s.mem, base - 512, s.fx)[base - 520 := p - base + 512])
  {
    hide Step, Run, StoreImage, LoadImage, AlignDown, Sub64, Add64;
    BelowBase(p);
    BaseNoWrap(p);
    SaveMmRegs(s);
    var s6 := s.(regs := s.regs[R8 := base][R9 := p - base + 512][RSP := base - 512]);
    StepFx(s6);
    var s7 := s6.(mem := StoreImage(s.mem, base - 512, s.fx));
    StepPush(s7, R9);
    SaveMmSteps(s);
    assert s7.regs[RSP := base - 520] == s.regs[R8 := base][R9 := p - base + 512][RSP := base - 520];
  }

  lemma SaveMmMem(mem: Ram, fx: FxImage, a: nat, delta: Word)
    requires a % 8 == 0 && a >= 8
    ensures var mem' := StoreImage(mem, a, fx)[a - 8 := delta];
            && Load(mem', a - 8) == delta && LoadImage(mem', a) == fx
            && (forall x: nat :: !(a - 8 <= x < a + 512) ==> Load(mem', x) == Load(mem, x))
  {
    hide StoreImage, LoadImage;
    ImageRoundTrip(mem, a, fx);
    ImageUntouched(StoreImage(mem, a, fx), a - 8, delta, a);
  }

  /** The 512-aligned address at or below p, and those of the FX area and the word under it. */
  lemma BelowBase(p: nat)
    requires p >= 1024
    ensures var base := AlignDown(p, 512);
            && 1024 <= base <= p < base + 512 && base % 512 == 0 && base % 8 == 0
            && (base - 512) % 512 == 0 && (base - 512) % 16 == 0 && (base - 512) % 8 == 0 && (base - 520) % 8 == 0
  {
    var q := p / 512;
    assert AlignDown(p, 512) == 512 * q;
    Remainder(q, 0, 512);
    Remainder(q - 1, 0, 512);
    Remainder(64 * q, 0, 8);
    Remainder(32 * (q - 1), 0, 16);
    Remainder(64 * (q - 1), 0, 8);
    Remainder(64 * (q - 1) - 1, 0, 8);
  }

  /** The subtractions of SAVE_MM do not wrap around. */
  lemma BaseNoWrap(p: Word)
    requires p >= 1024
    ensures var base := AlignDown(p, 512);
            Sub64(p, base) == p - base && Add64(p - base, 512) == p - base + 512
              && Sub64(p, p - base + 512) == base - 512
  {
    hide AlignDown;
    BelowBase(p);
  }

  lemma ImageUntouched(mem: Ram, x: nat, v: Word, a: nat)
    requires x < a
    ensures LoadImage(mem[x := v], a) == LoadImage(mem, a)
  {
  }

  lemma SaveMmSteps(s: Cpu)
    ensures Run(s, SAVE_MM) ==
            Step(Step(Step(Step(Step(Step(Step(Step(s, SAVE_MM[0]), SAVE_MM[1]), SAVE_MM[2]), SAVE_MM[3]),
                                SAVE_MM[4]), SAVE_MM[5]), SAVE_MM[6]), SAVE_MM[7])
  {
    hide Step;
    Run2(s, SAVE_MM);
    var s2 := Step(Step(s, SAVE_MM[0]), SAVE_MM[1]);
    Run2(s2, SAVE_MM[2..]);
    var s4 := Step(Step(s2, SAVE_MM[2]), SAVE_MM[3]);
    assert SAVE_MM[2..][2..] == SAVE_MM[4..];
    Run2(s4, SAVE_MM[4..]);
    var s6 := Step(Step(s4, SAVE_MM[4]), SAVE_MM[5]);
    assert SAVE_MM[4..][2..] == SAVE_MM[6..];
    Run2(s6, SAVE_MM[6..]);
    assert SAVE_MM[6..][2..] == [];
  }

  lemma Run2(s: Cpu, prog: Program)
    requires |prog| >= 2 && !prog[0].SkipIfEqual? && !prog[1].SkipIfEqual?
    ensures Run(s, prog) == Run(Step(Step(s, prog[0]), prog[1]), prog[2..])
  {
    hide Step;
    assert prog[1..][1..] == prog[2..];
  }

  /** SAVE_ALL, from an 8-aligned stack pointer `top`, leaves a saved frame of at most 1136 bytes below
      it and changes nothing else in memory. */
  lemma SaveAllEffect(s: Cpu)
    requires s.regs[RSP] % 8 == 0 && 1136 <= s.regs[RSP] < TWO64 - 512
    ensures var t := Run(s, SaveAll());
            var top, p := s.regs[RSP], t.regs[RSP];
            && t == s.(regs := t.regs, mem := t.mem, intEnabled := false)
            && top - 1136 <= p < top && Saved(t.mem, p, s.regs, s.fx, top)
            && (forall i :: 0 <= i < 16 && i != RSP && i != R8 && i != R9 ==> t.regs[i] == s.regs[i])
            && (forall x: nat :: !(p <= x < top) ==> Load(t.mem, x) == Load(s.mem, x))
  {
    hide Step, Run, LoadImage, StoreImage, SaveAll, SAVE_MM, SAVE_GPR, RESTORE_GPR, AlignDown, Saved;
    var s2 := PushAll(s);
    var top, p := s.regs[RSP], s2.regs[RSP];
    var base := AlignDown(p, 512);
    BelowBase(p);
    SaveMmEffect(s2, p, base);
    SaveAllMem(s.mem, s2.mem, s.regs, s.fx, top, base);
  }

  /** The first half: the registers are pushed and interrupts disabled. */
  lemma PushAll(s: Cpu) returns (t: Cpu)
    requires s.regs[RSP] % 8 == 0 && 1136 <= s.regs[RSP]
    ensures Run(s, SaveAll()) == Run(t, SAVE_MM)
    ensures var top := s.regs[RSP];
            && t == s.(regs := s.regs[RSP := top - 112], mem := t.mem, intEnabled := false)
            && |SAVE_GPR| == 14 && (forall k :: 0 <= k < 14 ==> Load(t.mem, top - 8 * (k + 1)) == s.regs[SAVE_GPR[k]])
            && (forall x: nat :: !(top - 112 <= x < top) ==> Load(t.mem, x) == Load(s.mem, x))
  {
    hide Step, Run, Load, SAVE_MM, SAVE_GPR, RESTORE_GPR;
    SaveGprFacts();
    RunAppend(s, Pushes(SAVE_GPR), [Cli] + SAVE_MM);
    PushesEffect(s, SAVE_GPR);
    var s1 := Run(s, Pushes(SAVE_GPR));
    RunCons(s1, Cli, SAVE_MM);
    StepCli(s1);
    t := s1.(intEnabled := false);
  }

  lemma SaveGprFacts()
    ensures |SAVE_GPR| == 14 && |RESTORE_GPR| == 14 && forall k :: 0 <= k < |Pushes(SAVE_GPR)| ==>
            !Pushes(SAVE_GPR)[k].SkipIfEqual?
    ensures forall i :: 0 <= i < 14 ==> RESTORE_GPR[i] == SAVE_GPR[13 - i]
  {
  }

  /** The memory that SAVE_ALL leaves: mem1 is the one after the pushes. */
  lemma SaveAllMem(mem: Ram, mem1: Ram, regs: Regs, fx: FxImage, top: nat, base: nat)
    requires top % 8 == 0 && 1136 <= top < TWO64 - 512 && base >= 520 && base <= top - 112 < base + 512
    requires (base - 512) % 512 == 0 && (base - 520) % 8 == 0 && (base - 512) % 8 == 0
    requires forall k :: 0 <= k < 14 ==> Load(mem1, top - 8 * (k + 1)) == regs[SAVE_GPR[k]]
    requires forall x: nat :: !(top - 112 <= x < top) ==> Load(mem1, x) == Load(mem, x)
    ensures var mem' := StoreImage(mem1, base - 512, fx)[base - 520 := top - 112 - base + 512];
            && Saved(mem', base - 520, regs, fx, top)
            && (forall x: nat :: !(base - 520 <= x < top) ==> Load(mem', x) == Load(mem, x))
  {
    hide StoreImage, LoadImage, SAVE_GPR, RESTORE_GPR;
    SaveGprFacts();
    SaveMmMem(mem1, fx, base - 512, top - 112 - base + 512);
    var mem' := StoreImage(mem1, base - 512, fx)[base - 520 := top - 112 - base + 512];
    forall i | 0 <= i < 14 ensures Load(mem', top - 112 + 8 * i) == regs[RESTORE_GPR[i]] {
      assert Load(mem1, top - 8 * (13 - i + 1)) == regs[SAVE_GPR[13 - i]];
    }
  }

  lemma StepCli(s: Cpu)
    ensures Step(s, Cli) == s.(intEnabled := false) && Step(s, Sti) == s.(intEnabled := true)
  {
  }

  /** RESTORE_MM: the stack pointer ends up at the saved general registers. */
  lemma RestoreMmEffect(s: Cpu, p: nat, delta: nat)
    requires p == s.regs[RSP] && delta == Load(s.mem, p)
    requires p % 8 == 0 && (p + 8) % 512 == 0 && p + 8 + delta + 512 < TWO64
    ensures var t := Run(s, RESTORE_MM);
            && t == s.(regs := t.regs, fx := LoadImage(s.mem, p + 8))
            && t.regs[RSP] == p + 8 + delta && t.regs[RAX] == s.regs[RAX]
  {
    hide Step, Run, LoadImage, Add64;
    AddExact(p + 8, delta);
    StepPop(s, R10);
    var s1 := s.(regs := s.regs[RSP := p + 8][R10 := delta]);
    StepFx(s1);
    var s2 := s1.(fx := LoadImage(s.mem, p + 8));
    StepMoves(s2, RSP, R10, 0);
    RestoreMmSteps(s);
  }

  lemma AddExact(a: nat, b: nat)
    requires a + b < TWO64
    ensures Add64(a, b) == a + b
  {
  }

  lemma NoSkips()
    ensures forall k :: 0 <= k < |RESTORE_MM| ==> !RESTORE_MM[k].SkipIfEqual?
  {
  }

  lemma RestoreMmSteps(s: Cpu)
    ensures Run(s, RESTORE_MM) == Step(Step(Step(s, Pop(R10)), FxRstor), Add(RSP, R10))
  {
    hide Step;
    Run2(s, RESTORE_MM);
    var s2 := Step(Step(s, Pop(R10)), FxRstor);
    assert RESTORE_MM[2..] == [Add(RSP, R10)] + [];
    RunCons(s2, Add(RSP, R10), []);
  }

  lemma RestoreGprEffect(s: Cpu, regs: Regs, top: nat)
    requires s.regs[RSP] % 8 == 0 && top == s.regs[RSP] + 112 < TWO64
    requires forall i :: 0 <= i < 14 ==> Load(s.mem, top - 112 + 8 * i) == regs[RESTORE_GPR[i]]
    ensures Run(s, Pops(RESTORE_GPR)) == s.(regs := regs[RAX := s.regs[RAX]][RSP := top])
  {
    hide Step, Run;
    RestoreDistinct();
    PopsEffect(s, RESTORE_GPR);
    var t := Run(s, Pops(RESTORE_GPR));
    forall i | 0 <= i < 14 ensures t.regs[RESTORE_GPR[i]] == regs[RESTORE_GPR[i]] {
      assert t.regs[RESTORE_GPR[i]] == Load(s.mem, s.regs[RSP] + 8 * i);
    }
    RestoredRegs(s, t, regs, top);
  }

  lemma RestoreDistinct()
    ensures forall j, k :: 0 <= j < k < |RESTORE_GPR| ==> RESTORE_GPR[j] != RESTORE_GPR[k]
    ensures RAX !in RESTORE_GPR
  {
  }

  /** RESTORE_ALL, from the bottom of a saved frame, brings back the fourteen registers and the FX
      image and leaves the stack pointer at the frame's top. */
  lemma RestoreAllEffect(s: Cpu, regs: Regs, fx: FxImage, top: nat)
    requires Saved(s.mem, s.regs[RSP], regs, fx, top)
    ensures Run(s, RestoreAll()) == s.(regs := regs[RAX := s.regs[RAX]][RSP := top], fx := fx)
  {
    hide Step, Run, LoadImage, RESTORE_MM, RESTORE_GPR, Saved;
    NoSkips();
    RunAppend(s, RESTORE_MM, Pops(RESTORE_GPR));
    SavedParts(s, regs, fx, top);
    RestoreGprEffect(Run(s, RESTORE_MM), regs, top);
  }

  lemma SavedParts(s: Cpu, regs: Regs, fx: FxImage, top: nat)
    requires Saved(s.mem, s.regs[RSP], regs, fx, top)
    ensures var t := Run(s, RESTORE_MM);
            && t == s.(regs := t.regs, fx := fx) && t.regs[RSP] == top - 112 >= 0 && t.regs[RAX] == s.regs[RAX]
            && top < TWO64 && top % 8 == 0
            && forall i :: 0 <= i < 14 ==> Load(s.mem, top - 112 + 8 * i) == regs[RESTORE_GPR[i]]
  {
    hide Step, Run, LoadImage, RESTORE_MM, RESTORE_GPR;
    RestoreMmEffect(s, s.regs[RSP], Load(s.mem, s.regs[RSP]));
  }

  lemma RestoredRegs(s: Cpu, t: Cpu, regs: Regs, top: nat)
    requires t.regs[RSP] == top < TWO64 && t.regs[RAX] == s.regs[RAX]
    requires forall i :: 0 <= i < 14 ==> t.regs[RESTORE_GPR[i]] == regs[RESTORE_GPR[i]]
    ensures t.regs == regs[RAX := s.regs[RAX]][RSP := top]
  {
    var want := regs[RAX := s.regs[RAX]][RSP := top];
    forall r | 0 <= r < 16 ensures t.regs[r] == want[r] {
      if r != RAX && r != RSP {
        assert RESTORE_GPR[PopIndex(r)] == r;
      }
    }
  }

  /** The position of register r in the saved frame. */
  function PopIndex(r: nat): (i: nat)
    requires r < 16 && r != RAX && r != RSP
    ensures i < 14 && RESTORE_GPR[i] == r
  {
    if r >= R8 then 21 - r else
    if r == RBP then 0 else if r == RSI then 1 else if r == RDI then 2 else
    if r == RDX then 3 else if r == RCX then 4 else 5
  }

  /** SAVE_ALL and RESTORE_ALL undo each other: run one after the other they change no register, no FX
      state, and memory only below the stack pointer; interrupts end up disabled. */
  lemma SaveThenRestore(s: Cpu)
    requires s.regs[RSP] % 8 == 0 && 1136 <= s.regs[RSP] < TWO64 - 512
    ensures var t := Run(Run(s, SaveAll()), RestoreAll());
            && t == s.(mem := t.mem, intEnabled := false)
            && (forall x: nat :: x >= s.regs[RSP] || x < s.regs[RSP] - 1136 ==> Load(t.mem, x) == Load(s.mem, x))
  {
    hide Step, Run, Saved, SaveAll, RestoreAll;
    SaveAllEffect(s);
    RestoreAllEffect(Run(s, SaveAll()), s.regs, s.fx, s.regs[RSP]);
  }

  // ---------- suspended tasks ----------

  function NoFx(): FxImage {
    seq(64, _ => 0)
  }

  /** What a suspended task will get back. `Slept`: the registers and FX state at its call of
      `arch_hw_activate_task`, and the return address of that call. `Forked`: what the fabricated frame
      of a new task holds, with the words that `iretq` pops from `top` on. */
  datatype Snap =
    | Slept(regs: Regs, fx: FxImage, ret: Word)
    | Forked(regs: Regs, top: nat, rip: Word, cs: Word, flags: Word, rsp: Word, ss: Word)

  function SnapTop(snap: Snap): nat {
    match snap
    case Slept(regs, _, _) => regs[RSP] + 8
    case Forked(_, top, _, _, _, _, _) => top + 40
  }

  /** At the stored stack pointer sp lies a frame from which the task can be resumed. */
  ghost predicate Suspended(sym: Symbols, mem: Ram, sp: nat, snap: Snap) {
    sp % 8 == 0 && SnapTop(snap) < TWO64 - 512 &&
    match snap
    case Slept(regs, fx, ret) =>
      && Load(mem, sp) == sym.returnFromSleep && regs[RSP] >= 8
      && Saved(mem, sp + 8, regs, fx, regs[RSP] - 8)
      && Load(mem, regs[RSP] - 8) == regs[RAX] && Load(mem, regs[RSP]) == ret
    case Forked(regs, top, rip, cs, flags, rsp, ss) =>
      && Load(mem, sp) == sym.childForkPath
      && Saved(mem, sp + 8, regs, NoFx(), top)
      && Load(mem, top) == rip && Load(mem, top + 8) == cs && Load(mem, top + 16) == flags
      && Load(mem, top + 24) == rsp && Load(mem, top + 32) == ss
  }

  lemma SuspendedAgree(sym: Symbols, mem: Ram, mem': Ram, sp: nat, snap: Snap)
    requires Suspended(sym, mem, sp, snap) && Agree(mem, mem', sp, SnapTop(snap))
    ensures Suspended(sym, mem', sp, snap)
  {
    hide LoadImage;
    match snap
    case Slept(regs, fx, ret) =>
      SavedBelow(mem, sp + 8, regs, fx, regs[RSP] - 8);
      SavedAgree(mem, mem', sp + 8, regs, fx, regs[RSP] - 8);
    case Forked(regs, top, _, _, _, _, _) =>
      SavedBelow(mem, sp + 8, regs, NoFx(), top);
      SavedAgree(mem, mem', sp + 8, regs, NoFx(), top);
  }

  lemma SavedBelow(mem: Ram, p: nat, regs: Regs, fx: FxImage, top: nat)
    requires Saved(mem, p, regs, fx, top)
    ensures p < top && p % 8 == 0 && (p >= 8 ==> (p - 8) % 8 == 0)
  {
    hide LoadImage, Load;
  }

  /** Only the fourteen general registers matter to a saved frame. */
  lemma SavedRegs(mem: Ram, p: nat, regs: Regs, fx: FxImage, top: nat, rsp: Word)
    requires Saved(mem, p, regs[RSP := rsp], fx, top)
    ensures Saved(mem, p, regs, fx, top)
  {
    hide LoadImage;
  }

  /** What the registers and control state are when the task runs again. */
  function Woken(s: Cpu, snap: Snap): Cpu {
    match snap
    case Slept(regs, fx, ret) =>
      s.(regs := regs[RSP := Add64(regs[RSP], 8)], fx := fx, rip := ret, intEnabled := true)
    case Forked(regs, top, rip, cs, flags, rsp, ss) =>
      s.(regs := regs[RAX := s.regs[RAX]][RSP := rsp], fx := NoFx(), rip := rip, cs := cs, ss := ss,
         intEnabled := flags / 512 % 2 == 1)
  }

  /** The code that `retq` on the new stack jumps to. */
  function Resume(sym: Symbols, s: Cpu): Cpu {
    if s.rip == sym.returnFromSleep then Run(s, ReturnFromSleep())
    else if s.rip == sym.childForkPath then Run(s, ChildForkPath())
    else s
  }

  /** `retq` from a stored stack pointer resumes the task it belongs to. */
  lemma ResumeEffect(sym: Symbols, s: Cpu, sp: nat, snap: Snap)
    requires sym.returnFromSleep != sym.childForkPath
    requires Suspended(sym, s.mem, sp, snap) && s.regs[RSP] == sp + 8 && s.rip == Load(s.mem, sp)
    ensures Resume(sym, s) == Woken(s, snap)
  {
    hide Step, Run, LoadImage, Saved, RestoreAll;
    match snap
    case Slept(regs, fx, ret) =>
      WakeEffect(s, regs, fx, ret);
    case Forked(regs, top, rip, cs, flags, rsp, ss) =>
      ForkEffect(s, snap);
  }

  lemma PlainRestore()
    ensures forall k :: 0 <= k < |RestoreAll()| ==> !RestoreAll()[k].SkipIfEqual?
  {
  }

  lemma WakeEffect(s: Cpu, regs: Regs, fx: FxImage, ret: Word)
    requires 8 <= regs[RSP] < TWO64 - 520 && Saved(s.mem, s.regs[RSP], regs, fx, regs[RSP] - 8)
    requires Load(s.mem, regs[RSP] - 8) == regs[RAX] && Load(s.mem, regs[RSP]) == ret
    ensures Run(s, ReturnFromSleep()) == Woken(s, Slept(regs, fx, ret))
  {
    hide Step, Run, LoadImage, RestoreAll, Add64, Woken, Load;
    PlainRestore();
    RunAppend(s, RestoreAll(), [Pop(RAX), Sti, Ret]);
    RestoreAllEffect(s, regs, fx, regs[RSP] - 8);
    WakeTail(s, regs, fx, ret);
  }

  /** The last three instructions. */
  lemma WakeTail(s: Cpu, regs: Regs, fx: FxImage, ret: Word)
    requires 8 <= regs[RSP] < TWO64 - 520 && (regs[RSP] - 8) % 8 == 0
    requires Load(s.mem, regs[RSP] - 8) == regs[RAX] && Load(s.mem, regs[RSP]) == ret
    ensures Run(s.(regs := regs[RAX := s.regs[RAX]][RSP := regs[RSP] - 8], fx := fx), [Pop(RAX), Sti, Ret])
         == Woken(s, Slept(regs, fx, ret))
  {
    hide Step, Run, Add64, Load;
    var s1 := s.(regs := regs[RAX := s.regs[RAX]][RSP := regs[RSP] - 8], fx := fx);
    StepPop(s1, RAX);
    var s2 := s.(regs := regs, fx := fx);
    assert s1.regs[RSP := s1.regs[RSP] + 8][RAX := regs[RAX]] == regs;
    StepCli(s2);
    StepRet(s2.(intEnabled := true));
    AddExact(regs[RSP], 8);
    RunThree(s1, Pop(RAX), Sti, Ret);
  }

  lemma ForkEffect(s: Cpu, snap: Snap)
    requires snap.Forked? && snap.top < TWO64 - 552 && Saved(s.mem, s.regs[RSP], snap.regs, NoFx(), snap.top)
    requires Load(s.mem, snap.top) == snap.rip && Load(s.mem, snap.top + 8) == snap.cs
             && Load(s.mem, snap.top + 16) == snap.flags
    requires Load(s.mem, snap.top + 24) == snap.rsp && Load(s.mem, snap.top + 32) == snap.ss
    ensures Run(s, ChildForkPath()) == Woken(s, snap)
  {
    hide Step, Run, LoadImage, RestoreAll;
    PlainRestore();
    RunAppend(s, RestoreAll(), [IRet]);
    RestoreAllEffect(s, snap.regs, NoFx(), snap.top);
    var s1 := s.(regs := snap.regs[RAX := s.regs[RAX]][RSP := snap.top], fx := NoFx());
    StepIRet(s1);
    assert [IRet] == [IRet] + [];
    RunCons(s1, IRet, []);
    RunNothing(Step(s1, IRet));
  }

  lemma StepIRet(s: Cpu)
    requires CanPop(s, 5)
    ensures var p := s.regs[RSP];
            Step(s, IRet) ==
              s.(regs := s.regs[RSP := Load(s.mem, p + 24)], rip := Load(s.mem, p), cs := Load(s.mem, p + 8),
                 intEnabled := Load(s.mem, p + 16) / 512 % 2 == 1, ss := Load(s.mem, p + 32))
  {
  }

  // ---------- the switch ----------

  /** Entering `arch_hw_activate_task` with rdi = cr3, rsi = the new task's stack pointer and rdx = where
      to put the old one: at most 1152 bytes below the return address become a frame from which the
      old task can be resumed, and the new stack's top word is popped into rip. */
  lemma HwActivateEffect(sym: Symbols, s: Cpu)
    requires s.regs[RSP] % 8 == 0 && 1152 <= s.regs[RSP] < TWO64 - 520
    requires s.regs[RDX] % 8 == 0 && !(s.regs[RSP] - 1152 <= s.regs[RDX] <= s.regs[RSP])
    requires s.regs[RSI] % 8 == 0 && s.regs[RSI] < TWO64 - 8
    ensures var t := Run(s, HwActivate(sym));
            var e, sp := s.regs[RSP], Load(t.mem, s.regs[RDX]);
            && e - 1152 <= sp < e && Suspended(sym, t.mem, sp, Slept(s.regs, s.fx, Load(s.mem, e)))
            && (forall x: nat :: !(sp <= x < e) && x != s.regs[RDX] ==> Load(t.mem, x) == Load(s.mem, x))
            && t == s.(regs := t.regs, mem := t.mem, cr3 := s.regs[RDI], rip := Load(t.mem, s.regs[RSI]),
                       intEnabled := false)
            && t.regs[RSP] == s.regs[RSI] + 8
  {
    hide Step, Run, LoadImage, Saved, Suspended, HwActivate, SaveAll, Leave;
    var e := s.regs[RSP];
    var s2 := EnterEffect(sym, s);
    SavedBelow(s2.mem, s2.regs[RSP], s.regs, s.fx, e - 8);
    LeaveEffect(sym, s2);
    SleepFrame(sym, s.regs, s.fx, Load(s.mem, e), s2.mem, s2.regs[RSP], s.regs[RDX]);
    TwoStores(s2.mem, s2.regs[RSP] - 8, sym.returnFromSleep, s.regs[RDX], s2.regs[RSP] - 8);
  }

  /** Up to the end of SAVE_ALL. */
  lemma EnterEffect(sym: Symbols, s: Cpu) returns (t: Cpu)
    requires s.regs[RSP] % 8 == 0 && 1152 <= s.regs[RSP] < TWO64 - 520
    ensures Run(s, HwActivate(sym)) == Run(t, Leave(sym))
    ensures t == s.(regs := t.regs, mem := t.mem, intEnabled := false)
    ensures var e, p := s.regs[RSP], t.regs[RSP];
            && e - 1144 <= p < e && Saved(t.mem, p, s.regs, s.fx, e - 8) && Load(t.mem, e - 8) == s.regs[RAX]
            && t.regs[RDX] == s.regs[RDX] && t.regs[RSI] == s.regs[RSI] && t.regs[RDI] == s.regs[RDI]
            && (forall x: nat :: !(p <= x < e) ==> Load(t.mem, x) == Load(s.mem, x))
  {
    hide Step, Run, LoadImage, Saved, SaveAll, Leave;
    StepPush(s, RAX);
    RunCons(s, Push(RAX), SaveAll() + Leave(sym));
    var e := s.regs[RSP];
    var s1 := s.(regs := s.regs[RSP := e - 8], mem := s.mem[e - 8 := s.regs[RAX]]);
    PlainSave();
    RunAppend(s1, SaveAll(), Leave(sym));
    SaveAllEffect(s1);
    t := Run(s1, SaveAll());
    SavedRegs(t.mem, t.regs[RSP], s.regs, s.fx, e - 8, e - 8);
  }

  /** The two stores after SAVE_ALL complete the frame of a sleeping task. */
  lemma SleepFrame(sym: Symbols, regs: Regs, fx: FxImage, ret: Word, mem: Ram, p: nat, rdx: nat)
    requires 1152 <= regs[RSP] < TWO64 - 520 && Saved(mem, p, regs, fx, regs[RSP] - 8) && p >= regs[RSP] - 1144
    requires Load(mem, regs[RSP] - 8) == regs[RAX] && Load(mem, regs[RSP]) == ret
    requires !(regs[RSP] - 1152 <= rdx <= regs[RSP])
    ensures var mem' := mem[p - 8 := sym.returnFromSleep][rdx := p - 8];
            Load(mem', rdx) == p - 8 && Suspended(sym, mem', p - 8, Slept(regs, fx, ret))
  {
    hide Saved, Load, Suspended;
    var mem' := mem[p - 8 := sym.returnFromSleep][rdx := p - 8];
    SavedBelow(mem, p, regs, fx, regs[RSP] - 8);
    TwoStores(mem, p - 8, sym.returnFromSleep, rdx, p - 8);
    assert Agree(mem, mem', p, regs[RSP] - 8);
    SavedAgree(mem, mem', p, regs, fx, regs[RSP] - 8);
    SleptIsSuspended(sym, mem', p - 8, regs, fx, ret);
  }

  lemma SleptIsSuspended(sym: Symbols, mem: Ram, sp: nat, regs: Regs, fx: FxImage, ret: Word)
    requires sp % 8 == 0 && 8 <= regs[RSP] < TWO64 - 520 && Load(mem, sp) == sym.returnFromSleep
    requires Saved(mem, sp + 8, regs, fx, regs[RSP] - 8) && Load(mem, regs[RSP] - 8) == regs[RAX]
             && Load(mem, regs[RSP]) == ret
    ensures Suspended(sym, mem, sp, Slept(regs, fx, ret))
  {
    hide Saved, Load;
  }

  lemma TwoStores(mem: Ram, a: nat, v: Word, b: nat, w: Word)
    requires a != b
    ensures var mem' := mem[a := v][b := w];
            Load(mem', a) == v && Load(mem', b) == w && forall x: nat :: x != a && x != b ==>
              Load(mem', x) == Load(mem, x)
  {
  }

  lemma PlainSave()
    ensures forall k :: 0 <= k < |SaveAll()| ==> !SaveAll()[k].SkipIfEqual?
  {
  }

  lemma LeaveEffect(sym: Symbols, s: Cpu)
    requires s.regs[RSP] % 8 == 0 && s.regs[RSP] >= 8 && s.regs[RDX] % 8 == 0
    requires s.regs[RSI] % 8 == 0 && s.regs[RSI] < TWO64 - 8
    ensures var t := Run(s, Leave(sym));
            var sp := s.regs[RSP] - 8;
            && t.mem == s.mem[sp := sym.returnFromSleep][s.regs[RDX] := sp]
            && t == s.(regs := t.regs, mem := t.mem, cr3 := s.regs[RDI], rip := Load(t.mem, s.regs[RSI]))
            && t.regs[RSP] == s.regs[RSI] + 8
  {
    hide Run, Step, Load, Leave;
    var s3 := LeaveCr3(sym, s);
    LeaveTail(s3);
  }

  /** The return address is pushed, and cr3 is loaded if it differs. */
  lemma LeaveCr3(sym: Symbols, s: Cpu) returns (t: Cpu)
    requires s.regs[RSP] % 8 == 0 && s.regs[RSP] >= 8
    ensures Run(s, Leave(sym)) == Run(t, [Store(RDX, RSP), Mov(RSP, RSI), Ret])
    ensures var sp := s.regs[RSP] - 8;
            && t == s.(regs := t.regs, mem := s.mem[sp := sym.returnFromSleep], cr3 := s.regs[RDI])
            && t.regs[RSP] == sp && t.regs[RDX] == s.regs[RDX] && t.regs[RSI] == s.regs[RSI]
  {
    hide Run, Step;
    var sp := s.regs[RSP] - 8;
    StepControl(s, RAX, sym.returnFromSleep);
    var tail: Program := [Store(RDX, RSP), Mov(RSP, RSI), Ret];
    var s1 := s.(regs := s.regs[RSP := sp], mem := s.mem[sp := sym.returnFromSleep]);
    var s2 := s1.(regs := s1.regs[RAX := s.cr3]);
    StepCr3(s1);
    StepCr3(s2.(regs := s2.regs[RAX := s2.regs[RDI]]));
    StepMov(s2, RAX, RDI);
    Run2(s, Leave(sym));
    assert Leave(sym)[2..] == [SkipIfEqual(RDI, RAX), Mov(RAX, RDI), LoadCr3(RAX)] + tail;
    RunSkip(s2, RDI, RAX, Mov(RAX, RDI), LoadCr3(RAX), tail);
    t := if s2.regs[RDI] == s2.regs[RAX] then s2 else s2.(regs := s2.regs[RAX := s2.regs[RDI]], cr3 := s2.regs[RDI]);
  }

  lemma StepCr3(s: Cpu)
    ensures Step(s, ReadCr3(RAX)) == s.(regs := s.regs[RAX := s.cr3]) && Step(s, LoadCr3(RAX)) == s.(cr3 := s.regs[RAX])
  {
  }

  /** The last three instructions: store the stack pointer, take the new one, return. */
  function Jump(s: Cpu): Cpu
    requires s.regs[RSI] < TWO64 - 8
  {
    var mem := s.mem[s.regs[RDX] := s.regs[RSP]];
    s.(regs := s.regs[RSP := s.regs[RSI] + 8], mem := mem, rip := Load(mem, s.regs[RSI]))
  }

  lemma LeaveTail(s: Cpu)
    requires s.regs[RDX] % 8 == 0 && s.regs[RSI] % 8 == 0 && s.regs[RSI] < TWO64 - 8
    ensures Run(s, [Store(RDX, RSP), Mov(RSP, RSI), Ret]) == Jump(s)
  {
    hide Run, Step, Load, Jump;
    LeaveSteps(s);
    StepStore(s, RDX, RSP);
    var s1 := s.(mem := s.mem[s.regs[RDX] := s.regs[RSP]]);
    MovThenRet(s1);
    JumpIs(s, s1);
  }

  lemma JumpIs(s: Cpu, s1: Cpu)
    requires s.regs[RSI] < TWO64 - 8 && s1 == s.(mem := s.mem[s.regs[RDX] := s.regs[RSP]])
    ensures Jump(s) == s1.(regs := s1.regs[RSP := s1.regs[RSI] + 8], rip := Load(s1.mem, s1.regs[RSI]))
  {
    hide Load;
  }

  lemma MovThenRet(s: Cpu)
    requires s.regs[RSI] % 8 == 0 && s.regs[RSI] < TWO64 - 8
    ensures Step(Step(s, Mov(RSP, RSI)), Ret)
            == s.(regs := s.regs[RSP := s.regs[RSI] + 8], rip := Load(s.mem, s.regs[RSI]))
  {
    hide Step, Load;
    StepMov(s, RSP, RSI);
    StepRet(Step(s, Mov(RSP, RSI)));
    assert s.regs[RSP := s.regs[RSI]][RSP := s.regs[RSI] + 8] == s.regs[RSP := s.regs[RSI] + 8];
  }

  lemma LeaveSteps(s: Cpu)
    ensures Run(s, [Store(RDX, RSP), Mov(RSP, RSI), Ret]) == Step(Step(Step(s, Store(RDX, RSP)), Mov(RSP, RSI)), Ret)
  {
    hide Step;
    RunThree(s, Store(RDX, RSP), Mov(RSP, RSI), Ret);
  }

  lemma RunThree(s: Cpu, i: Instr, j: Instr, k: Instr)
    requires ValidInstr(i) && ValidInstr(j) && ValidInstr(k) && !i.SkipIfEqual? && !j.SkipIfEqual? && !k.SkipIfEqual?
    ensures Run(s, [i, j, k]) == Step(Step(Step(s, i), j), k)
  {
    hide Step;
    var prog: Program := [i, j, k];
    Run2(s, prog);
    assert prog[2..] == [k] + [];
    RunCons(Step(Step(s, i), j), k, []);
  }

  lemma RunSkip(s: Cpu, a: nat, b: nat, i: Instr, j: Instr, tail: Program)
    requires a < 16 && b < 16 && ValidInstr(i) && ValidInstr(j) && !i.SkipIfEqual? && !j.SkipIfEqual?
    ensures Run(s, [SkipIfEqual(a, b), i, j] + tail) == if s.regs[a] == s.regs[b] then Run(s, tail)
            else Run(Step(Step(s, i), j), tail)
  {
    var prog: Program := [SkipIfEqual(a, b), i, j] + tail;
    assert prog[3..] == tail && prog[1..] == [i, j] + tail && ([i, j] + tail)[2..] == tail;
    Run2(s, [i, j] + tail);
  }
}
