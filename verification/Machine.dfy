/** A small model of the processor, enough to execute the context-switch code of
    eza/amd64/sched/context.S and include/eza/amd64/context.h instruction by instruction. Memory is
    addressed in 8-byte words; the 512-byte FX image is 64 opaque words. */
module Machine {
  import opened Words

  // ---------- state ----------

  type Regs = s: seq<Word> | |s| == 16 witness seq(16, _ => 0)
  type FxImage = s: seq<Word> | |s| == 64 witness seq(64, _ => 0)
  type Ram = map<nat, Word>

  const RAX: nat := 0
  const RBX: nat := 1
  const RCX: nat := 2
  const RDX: nat := 3
  const RSI: nat := 4
  const RDI: nat := 5
  const RBP: nat := 6
  const RSP: nat := 7
  const R8: nat := 8
  const R9: nat := 9
  const R10: nat := 10
  const R11: nat := 11
  const R12: nat := 12
  const R13: nat := 13
  const R14: nat := 14
  const R15: nat := 15

  /** `ok` turns false at a misaligned or wrapping stack access, which the model does not follow. */
  datatype Cpu = Cpu(regs: Regs, mem: Ram, fx: FxImage, cr3: Word, rip: Word, cs: Word, ss: Word, intEnabled: bool,
                     ok: bool)

  function Load(mem: Ram, a: nat): Word {
    if a in mem then mem[a] else 0
  }

  predicate WordOf(a: nat, x: nat)
    requires a <= x
  {
    (x - a) % 8 == 0
  }

  function StoreImage(mem: Ram, a: nat, fx: FxImage): Ram {
    mem + map x: nat | a <= x < a + 512 && WordOf(a, x) :: fx[(x - a) / 8]
  }

  function LoadImage(mem: Ram, a: nat): FxImage {
    seq(64, k requires 0 <= k < 64 => Load(mem, a + 8 * k))
  }

  lemma ImageRoundTrip(mem: Ram, a: nat, fx: FxImage)
    requires a % 8 == 0
    ensures LoadImage(StoreImage(mem, a, fx), a) == fx
    ensures forall x: nat :: !(a <= x < a + 512) ==> Load(StoreImage(mem, a, fx), x) == Load(mem, x)
  {
    forall k | 0 <= k < 64 ensures Load(StoreImage(mem, a, fx), a + 8 * k) == fx[k] {
      assert (a + 8 * k - a) / 8 == k && WordOf(a, a + 8 * k);
    }
  }

  // ---------- instructions ----------

  datatype Instr =
    | Push(r: nat)
    | PushImm(v: Word)
    | Pop(r: nat)
    | Mov(dst: nat, src: nat)
    | And512(dst: nat)              // and $0xfffffffffffffe00, dst
    | Sub(dst: nat, src: nat)
    | Add(dst: nat, src: nat)
    | AddImm(dst: nat, v: Word)
    | FxSave                        // fxsave (%rsp)
    | FxRstor                       // fxrstor (%rsp)
    | Store(base: nat, src: nat)    // mov src, (base)
    | ReadCr3(dst: nat)
    | LoadCr3(src: nat)
    | SkipIfEqual(a: nat, b: nat)   // cmp a, b; je past the next two instructions
    | Cli
    | Sti
    | Ret
    | IRet

  predicate ValidInstr(i: Instr) {
    match i
    case Push(r) => r < 16
    case Pop(r) => r < 16
    case Mov(d, s) => d < 16 && s < 16
    case And512(d) => d < 16
    case Sub(d, s) => d < 16 && s < 16
    case Add(d, s) => d < 16 && s < 16
    case AddImm(d, _) => d < 16
    case Store(b, s) => b < 16 && s < 16
    case ReadCr3(d) => d < 16
    case LoadCr3(s) => s < 16
    case SkipIfEqual(a, b) => a < 16 && b < 16
    case _ => true
  }

  type Program = p: seq<Instr> | forall k :: 0 <= k < |p| ==> ValidInstr(p[k]) witness []

  function Fault(s: Cpu): Cpu {
    s.(ok := false)
  }

  function PushWord(s: Cpu, v: Word): Cpu {
    var p := s.regs[RSP];
    if p % 8 == 0 && p >= 8 then s.(regs := s.regs[RSP := p - 8], mem := s.mem[p - 8 := v]) else Fault(s)
  }

  /** The n words at the stack pointer are accessible. */
  predicate CanPop(s: Cpu, n: nat) {
    s.regs[RSP] % 8 == 0 && s.regs[RSP] + 8 * n < TWO64
  }

  function Step(s: Cpu, i: Instr): Cpu
    requires ValidInstr(i)
  {
    var p := s.regs[RSP];
    match i
    case Push(r) => PushWord(s, s.regs[r])
    case PushImm(v) => PushWord(s, v)
    case Pop(r) => if CanPop(s, 1) then s.(regs := s.regs[RSP := p + 8][r := Load(s.mem, p)]) else Fault(s)
    case Mov(d, src) => s.(regs := s.regs[d := s.regs[src]])
    case And512(d) => s.(regs := s.regs[d := AlignDown(s.regs[d], 512)])
    case Sub(d, src) => s.(regs := s.regs[d := Sub64(s.regs[d], s.regs[src])])
    case Add(d, src) => s.(regs := s.regs[d := Add64(s.regs[d], s.regs[src])])
    case AddImm(d, v) => s.(regs := s.regs[d := Add64(s.regs[d], v)])
    case FxSave => if p % 16 == 0 && p + 512 < TWO64 then s.(mem := StoreImage(s.mem, p, s.fx)) else Fault(s)
    case FxRstor => if p % 16 == 0 && p + 512 < TWO64 then s.(fx := LoadImage(s.mem, p)) else Fault(s)
    case Store(b, src) => if s.regs[b] % 8 == 0 then s.(mem := s.mem[s.regs[b] := s.regs[src]]) else Fault(s)
    case ReadCr3(d) => s.(regs := s.regs[d := s.cr3])
    case LoadCr3(src) => s.(cr3 := s.regs[src])
    case SkipIfEqual(_, _) => s
    case Cli => s.(intEnabled := false)
    case Sti => s.(intEnabled := true)
    case Ret => if CanPop(s, 1) then s.(regs := s.regs[RSP := p + 8], rip := Load(s.mem, p)) else Fault(s)
    case IRet =>
      if CanPop(s, 5) then
        s.(regs := s.regs[RSP := Load(s.mem, p + 24)], rip := Load(s.mem, p), cs := Load(s.mem, p + 8),
           intEnabled := Load(s.mem, p + 16) / 512 % 2 == 1, ss := Load(s.mem, p + 32))
      else Fault(s)
  }

  function Run(s: Cpu, prog: Program): Cpu
    decreases |prog|
  {
    if prog == [] then s else
    var s' := Step(s, prog[0]);
    match prog[0]
    case SkipIfEqual(a, b) => Run(s', if s.regs[a] == s.regs[b] && |prog| >= 3 then prog[3..] else prog[1..])
    case _ => Run(s', prog[1..])
  }

  lemma {:induction false} RunAppend(s: Cpu, a: Program, b: Program)
    requires forall k :: 0 <= k < |a| ==> !a[k].SkipIfEqual?
    ensures Run(s, a + b) == Run(Run(s, a), b)
    decreases |a|
  {
    if a == [] {
      assert a + b == b;
    } else {
      assert (a + b)[1..] == a[1..] + b;
      RunAppend(Step(s, a[0]), a[1..], b);
    }
  }

  // ---------- single steps ----------

  lemma RunCons(s: Cpu, i: Instr, prog: Program)
    requires ValidInstr(i) && !i.SkipIfEqual?
    ensures Run(s, [i] + prog) == Run(Step(s, i), prog)
  {
    hide Step;
    assert ([i] + prog)[1..] == prog;
  }

  lemma StepPush(s: Cpu, r: nat)
    requires r < 16 && s.regs[RSP] % 8 == 0 && s.regs[RSP] >= 8
    ensures Step(s, Push(r)) == s.(regs := s.regs[RSP := s.regs[RSP] - 8], mem := s.mem[s.regs[RSP] - 8 := s.regs[r]])
  {
  }

  lemma StepPop(s: Cpu, r: nat)
    requires r < 16 && CanPop(s, 1)
    ensures Step(s, Pop(r)) == s.(regs := s.regs[RSP := s.regs[RSP] + 8][r := Load(s.mem, s.regs[RSP])])
  {
  }

  lemma StepFx(s: Cpu)
    requires s.regs[RSP] % 16 == 0 && s.regs[RSP] + 512 < TWO64
    ensures Step(s, FxSave) == s.(mem := StoreImage(s.mem, s.regs[RSP], s.fx))
    ensures Step(s, FxRstor) == s.(fx := LoadImage(s.mem, s.regs[RSP]))
  {
  }

  lemma StepRet(s: Cpu)
    requires CanPop(s, 1)
    ensures Step(s, Ret) == s.(regs := s.regs[RSP := s.regs[RSP] + 8], rip := Load(s.mem, s.regs[RSP]))
  {
  }

  lemma StepControl(s: Cpu, r: nat, v: Word)
    requires r < 16 && s.regs[RSP] % 8 == 0 && s.regs[RSP] >= 8
    ensures Step(s, PushImm(v)) == s.(regs := s.regs[RSP := s.regs[RSP] - 8], mem := s.mem[s.regs[RSP] - 8 := v])
    ensures Step(s, ReadCr3(r)) == s.(regs := s.regs[r := s.cr3])
    ensures Step(s, LoadCr3(r)) == s.(cr3 := s.regs[r])
  {
  }

  lemma StepStore(s: Cpu, b: nat, src: nat)
    requires b < 16 && src < 16 && s.regs[b] % 8 == 0
    ensures Step(s, Store(b, src)) == s.(mem := s.mem[s.regs[b] := s.regs[src]])
  {
  }

  lemma StepMov(s: Cpu, d: nat, src: nat)
    requires d < 16 && src < 16
    ensures Step(s, Mov(d, src)) == s.(regs := s.regs[d := s.regs[src]])
  {
  }

  lemma StepMoves(s: Cpu, d: nat, src: nat, v: Word)
    requires d < 16 && src < 16
    ensures Step(s, Mov(d, src)) == s.(regs := s.regs[d := s.regs[src]])
    ensures Step(s, And512(d)) == s.(regs := s.regs[d := AlignDown(s.regs[d], 512)])
    ensures Step(s, Sub(d, src)) == s.(regs := s.regs[d := Sub64(s.regs[d], s.regs[src])])
    ensures Step(s, Add(d, src)) == s.(regs := s.regs[d := Add64(s.regs[d], s.regs[src])])
    ensures Step(s, AddImm(d, v)) == s.(regs := s.regs[d := Add64(s.regs[d], v)])
  {
  }

  // ---------- pushing and popping lists of registers ----------

  type RegList = rs: seq<nat> | forall k :: 0 <= k < |rs| ==> rs[k] < 16 && rs[k] != RSP witness []

  function Pushes(rs: RegList): Program {
    seq(|rs|, k requires 0 <= k < |rs| => Push(rs[k]))
  }

  function Pops(rs: RegList): Program {
    seq(|rs|, k requires 0 <= k < |rs| => Pop(rs[k]))
  }

  lemma {:induction false} PushesEffect(s: Cpu, rs: RegList)
    requires s.regs[RSP] % 8 == 0 && s.regs[RSP] >= 8 * |rs|
    ensures var t := Run(s, Pushes(rs));
            var p := s.regs[RSP];
            && t == s.(regs := s.regs[RSP := p - 8 * |rs|], mem := t.mem)
            && (forall k :: 0 <= k < |rs| ==> Load(t.mem, p - 8 * (k + 1)) == s.regs[rs[k]])
            && (forall x: nat :: !(p - 8 * |rs| <= x < p) ==> Load(t.mem, x) == Load(s.mem, x))
    decreases |rs|
  {
    hide Step, Run;
    if rs == [] {
      RunNothing(s);
    } else {
      StepPush(s, rs[0]);
      var s1 := Step(s, Push(rs[0]));
      assert Pushes(rs) == [Push(rs[0])] + Pushes(rs[1..]);
      RunCons(s, Push(rs[0]), Pushes(rs[1..]));
      PushesEffect(s1, rs[1..]);
      var t := Run(s, Pushes(rs));
      var p := s.regs[RSP];
      forall k | 0 <= k < |rs| ensures Load(t.mem, p - 8 * (k + 1)) == s.regs[rs[k]] {
        if k > 0 {
          assert rs[k] == rs[1..][k - 1];
          assert Load(t.mem, (p - 8) - 8 * (k - 1 + 1)) == s1.regs[rs[1..][k - 1]];
        }
      }
    }
  }

  lemma RunNothing(s: Cpu)
    ensures Run(s, []) == s
  {
  }

  lemma {:induction false} PopsEffect(s: Cpu, rs: RegList)
    requires CanPop(s, |rs|) && forall j, k :: 0 <= j < k < |rs| ==> rs[j] != rs[k]
    ensures var t := Run(s, Pops(rs));
            var p := s.regs[RSP];
            && t == s.(regs := t.regs) && t.regs[RSP] == p + 8 * |rs|
            && (forall k :: 0 <= k < |rs| ==> t.regs[rs[k]] == Load(s.mem, p + 8 * k))
            && (forall r :: 0 <= r < 16 && r != RSP && r !in rs ==> t.regs[r] == s.regs[r])
    decreases |rs|
  {
    hide Step, Run;
    if rs == [] {
      RunNothing(s);
    } else {
      StepPop(s, rs[0]);
      var s1 := Step(s, Pop(rs[0]));
      assert Pops(rs) == [Pop(rs[0])] + Pops(rs[1..]);
      RunCons(s, Pop(rs[0]), Pops(rs[1..]));
      PopsEffect(s1, rs[1..]);
      var t := Run(s, Pops(rs));
      var p := s.regs[RSP];
      assert rs[0] !in rs[1..];
      forall k | 0 <= k < |rs| ensures t.regs[rs[k]] == Load(s.mem, p + 8 * k) {
        if k > 0 {
          assert rs[k] == rs[1..][k - 1];
          assert t.regs[rs[1..][k - 1]] == Load(s1.mem, p + 8 + 8 * (k - 1));
        }
      }
    }
  }
}
