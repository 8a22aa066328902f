/** The formats on which the kernel's printf goes back to a `%` with the directive still open, and then fills the
    rest of its buffer with percent signs: a 0 behind the first digit of a width. */
module Restarts {
  import opened NumberPrinting
  import opened Emission
  import opened Formatter
  import opened Directives

  /** The step that goes back with the directive still open: exactly a 0 behind a digit of the width. */
  lemma RestartStep(a: Attrs, c: char, next: char)
    ensures var r := Interpret(a, c, next);
            r.Rewind? && r.inDirective <==> c == '0' && a.width > 0 && !a.dot && !LMask(a)
  {
    hide Formatter.Length, LMask;
    LengthFacts(a, c, next);
  }

  // ---------- the condition on the characters ----------

  /** A directive with agreeing flags from p + 1 on, digits of a width from f on, and a 0 at w. */
  ghost predicate ZeroAt(fmt: string, p: nat, f: nat, w: nat) {
    p < f < w < |fmt| && fmt[p] == '%' && FlagsAgree(fmt[p + 1..f]) && NonZeroDigits(fmt[f..w]) && fmt[w] == '0'
  }

  ghost predicate ZeroInWidth(fmt: string, p: nat) {
    exists f, w :: ZeroAt(fmt, p, f, w)
  }

  lemma {:induction false} AgainWalks(fmt: string, pos: nat, a: Attrs, end: nat, b: Attrs)
    requires Walks(fmt, pos, a, end, b)
    ensures Again(fmt, pos, a) == Again(fmt, end, b)
    decreases |fmt| - pos
  {
    hide Step;
    if pos != end {
      AgainWalks(fmt, pos + Step(fmt, pos, a).skip, Step(fmt, pos, a).attrs, end, b);
    }
  }

  lemma AgainAtZero(fmt: string, w: nat, a: Attrs)
    requires w < |fmt| && fmt[w] == '0' && a.width > 0 && !a.dot && !LMask(a)
    ensures Again(fmt, w, a)
  {
    hide Interpret, LMask;
    MaskOf(a, a.cinf + 1);
    RestartStep(a.(cinf := a.cinf + 1), '0', NextChar(fmt, w));
  }

  lemma PositiveWidth(s: string)
    requires s != "" && NonZeroDigits(s)
    ensures Value(s, Dec) > 0
  {
    assert '1' <= s[|s| - 1] <= '9';
  }

  lemma AtSlice(fmt: string, from: nat, end: nat)
    requires from <= end <= |fmt|
    ensures At(fmt, from, fmt[from..end]) && |fmt[from..end]| == end - from
  {
  }

  /** Such a directive is restarted. */
  lemma ZeroRestarts(fmt: string, p: nat, f: nat, w: nat)
    requires ZeroAt(fmt, p, f, w)
    ensures Again(fmt, p + 1, NO_ATTRS)
  {
    hide Again, At, Walks, FlagsAgree, NonZeroDigits, Value, LMask;
    var s, t := fmt[p + 1..f], fmt[f..w];
    AtSlice(fmt, p + 1, f);
    AtSlice(fmt, f, w);
    assert "" + s == s && "" + t == t;
    var a := FlagAttrs(s);
    assert FlagAttrs("") == NO_ATTRS;
    FlagsWalk(fmt, p + 1, "", s);
    FlagCount(s);
    WidthCount(a, "");
    WidthWalk(fmt, f, a, "", t);
    AgainWalks(fmt, p + 1, NO_ATTRS, f, a);
    AgainWalks(fmt, f, a, w, WithWidth(a, t));
    PositiveWidth(t);
    WidthKeeps(a, t);
    AgainAtZero(fmt, w, WithWidth(a, t));
  }

  lemma WidthKeeps(a: Attrs, t: string)
    ensures LMask(WithWidth(a, t)) == LMask(a) && WithWidth(a, t).dot == a.dot && WithWidth(a, t).width == Value(t, Dec)
  {
    hide Value;
  }

  // ---------- no other directive is restarted ----------

  lemma DotKept(a: Attrs, c: char, next: char)
    requires Interpret(a, c, next).Continue? && (a.dot || LMask(a))
    ensures var b := Interpret(a, c, next).attrs; b.dot || LMask(b)
  {
    hide LMask;
    ContinueFacts(a, c, next);
  }

  /** Behind a dot or a length modifier a directive is not restarted. */
  lemma {:induction false} Frozen(fmt: string, pos: nat, a: Attrs)
    requires a.dot || LMask(a)
    ensures !Again(fmt, pos, a)
    decreases |fmt| - pos
  {
    hide Interpret, LMask;
    if pos < |fmt| {
      var b := a.(cinf := a.cinf + 1);
      MaskOf(a, a.cinf + 1);
      RestartStep(b, fmt[pos], NextChar(fmt, pos));
      if Step(fmt, pos, a).Continue? {
        DotKept(b, fmt[pos], NextChar(fmt, pos));
        ContinueFacts(b, fmt[pos], NextChar(fmt, pos));
        Frozen(fmt, pos + Step(fmt, pos, a).skip, Step(fmt, pos, a).attrs);
      }
    }
  }

  lemma OtherStep(a: Attrs, c: char, next: char)
    requires !a.dot && !IsFlag(c) && !('1' <= c <= '9')
    ensures var r := Interpret(a, c, next); r.Continue? ==> r.attrs.dot || LMask(r.attrs)
  {
    hide Formatter.Length, LMask;
    LengthFacts(a, c, next);
  }

  lemma LateFlag(a: Attrs, c: char, next: char)
    requires IsFlag(c) && c != '0' && a.width > 0
    ensures Interpret(a, c, next).Rewind?
  {
  }

  /** Neither a flag nor a digit leads to a restart. */
  lemma OtherEnds(fmt: string, pos: nat, a: Attrs)
    requires pos < |fmt| && !a.dot && !IsFlag(fmt[pos]) && !('1' <= fmt[pos] <= '9')
    ensures !Again(fmt, pos, a)
  {
    hide Interpret, LMask;
    var b := a.(cinf := a.cinf + 1);
    RestartStep(b, fmt[pos], NextChar(fmt, pos));
    OtherStep(b, fmt[pos], NextChar(fmt, pos));
    if Step(fmt, pos, a).Continue? {
      Frozen(fmt, pos + Step(fmt, pos, a).skip, Step(fmt, pos, a).attrs);
    }
  }

  lemma SliceMore(fmt: string, from: nat, end: nat)
    requires from <= end < |fmt|
    ensures fmt[from..end + 1] == fmt[from..end] + [fmt[end]]
  {
  }

  lemma DigitsMore(s: string, c: char)
    requires NonZeroDigits(s) && '1' <= c <= '9'
    ensures NonZeroDigits(s + [c])
  {
  }

  /** A directive that is restarted after some flags. */
  lemma {:induction false} AfterFlags(fmt: string, p: nat, q: nat)
    requires p < q <= |fmt| && fmt[p] == '%' && FlagsAgree(fmt[p + 1..q]) && Again(fmt, q, FlagAttrs(fmt[p + 1..q]))
    ensures ZeroInWidth(fmt, p)
    decreases |fmt| - q
  {
    hide Interpret, FlagAttrs, FlagsAgree, WithWidth, NonZeroDigits, ZeroInWidth;
    var s, a := fmt[p + 1..q], FlagAttrs(fmt[p + 1..q]);
    FlagCount(s);
    if IsFlag(fmt[q]) {
      FlagStep(s, fmt[q], NextChar(fmt, q));
      SliceMore(fmt, p + 1, q);
      FlagsMore(s, fmt[q]);
      AfterFlags(fmt, p, q + 1);
    } else if '1' <= fmt[q] <= '9' {
      WidthCount(a, "");
      assert fmt[q..q] == "";
      NoDigits();
      AfterWidth(fmt, p, q, q);
    } else {
      OtherEnds(fmt, q, a);
    }
  }

  /** A directive that is restarted after some digits of its width. */
  lemma {:induction false} AfterWidth(fmt: string, p: nat, f: nat, q: nat)
    requires p < f <= q <= |fmt| && fmt[p] == '%' && FlagsAgree(fmt[p + 1..f]) && NonZeroDigits(fmt[f..q])
    requires f == q ==> q < |fmt| && '1' <= fmt[q] <= '9'
    requires Again(fmt, q, WithWidth(FlagAttrs(fmt[p + 1..f]), fmt[f..q]))
    ensures ZeroInWidth(fmt, p)
    decreases |fmt| - q
  {
    hide Interpret, FlagAttrs, FlagsAgree, NonZeroDigits, Value, WithWidth, LMask;
    var a, t := FlagAttrs(fmt[p + 1..f]), fmt[f..q];
    FlagCount(fmt[p + 1..f]);
    WidthKeeps(a, t);
    WidthCount(a, t);
    if '1' <= fmt[q] <= '9' {
      WidthStep(a, t, fmt[q], NextChar(fmt, q));
      SliceMore(fmt, f, q);
      DigitsMore(t, fmt[q]);
      AfterWidth(fmt, p, f, q + 1);
    } else if fmt[q] == '0' {
      assert ZeroAt(fmt, p, f, q);
    } else if IsFlag(fmt[q]) {
      PositiveWidth(t);
      LateFlag(WithWidth(a, t).(cinf := WithWidth(a, t).cinf + 1), fmt[q], NextChar(fmt, q));
      RestartStep(WithWidth(a, t).(cinf := WithWidth(a, t).cinf + 1), fmt[q], NextChar(fmt, q));
    } else {
      OtherEnds(fmt, q, WithWidth(a, t));
    }
  }

  /** Exactly the directives with a 0 behind the first digit of their width are restarted. */
  lemma AgainExactly(fmt: string, p: nat)
    requires p < |fmt| && fmt[p] == '%'
    ensures Again(fmt, p + 1, NO_ATTRS) <==> ZeroInWidth(fmt, p)
  {
    hide Again, FlagsAgree, ZeroAt;
    if Again(fmt, p + 1, NO_ATTRS) {
      assert fmt[p + 1..p + 1] == "" && FlagAttrs("") == NO_ATTRS;
      NoFlags();
      AfterFlags(fmt, p, p + 1);
    }
    if ZeroInWidth(fmt, p) {
      var f, w :| ZeroAt(fmt, p, f, w);
      ZeroRestarts(fmt, p, f, w);
    }
  }

  lemma NoDigits()
    ensures NonZeroDigits("")
  {
  }

  lemma NoFlags()
    ensures FlagsAgree("")
  {
  }

  // ---------- what the restart does to the output ----------

  /** From pos on, the cursor comes to p outside a directive. */
  predicate Reaches(fmt: string, pos: nat, inDirective: bool, a: Attrs, p: nat)
    decreases |fmt| - pos
  {
    if pos == p && !inDirective then true
    else if pos >= |fmt| then false
    else if !inDirective then Reaches(fmt, pos + 1, fmt[pos] == '%', NO_ATTRS, p)
    else
      match Step(fmt, pos, a)
      case Continue(b, skip) => Reaches(fmt, pos + skip, true, b, p)
      case Rewind(_, again) => !again && Reaches(fmt, pos + 1, false, NO_ATTRS, p)
      case Stop => false
      case Astray => false
      case _ => Reaches(fmt, pos + 1, false, NO_ATTRS, p)
  }

  /** The cursor comes to a directive with a 0 behind the first digit of its width. */
  ghost predicate JamsAt(fmt: string, p: nat) {
    p < |fmt| && fmt[p] == '%' && Reaches(fmt, 0, false, NO_ATTRS, p) && ZeroInWidth(fmt, p)
  }

  lemma {:induction false} ReachesAhead(fmt: string, pos: nat, inDirective: bool, a: Attrs, p: nat)
    requires Reaches(fmt, pos, inDirective, a, p)
    ensures pos <= p && (inDirective ==> pos < p && pos < |fmt|)
    decreases |fmt| - pos
  {
    hide Step;
    if pos == p && !inDirective {
    } else if !inDirective {
      ReachesAhead(fmt, pos + 1, fmt[pos] == '%', NO_ATTRS, p);
    } else if Step(fmt, pos, a).Continue? {
      ReachesAhead(fmt, pos + Step(fmt, pos, a).skip, true, Step(fmt, pos, a).attrs, p);
    } else {
      ReachesAhead(fmt, pos + 1, false, NO_ATTRS, p);
    }
  }

  /** No more is written than there is room. */
  lemma {:induction false} RenderBounds(fmt: string, pos: nat, inDirective: bool, a: Attrs, args: seq<Arg>, room: nat)
    ensures var r := Render(fmt, pos, inDirective, a, args, room); r.Rendering? ==> |r.out| <= r.n <= room
    decreases |fmt| - pos
  {
    hide Step, BrokenOff, Output, Full, Pieces, Took;
    if pos >= |fmt| {
    } else if !inDirective {
      if fmt[pos] == '%' {
        RenderBounds(fmt, pos + 1, true, NO_ATTRS, args, room);
      } else if room > 0 {
        RenderBounds(fmt, pos + 1, false, NO_ATTRS, args, room - 1);
      }
    } else {
      var act := Step(fmt, pos, a);
      match act {
        case Continue(b, skip) =>
          RenderBounds(fmt, pos + skip, true, b, args, room);
        case Rewind(b, again) =>
          if |BrokenOff(fmt, pos, b.cinf)| <= room {
            RenderBounds(fmt, pos + 1, false, NO_ATTRS, args, room - |BrokenOff(fmt, pos, b.cinf)|);
          }
        case Stop =>
        case Astray =>
        case _ =>
          var ps := Pieces(act, args);
          if ps.Some? {
            var (out, ok) := Output(ps.value, room);
            TookBounds(out, ok, room);
            ArgsLeft(act, args);
            RenderBounds(fmt, pos + 1, false, NO_ATTRS, args[1..], room - Took(out, ok, room));
          }
      }
    }
  }

  lemma TookBounds(out: string, ok: bool, room: nat)
    requires |out| <= room
    ensures |out| <= Took(out, ok, room) <= room
  {
  }

  lemma ArgsLeft(act: Action, args: seq<Arg>)
    requires IsConversion(act) && Pieces(act, args).Some?
    ensures args != []
  {
  }

  /** A directive that is restarted fills the room. */
  lemma {:induction false} AgainFills(fmt: string, pos: nat, a: Attrs, args: seq<Arg>, room: nat)
    requires Again(fmt, pos, a)
    ensures Render(fmt, pos, true, a, args, room) == Rendering(Repeat('%', room), room, room > 0)
    decreases |fmt| - pos
  {
    hide Step;
    if Step(fmt, pos, a).Continue? {
      AgainFills(fmt, pos + Step(fmt, pos, a).skip, Step(fmt, pos, a).attrs, args, room);
    }
  }

  /** The next character matters only where it is an h or an l. */
  lemma SameAtEnd(a: Attrs, c: char)
    ensures Interpret(a, c, '\0') == Interpret(a, c, '%')
  {
  }

  lemma SameStep(fmt: string, pos: nat, a: Attrs, p: nat)
    requires pos < p < |fmt| && fmt[p] == '%'
    ensures Step(fmt[..p], pos, a) == Step(fmt, pos, a)
  {
    hide Interpret;
    SameAtEnd(a.(cinf := a.cinf + 1), fmt[pos]);
  }

  lemma SameBack(fmt: string, pos: nat, cinf: nat, p: nat)
    requires pos < p < |fmt|
    ensures BrokenOff(fmt[..p], pos, cinf) == BrokenOff(fmt, pos, cinf)
  {
    if cinf <= pos {
      assert fmt[..p][pos - cinf..pos + 1] == fmt[pos - cinf..pos + 1];
    }
  }

  /** The format up to p renders to `cut`, and the whole format to that and percent signs in the room left. */
  ghost predicate Fills(cut: Rendering, whole: Rendering, room: nat) {
    if cut.Stray? then whole.Stray? else
      && |cut.out| <= cut.n <= room && !cut.restarted
      && whole == Rendering(cut.out + Repeat('%', room - cut.n), room, cut.n < room)
  }

  lemma FillsAfter(s: string, n: nat, cut: Rendering, whole: Rendering, room: nat)
    requires |s| <= n <= room && Fills(cut, whole, room - n)
    ensures Fills(After(s, n, cut), After(s, n, whole), room)
  {
    if cut.Rendering? {
      assert s + (cut.out + Repeat('%', room - n - cut.n)) == s + cut.out + Repeat('%', room - n - cut.n);
    }
  }

  lemma FillsCut(out: string, room: nat)
    requires |out| <= room
    ensures Fills(Rendering(out, room, false), Rendering(out, room, false), room)
  {
    assert out + Repeat('%', 0) == out;
  }

  lemma FillsHere(fmt: string, p: nat, args: seq<Arg>, room: nat)
    requires p < |fmt| && fmt[p] == '%' && Again(fmt, p + 1, NO_ATTRS)
    ensures Fills(Render(fmt[..p], p, false, NO_ATTRS, args, room), Render(fmt, p, false, NO_ATTRS, args, room), room)
  {
    hide Step, Again;
    AgainFills(fmt, p + 1, NO_ATTRS, args, room);
    assert "" + Repeat('%', room) == Repeat('%', room);
  }

  /** Up to a directive that is restarted the format is rendered as if it ended there; then come percent
      signs. */
  lemma {:induction false} FillsFrom(fmt: string, pos: nat, inDirective: bool, a: Attrs, p: nat, args: seq<Arg>,
                                     room: nat)
    requires p < |fmt| && fmt[p] == '%' && Reaches(fmt, pos, inDirective, a, p) && Again(fmt, p + 1, NO_ATTRS)
    requires !inDirective ==> a == NO_ATTRS
    ensures Fills(Render(fmt[..p], pos, inDirective, a, args, room), Render(fmt, pos, inDirective, a, args, room), room)
    decreases |fmt| - pos
  {
    hide Step, BrokenOff, Output, Full, Pieces, Took, Fills, Again;
    ReachesAhead(fmt, pos, inDirective, a, p);
    if pos == p {
      FillsHere(fmt, p, args, room);
    } else if !inDirective {
      if fmt[pos] == '%' {
        FillsFrom(fmt, pos + 1, true, NO_ATTRS, p, args, room);
      } else if room == 0 {
        FillsCut("", 0);
      } else {
        FillsFrom(fmt, pos + 1, false, NO_ATTRS, p, args, room - 1);
        FillsAfter([fmt[pos]], 1, Render(fmt[..p], pos + 1, false, NO_ATTRS, args, room - 1),
                   Render(fmt, pos + 1, false, NO_ATTRS, args, room - 1), room);
      }
    } else {
      FillsInside(fmt, pos, a, p, args, room);
    }
  }

  lemma {:induction false} FillsInside(fmt: string, pos: nat, a: Attrs, p: nat, args: seq<Arg>, room: nat)
    requires pos < p < |fmt| && fmt[p] == '%' && Reaches(fmt, pos, true, a, p) && Again(fmt, p + 1, NO_ATTRS)
    ensures Fills(Render(fmt[..p], pos, true, a, args, room), Render(fmt, pos, true, a, args, room), room)
    decreases |fmt| - pos, 1
  {
    hide Step, BrokenOff, Output, Full, Pieces, Took, Fills, Again;
    SameStep(fmt, pos, a, p);
    var act := Step(fmt, pos, a);
    if act.Continue? {
      FillsFrom(fmt, pos + act.skip, true, act.attrs, p, args, room);
    } else if act.Rewind? {
      SameBack(fmt, pos, act.attrs.cinf, p);
      var back := BrokenOff(fmt, pos, act.attrs.cinf);
      if |back| > room {
        FillsCut(back[..room], room);
      } else {
        FillsFrom(fmt, pos + 1, false, NO_ATTRS, p, args, room - |back|);
        FillsAfter(back, |back|, Render(fmt[..p], pos + 1, false, NO_ATTRS, args, room - |back|),
                   Render(fmt, pos + 1, false, NO_ATTRS, args, room - |back|), room);
      }
    } else {
      FillsConversion(fmt, pos, a, p, args, room);
    }
  }

  lemma {:induction false} FillsConversion(fmt: string, pos: nat, a: Attrs, p: nat, args: seq<Arg>, room: nat)
    requires pos < p < |fmt| && fmt[p] == '%' && Reaches(fmt, pos, true, a, p) && Again(fmt, p + 1, NO_ATTRS)
    requires !Step(fmt, pos, a).Continue? && !Step(fmt, pos, a).Rewind?
    ensures Fills(Render(fmt[..p], pos, true, a, args, room), Render(fmt, pos, true, a, args, room), room)
    decreases |fmt| - pos, 0
  {
    hide Step, BrokenOff, Output, Full, Pieces, Took, Fills, Again;
    SameStep(fmt, pos, a, p);
    var act := Step(fmt, pos, a);
    assert IsConversion(act);
    var ps := Pieces(act, args);
    if ps.None? {
      FillsStray(room);
    } else {
      ArgsLeft(act, args);
      var (out, ok) := Output(ps.value, room);
      if Full(act, ok, room) {
        FillsCut(out, room);
      } else {
        TookBounds(out, ok, room);
        var left := room - Took(out, ok, room);
        FillsFrom(fmt, pos + 1, false, NO_ATTRS, p, args[1..], left);
        FillsAfter(out, Took(out, ok, room), Render(fmt[..p], pos + 1, false, NO_ATTRS, args[1..], left),
                   Render(fmt, pos + 1, false, NO_ATTRS, args[1..], left), room);
      }
    }
  }

  lemma FillsStray(room: nat)
    ensures Fills(Stray, Stray, room)
  {
  }

  /** Once the cursor comes to such a directive, what was written before stays, all that is left of the
      buffer becomes percent signs, and the result is the size of the buffer. */
  lemma JamFills(fmt: string, args: seq<Arg>, dsize: nat, p: nat)
    requires JamsAt(fmt, p)
    ensures var cut, whole := Rendered(fmt[..p], args, dsize), Rendered(fmt, args, dsize);
            if cut.Stray? then whole.Stray?
            else cut.n <= dsize && whole == Rendering(cut.out + Repeat('%', dsize - cut.n), dsize, cut.n < dsize)
  {
    hide Render, Again, ZeroInWidth, Reaches;
    AgainExactly(fmt, p);
    FillsFrom(fmt, 0, false, NO_ATTRS, p, args, dsize);
  }

  /** Where the directive opened that is restarted, if it is not the one the cursor is in. */
  lemma {:induction false} RestartOpened(fmt: string, pos: nat, inDirective: bool, a: Attrs, args: seq<Arg>, room: nat)
    returns (p: nat)
    requires Render(fmt, pos, inDirective, a, args, room).Rendering?
             && Render(fmt, pos, inDirective, a, args, room).restarted
    requires !inDirective ==> a == NO_ATTRS
    ensures (inDirective && Again(fmt, pos, a))
         || (p < |fmt| && fmt[p] == '%' && Reaches(fmt, pos, inDirective, a, p) && Again(fmt, p + 1, NO_ATTRS))
    decreases |fmt| - pos, 1
  {
    hide Step, BrokenOff, Output, Full, Pieces, Took;
    if inDirective {
      p := RestartInside(fmt, pos, a, args, room);
    } else if fmt[pos] == '%' {
      p := RestartOpened(fmt, pos + 1, true, NO_ATTRS, args, room);
      if Again(fmt, pos + 1, NO_ATTRS) {
        p := pos;
      }
    } else {
      p := RestartOpened(fmt, pos + 1, false, NO_ATTRS, args, room - 1);
    }
  }

  lemma {:induction false} RestartInside(fmt: string, pos: nat, a: Attrs, args: seq<Arg>, room: nat) returns (p: nat)
    requires Render(fmt, pos, true, a, args, room).Rendering? && Render(fmt, pos, true, a, args, room).restarted
    ensures Again(fmt, pos, a)
         || (p < |fmt| && fmt[p] == '%' && Reaches(fmt, pos, true, a, p) && Again(fmt, p + 1, NO_ATTRS))
    decreases |fmt| - pos, 0
  {
    hide Step, BrokenOff, Output, Full, Pieces, Took;
    var act := Step(fmt, pos, a);
    p := pos;
    if act.Continue? {
      p := RestartOpened(fmt, pos + act.skip, true, act.attrs, args, room);
    } else if act.Rewind? {
      if !act.inDirective {
        p := RestartOpened(fmt, pos + 1, false, NO_ATTRS, args, room - |BrokenOff(fmt, pos, act.attrs.cinf)|);
      }
    } else {
      var ps := Pieces(act, args).value;
      ArgsLeft(act, args);
      var (out, ok) := Output(ps, room);
      TookBounds(out, ok, room);
      p := RestartOpened(fmt, pos + 1, false, NO_ATTRS, args[1..], room - Took(out, ok, room));
    }
  }

  /** The output is filled with percent signs exactly if the cursor comes, with room left, to a directive
      with a 0 behind the first digit of its width: for every format, all arguments and every size. */
  lemma JamExactly(fmt: string, args: seq<Arg>, dsize: nat)
    ensures var r := Rendered(fmt, args, dsize);
            r.Rendering? && r.restarted <==>
            exists p: nat :: JamsAt(fmt, p) &&
              var cut := Rendered(fmt[..p], args, dsize); cut.Rendering? && cut.n < dsize
  {
    hide Render, Again, ZeroInWidth, Reaches;
    var r := Rendered(fmt, args, dsize);
    if r.Rendering? && r.restarted {
      var p := RestartOpened(fmt, 0, false, NO_ATTRS, args, dsize);
      AgainExactly(fmt, p);
      JamFills(fmt, args, dsize, p);
    }
    forall p: nat | JamsAt(fmt, p)
      ensures var cut := Rendered(fmt[..p], args, dsize);
              cut.Rendering? && cut.n < dsize ==> r.Rendering? && r.restarted
    {
      JamFills(fmt, args, dsize, p);
    }
  }
}
