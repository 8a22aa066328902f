/** The kernel's printf (mlibc/kprintf.c): what a format stands for, and `vsnprintf` with its rewinding
    format cursor. */
module Formatter {
  import opened Words
  import opened NumberPrinting
  import opened Emission

  datatype Arg = Number(value: Word) | Text(text: Option<string>)

  /** What a character of a directive leads to. `Rewind` prints the character `cinf` places back, `Stop`
      leaves the loop over the format, `Astray` is a write of 8 bytes into an int. */
  datatype Action =
    | Continue(attrs: Attrs, skip: nat)
    | PrintNumber(attrs: Attrs, base: Base, unsignedInt: bool)
    | PrintChar(attrs: Attrs)
    | PrintString(attrs: Attrs)
    | Rewind(attrs: Attrs, inDirective: bool)
    | Stop
    | Astray

  predicate IsConversion(act: Action) {
    act.PrintNumber? || act.PrintString? || act.PrintChar?
  }

  predicate LMask(a: Attrs) {
    a.mods.hh || a.mods.h || a.mods.l || a.mods.ll || a.mods.z
  }

  predicate FMask(a: Attrs) {
    a.left || a.zero || a.sign || a.space || a.prefix
  }

  function FieldsInc(num: nat, incr: nat): nat {
    num * 10 + incr
  }

  /** The flag characters, after what they exclude was checked. */
  function Flag(a: Attrs, c: char, inDirective: bool): Action {
    if LMask(a) || a.dot || a.width > 0 then Rewind(a, inDirective)
    else if c == '#' then Continue(a.(prefix := true), 1)
    else if c == '+' then Continue(a.(space := false, sign := true), 1)
    else if c == '-' then (if a.space then Rewind(a, inDirective) else Continue(a.(zero := false, left := true), 1))
    else if c == '0' then Continue(if a.left then a else a.(zero := true), 1)
    else if a.left then Rewind(a, inDirective)
    else Continue(if a.sign then a else a.(space := true), 1)
  }

  /** The modifiers with one more, and the characters it takes: `hh` and `ll` skip their second one. */
  function Modify(m: Modifiers, c: char, next: char): (r: (Modifiers, nat))
    ensures r.1 == 1 || (r.1 == 2 && next == c)
  {
    if c == 'h' && next == 'h' then (m.(hh := true), 2)
    else if c == 'h' then (m.(h := true), 1)
    else if c == 'l' && next == 'l' then (m.(ll := true), 2)
    else if c == 'l' then (m.(l := true), 1)
    else (m.(z := true), 1)
  }

  /** The length modifiers. */
  function Length(a: Attrs, c: char, next: char): Action {
    var (mods, skip) := Modify(a.mods, c, next);
    Continue(a.(mods := mods), skip)
  }

  const CONVERSIONS: string := "idcsxXpou"

  /** The conversion characters. */
  function ConversionOf(a: Attrs, c: char): (r: Action)
    ensures IsConversion(r)
  {
    if c == 'c' then PrintChar(a)
    else if c == 's' then PrintString(a)
    else if c == 'x' then PrintNumber(a, Hex, true)
    else if c == 'X' then PrintNumber(a, HexUp, true)
    else if c == 'p' then PrintNumber(a.(prefix := true, mods := a.mods.(l := true)), Hex, true)
    else if c == 'o' then PrintNumber(a, Oct, true)
    else PrintNumber(a, Dec, c == 'u')
  }

  /** One pass of the loop inside a directive: c is the character, next the one after it (0 at the end),
      and `cinf` counts c already. */
  function Interpret(a: Attrs, c: char, next: char): Action {
    if '0' <= c <= '9' && LMask(a) then Stop
    else if '0' <= c <= '9' && a.dot then Continue(a.(precision := FieldsInc(a.precision, (c - '0') as nat)), 1)
    else if '1' <= c <= '9' then Continue(a.(width := FieldsInc(a.width, (c - '0') as nat)), 1)
    else if c == '0' then Flag(a, c, true)
    else if c in "#+- " then Flag(a, c, false)
    else if c in CONVERSIONS then ConversionOf(a, c)
    else if c == '.' then Continue(a.(zero := false, dot := true), 1)
    else if c in "hlz" then Length(a, c, next)
    else if c == '*' then
      (if FMask(a) || LMask(a) || (if a.dot then a.precision > 0 else a.width > 0) then Rewind(a, false) else Astray)
    else if c == '%' then Rewind(a.(cinf := 0), false)
    else Rewind(a, false)
  }

  /** `__ident_num_size`: an argument without a length modifier is an int. */
  function NumberArg(a: Attrs, unsignedInt: bool, v: Word): Word {
    if a.mods.l || a.mods.ll || a.mods.z then v else
      var low := v % TWO32;
      if unsignedInt || low < TWO32 / 2 then low else low + (TWO64 - TWO32)
  }

  // ---------- what a format stands for ----------

  function NextChar(fmt: string, pos: nat): char {
    if pos + 1 < |fmt| then fmt[pos + 1] else '\0'
  }

  /** What the character at pos leads to, inside a directive. */
  function Step(fmt: string, pos: nat, a: Attrs): (r: Action)
    requires pos < |fmt|
    ensures r.Continue? ==> r.skip > 0
  {
    Interpret(a.(cinf := a.cinf + 1), fmt[pos], NextChar(fmt, pos))
  }

  /** What a conversion prints for the next argument; None if that is missing or of the wrong kind, or a
      string shorter than its precision. */
  function Pieces(act: Action, args: seq<Arg>): Option<seq<Piece>>
    requires IsConversion(act)
  {
    if args == [] then None else
      match act
      case PrintNumber(a, base, unsignedInt) =>
        if args[0].Number? then Option.Some(NumberPieces(NumberArg(a, unsignedInt, args[0].value), a, base)) else None
      case PrintString(a) =>
        if args[0].Number? then None else
          var s := if args[0].text.None? then "<NULL>" else args[0].text.value;
          if a.precision > |s| then None else Option.Some(StringPieces(s, a))
      case PrintChar(a) =>
        if args[0].Number? then Option.Some(CharPieces((args[0].value % 256) as char, a)) else None
  }

  /** How formatting ends: `out` was written and `n` is the result. `restarted`: on the way a `%` was
      copied with its directive still open, which fills the buffer. `Stray`: an argument is missing or of the wrong
      kind, a string is shorter than its precision, or a `*` was honoured. */
  datatype Rendering = Rendering(out: string, n: nat, restarted: bool) | Stray

  function After(out: string, n: nat, rest: Rendering): Rendering {
    if rest.Stray? then Stray else Rendering(out + rest.out, n + rest.n, rest.restarted)
  }

  /** How much room a conversion takes: all that is left, if a number ends the output. */
  function Took(out: string, ok: bool, room: nat): nat {
    if ok then |out| else room
  }

  /** No more is written: a number found no room at all, or there was none for a character. */
  predicate Full(act: Action, ok: bool, room: nat) {
    (act.PrintNumber? && room == 0) || (act.PrintChar? && !ok)
  }

  /** The characters that are copied when a directive is broken off at pos. */
  function BrokenOff(fmt: string, pos: nat, cinf: nat): string
    requires pos < |fmt|
  {
    if cinf <= pos then fmt[pos - cinf..pos + 1] else ""
  }

  /** What the format from position pos on writes into the given room. Characters stand for themselves, as
      do directives that are broken off; conversions for their arguments; a directive that is restarted
      fills the room with percent signs. */
  function Render(fmt: string, pos: nat, inDirective: bool, a: Attrs, args: seq<Arg>, room: nat): Rendering
    decreases |fmt| - pos
  {
    if pos >= |fmt| then Rendering("", 0, false)
    else if !inDirective then
      if fmt[pos] == '%' then Render(fmt, pos + 1, true, NO_ATTRS, args, room)
      else if room == 0 then Rendering("", 0, false)
      else After([fmt[pos]], 1, Render(fmt, pos + 1, false, NO_ATTRS, args, room - 1))
    else
      var act := Step(fmt, pos, a);
      match act
      case Continue(a', skip) => Render(fmt, pos + skip, true, a', args, room)
      case Rewind(a', again) =>
        if again then Rendering(Repeat('%', room), room, room > 0) else
          var back := BrokenOff(fmt, pos, a'.cinf);
          if |back| > room then Rendering(back[..room], room, false)
          else After(back, |back|, Render(fmt, pos + 1, false, NO_ATTRS, args, room - |back|))
      case Stop => Rendering("", 0, false)
      case Astray => Stray
      case _ =>
        var ps := Pieces(act, args);
        if ps.None? then Stray else
          var (out, ok) := Output(ps.value, room);
          if Full(act, ok, room) then Rendering(out, room, false)
          else After(out, Took(out, ok, room),
                     Render(fmt, pos + 1, false, NO_ATTRS, args[1..], room - Took(out, ok, room)))
  }

  /** What `vsnprintf` writes into a buffer of the given size. */
  function Rendered(fmt: string, args: seq<Arg>, dsize: nat): Rendering {
    Render(fmt, 0, false, NO_ATTRS, args, dsize)
  }

  /** The three conversions. */
  method Convert(dest: array<char>, cs: nat, room: nat, act: Action, args: seq<Arg>, arg: nat)
    returns (n: nat, full: bool, astray: bool, ghost ok: bool, ghost out: string)
    requires IsConversion(act) && cs + room <= dest.Length && arg <= |args|
    modifies dest
    ensures astray <==> Pieces(act, args[arg..]).None?
    ensures astray ==> dest[..] == old(dest[..])
    ensures !astray ==>
              && Emitted(old(dest[..]), dest[..], cs, room, Pieces(act, args[arg..]).value, ok, out)
              && full == Full(act, ok, room) && (!full ==> n == Took(out, ok, room))
  {
    hide Overlay, NumberPieces, StringPieces, CharPieces, NumberArg, Output, Emitted;
    n, full, astray, ok, out := 0, false, true, true, "";
    if arg >= |args| {
      return;
    }
    match act {
      case PrintNumber(a, base, unsignedInt) =>
        if args[arg].Text? {
          return;
        }
        astray := false;
        n, ok, out := Digit(dest, cs, room, NumberArg(a, unsignedInt, args[arg].value), a, base);
        full := n == 0;
      case PrintString(a) =>
        if args[arg].Number? {
          return;
        }
        var text := if args[arg].text.None? then "<NULL>" else args[arg].text.value;
        if a.precision > 0 && |text| < a.precision {
          return;
        }
        astray := false;
        n, out := EmitString(dest, cs, room, text, a);
      case PrintChar(a) =>
        if args[arg].Text? {
          return;
        }
        astray := false;
        var go;
        go, n, out := EmitChar(dest, cs, room, (args[arg].value % 256) as char, a);
        ok, full := go, !go;
    }
  }

  // ---------- the loop ----------

  /** From pos on, inside a directive, the directive is restarted. */
  predicate Again(fmt: string, pos: nat, a: Attrs)
    decreases |fmt| - pos
  {
    pos < |fmt| &&
    match Step(fmt, pos, a)
    case Continue(b, skip) => Again(fmt, pos + skip, b)
    case Rewind(_, inDirective) => inDirective
    case _ => false
  }

  /** The cursor stands at pos, inside the directive that opened at o. */
  ghost predicate InsideAt(fmt: string, o: nat, pos: nat, a: Attrs) {
    && o < pos <= |fmt| && fmt[o] == '%' && (forall k :: o < k < pos ==> fmt[k] != '%')
    && a.cinf < pos - o && (!LMask(a) ==> a.cinf == pos - o - 1)
    && (Again(fmt, o + 1, NO_ATTRS) <==> Again(fmt, pos, a))
  }

  /** Where the loop stands. `out` was written so far; `o` is where the directive opened that the cursor is
      in; after a restart the rest of the room will be filled with percent signs. */
  datatype Cursor = Cursor(pos: nat, cs: nat, inDirective: bool, attrs: Attrs, arg: nat, o: nat, restarted: bool,
                           out: string)

  /** What the rest of the format will write. */
  function Rest(fmt: string, args: seq<Arg>, c: Cursor, room: nat): Rendering {
    if c.restarted then Rendering(Repeat('%', room), room, true)
    else Render(fmt, c.pos, c.inDirective, c.attrs, if c.arg <= |args| then args[c.arg..] else [], room)
  }

  /** The loop is on its way to what the format stands for. */
  ghost predicate OnTrack(fmt: string, args: seq<Arg>, dsize: nat, s: string, dest: string, c: Cursor) {
    && c.pos <= |fmt| && |c.out| <= c.cs <= dsize <= |s| && c.arg <= |args|
    && dest == Overlay(s, 0, c.out) && (|c.out| < c.cs ==> c.cs == dsize)
    && (if c.inDirective then InsideAt(fmt, c.o, c.pos, c.attrs) else c.attrs == NO_ATTRS)
    && (c.restarted ==> c.inDirective && Again(fmt, c.o + 1, NO_ATTRS))
    && Rendered(fmt, args, dsize) == After(c.out, c.cs, Rest(fmt, args, c, dsize - c.cs))
  }

  /** The result and the buffer are those of the rendering. */
  ghost predicate Done(fmt: string, args: seq<Arg>, dsize: nat, s: string, dest: string, r: nat, restarted: bool) {
    var want := Rendered(fmt, args, dsize);
    && want.Rendering? && |want.out| <= r == want.n <= dsize <= |s| && restarted == want.restarted
    && dest == Overlay(s, 0, want.out)
  }

  lemma Started(fmt: string, args: seq<Arg>, dsize: nat, s: string)
    requires dsize <= |s|
    ensures OnTrack(fmt, args, dsize, s, s, Cursor(0, 0, false, NO_ATTRS, 0, 0, false, ""))
  {
    hide Render;
    assert args[0..] == args;
    AfterNothing(Render(fmt, 0, false, NO_ATTRS, args, dsize));
  }

  lemma AfterNothing(r: Rendering)
    ensures After("", 0, r) == r
  {
    assert r.Rendering? ==> "" + r.out == r.out;
  }

  lemma AfterAfter(a: string, m: nat, b: string, n: nat, r: Rendering)
    ensures After(a, m, After(b, n, r)) == After(a + b, m + n, r)
  {
    assert r.Rendering? ==> a + (b + r.out) == a + b + r.out;
  }

  lemma TrackFacts(fmt: string, args: seq<Arg>, dsize: nat, s: string, dest: string, c: Cursor)
    requires OnTrack(fmt, args, dsize, s, dest, c)
    ensures c.pos <= |fmt| && c.cs <= dsize <= |s| && c.arg <= |args| && |dest| == |s| && Within(s, dest, 0, dsize)
    ensures !c.inDirective ==> c.attrs == NO_ATTRS && !c.restarted
    ensures c.inDirective ==> c.attrs.cinf < c.pos
  {
    hide Render, Again, Rendered;
  }

  /** The format is at its end. */
  lemma Finished(fmt: string, args: seq<Arg>, dsize: nat, s: string, dest: string, c: Cursor)
    requires OnTrack(fmt, args, dsize, s, dest, c) && c.pos >= |fmt|
    ensures Done(fmt, args, dsize, s, dest, c.cs, c.restarted)
  {
    assert c.out + "" == c.out;
  }

  /** A percent sign opens a directive. */
  lemma Opened(fmt: string, args: seq<Arg>, dsize: nat, s: string, dest: string, c: Cursor)
    requires OnTrack(fmt, args, dsize, s, dest, c) && c.pos < |fmt| && !c.inDirective && fmt[c.pos] == '%'
    ensures OnTrack(fmt, args, dsize, s, dest, c.(pos := c.pos + 1, inDirective := true, o := c.pos))
  {
    hide Again, Rendered, Overlay;
  }

  /** What the next character leads to. */
  function ActionAt(fmt: string, c: Cursor): Action
    requires c.pos < |fmt|
  {
    Step(fmt, c.pos, c.attrs)
  }

  lemma FlagFacts(a: Attrs, c: char, again: bool)
    ensures var r := Flag(a, c, again);
            && (r.Continue? ==> r.attrs.cinf == a.cinf && r.skip == 1 && !LMask(a) && !LMask(r.attrs))
            && (r.Rewind? ==> r.attrs == a && r.inDirective == again)
            && (r.Continue? || r.Rewind?)
  {
  }

  lemma LengthFacts(a: Attrs, c: char, next: char)
    ensures var r := Length(a, c, next);
            r.Continue? && r.attrs.cinf == a.cinf && LMask(r.attrs) && (r.skip == 1 || (r.skip == 2 && next == c))
  {
    Modified(a.mods, c, next);
  }

  lemma Modified(m: Modifiers, c: char, next: char)
    ensures var r := Modify(m, c, next).0; r.hh || r.h || r.l || r.ll || r.z
  {
  }

  lemma FieldsFacts(a: Attrs, n: nat)
    ensures LMask(a.(width := n)) == LMask(a.(precision := n)) == LMask(a.(zero := false, dot := true)) == LMask(a)
  {
  }

  /** What a directive goes on with, keeps and forgets. */
  lemma ContinueFacts(a: Attrs, c: char, next: char)
    requires Interpret(a, c, next).Continue?
    ensures var r := Interpret(a, c, next);
            && c != '%' && r.attrs.cinf == a.cinf && (r.skip == 1 || (r.skip == 2 && next == c && LMask(r.attrs)))
            && (LMask(a) ==> LMask(r.attrs))
  {
    hide Flag, Length, ConversionOf, LMask, FMask;
    FlagFacts(a, c, true);
    FlagFacts(a, c, false);
    LengthFacts(a, c, next);
    if '0' <= c <= '9' {
      FieldsFacts(a, FieldsInc(a.precision, (c - '0') as nat));
      FieldsFacts(a, FieldsInc(a.width, (c - '0') as nat));
    }
    FieldsFacts(a, 0);
  }

  lemma RewindFacts(a: Attrs, c: char, next: char)
    ensures var r := Interpret(a, c, next);
            && (r.Rewind? ==> r.attrs.cinf == (if c == '%' then 0 else a.cinf))
            && (r.Rewind? && r.inDirective ==> c == '0' && !LMask(a))
            && (c == '%' ==> r.Rewind? && !r.inDirective)
  {
    hide Flag, Length, ConversionOf, LMask, FMask;
    FlagFacts(a, c, true);
    FlagFacts(a, c, false);
    LengthFacts(a, c, next);
    if '0' <= c <= '9' {
      FieldsFacts(a, FieldsInc(a.precision, (c - '0') as nat));
      FieldsFacts(a, FieldsInc(a.width, (c - '0') as nat));
    }
    FieldsFacts(a, 0);
  }

  lemma NextFacts(fmt: string, pos: nat)
    requires pos < |fmt|
    ensures pos + 1 < |fmt| ==> NextChar(fmt, pos) == fmt[pos + 1]
    ensures pos + 1 >= |fmt| ==> NextChar(fmt, pos) == '\0'
  {
  }

  /** The directive goes on. */
  lemma WentOn(fmt: string, args: seq<Arg>, dsize: nat, s: string, dest: string, c: Cursor)
    requires OnTrack(fmt, args, dsize, s, dest, c) && c.pos < |fmt| && c.inDirective && ActionAt(fmt, c).Continue?
    requires fmt[c.pos] != '\0'
    ensures var act := ActionAt(fmt, c);
            act.skip > 0 && OnTrack(fmt, args, dsize, s, dest, c.(pos := c.pos + act.skip, attrs := act.attrs))
  {
    hide Interpret, Rendered, Overlay, InsideAt, ActionAt, Again;
    InsideOn(fmt, c);
    RenderOn(fmt, c, args[c.arg..], dsize - c.cs);
  }

  lemma InsideOn(fmt: string, c: Cursor)
    requires c.pos < |fmt| && fmt[c.pos] != '\0' && InsideAt(fmt, c.o, c.pos, c.attrs) && ActionAt(fmt, c).Continue?
    ensures var act := ActionAt(fmt, c);
            act.skip > 0 && c.pos + act.skip <= |fmt| && InsideAt(fmt, c.o, c.pos + act.skip, act.attrs)
  {
    hide Interpret, LMask, NextChar;
    ContinueFacts(c.attrs.(cinf := c.attrs.cinf + 1), fmt[c.pos], NextChar(fmt, c.pos));
    MaskOf(c.attrs, c.attrs.cinf + 1);
    NextFacts(fmt, c.pos);
  }

  lemma RenderOn(fmt: string, c: Cursor, args: seq<Arg>, room: nat)
    requires c.pos < |fmt| && ActionAt(fmt, c).Continue?
    ensures var act := ActionAt(fmt, c);
            Render(fmt, c.pos, true, c.attrs, args, room) == Render(fmt, c.pos + act.skip, true, act.attrs, args, room)
  {
    hide Interpret;
  }

  lemma MaskOf(a: Attrs, n: nat)
    ensures LMask(a.(cinf := n)) == LMask(a)
  {
  }

  /** A restarted directive leads nowhere but back. */
  lemma OnlyBack(fmt: string, args: seq<Arg>, dsize: nat, s: string, dest: string, c: Cursor)
    requires OnTrack(fmt, args, dsize, s, dest, c) && c.pos < |fmt| && c.inDirective
    ensures var act := ActionAt(fmt, c);
            c.restarted ==> act.Continue? || (act.Rewind? && act.inDirective)
  {
    hide Interpret, Rendered, Overlay, Render;
  }

  lemma Stopped(fmt: string, args: seq<Arg>, dsize: nat, s: string, dest: string, c: Cursor)
    requires OnTrack(fmt, args, dsize, s, dest, c) && c.pos < |fmt| && c.inDirective && ActionAt(fmt, c).Stop?
    ensures Done(fmt, args, dsize, s, dest, c.cs, false)
  {
    hide Interpret, Rendered, Overlay, Again;
    OnlyBack(fmt, args, dsize, s, dest, c);
    assert c.out + "" == c.out;
  }

  lemma Strayed(fmt: string, args: seq<Arg>, dsize: nat, s: string, dest: string, c: Cursor)
    requires OnTrack(fmt, args, dsize, s, dest, c) && c.pos < |fmt| && c.inDirective
    requires var act := ActionAt(fmt, c);
             act.Astray? || (IsConversion(act) && Pieces(act, args[c.arg..]).None?)
    ensures Rendered(fmt, args, dsize).Stray?
  {
    hide Interpret, Rendered, Overlay, Again, Pieces;
    OnlyBack(fmt, args, dsize, s, dest, c);
  }

  /** Writing on behind what was written. */
  lemma WroteOn(s: string, dest: string, dest': string, out: string, cs: nat, dsize: nat, out': string)
    requires |out| <= cs <= dsize <= |s| && dest == Overlay(s, 0, out) && (|out| < cs ==> cs == dsize)
    requires |out'| <= dsize - cs && cs + |out'| <= |dest| && dest' == Overlay(dest, cs, out')
    ensures |out + out'| <= |s| && dest' == Overlay(s, 0, out + out')
  {
    if |out| < cs {
      assert out' == "" && out + out' == out;
    } else {
      OverlayTwice(s, 0, out, out');
    }
  }

  /** A conversion was printed. */
  lemma Printed(fmt: string, args: seq<Arg>, dsize: nat, s: string, dest: string, c: Cursor,
                dest': string, ps: seq<Piece>, ok: bool, out: string)
    requires OnTrack(fmt, args, dsize, s, dest, c) && c.pos < |fmt| && c.inDirective
    requires IsConversion(ActionAt(fmt, c)) && Pieces(ActionAt(fmt, c), args[c.arg..]) == Option.Some(ps)
    requires Emitted(dest, dest', c.cs, dsize - c.cs, ps, ok, out)
    ensures var room := dsize - c.cs;
            if Full(ActionAt(fmt, c), ok, room) then Done(fmt, args, dsize, s, dest', dsize, false)
            else OnTrack(fmt, args, dsize, s, dest',
                         Cursor(c.pos + 1, c.cs + Took(out, ok, room), false, NO_ATTRS, c.arg + 1, c.o, false,
                                c.out + out))
  {
    hide Interpret, Rendered, Overlay, Again, Pieces, Full, Output, Render;
    OnlyBack(fmt, args, dsize, s, dest, c);
    EmittedRoom(dest, dest', c.cs, dsize - c.cs, ps, ok, out);
    WroteOn(s, dest, dest', c.out, c.cs, dsize, out);
    var room := dsize - c.cs;
    PiecesLeft(fmt, args, c, ps);
    RenderConversion(fmt, c, args[c.arg..], room, ps);
    AfterAfter(c.out, c.cs, out, Took(out, ok, room),
               Render(fmt, c.pos + 1, false, NO_ATTRS, args[c.arg + 1..], room - Took(out, ok, room)));
  }

  lemma PiecesLeft(fmt: string, args: seq<Arg>, c: Cursor, ps: seq<Piece>)
    requires c.pos < |fmt| && IsConversion(ActionAt(fmt, c)) && c.arg <= |args|
    requires Pieces(ActionAt(fmt, c), args[c.arg..]) == Option.Some(ps)
    ensures c.arg < |args| && args[c.arg..][1..] == args[c.arg + 1..]
  {
    hide Interpret;
  }

  lemma RenderConversion(fmt: string, c: Cursor, args: seq<Arg>, room: nat, ps: seq<Piece>)
    requires c.pos < |fmt| && IsConversion(ActionAt(fmt, c)) && args != []
             && Pieces(ActionAt(fmt, c), args) == Option.Some(ps)
    ensures var (out, ok) := Output(ps, room);
            Render(fmt, c.pos, true, c.attrs, args, room) ==
              if Full(ActionAt(fmt, c), ok, room) then Rendering(out, room, false)
              else After(out, Took(out, ok, room),
                         Render(fmt, c.pos + 1, false, NO_ATTRS, args[1..], room - Took(out, ok, room)))
  {
    hide Interpret, Full, Output, Pieces;
  }

  /** A run of characters without percent signs is written as it is. */
  lemma {:induction false} RenderRun(fmt: string, from: nat, end: nat, args: seq<Arg>, room: nat)
    requires from <= end <= |fmt| && forall k :: from <= k < end ==> fmt[k] != '%'
    ensures Render(fmt, from, false, NO_ATTRS, args, room) ==
              if end - from > room then Rendering(fmt[from..from + room], room, false)
              else After(fmt[from..end], end - from, Render(fmt, end, false, NO_ATTRS, args, room - (end - from)))
    decreases end - from
  {
    hide Interpret;
    if from == end {
      AfterNothing(Render(fmt, end, false, NO_ATTRS, args, room));
      assert fmt[from..end] == "";
    } else if room == 0 {
      assert fmt[from..from] == "";
    } else {
      RenderRun(fmt, from + 1, end, args, room - 1);
      if end - from > room {
        assert [fmt[from]] + fmt[from + 1..from + room] == fmt[from..from + room];
      } else {
        AfterAfter([fmt[from]], 1, fmt[from + 1..end], end - from - 1,
                   Render(fmt, end, false, NO_ATTRS, args, room - (end - from)));
        assert [fmt[from]] + fmt[from + 1..end] == fmt[from..end];
      }
    }
  }

  /** A literal character. */
  lemma CopiedLiteral(fmt: string, args: seq<Arg>, dsize: nat, s: string, dest: string, c: Cursor, dest': string,
                      ok: bool)
    requires OnTrack(fmt, args, dsize, s, dest, c) && c.pos < |fmt| && !c.inDirective && fmt[c.pos] != '%'
    requires ok == (dsize - c.cs > 0) && c.cs <= |dest| && (ok ==> c.cs < |dest|)
    requires dest' == if ok then Overlay(dest, c.cs, [fmt[c.pos]]) else dest
    ensures if ok then OnTrack(fmt, args, dsize, s, dest',
                               c.(pos := c.pos + 1, cs := c.cs + 1, out := c.out + [fmt[c.pos]]))
            else Done(fmt, args, dsize, s, dest', dsize, false)
  {
    hide Interpret, Rendered, Overlay, Again;
    if ok {
      WroteOn(s, dest, dest', c.out, c.cs, dsize, [fmt[c.pos]]);
      AfterAfter(c.out, c.cs, [fmt[c.pos]], 1,
                 Render(fmt, c.pos + 1, false, NO_ATTRS, args[c.arg..], dsize - c.cs - 1));
    } else {
      assert c.out + "" == c.out;
    }
  }

  /** A directive is broken off: its first character is copied, and the others follow as literals. */
  lemma CopiedBack(fmt: string, args: seq<Arg>, dsize: nat, s: string, dest: string, c: Cursor, dest': string, ok: bool)
    requires OnTrack(fmt, args, dsize, s, dest, c) && c.pos < |fmt| && c.inDirective
    requires ActionAt(fmt, c).Rewind? && !ActionAt(fmt, c).inDirective && ActionAt(fmt, c).attrs.cinf <= c.pos
    requires ok == (dsize - c.cs > 0) && c.cs <= |dest| && (ok ==> c.cs < |dest|)
    requires var q := c.pos - ActionAt(fmt, c).attrs.cinf;
             dest' == if ok then Overlay(dest, c.cs, [fmt[q]]) else dest
    ensures var q := c.pos - ActionAt(fmt, c).attrs.cinf;
            if ok then OnTrack(fmt, args, dsize, s, dest',
                               Cursor(q + 1, c.cs + 1, false, NO_ATTRS, c.arg, c.o, false, c.out + [fmt[q]]))
            else Done(fmt, args, dsize, s, dest', dsize, false)
  {
    hide Interpret, Rendered, Overlay, Again, Render, NextChar, LMask;
    OnlyBack(fmt, args, dsize, s, dest, c);
    RewindFacts(c.attrs.(cinf := c.attrs.cinf + 1), fmt[c.pos], NextChar(fmt, c.pos));
    var q, room := c.pos - ActionAt(fmt, c).attrs.cinf, dsize - c.cs;
    RenderBack(fmt, c, args[c.arg..], room, q);
    if ok {
      WroteOn(s, dest, dest', c.out, c.cs, dsize, [fmt[q]]);
      AfterAfter(c.out, c.cs, [fmt[q]], 1, Render(fmt, q + 1, false, NO_ATTRS, args[c.arg..], room - 1));
    } else {
      assert c.out + "" == c.out;
    }
  }

  lemma RenderBack(fmt: string, c: Cursor, args: seq<Arg>, room: nat, q: nat)
    requires c.pos < |fmt| && ActionAt(fmt, c).Rewind? && !ActionAt(fmt, c).inDirective
    requires ActionAt(fmt, c).attrs.cinf <= c.pos && q == c.pos - ActionAt(fmt, c).attrs.cinf
    requires forall k :: q < k <= c.pos ==> fmt[k] != '%'
    ensures Render(fmt, c.pos, true, c.attrs, args, room) ==
              if room == 0 then Rendering("", 0, false)
              else After([fmt[q]], 1, Render(fmt, q + 1, false, NO_ATTRS, args, room - 1))
  {
    hide Interpret, ActionAt, Render;
    RenderBroken(fmt, c, args, room);
    var back, rest := fmt[q..c.pos + 1], fmt[q + 1..c.pos + 1];
    FirstOf(fmt, q, c.pos + 1);
    if room > 0 {
      RenderRun(fmt, q + 1, c.pos + 1, args, room - 1);
      if |back| > room {
        FirstOf(fmt, q, q + room);
      } else {
        AfterAfter([fmt[q]], 1, rest, c.pos - q, Render(fmt, c.pos + 1, false, NO_ATTRS, args, room - |back|));
      }
    }
  }

  lemma FirstOf(s: string, from: nat, end: nat)
    requires from < end <= |s|
    ensures s[from..end] == [s[from]] + s[from + 1..end]
    ensures forall e: nat :: from <= e <= |s| && end <= e ==> s[from..e][..end - from] == s[from..end]
  {
  }

  lemma RenderBroken(fmt: string, c: Cursor, args: seq<Arg>, room: nat)
    requires c.pos < |fmt| && ActionAt(fmt, c).Rewind? && !ActionAt(fmt, c).inDirective
    requires ActionAt(fmt, c).attrs.cinf <= c.pos
    ensures var back := fmt[c.pos - ActionAt(fmt, c).attrs.cinf..c.pos + 1];
            Render(fmt, c.pos, true, c.attrs, args, room) ==
              if |back| > room then Rendering(back[..room], room, false)
              else After(back, |back|, Render(fmt, c.pos + 1, false, NO_ATTRS, args, room - |back|))
  {
    hide Interpret;
  }

  /** A directive is restarted: its percent sign is copied, and the cursor stands behind it again. */
  lemma CopiedAgain(fmt: string, args: seq<Arg>, dsize: nat, s: string, dest: string, c: Cursor, dest': string,
                    ok: bool)
    requires OnTrack(fmt, args, dsize, s, dest, c) && c.pos < |fmt| && c.inDirective
    requires ActionAt(fmt, c).Rewind? && ActionAt(fmt, c).inDirective
    requires ok == (dsize - c.cs > 0) && c.cs <= |dest| && (ok ==> c.cs < |dest|)
    requires dest' == if ok then Overlay(dest, c.cs, ['%']) else dest
    ensures if ok then OnTrack(fmt, args, dsize, s, dest',
                               Cursor(c.o + 1, c.cs + 1, true, NO_ATTRS, c.arg, c.o, true, c.out + ['%']))
            else Done(fmt, args, dsize, s, dest', dsize, c.restarted)
  {
    hide Interpret, Rendered, Overlay, NextChar, LMask;
    AgainAt(fmt, args, dsize, s, dest, c);
    var room := dsize - c.cs;
    if ok {
      WroteOn(s, dest, dest', c.out, c.cs, dsize, ['%']);
      assert Repeat('%', room) == ['%'] + Repeat('%', room - 1);
      AfterAfter(c.out, c.cs, ['%'], 1, Rendering(Repeat('%', room - 1), room - 1, true));
    } else {
      assert c.out + "" == c.out && Repeat('%', room) == "";
    }
  }

  lemma AgainAt(fmt: string, args: seq<Arg>, dsize: nat, s: string, dest: string, c: Cursor)
    requires OnTrack(fmt, args, dsize, s, dest, c) && c.pos < |fmt| && c.inDirective
    requires ActionAt(fmt, c).Rewind? && ActionAt(fmt, c).inDirective
    ensures ActionAt(fmt, c).attrs.cinf <= c.pos && c.pos - ActionAt(fmt, c).attrs.cinf == c.o < c.pos
            && fmt[c.o] == '%'
    ensures Again(fmt, c.o + 1, NO_ATTRS)
  {
    hide Interpret, Rendered, Overlay, NextChar, LMask, Render;
    RewindFacts(c.attrs.(cinf := c.attrs.cinf + 1), fmt[c.pos], NextChar(fmt, c.pos));
    MaskOf(c.attrs, c.attrs.cinf + 1);
  }

  lemma DoneFacts(fmt: string, args: seq<Arg>, dsize: nat, s: string, dest: string, r: nat, restarted: bool)
    requires Done(fmt, args, dsize, s, dest, r, restarted)
    ensures Rendered(fmt, args, dsize).Rendering? && r <= dsize <= |s| && Within(s, dest, 0, dsize)
  {
    hide Rendered;
  }

  /** A cursor that goes back stays behind the directive's percent sign, or stands on another one. */
  lemma BackFacts(fmt: string, args: seq<Arg>, dsize: nat, s: string, dest: string, c: Cursor)
    requires OnTrack(fmt, args, dsize, s, dest, c) && c.pos < |fmt| && c.inDirective && ActionAt(fmt, c).Rewind?
    ensures ActionAt(fmt, c).attrs.cinf <= c.pos
  {
    hide Interpret, NextChar, OnTrack;
    TrackFacts(fmt, args, dsize, s, dest, c);
    RewindFacts(c.attrs.(cinf := c.attrs.cinf + 1), fmt[c.pos], NextChar(fmt, c.pos));
  }

  /** `vsnprintf`: for every format, all arguments and every size, the buffer and the result are those of
      the rendering. The cursor never goes back before the start of the format, and the loop ends because
      a pass either uses up room or moves on. `astray` is set where the rendering is `Stray`; the model
      stops there. */
  method VsnPrintf(dest: array<char>, dsize: nat, fmt: string, args: seq<Arg>)
    returns (r: nat, astray: bool, ghost restarted: bool)
    requires dsize <= dest.Length && forall k :: 0 <= k < |fmt| ==> fmt[k] != '\0'
    modifies dest
    ensures astray <==> Rendered(fmt, args, dsize).Stray?
    ensures !astray ==> Done(fmt, args, dsize, old(dest[..]), dest[..], r, restarted)
    ensures r <= dsize && Within(old(dest[..]), dest[..], 0, dsize)
  {
    hide Overlay, Within, Interpret, Emitted, OnTrack, Done, Pieces, NextChar, Rendered, Took, Full;
    ghost var s := dest[..];
    var pos: nat, cs: nat, pers, fa, arg: nat := 0, 0, false, NO_ATTRS, 0;
    ghost var c := Cursor(0, 0, false, NO_ATTRS, 0, 0, false, "");
    Started(fmt, args, dsize, s);
    while pos < |fmt|
      invariant OnTrack(fmt, args, dsize, s, dest[..], c)
      invariant c.pos == pos && c.cs == cs && c.inDirective == pers && c.attrs == fa && c.arg == arg
      decreases dsize - cs, |fmt| - pos
    {
      ghost var now := dest[..];
      TrackFacts(fmt, args, dsize, s, now, c);
      if fmt[pos] == '%' && !pers {
        Opened(fmt, args, dsize, s, now, c);
        c := c.(pos := pos + 1, inDirective := true, o := pos);
        pers, pos := true, pos + 1;
        continue;
      }
      if pers {
        pers := false;
        fa := fa.(cinf := fa.cinf + 1);
        var action := Interpret(fa, fmt[pos], NextChar(fmt, pos));
        assert action == ActionAt(fmt, c);
        match action {
          case Continue(a, skip) =>
            WentOn(fmt, args, dsize, s, now, c);
            c := c.(pos := pos + skip, attrs := a);
            pers, fa, pos := true, a, pos + skip;
            continue;
          case Stop =>
            Stopped(fmt, args, dsize, s, now, c);
            DoneFacts(fmt, args, dsize, s, now, cs, false);
            return cs, false, false;
          case Astray =>
            Strayed(fmt, args, dsize, s, now, c);
            return cs, true, false;
          case Rewind(a, again) =>
            BackFacts(fmt, args, dsize, s, now, c);
            fa, pers := a, again;
          case _ =>
            var n, full, wrong, ok, out := Convert(dest, cs, dsize - cs, action, args, arg);
            if wrong {
              Strayed(fmt, args, dsize, s, now, c);
              return cs, true, false;
            }
            Printed(fmt, args, dsize, s, now, c, dest[..], Pieces(action, args[arg..]).value, ok, out);
            if full {
              DoneFacts(fmt, args, dsize, s, dest[..], dsize, false);
              return dsize, false, false;
            }
            c := Cursor(pos + 1, cs + n, false, NO_ATTRS, arg + 1, c.o, false, c.out + out);
            cs, fa, arg, pos := cs + n, NO_ATTRS, arg + 1, pos + 1;
            continue;
        }
      }
      pos := pos - fa.cinf;
      var ok := CopyByteIp(dest, cs, dsize - cs, fmt[pos]);
      c := Copied(fmt, args, dsize, s, now, c, dest[..], ok, pos, pers);
      if !ok {
        DoneFacts(fmt, args, dsize, s, dest[..], dsize, c.restarted);
        return dsize, false, c.restarted;
      }
      cs, fa, pos := cs + 1, NO_ATTRS, pos + 1;
    }
    TrackFacts(fmt, args, dsize, s, dest[..], c);
    Finished(fmt, args, dsize, s, dest[..], c);
    DoneFacts(fmt, args, dsize, s, dest[..], cs, c.restarted);
    return cs, false, c.restarted;
  }

  /** The character that a pass copies is the one at position q: a literal, or the first one of a directive that is
      broken off or restarted. */
  ghost predicate Copies(fmt: string, c: Cursor, q: nat, again: bool) {
    c.pos < |fmt| && q < |fmt| &&
    if c.inDirective then
      ActionAt(fmt, c).Rewind? && again == ActionAt(fmt, c).inDirective && ActionAt(fmt, c).attrs.cinf <= c.pos
      && q == c.pos - ActionAt(fmt, c).attrs.cinf
    else fmt[c.pos] != '%' && q == c.pos && !again
  }

  lemma Copied(fmt: string, args: seq<Arg>, dsize: nat, s: string, dest: string, c: Cursor,
               dest': string, ok: bool, q: nat, again: bool) returns (c': Cursor)
    requires OnTrack(fmt, args, dsize, s, dest, c) && Copies(fmt, c, q, again)
    requires c.cs <= dsize <= |dest| && (ok <==> dsize - c.cs > 0)
    requires dest' == if ok then Overlay(dest, c.cs, [fmt[q]]) else dest
    ensures ok ==> OnTrack(fmt, args, dsize, s, dest', c')
    ensures ok ==>
              c'.pos == q + 1 && c'.cs == c.cs + 1 && c'.inDirective == again && c'.attrs == NO_ATTRS
              && c'.arg == c.arg
    ensures !ok ==> Done(fmt, args, dsize, s, dest', dsize, c'.restarted)
  {
    hide Overlay, OnTrack, Done, ActionAt;
    TrackFacts(fmt, args, dsize, s, dest, c);
    if !c.inDirective {
      CopiedLiteral(fmt, args, dsize, s, dest, c, dest', ok);
      c' := c.(pos := c.pos + 1, cs := c.cs + 1, out := c.out + [fmt[c.pos]]);
    } else if again {
      AgainAt(fmt, args, dsize, s, dest, c);
      CopiedAgain(fmt, args, dsize, s, dest, c, dest', ok);
      c' := Cursor(c.o + 1, c.cs + 1, true, NO_ATTRS, c.arg, c.o, ok || c.restarted, c.out + ['%']);
    } else {
      CopiedBack(fmt, args, dsize, s, dest, c, dest', ok);
      c' := Cursor(q + 1, c.cs + 1, false, NO_ATTRS, c.arg, c.o, false, c.out + [fmt[q]]);
    }
  }
}
