/** The directives of the kernel's printf as text, and what formats made of them print. */
module Directives {
  import opened Words
  import opened NumberPrinting
  import opened Emission
  import opened Formatter

  // ---------- the parts of a directive ----------

  predicate IsFlag(c: char) {
    c == '#' || c == '+' || c == '-' || c == '0' || c == ' '
  }

  /** Whether c is accepted after the flags s: a space is refused after a minus, and a minus after a space
      whose place no plus has taken. */
  predicate FlagFits(s: string, c: char) {
    (c == '-' ==> ' ' !in s || '+' in s) && (c == ' ' ==> '-' !in s)
  }

  /** Flags of which none refuses another. */
  predicate FlagsAgree(s: string) {
    forall k :: 0 <= k < |s| ==> IsFlag(s[k]) && FlagFits(s[..k], s[k])
  }

  predicate NonZeroDigits(s: string) {
    forall k :: 0 <= k < |s| ==> '1' <= s[k] <= '9'
  }

  predicate Decimals(s: string) {
    forall k :: 0 <= k < |s| ==> '0' <= s[k] <= '9'
  }

  datatype Length = Plain | HH | H | L | LL | Z

  function LengthText(length: Length): string {
    match length
    case Plain => ""
    case HH => "hh"
    case H => "h"
    case L => "l"
    case LL => "ll"
    case Z => "z"
  }

  function ModifiersOf(length: Length): Modifiers {
    Modifiers(length.HH?, length.H?, length.L?, length.LL?, length.Z?)
  }

  datatype Directive =
    Directive(flags: string, width: string, precision: Option<string>, length: Length, conversion: char)

  /** A directive that the kernel's printf takes as a whole: its flags agree, and no 0 follows the first
      digit of its width (as the first digit a 0 is a flag). */
  predicate Proper(d: Directive) {
    && FlagsAgree(d.flags) && NonZeroDigits(d.width) && (d.precision.Some? ==> Decimals(d.precision.value))
    && d.conversion in CONVERSIONS
  }

  function PrecisionText(d: Directive): string {
    if d.precision.None? then "" else "." + d.precision.value
  }

  function DirectiveText(d: Directive): string {
    "%" + d.flags + d.width + PrecisionText(d) + LengthText(d.length) + [d.conversion]
  }

  /** What the parts of a directive ask for. `cinf` counts its characters, a doubled length modifier as one. */
  function DirectiveAttrs(d: Directive): Attrs {
    Attrs(width := Value(d.width, Dec), precision := if d.precision.None? then 0 else Value(d.precision.value, Dec),
          cinf := |d.flags| + |d.width| + |PrecisionText(d)| + (if d.length.Plain? then 0 else 1) + 1,
          dot := d.precision.Some?, left := '-' in d.flags, zero := '0' in d.flags && '-' !in d.flags
            && d.precision.None?,
          sign := '+' in d.flags, space := ' ' in d.flags && '+' !in d.flags, prefix := '#' in d.flags,
          mods := ModifiersOf(d.length))
  }

  // ---------- walking through a directive ----------

  /** From pos to end a directive goes on, and its attributes become b. */
  ghost predicate Walks(fmt: string, pos: nat, a: Attrs, end: nat, b: Attrs)
    decreases |fmt| - pos
  {
    if pos == end then a == b else
      && pos < end <= |fmt| && Step(fmt, pos, a).Continue? && Step(fmt, pos, a).skip > 0
      && Walks(fmt, pos + Step(fmt, pos, a).skip, Step(fmt, pos, a).attrs, end, b)
  }

  lemma {:induction false} WalksOn(fmt: string, pos: nat, a: Attrs, mid: nat, b: Attrs, end: nat, c: Attrs)
    requires Walks(fmt, pos, a, mid, b) && Walks(fmt, mid, b, end, c) && mid <= end
    ensures Walks(fmt, pos, a, end, c)
    decreases |fmt| - pos
  {
    hide Step;
    if pos != mid {
      WalksOn(fmt, pos + Step(fmt, pos, a).skip, Step(fmt, pos, a).attrs, mid, b, end, c);
    }
  }

  lemma {:induction false} RenderWalks(fmt: string, pos: nat, a: Attrs, end: nat, b: Attrs, args: seq<Arg>, room: nat)
    requires Walks(fmt, pos, a, end, b)
    ensures Render(fmt, pos, true, a, args, room) == Render(fmt, end, true, b, args, room)
    decreases |fmt| - pos
  {
    hide Step;
    if pos != end {
      RenderWalks(fmt, pos + Step(fmt, pos, a).skip, Step(fmt, pos, a).attrs, end, b, args, room);
    }
  }

  /** The text t stands in the format at position p. */
  ghost predicate At(fmt: string, p: nat, t: string) {
    p + |t| <= |fmt| && fmt[p..p + |t|] == t
  }

  lemma AtParts(fmt: string, p: nat, s: string, t: string)
    requires At(fmt, p, s + t)
    ensures At(fmt, p, s) && At(fmt, p + |s|, t)
  {
    assert fmt[p..p + |s + t|][..|s|] == s;
    assert fmt[p..p + |s + t|][|s|..] == t;
  }

  lemma AtFirst(fmt: string, p: nat, t: string)
    requires At(fmt, p, t) && t != ""
    ensures p < |fmt| && fmt[p] == t[0] && At(fmt, p + 1, t[1..])
  {
    assert [t[0]] + t[1..] == t;
    AtParts(fmt, p, [t[0]], t[1..]);
    assert fmt[p..p + 1][0] == t[0];
  }

  lemma OneStep(fmt: string, pos: nat, a: Attrs, b: Attrs, end: nat, c: Attrs)
    requires pos < end <= |fmt| && Step(fmt, pos, a) == Continue(b, 1) && Walks(fmt, pos + 1, b, end, c)
    ensures Walks(fmt, pos, a, end, c)
  {
    hide Step;
  }

  // ---------- flags ----------

  function FlagAttrs(s: string): Attrs {
    NO_ATTRS.(cinf := |s|, left := '-' in s, zero := '0' in s && '-' !in s, sign := '+' in s,
              space := ' ' in s && '+' !in s, prefix := '#' in s)
  }

  lemma FlagsMore(s: string, c: char)
    ensures FlagsAgree(s + [c]) <==> FlagsAgree(s) && IsFlag(c) && FlagFits(s, c)
  {
    hide IsFlag, FlagFits;
    var t := s + [c];
    forall k | 0 <= k < |s| ensures t[k] == s[k] && t[..k] == s[..k] {
    }
    assert t[|s|] == c && t[..|s|] == s;
  }

  lemma FlagStep(s: string, c: char, next: char)
    requires IsFlag(c)
    ensures var r := Interpret(FlagAttrs(s).(cinf := |s| + 1), c, next);
            if FlagFits(s, c) then r == Continue(FlagAttrs(s + [c]), 1) else r.Rewind? && !r.inDirective
  {
    InMore(s, c, '-');
    InMore(s, c, '0');
    InMore(s, c, '+');
    InMore(s, c, ' ');
    InMore(s, c, '#');
  }

  lemma InMore(s: string, c: char, x: char)
    ensures x in s + [c] <==> x in s || x == c
  {
  }

  lemma {:induction false} FlagsWalk(fmt: string, p: nat, s: string, t: string)
    requires At(fmt, p, t) && FlagsAgree(s + t)
    ensures Walks(fmt, p, FlagAttrs(s), p + |t|, FlagAttrs(s + t))
    decreases |t|
  {
    hide Interpret, FlagAttrs, FlagsAgree, At;
    if t == "" {
      assert s + t == s;
    } else {
      var u := s + [t[0]];
      assert u + t[1..] == s + t;
      FlagsPrefix(u, t[1..]);
      FlagsMore(s, t[0]);
      AtFirst(fmt, p, t);
      FlagsWalk(fmt, p + 1, u, t[1..]);
      FlagStep(s, t[0], NextChar(fmt, p));
      FlagCount(s);
      AtEnd(fmt, p, t);
      OneStep(fmt, p, FlagAttrs(s), FlagAttrs(u), p + |t|, FlagAttrs(s + t));
    }
  }

  lemma FlagCount(s: string)
    ensures FlagAttrs(s).cinf == |s| && !LMask(FlagAttrs(s)) && !FlagAttrs(s).dot && FlagAttrs(s).width == 0
    ensures FlagAttrs(s).precision == 0
  {
  }

  lemma AtEnd(fmt: string, p: nat, t: string)
    requires At(fmt, p, t)
    ensures p + |t| <= |fmt|
  {
  }

  lemma FlagsPrefix(s: string, t: string)
    requires FlagsAgree(s + t)
    ensures FlagsAgree(s)
  {
    hide IsFlag, FlagFits;
    forall k | 0 <= k < |s| ensures IsFlag(s[k]) && FlagFits(s[..k], s[k]) {
      assert (s + t)[k] == s[k] && (s + t)[..k] == s[..k];
    }
  }

  // ---------- width and precision ----------

  function WithWidth(a: Attrs, s: string): Attrs {
    a.(width := Value(s, Dec), cinf := a.cinf + |s|)
  }

  function WithPrecision(a: Attrs, s: string): Attrs {
    a.(precision := Value(s, Dec), cinf := a.cinf + |s|)
  }

  lemma ValueMore(s: string, c: char)
    requires '0' <= c <= '9'
    ensures Value(s + [c], Dec) == FieldsInc(Value(s, Dec), (c - '0') as nat)
  {
    assert (s + [c])[..|s|] == s;
  }

  lemma WidthStep(a: Attrs, s: string, c: char, next: char)
    requires '1' <= c <= '9' && !LMask(a) && !a.dot
    ensures Interpret(WithWidth(a, s).(cinf := a.cinf + |s| + 1), c, next) == Continue(WithWidth(a, s + [c]), 1)
  {
    hide Value, FieldsInc;
    ValueMore(s, c);
  }

  lemma {:induction false} WidthWalk(fmt: string, p: nat, a: Attrs, s: string, t: string)
    requires At(fmt, p, t) && NonZeroDigits(t) && !LMask(a) && !a.dot
    ensures Walks(fmt, p, WithWidth(a, s), p + |t|, WithWidth(a, s + t))
    decreases |t|
  {
    hide Interpret, WithWidth, At, LMask;
    if t == "" {
      assert s + t == s;
    } else {
      var u := s + [t[0]];
      assert u + t[1..] == s + t;
      AtFirst(fmt, p, t);
      AtEnd(fmt, p, t);
      WidthWalk(fmt, p + 1, a, u, t[1..]);
      WidthStep(a, s, t[0], NextChar(fmt, p));
      WidthCount(a, s);
      OneStep(fmt, p, WithWidth(a, s), WithWidth(a, u), p + |t|, WithWidth(a, s + t));
    }
  }

  lemma WidthCount(a: Attrs, s: string)
    ensures WithWidth(a, s).cinf == a.cinf + |s| && WithWidth(a, s).mods == a.mods && WithWidth(a, s).dot == a.dot
    ensures WithWidth(a, s).precision == a.precision && (a.width == 0 ==> WithWidth(a, "") == a)
  {
  }

  lemma PrecisionStep(a: Attrs, s: string, c: char, next: char)
    requires '0' <= c <= '9' && !LMask(a) && a.dot
    ensures Interpret(WithPrecision(a, s).(cinf := a.cinf + |s| + 1), c, next) == Continue(WithPrecision(a, s + [c]), 1)
  {
    hide Value, FieldsInc;
    ValueMore(s, c);
  }

  lemma {:induction false} PrecisionWalk(fmt: string, p: nat, a: Attrs, s: string, t: string)
    requires At(fmt, p, t) && Decimals(t) && !LMask(a) && a.dot
    ensures Walks(fmt, p, WithPrecision(a, s), p + |t|, WithPrecision(a, s + t))
    decreases |t|
  {
    hide Interpret, WithPrecision, At, LMask;
    if t == "" {
      assert s + t == s;
    } else {
      var u := s + [t[0]];
      assert u + t[1..] == s + t;
      AtFirst(fmt, p, t);
      AtEnd(fmt, p, t);
      PrecisionWalk(fmt, p + 1, a, u, t[1..]);
      PrecisionStep(a, s, t[0], NextChar(fmt, p));
      PrecisionCount(a, s);
      OneStep(fmt, p, WithPrecision(a, s), WithPrecision(a, u), p + |t|, WithPrecision(a, s + t));
    }
  }

  lemma PrecisionCount(a: Attrs, s: string)
    ensures WithPrecision(a, s).cinf == a.cinf + |s| && WithPrecision(a, s).mods == a.mods
    ensures a.precision == 0 ==> WithPrecision(a, "") == a
  {
  }

  function Dotted(a: Attrs, d: Directive): Attrs {
    if d.precision.None? then a
    else WithPrecision(a.(zero := false, dot := true, cinf := a.cinf + 1), d.precision.value)
  }

  lemma DottedWalk(fmt: string, p: nat, a: Attrs, d: Directive)
    requires At(fmt, p, PrecisionText(d)) && Proper(d) && !LMask(a) && a.precision == 0
    ensures Walks(fmt, p, a, p + |PrecisionText(d)|, Dotted(a, d)) && Dotted(a, d).mods == a.mods
  {
    hide At, WithPrecision, FlagsAgree, NonZeroDigits, Decimals, LMask, Step;
    if d.precision.Some? {
      PrecisionPhase(fmt, p, a, d.precision.value);
    }
  }

  lemma PrecisionPhase(fmt: string, p: nat, a: Attrs, s: string)
    requires At(fmt, p, "." + s) && Decimals(s) && !LMask(a) && a.precision == 0
    ensures var b := a.(zero := false, dot := true, cinf := a.cinf + 1);
            Walks(fmt, p, a, p + |"." + s|, WithPrecision(b, s)) && WithPrecision(b, s).mods == a.mods
  {
    hide Interpret, At, WithPrecision, Decimals, LMask, Walks;
    var b := a.(zero := false, dot := true, cinf := a.cinf + 1);
    AtFirst(fmt, p, "." + s);
    assert ("." + s)[1..] == s;
    DotStep(a, NextChar(fmt, p));
    AtEnd(fmt, p, "." + s);
    PrecisionWalk(fmt, p + 1, b, "", s);
    PrecisionCount(b, "");
    PrecisionCount(b, s);
    assert "" + s == s;
    OneStep(fmt, p, a, b, p + 1 + |s|, WithPrecision(b, s));
  }

  lemma DotStep(a: Attrs, next: char)
    requires !LMask(a)
    ensures Interpret(a.(cinf := a.cinf + 1), '.', next)
            == Continue(a.(zero := false, dot := true, cinf := a.cinf + 1), 1)
    ensures !LMask(a.(zero := false, dot := true, cinf := a.cinf + 1))
  {
  }

  // ---------- the length modifier and the conversion ----------

  function WithLength(a: Attrs, length: Length): Attrs {
    if length.Plain? then a else a.(mods := ModifiersOf(length), cinf := a.cinf + 1)
  }

  lemma LengthWalk(fmt: string, p: nat, a: Attrs, length: Length, c: char)
    requires At(fmt, p, LengthText(length) + [c]) && c in CONVERSIONS && a.mods == NO_MODIFIERS
    ensures Walks(fmt, p, a, p + |LengthText(length)|, WithLength(a, length))
  {
    hide At, Interpret;
    var t := LengthText(length) + [c];
    AtFirst(fmt, p, t);
    if !length.Plain? {
      AtFirst(fmt, p + 1, t[1..]);
      LengthStep(a, length, NextChar(fmt, p));
      AtParts(fmt, p, LengthText(length), [c]);
      AtEnd(fmt, p, LengthText(length));
    }
  }

  lemma LengthStep(a: Attrs, length: Length, next: char)
    requires a.mods == NO_MODIFIERS && !length.Plain?
    requires if |LengthText(length)| == 2 then next == LengthText(length)[1] else next != 'h' && next != 'l'
    ensures Interpret(a.(cinf := a.cinf + 1), LengthText(length)[0], next)
            == Continue(WithLength(a, length), |LengthText(length)|)
  {
    hide Interpret, Modify, ModifiersOf;
    ModifierStep(a.(cinf := a.cinf + 1), LengthText(length)[0], next);
    OneModifier(length, next);
  }

  lemma ModifierStep(a: Attrs, c: char, next: char)
    requires c == 'h' || c == 'l' || c == 'z'
    ensures Interpret(a, c, next) == Formatter.Length(a, c, next)
  {
    hide Formatter.Length;
  }

  lemma OneModifier(length: Length, next: char)
    requires !length.Plain?
    requires if |LengthText(length)| == 2 then next == LengthText(length)[1] else next != 'h' && next != 'l'
    ensures Modify(NO_MODIFIERS, LengthText(length)[0], next) == (ModifiersOf(length), |LengthText(length)|)
  {
  }

  lemma ConversionStep(a: Attrs, c: char, next: char)
    requires c in CONVERSIONS
    ensures Interpret(a, c, next) == ConversionOf(a, c)
  {
  }

  // ---------- a whole directive ----------

  /** The attributes after the flags, the width, the precision and the length modifier. */
  function Parts(d: Directive): Attrs {
    WithLength(Dotted(WithWidth(FlagAttrs(d.flags), d.width), d), d.length)
  }

  lemma PartsAttrs(d: Directive)
    ensures Parts(d).(cinf := Parts(d).cinf + 1) == DirectiveAttrs(d)
  {
    hide Value;
    assert d.precision.Some? ==> |PrecisionText(d)| == 1 + |d.precision.value|;
  }

  /** From behind the percent sign to the conversion character. */
  lemma DirectiveWalk(fmt: string, p: nat, d: Directive) returns (q: nat)
    requires At(fmt, p, DirectiveText(d)) && Proper(d)
    ensures q + 1 == p + |DirectiveText(d)| <= |fmt| && p < q && fmt[p] == '%' && fmt[q] == d.conversion
    ensures Walks(fmt, p + 1, NO_ATTRS, q, Parts(d)) && Parts(d).(cinf := Parts(d).cinf + 1) == DirectiveAttrs(d)
  {
    hide DirectiveAttrs, At, FlagAttrs, WithWidth, Dotted, WithLength, FlagsAgree, NonZeroDigits, Decimals,
         PrecisionText, LengthText, Walks;
    var end := LengthText(d.length) + [d.conversion];
    var p1 := p + 1;
    var p2 := p1 + |d.flags|;
    var p3 := p2 + |d.width|;
    var p4 := p3 + |PrecisionText(d)|;
    q := p4 + |LengthText(d.length)|;
    DirectiveParts(fmt, p, d);
    PartsAttrs(d);
    var a := FlagAttrs(d.flags);
    var b := WithWidth(a, d.width);
    FlagsPhase(fmt, p1, d);
    WidthPhase(fmt, p2, d);
    DottedWalk(fmt, p3, b, d);
    LengthWalk(fmt, p4, Dotted(b, d), d.length, d.conversion);
    WalksOn(fmt, p1, NO_ATTRS, p2, a, p3, b);
    WalksOn(fmt, p1, NO_ATTRS, p3, b, p4, Dotted(b, d));
    WalksOn(fmt, p1, NO_ATTRS, p4, Dotted(b, d), q, Parts(d));
  }

  lemma DirectiveParts(fmt: string, p: nat, d: Directive)
    requires At(fmt, p, DirectiveText(d))
    ensures var p1 := p + 1;
            var p2 := p1 + |d.flags|;
            var p3 := p2 + |d.width|;
            var p4 := p3 + |PrecisionText(d)|;
            var q := p4 + |LengthText(d.length)|;
            && At(fmt, p1, d.flags) && At(fmt, p2, d.width) && At(fmt, p3, PrecisionText(d))
            && At(fmt, p4, LengthText(d.length) + [d.conversion])
            && q + 1 == p + |DirectiveText(d)| <= |fmt| && fmt[p] == '%' && fmt[q] == d.conversion
  {
    hide At, PrecisionText, LengthText;
    var t1, t2 := "%" + d.flags, "%" + d.flags + d.width;
    var t3 := t2 + PrecisionText(d);
    assert DirectiveText(d) == t3 + (LengthText(d.length) + [d.conversion]);
    AtParts(fmt, p, t3, LengthText(d.length) + [d.conversion]);
    AtParts(fmt, p, t2, PrecisionText(d));
    AtParts(fmt, p, t1, d.width);
    AtParts(fmt, p, "%", d.flags);
    AtFirst(fmt, p, "%");
    AtParts(fmt, p + |t3|, LengthText(d.length), [d.conversion]);
    AtFirst(fmt, p + |t3| + |LengthText(d.length)|, [d.conversion]);
  }

  lemma FlagsPhase(fmt: string, p: nat, d: Directive)
    requires At(fmt, p, d.flags) && Proper(d)
    ensures Walks(fmt, p, NO_ATTRS, p + |d.flags|, FlagAttrs(d.flags))
  {
    hide At, Walks, FlagsAgree;
    assert "" + d.flags == d.flags;
    assert FlagAttrs("") == NO_ATTRS;
    FlagsWalk(fmt, p, "", d.flags);
  }

  lemma WidthPhase(fmt: string, p: nat, d: Directive)
    requires At(fmt, p, d.width) && Proper(d)
    ensures var a := FlagAttrs(d.flags);
            var b := WithWidth(a, d.width);
            Walks(fmt, p, a, p + |d.width|, b) && !LMask(b) && b.precision == 0 && b.mods == NO_MODIFIERS
  {
    hide At, Walks, NonZeroDigits, Value;
    var a := FlagAttrs(d.flags);
    assert "" + d.width == d.width;
    FlagCount(d.flags);
    WidthCount(a, "");
    WidthWalk(fmt, p, a, "", d.width);
  }

  // ---------- formats ----------

  /** What a conversion prints for an argument; None if that is of the wrong kind, or a string shorter
      than its precision. */
  function ConversionText(act: Action, arg: Arg): Option<string>
    requires IsConversion(act)
  {
    match act
    case PrintNumber(a, base, unsignedInt) =>
      if arg.Number? then Option.Some(NumberText(NumberArg(a, unsignedInt, arg.value), a, base)) else None
    case PrintString(a) =>
      if arg.Number? then None else
        var s := if arg.text.None? then "<NULL>" else arg.text.value;
        if a.precision > |s| then None else Option.Some(PaddedText(s, a))
    case PrintChar(a) =>
      if arg.Number? then Option.Some(PaddedText([(arg.value % 256) as char], a)) else None
  }

  lemma PiecesStand(act: Action, args: seq<Arg>)
    requires IsConversion(act) && args != [] && ConversionText(act, args[0]).Some?
    ensures Pieces(act, args).Some? && Flat(Pieces(act, args).value) == ConversionText(act, args[0]).value
  {
    hide NumberText, PaddedText, NumberArg, NumberPieces, StringPieces, CharPieces, Flat;
    match act {
      case PrintNumber(a, base, unsignedInt) =>
        FlatNumber(NumberArg(a, unsignedInt, args[0].value), a, base);
      case PrintString(a) =>
        FlatString(if args[0].text.None? then "<NULL>" else args[0].text.value, a);
      case PrintChar(a) =>
        FlatChar((args[0].value % 256) as char, a);
    }
  }

  /** What a format is made of. */
  datatype Item = Literal(c: char) | Percent | Conversion(d: Directive)

  predicate ProperItem(i: Item) {
    match i
    case Literal(c) => c != '%'
    case Percent => true
    case Conversion(d) => Proper(d)
  }

  function ItemText(i: Item): string {
    match i
    case Literal(c) => [c]
    case Percent => "%%"
    case Conversion(d) => DirectiveText(d)
  }

  /** The items as a format. */
  function Format(items: seq<Item>): string {
    if items == [] then "" else ItemText(items[0]) + Format(items[1..])
  }

  /** The text that the items stand for: literals for themselves, `%%` for a percent sign, and each
      directive for the next argument as its flags, width, precision, length and conversion say. */
  function Meaning(items: seq<Item>, args: seq<Arg>): Option<string> {
    if items == [] then Option.Some("") else
      match items[0]
      case Literal(c) => Joined([c], Meaning(items[1..], args))
      case Percent => Joined("%", Meaning(items[1..], args))
      case Conversion(d) =>
        if args == [] then None else
          var text := ConversionText(ConversionOf(DirectiveAttrs(d), d.conversion), args[0]);
          if text.None? then None else Joined(text.value, Meaning(items[1..], args[1..]))
  }

  function Joined(s: string, rest: Option<string>): Option<string> {
    if rest.None? then None else Option.Some(s + rest.value)
  }

  /** What one directive writes when there is room for it. */
  lemma DirectiveRenders(fmt: string, p: nat, d: Directive, args: seq<Arg>, room: nat, text: string)
    requires At(fmt, p, DirectiveText(d)) && Proper(d) && args != []
    requires ConversionText(ConversionOf(DirectiveAttrs(d), d.conversion), args[0]) == Option.Some(text)
             && |text| <= room
    ensures Render(fmt, p, false, NO_ATTRS, args, room)
         == After(text, |text|, Render(fmt, p + |DirectiveText(d)|, false, NO_ATTRS, args[1..], room - |text|))
  {
    hide At, Proper, DirectiveText, DirectiveAttrs, Interpret, ConversionOf, ConversionText, Walks, Parts, Pieces,
         Output;
    var q := DirectiveWalk(fmt, p, d);
    RenderOpens(fmt, p, args, room);
    RenderWalks(fmt, p + 1, NO_ATTRS, q, Parts(d), args, room);
    ConversionAt(fmt, q, d);
    var act := ConversionOf(DirectiveAttrs(d), d.conversion);
    PiecesStand(act, args);
    var ps := Pieces(act, args).value;
    OutputFits(ps, room);
    RenderConversion(fmt, Cursor(q, 0, true, Parts(d), 0, p, false, ""), args, room, ps);
    NotFull(act, room, text, d, args[0]);
  }

  lemma RenderOpens(fmt: string, p: nat, args: seq<Arg>, room: nat)
    requires p < |fmt| && fmt[p] == '%'
    ensures Render(fmt, p, false, NO_ATTRS, args, room) == Render(fmt, p + 1, true, NO_ATTRS, args, room)
  {
    hide Step;
  }

  lemma ConversionAt(fmt: string, q: nat, d: Directive)
    requires q < |fmt| && fmt[q] == d.conversion && Proper(d)
    ensures Step(fmt, q, Parts(d)) == ConversionOf(DirectiveAttrs(d), d.conversion)
  {
    hide Interpret, ConversionOf, Parts, DirectiveAttrs, FlagsAgree, NonZeroDigits, Decimals;
    PartsAttrs(d);
    ConversionStep(DirectiveAttrs(d), d.conversion, NextChar(fmt, q));
  }

  lemma OutputFits(ps: seq<Piece>, room: nat)
    requires |Flat(ps)| <= room
    ensures Output(ps, room) == (Flat(ps), true)
  {
    hide Emit, Flat;
    EmitFits(ps, room);
  }

  lemma NotFull(act: Action, room: nat, text: string, d: Directive, arg: Arg)
    requires act == ConversionOf(DirectiveAttrs(d), d.conversion) && ConversionText(act, arg) == Option.Some(text)
             && |text| <= room
    ensures !Full(act, true, room)
  {
    hide DigitsOf, Before, Behind, NumberArg, DirectiveAttrs, ConversionOf;
  }

  lemma JoinAfter(s: string, rest: string, r: Rendering)
    requires r == Rendering(rest, |rest|, false)
    ensures After(s, |s|, r) == Rendering(s + rest, |s + rest|, false)
  {
  }

  /** One item before the rest of a format. */
  lemma ItemRenders(fmt: string, p: nat, i: Item, items: seq<Item>, args: seq<Arg>, room: nat, text: string)
    returns (s: string, args': seq<Arg>, rest: string)
    requires At(fmt, p, ItemText(i)) && ProperItem(i) && Meaning([i] + items, args) == Option.Some(text)
             && |text| <= room
    ensures text == s + rest && Meaning(items, args') == Option.Some(rest)
    ensures Render(fmt, p, false, NO_ATTRS, args, room)
         == After(s, |s|, Render(fmt, p + |ItemText(i)|, false, NO_ATTRS, args', room - |s|))
  {
    hide DirectiveText, DirectiveAttrs, Interpret, Proper, ConversionOf, ConversionText, Render, At;
    assert ([i] + items)[1..] == items;
    match i {
      case Literal(c) =>
        s, args' := [c], args;
        rest := Meaning(items, args).value;
        AtFirst(fmt, p, [c]);
        RenderLiteralChar(fmt, p, args, room);
      case Percent =>
        s, args' := "%", args;
        rest := Meaning(items, args).value;
        AtFirst(fmt, p, "%%");
        AtFirst(fmt, p + 1, "%%"[1..]);
        RenderPercent(fmt, p, args, room);
      case Conversion(d) =>
        s, args' := ConversionText(ConversionOf(DirectiveAttrs(d), d.conversion), args[0]).value, args[1..];
        rest := Meaning(items, args').value;
        DirectiveRenders(fmt, p, d, args, room, s);
    }
  }

  lemma RenderLiteralChar(fmt: string, p: nat, args: seq<Arg>, room: nat)
    requires p < |fmt| && fmt[p] != '%' && room > 0
    ensures Render(fmt, p, false, NO_ATTRS, args, room)
         == After([fmt[p]], 1, Render(fmt, p + 1, false, NO_ATTRS, args, room - 1))
  {
    hide Step;
  }

  lemma RenderPercent(fmt: string, p: nat, args: seq<Arg>, room: nat)
    requires p + 1 < |fmt| && fmt[p] == '%' && fmt[p + 1] == '%' && room > 0
    ensures Render(fmt, p, false, NO_ATTRS, args, room)
         == After("%", 1, Render(fmt, p + 2, false, NO_ATTRS, args, room - 1))
  {
    hide Step;
    PercentStep(fmt, p + 1);
    assert fmt[p + 1..p + 2] == "%";
  }

  lemma PercentStep(fmt: string, p: nat)
    requires p < |fmt| && fmt[p] == '%'
    ensures Step(fmt, p, NO_ATTRS) == Rewind(NO_ATTRS, false)
  {
  }

  /** A format made of proper items prints what the items stand for, when there is room for it. */
  lemma {:induction false} FormatRenders(before: string, items: seq<Item>, args: seq<Arg>, room: nat, text: string)
    requires (forall k :: 0 <= k < |items| ==> ProperItem(items[k])) && Meaning(items, args) == Option.Some(text)
             && |text| <= room
    ensures Render(before + Format(items), |before|, false, NO_ATTRS, args, room) == Rendering(text, |text|, false)
    decreases |items|
  {
    hide ItemText, ProperItem, At, Meaning, Step;
    var fmt := before + Format(items);
    if items == [] {
      NoItems(args);
      assert fmt == before;
    } else {
      var i, more := items[0], items[1..];
      assert items == [i] + more;
      AtHere(before, ItemText(i), Format(more));
      assert fmt == before + ItemText(i) + Format(more);
      var s, args', rest := ItemRenders(fmt, |before|, i, more, args, room, text);
      FormatRenders(before + ItemText(i), more, args', room - |s|, rest);
      JoinAfter(s, rest, Rendering(rest, |rest|, false));
    }
  }

  lemma NoItems(args: seq<Arg>)
    ensures Meaning([], args) == Option.Some("")
  {
  }

  lemma AtHere(s: string, t: string, u: string)
    ensures At(s + t + u, |s|, t)
  {
  }

  /** The same for the whole of a format. */
  lemma MeaningPrinted(items: seq<Item>, args: seq<Arg>, dsize: nat)
    requires forall k :: 0 <= k < |items| ==> ProperItem(items[k])
    ensures var m := Meaning(items, args);
            m.Some? && |m.value| <= dsize ==>
              Rendered(Format(items), args, dsize) == Rendering(m.value, |m.value|, false)
  {
    hide ProperItem, Meaning, Format, Render;
    assert "" + Format(items) == Format(items);
    var m := Meaning(items, args);
    if m.Some? && |m.value| <= dsize {
      FormatRenders("", items, args, dsize, m.value);
    }
  }

  // ---------- formats without directives ----------

  /** A format without percent signs is written as it is, as far as there is room. */
  lemma LiteralFormat(fmt: string, args: seq<Arg>, dsize: nat)
    requires '%' !in fmt
    ensures var n := if |fmt| <= dsize then |fmt| else dsize;
            Rendered(fmt, args, dsize) == Rendering(fmt[..n], n, false)
  {
    hide Render;
    forall k | 0 <= k < |fmt| ensures fmt[k] != '%' {
      assert fmt[k] in fmt;
    }
    RenderRun(fmt, 0, |fmt|, args, dsize);
    AtTheEnd(fmt, args, dsize - if |fmt| <= dsize then |fmt| else dsize);
    assert fmt[0..|fmt|] + "" == fmt;
  }

  lemma AtTheEnd(fmt: string, args: seq<Arg>, room: nat)
    ensures Render(fmt, |fmt|, false, NO_ATTRS, args, room) == Rendering("", 0, false)
  {
  }

  // ---------- numbers in formats ----------

  /** What the conversion characters for numbers mean. */
  function BaseOf(c: char): Base
    requires c in "diuxXo"
  {
    if c == 'o' then Oct else if c == 'x' then Hex else if c == 'X' then HexUp else Dec
  }

  /** A number printed by any directive with a length modifier for 64 bits, without sign and prefix, can
      be read back from the output: for all flags, widths and precisions. */
  lemma LongRoundTrip(d: Directive, v: Word, dsize: nat)
    requires Proper(d) && (d.length.L? || d.length.LL? || d.length.Z?) && d.conversion in "diuxXo"
    requires '+' !in d.flags && '#' !in d.flags
    ensures var b := BaseOf(d.conversion);
            var text := NumberText(v, DirectiveAttrs(d), b);
            && Value(NoSpaces(text), b) == v
            && (|text| <= dsize ==> Rendered(DirectiveText(d), [Number(v)], dsize) == Rendering(text, |text|, false))
  {
    hide NumberText, Value, NoSpaces, DirectiveText, Render;
    var items, b := [Conversion(d)], BaseOf(d.conversion);
    var text := NumberText(v, DirectiveAttrs(d), b);
    PrintRoundTrip(v, DirectiveAttrs(d), b);
    assert DirectiveText(d) + "" == DirectiveText(d) && [Conversion(d)][1..] == [];
    assert Meaning(items[1..], [Number(v)][1..]) == Option.Some("");
    assert text + "" == text;
    assert ConversionText(ConversionOf(DirectiveAttrs(d), d.conversion), Number(v)) == Option.Some(text);
    MeaningPrinted(items, [Number(v)], dsize);
  }

  /** Without a length modifier the argument is an int: sign-extended for signed conversions. */
  lemma IntArgument(v: int, garbage: nat)
    requires -0x8000_0000 <= v < 0x8000_0000 && garbage < TWO32
    ensures var slot: Word := garbage * TWO32 + v % TWO32;
            NumberArg(NO_ATTRS, false, slot) == Add64(v, 0) && NumberArg(NO_ATTRS, true, slot) == v % TWO32
  {
    Remainder(garbage, v % TWO32, TWO32);
  }
}
