/** What the conversions of the kernel's printf print (mlibc/kprintf.c), stated on characters: what a reader finds in
    the output of `%d`, `%i`, `%u`, `%x`, `%X`, `%o`, `%p`, `%s` and `%c` with all their flags. */
module Conversions {
  import opened Words
  import opened NumberPrinting
  import opened Emission
  import opened Formatter
  import opened Directives

  // ---------- how a number is spelled ----------

  /** The characters that the digits of a conversion are taken from. */
  predicate IsDigitOf(c: char, conversion: char) {
    if conversion == 'o' then '0' <= c <= '7'
    else if conversion == 'x' || conversion == 'p' then '0' <= c <= '9' || 'a' <= c <= 'f'
    else if conversion == 'X' then '0' <= c <= '9' || 'A' <= c <= 'F'
    else '0' <= c <= '9'
  }

  function RadixOf(conversion: char): nat {
    if conversion == 'o' then 8 else if conversion == 'x' || conversion == 'X' || conversion == 'p' then 16 else 10
  }

  /** The value of digits in a radix. */
  function Reads(s: string, radix: nat): nat {
    if s == "" then 0 else radix * Reads(s[..|s| - 1], radix) + DigitValue(s[|s| - 1])
  }

  /** The sign or prefix that the flags ask for. */
  function Lead(flags: string, conversion: char): string {
    if conversion == 'p' then "0x"
    else if conversion == 'x' then if '#' in flags then "0x" else ""
    else if conversion == 'X' then if '#' in flags then "0X" else ""
    else if conversion == 'o' then if '#' in flags then "0" else ""
    else if '+' in flags then "+" else ""
  }

  /** The number that is printed for an argument: all 64 bits with `l`, `ll`, `z` and for `%p`; otherwise
      the low 32, sign-extended for `%d` and `%i`, also with `h` and `hh`. */
  function NumberOf(d: Directive, v: Word): nat {
    if d.length.L? || d.length.LL? || d.length.Z? || d.conversion == 'p' then v
    else if (d.conversion == 'd' || d.conversion == 'i') && v % TWO32 >= TWO32 / 2 then v % TWO32 + (TWO64 - TWO32)
    else v % TWO32
  }

  function WidthOf(d: Directive): nat {
    Reads(d.width, 10)
  }

  function PrecisionOf(d: Directive): nat {
    if d.precision.None? then 0 else Reads(d.precision.value, 10)
  }

  predicate DigitsFor(d: Directive, n: nat, digits: string) {
    && (forall k :: 0 <= k < |digits| ==> IsDigitOf(digits[k], d.conversion))
    && Reads(digits, RadixOf(d.conversion)) == n
    && 1 <= |digits| && PrecisionOf(d) <= |digits| && (|digits| > 1 && digits[0] == '0' ==> |digits| <= PrecisionOf(d))
  }

  /** The text of a number: a space if it is asked for, padding on the left, sign or prefix, digits without
      leading zeros beyond the precision, padding on the right. */
  predicate SpelledAs(d: Directive, v: Word, t: string, pad: nat, digits: string, trail: nat) {
    && DigitsFor(d, NumberOf(d, v), digits)
    && pad + trail == (if WidthOf(d) > |digits| then WidthOf(d) - |digits| else 0)
    && (if '-' in d.flags then pad == 0 else trail == 0)
    && t == (if ' ' in d.flags && '+' !in d.flags then " " else "")
            + Repeat(if '0' in d.flags && d.precision.None? then '0' else ' ', pad)
            + Lead(d.flags, d.conversion) + digits + Repeat(' ', trail)
  }

  ghost predicate Spells(d: Directive, v: Word, t: string) {
    exists pad, digits, trail :: SpelledAs(d, v, t, pad, digits, trail)
  }

  // ---------- the formatter spells numbers ----------

  predicate IsNumeric(c: char) {
    c == 'd' || c == 'i' || c == 'u' || c == 'x' || c == 'X' || c == 'o' || c == 'p'
  }

  lemma {:induction false} ReadsValue(s: string, b: Base)
    ensures Reads(s, Radix(b)) == Value(s, b)
  {
    if s != "" {
      ReadsValue(s[..|s| - 1], b);
    }
  }

  function BaseFor(conversion: char): Base {
    if conversion == 'o' then Oct else if conversion == 'x' || conversion == 'p' then Hex
    else if conversion == 'X' then HexUp else Dec
  }

  lemma {:induction false} DigitsIn(n: nat, conversion: char)
    requires IsNumeric(conversion)
    ensures var s := DigitsOf(n, BaseFor(conversion));
            && (forall k :: 0 <= k < |s| ==> IsDigitOf(s[k], conversion))
            && (|s| > 1 ==> s[0] != '0') && (n > 0 ==> s[0] != '0')
    decreases n
  {
    hide IsDigitOf, DigitChar;
    var b := BaseFor(conversion);
    DigitIn(n % Radix(b), conversion);
    if n >= Radix(b) {
      DigitsIn(n / Radix(b), conversion);
    } else {
      DigitIn(n, conversion);
    }
  }

  lemma DigitIn(i: nat, conversion: char)
    requires IsNumeric(conversion) && i < Radix(BaseFor(conversion))
    ensures var c := DigitChar(i, BaseFor(conversion)); IsDigitOf(c, conversion) && (i > 0 ==> c != '0')
  {
  }

  lemma RadixFor(conversion: char)
    ensures Radix(BaseFor(conversion)) == RadixOf(conversion)
  {
  }

  lemma ZerosIn(n: nat, conversion: char)
    ensures forall k :: 0 <= k < n ==> IsDigitOf(Repeat('0', n)[k], conversion)
  {
  }

  /** The digits of a number, with the zeros that the precision adds. */
  lemma PrintedDigits(d: Directive, n: nat) returns (digits: string)
    requires Proper(d) && IsNumeric(d.conversion)
    ensures var ds := DigitsOf(n, BaseFor(d.conversion));
            digits == Repeat('0', Minus(PrecisionOf(d), |ds|)) + ds && DigitsFor(d, n, digits)
  {
    hide IsDigitOf, DigitsOf, Repeat, Reads, PrecisionOf, Radix;
    var b := BaseFor(d.conversion);
    var ds := DigitsOf(n, b);
    var z := Minus(PrecisionOf(d), |ds|);
    digits := Repeat('0', z) + ds;
    DigitsIn(n, d.conversion);
    ZerosIn(z, d.conversion);
    RadixFor(d.conversion);
    ReadsValue(digits, b);
    LeadingZeros(ds, b, z);
    DigitsValue(n, b);
  }

  /** The attributes that the parts of a directive ask for, read off its text. */
  lemma AttrsRead(d: Directive)
    ensures var a := DirectiveAttrs(d);
            && a.width == WidthOf(d) && a.precision == PrecisionOf(d) && a.left == ('-' in d.flags)
            && a.zero == ('0' in d.flags && '-' !in d.flags && d.precision.None?)
            && a.sign == ('+' in d.flags) && a.space == (' ' in d.flags && '+' !in d.flags)
              && a.prefix == ('#' in d.flags)
  {
    hide Value, Reads;
    ReadsValue(d.width, Dec);
    if d.precision.Some? {
      ReadsValue(d.precision.value, Dec);
    }
  }

  /** What the conversion character leads to. */
  lemma NumberAction(d: Directive, v: Word) returns (a: Attrs)
    requires IsNumeric(d.conversion)
    ensures var act := ConversionOf(DirectiveAttrs(d), d.conversion);
            act.PrintNumber? && a == act.attrs && act.base == BaseFor(d.conversion)
            && NumberArg(a, act.unsignedInt, v) == NumberOf(d, v) && Prefix(a, act.base) == Lead(d.flags, d.conversion)
    ensures var a' := DirectiveAttrs(d);
            a.width == a'.width && a.precision == a'.precision && a.left == a'.left && a.zero == a'.zero
              && a.space == a'.space
  {
    hide Value;
    a := ConversionOf(DirectiveAttrs(d), d.conversion).attrs;
  }

  /** A number is spelled as its directive asks. */
  lemma NumberSpelled(d: Directive, v: Word) returns (t: string)
    requires Proper(d) && IsNumeric(d.conversion)
    ensures Spells(d, v, t) && ConversionText(ConversionOf(DirectiveAttrs(d), d.conversion), Number(v))
            == Option.Some(t)
  {
    hide ConversionOf, DirectiveAttrs, NumberArg, NumberOf, DigitsOf, Lead, Prefix, DigitsFor, WidthOf, PrecisionOf,
         Repeat,
         Proper;
    var a := NumberAction(d, v);
    AttrsRead(d);
    var n := NumberOf(d, v);
    var digits := PrintedDigits(d, n);
    var b := BaseFor(d.conversion);
    var j := |DigitsOf(n, b)|;
    t := NumberText(n, a, b);
    var pad, trail := if a.left then 0 else Padding(a, j), if a.left then Padding(a, j) else 0;
    PaddingIs(a, j, |digits|);
    TextIs(a, b, n, digits, pad, trail);
    assert SpelledAs(d, v, t, pad, digits, trail);
  }

  lemma PaddingIs(a: Attrs, j: nat, length: nat)
    requires length == Minus(a.precision, j) + j
    ensures Padding(a, j) == if a.width > length then a.width - length else 0
  {
  }

  lemma TextIs(a: Attrs, b: Base, n: nat, digits: string, pad: nat, trail: nat)
    requires digits == Repeat('0', Minus(a.precision, |DigitsOf(n, b)|)) + DigitsOf(n, b)
    requires pad == (if a.left then 0 else Padding(a, |DigitsOf(n, b)|))
    requires trail == (if a.left then Padding(a, |DigitsOf(n, b)|) else 0)
    ensures NumberText(n, a, b) == (if a.space then " " else "") + Repeat(if a.zero then '0' else ' ', pad)
                                   + Prefix(a, b) + digits + Repeat(' ', trail)
  {
    hide DigitsOf, Prefix, Minus, Padding;
    assert Repeat('0', 0) == "" && Repeat(' ', 0) == "";
  }

  /** One directive as a whole format. */
  lemma OneDirective(d: Directive, arg: Arg, t: string, dsize: nat)
    requires Proper(d) && ConversionText(ConversionOf(DirectiveAttrs(d), d.conversion), arg) == Option.Some(t)
    ensures Meaning([Conversion(d)], [arg]) == Option.Some(t)
    ensures |t| <= dsize ==> Rendered(DirectiveText(d), [arg], dsize) == Rendering(t, |t|, false)
  {
    hide ConversionText, ConversionOf, DirectiveAttrs, DirectiveText, Render, Proper;
    var items := [Conversion(d)];
    assert DirectiveText(d) + "" == DirectiveText(d) && items[1..] == [];
    assert Format(items) == DirectiveText(d);
    assert Meaning(items[1..], [arg][1..]) == Option.Some("");
    assert t + "" == t;
    MeaningPrinted(items, [arg], dsize);
  }

  /** For every directive for numbers and every argument, the output is the text that the directive asks
      for, digit by digit. */
  lemma NumberPrinted(d: Directive, v: Word, dsize: nat) returns (t: string)
    requires Proper(d) && IsNumeric(d.conversion)
    ensures Spells(d, v, t) && Meaning([Conversion(d)], [Number(v)]) == Option.Some(t)
    ensures |t| <= dsize ==> Rendered(DirectiveText(d), [Number(v)], dsize) == Rendering(t, |t|, false)
  {
    hide Spells, Proper, Meaning, Rendered, ConversionText, ConversionOf, DirectiveAttrs, DirectiveText;
    t := NumberSpelled(d, v);
    OneDirective(d, Number(v), t, dsize);
  }

  // ---------- one text only ----------

  function Power(radix: nat, n: nat): (r: nat)
    ensures radix > 0 ==> r > 0
  {
    if n == 0 then 1 else radix * Power(radix, n - 1)
  }

  lemma {:induction false} PowerGrows(radix: nat, m: nat, n: nat)
    requires radix > 0 && m <= n
    ensures Power(radix, m) <= Power(radix, n)
    decreases n
  {
    if m < n {
      PowerGrows(radix, m, n - 1);
    }
  }

  lemma DigitBelow(c: char, conversion: char)
    requires IsDigitOf(c, conversion)
    ensures DigitValue(c) < RadixOf(conversion) && (DigitValue(c) == 0 ==> c == '0') && RadixOf(conversion) >= 8
  {
  }

  lemma OneDigit(c: char, c': char, conversion: char)
    requires IsDigitOf(c, conversion) && IsDigitOf(c', conversion) && DigitValue(c) == DigitValue(c')
    ensures c == c'
  {
  }

  /** Digits stand for less than the next power, and without leading zeros for no less than their own. */
  lemma {:induction false} ReadsBounds(s: string, conversion: char)
    requires s != "" && forall k :: 0 <= k < |s| ==> IsDigitOf(s[k], conversion)
    ensures var r := RadixOf(conversion);
            Reads(s, r) < Power(r, |s|) && (s[0] != '0' ==> Power(r, |s| - 1) <= Reads(s, r))
  {
    hide IsDigitOf, DigitValue, RadixOf;
    var r, init, last := RadixOf(conversion), s[..|s| - 1], s[|s| - 1];
    DigitBelow(last, conversion);
    if init == "" {
      assert Reads(s, r) == r * Reads("", r) + DigitValue(last) == DigitValue(last);
      assert Power(r, 1) == r * Power(r, 0);
    } else {
      ReadsBounds(init, conversion);
      Below(Reads(init, r), Power(r, |s| - 1), r, DigitValue(last));
      assert s[0] == init[0];
      if s[0] != '0' {
        NotBelow(Power(r, |s| - 2), Reads(init, r), r);
      }
    }
  }

  lemma Below(x: nat, p: nat, r: nat, d: nat)
    requires x < p && d < r
    ensures r * x + d < r * p
  {
    ProductLess(x, p, r, d);
  }

  lemma NotBelow(p: nat, x: nat, r: nat)
    requires p <= x
    ensures r * p <= r * x
  {
  }

  lemma {:induction false} SameDigits(s: string, t: string, conversion: char)
    requires |s| == |t| && Reads(s, RadixOf(conversion)) == Reads(t, RadixOf(conversion))
    requires forall k :: 0 <= k < |s| ==> IsDigitOf(s[k], conversion) && IsDigitOf(t[k], conversion)
    ensures s == t
  {
    hide IsDigitOf, DigitValue, RadixOf;
    if s != "" {
      var r, n := RadixOf(conversion), |s| - 1;
      DigitBelow(s[n], conversion);
      DigitBelow(t[n], conversion);
      LastDigit(Reads(s[..n], r), DigitValue(s[n]), Reads(t[..n], r), DigitValue(t[n]), r);
      OneDigit(s[n], t[n], conversion);
      SameDigits(s[..n], t[..n], conversion);
      assert s == s[..n] + [s[n]] && t == t[..n] + [t[n]];
    }
  }

  lemma LastDigit(x: nat, d: nat, y: nat, e: nat, r: nat)
    requires d < r && e < r && r * x + d == r * y + e
    ensures x == y && d == e
  {
    Remainder(x, d, r);
    Remainder(y, e, r);
  }

  lemma NotLonger(d: Directive, n: nat, s: string, t: string)
    requires DigitsFor(d, n, s) && DigitsFor(d, n, t)
    ensures |s| >= |t|
  {
    hide IsDigitOf, RadixOf;
    var r := RadixOf(d.conversion);
    if |s| < |t| {
      DigitBelow(s[0], d.conversion);
      ReadsBounds(s, d.conversion);
      ReadsBounds(t, d.conversion);
      PowerGrows(r, |s|, |t| - 1);
    }
  }

  /** There is exactly one text that a directive asks for. */
  lemma SpelledOnce(d: Directive, v: Word, s: string, t: string)
    requires Spells(d, v, s) && Spells(d, v, t)
    ensures s == t
  {
    hide DigitsFor, NumberOf, WidthOf, Lead, Repeat;
    var pad, digits, trail :| SpelledAs(d, v, s, pad, digits, trail);
    var pad', digits', trail' :| SpelledAs(d, v, t, pad', digits', trail');
    NotLonger(d, NumberOf(d, v), digits, digits');
    NotLonger(d, NumberOf(d, v), digits', digits);
    DigitsAgree(d, NumberOf(d, v), digits, digits');
  }

  lemma DigitsAgree(d: Directive, n: nat, s: string, t: string)
    requires DigitsFor(d, n, s) && DigitsFor(d, n, t) && |s| == |t|
    ensures s == t
  {
    SameDigits(s, t, d.conversion);
  }

  // ---------- strings and characters ----------

  /** `%s` prints all of its string, or `<NULL>`, padded with spaces on the right if a minus is among the
      flags and on the left otherwise. A precision within the length of the string changes nothing. */
  lemma StringPrinted(d: Directive, text: Option<string>, dsize: nat) returns (t: string)
    requires Proper(d) && d.conversion == 's'
    requires PrecisionOf(d) <= if text.None? then 6 else |text.value|
    ensures var s := if text.None? then "<NULL>" else text.value;
            var pad := Repeat(' ', if WidthOf(d) > |s| then WidthOf(d) - |s| else 0);
            t == if '-' in d.flags then s + pad else pad + s
    ensures Meaning([Conversion(d)], [Text(text)]) == Option.Some(t)
    ensures |t| <= dsize ==> Rendered(DirectiveText(d), [Text(text)], dsize) == Rendering(t, |t|, false)
  {
    hide Proper, Meaning, Rendered, DirectiveAttrs, DirectiveText, WidthOf, PrecisionOf;
    AttrsRead(d);
    var s := if text.None? then "<NULL>" else text.value;
    t := PaddedText(s, DirectiveAttrs(d));
    assert "" + s == s && s + "" == s;
    OneDirective(d, Text(text), t, dsize);
  }

  /** `%c` prints the character of the argument's low byte, padded likewise. */
  lemma CharPrinted(d: Directive, v: Word, dsize: nat) returns (t: string)
    requires Proper(d) && d.conversion == 'c'
    ensures var c := (v % 256) as char;
            var pad := Repeat(' ', if WidthOf(d) > 1 then WidthOf(d) - 1 else 0);
            t == if '-' in d.flags then [c] + pad else pad + [c]
    ensures Meaning([Conversion(d)], [Number(v)]) == Option.Some(t)
    ensures |t| <= dsize ==> Rendered(DirectiveText(d), [Number(v)], dsize) == Rendering(t, |t|, false)
  {
    hide Proper, Meaning, Rendered, DirectiveAttrs, DirectiveText, WidthOf;
    AttrsRead(d);
    var s := [(v % 256) as char];
    t := PaddedText(s, DirectiveAttrs(d));
    assert "" + s == s && s + "" == s;
    OneDirective(d, Number(v), t, dsize);
  }

  /** `%p` alone prints `0x` and the hexadecimal digits of all 64 bits, in lower case. */
  lemma PointerPrinted(v: Word) returns (digits: string)
    ensures (forall k :: 0 <= k < |digits| ==> '0' <= digits[k] <= '9' || 'a' <= digits[k] <= 'f')
    ensures Reads(digits, 16) == v && digits != "" && (|digits| > 1 ==> digits[0] != '0')
    ensures forall dsize: nat :: 2 + |digits| <= dsize ==>
              Rendered("%p", [Number(v)], dsize) == Rendering("0x" + digits, 2 + |digits|, false)
  {
    hide Rendered, Meaning, Repeat;
    var d := Directive("", "", Option.None, Plain, 'p');
    assert DirectiveText(d) == "%p";
    var t := NumberPrinted(d, v, 0);
    var pad, ds, trail :| SpelledAs(d, v, t, pad, ds, trail);
    digits := ds;
    assert t == "0x" + digits by {
      NoPadding(pad, trail);
      assert "" + "" + "0x" + digits + "" == "0x" + digits;
    }
    forall dsize: nat | 2 + |digits| <= dsize
      ensures Rendered("%p", [Number(v)], dsize) == Rendering("0x" + digits, 2 + |digits|, false)
    {
      var t' := NumberPrinted(d, v, dsize);
      SpelledOnce(d, v, t, t');
    }
  }

  lemma NoPadding(pad: nat, trail: nat)
    requires pad + trail == 0
    ensures Repeat(' ', pad) == "" && Repeat(' ', trail) == ""
  {
  }

  // ---------- too little room ----------

  /** The last n digits stand for the number modulo a power of the base. */
  lemma {:induction false} ReadsEnd(s: string, conversion: char, n: nat)
    requires n <= |s| && forall k :: 0 <= k < |s| ==> IsDigitOf(s[k], conversion)
    ensures var r := RadixOf(conversion);
            r > 0 && Power(r, n) > 0 && Reads(s[|s| - n..], r) == Reads(s, r) % Power(r, n)
    decreases n
  {
    hide IsDigitOf, DigitValue, RadixOf;
    var r := RadixOf(conversion);
    RadixPositive(conversion);
    if n == 0 {
      assert s[|s|..] == "";
    } else {
      var init, last, end := s[..|s| - 1], s[|s| - 1], s[|s| - n..];
      DigitBelow(last, conversion);
      ReadsEnd(init, conversion, n - 1);
      assert init[|init| - (n - 1)..] == end[..n - 1] && end[|end| - 1] == last;
      TakeDigit(Reads(init, r), Power(r, n - 1), r, DigitValue(last));
    }
  }

  lemma RadixPositive(conversion: char)
    ensures RadixOf(conversion) > 0
  {
  }

  lemma TakeDigit(x: nat, p: nat, r: nat, d: nat)
    requires p > 0 && d < r
    ensures r * p > 0 && (r * x + d) % (r * p) == r * (x % p) + d
  {
    var q, m := x / p, x % p;
    Quotient(x, p);
    Product(r, p);
    Below(m, p, r, d);
    Distribute(r, q * p, m);
    Swap(r, q, p);
    Remainder(q, r * m + d, r * p);
  }

  lemma Distribute(r: nat, a: nat, b: nat)
    ensures r * (a + b) == r * a + r * b
  {
  }

  lemma Swap(r: nat, q: nat, p: nat)
    ensures r * (q * p) == q * (r * p)
  {
  }

  lemma BarePieces(n: nat, a: Attrs, b: Base)
    requires a.width == 0 && a.precision == 0 && !a.left && !a.space && Prefix(a, b) == ""
    ensures NumberPieces(n, a, b) == [Pad(if a.zero then '0' else ' ', 0)] + ([Pad('0', 0)] + [Low(DigitsOf(n, b))])
  {
    hide DigitsOf, Repeat;
    assert BeforePieces(a, b, |DigitsOf(n, b)|) == [Pad(if a.zero then '0' else ' ', 0)] + [Pad('0', 0)];
  }

  lemma BareOutput(n: nat, a: Attrs, b: Base, room: nat)
    requires a.width == 0 && a.precision == 0 && !a.left && !a.space && Prefix(a, b) == "" && room <= |DigitsOf(n, b)|
    ensures Output(NumberPieces(n, a, b), room) == (DigitsOf(n, b)[|DigitsOf(n, b)| - room..], true)
  {
    hide DigitsOf, NumberPieces, Prefix;
    var ds := DigitsOf(n, b);
    BarePieces(n, a, b);
    EmptyThenLow(Pad('0', 0), ds, room);
    NothingWritten(Pad(if a.zero then '0' else ' ', 0), room);
    EmitAppend([Pad(if a.zero then '0' else ' ', 0)], [Pad('0', 0)] + [Low(ds)], room);
    var end := ds[|ds| - room..];
    assert "" + end == end;
  }

  lemma EmptyThenLow(p: Piece, ds: string, room: nat)
    requires p.Whole? && p.s == "" && room <= |ds|
    ensures Emit([p] + [Low(ds)], room) == (ds[|ds| - room..], true)
  {
    NothingWritten(p, room);
    OnePiece(Low(ds), room);
    EmitAppend([p], [Low(ds)], room);
    assert ds[0..] == ds;
    var end := ds[|ds| - room..];
    assert "" + end == end;
  }

  lemma NothingWritten(p: Piece, room: nat)
    requires p.Whole? && p.s == ""
    ensures Emit([p], room) == ("", true)
  {
    OnePiece(p, room);
  }

  /** A number without flags, width and precision that does not fit loses its most significant digits:
      what is written reads as the number modulo a power of the base. */
  lemma NumberCut(d: Directive, v: Word, dsize: nat) returns (out: string)
    requires Proper(d) && IsNumeric(d.conversion) && d.conversion != 'p'
    requires d.flags == "" && d.width == "" && d.precision.None?
             && Power(RadixOf(d.conversion), dsize) <= NumberOf(d, v)
    ensures Rendered(DirectiveText(d), [Number(v)], dsize) == Rendering(out, dsize, false) && |out| == dsize
    ensures var p := Power(RadixOf(d.conversion), dsize);
            p > 0 && Reads(out, RadixOf(d.conversion)) == NumberOf(d, v) % p
  {
    hide Proper, Render, DirectiveText, DirectiveAttrs, ConversionOf, NumberArg, NumberOf, DigitsOf, Reads, Prefix,
         IsDigitOf,
         RadixOf, NumberPieces, Output;
    var a := NumberAction(d, v);
    AttrsRead(d);
    NoDigitsRead();
    var n, b := NumberOf(d, v), BaseFor(d.conversion);
    var ds := DigitsOf(n, b);
    DigitsIn(n, d.conversion);
    RadixFor(d.conversion);
    DigitsValue(n, b);
    ReadsValue(ds, b);
    ReadsBounds(ds, d.conversion);
    RadixPositive(d.conversion);
    if |ds| <= dsize {
      PowerGrows(RadixOf(d.conversion), |ds|, dsize);
    }
    out := ds[|ds| - dsize..];
    ReadsEnd(ds, d.conversion, dsize);
    BareOutput(n, a, b, dsize);
    DirectiveCut(d, v, dsize, a, n, b, out);
  }

  lemma NoDigitsRead()
    ensures Reads("", 10) == 0
  {
  }

  lemma DirectiveCut(d: Directive, v: Word, dsize: nat, a: Attrs, n: nat, b: Base, out: string)
    requires Proper(d) && ConversionOf(DirectiveAttrs(d), d.conversion).PrintNumber?
    requires var act := ConversionOf(DirectiveAttrs(d), d.conversion);
             act.attrs == a && act.base == b && NumberArg(a, act.unsignedInt, v) == n
    requires Output(NumberPieces(n, a, b), dsize) == (out, true) && |out| == dsize
    ensures Rendered(DirectiveText(d), [Number(v)], dsize) == Rendering(out, dsize, false)
  {
    hide At, Proper, DirectiveText, DirectiveAttrs, Interpret, ConversionOf, Walks, Parts, NumberPieces, NumberArg,
         Output;
    var fmt := DirectiveText(d);
    assert "" + fmt + "" == fmt;
    AtHere("", fmt, "");
    var q := DirectiveWalk(fmt, 0, d);
    RenderOpens(fmt, 0, [Number(v)], dsize);
    RenderWalks(fmt, 1, NO_ATTRS, q, Parts(d), [Number(v)], dsize);
    ConversionAt(fmt, q, d);
    RenderConversion(fmt, Cursor(q, 0, true, Parts(d), 0, 0, false, ""), [Number(v)], dsize, NumberPieces(n, a, b));
    assert out + "" == out;
    AtTheEnd(fmt, [Number(v)][1..], 0);
  }
}
