/** Printing numbers: `__digit` and its helpers (mlibc/kprintf.c). */
module NumberPrinting {
  import opened Words
  import opened Bits

  const FMT_DBUF_SIZE: nat := 64

  datatype Base = Oct | Dec | Hex | HexUp

  /** The length modifiers that a directive has had. */
  datatype Modifiers = Modifiers(hh: bool, h: bool, l: bool, ll: bool, z: bool)

  const NO_MODIFIERS: Modifiers := Modifiers(false, false, false, false, false)

  /** The fields of `struct fattrs` and its flags. */
  datatype Attrs = Attrs(width: nat, precision: nat, cinf: nat, dot: bool,
                         left: bool, zero: bool, sign: bool, space: bool, prefix: bool, mods: Modifiers)

  const NO_ATTRS: Attrs := Attrs(0, 0, 0, false, false, false, false, false, false, NO_MODIFIERS)

  function Radix(b: Base): (r: nat)
    ensures 8 <= r <= 16
  {
    match b
    case Oct => 8
    case Dec => 10
    case Hex => 16
    case HexUp => 16
  }

  /** `nums[i]` */
  function DigitChar(i: nat, b: Base): (c: char)
    requires i < Radix(b)
    ensures c != ' '
  {
    if i < 10 then '0' + i as char else if b == HexUp then 'A' + (i - 10) as char else 'a' + (i - 10) as char
  }

  /** The digits of d, the most significant first. */
  function DigitsOf(d: nat, b: Base): (s: string)
    ensures |s| > 0 && forall k :: 0 <= k < |s| ==> s[k] != ' '
  {
    if d < Radix(b) then [DigitChar(d, b)] else DigitsOf(d / Radix(b), b) + [DigitChar(d % Radix(b), b)]
  }

  function Repeat(c: char, n: nat): (s: string)
    ensures |s| == n && forall k :: 0 <= k < n ==> s[k] == c
  {
    seq(n, _ => c)
  }

  function Minus(a: nat, b: nat): nat {
    if a <= b then 0 else a - b
  }

  /** Zeros before the digits, and padding beyond that, for j digits. */
  function Zeros(a: Attrs, j: nat): nat {
    Minus(a.precision, j)
  }

  function Padding(a: Attrs, j: nat): nat {
    Minus(Minus(a.width, j), Zeros(a, j))
  }

  function Prefix(a: Attrs, b: Base): string {
    if b == Dec then if a.sign then "+" else ""
    else if !a.prefix then ""
    else if b == Oct then "0" else if b == HexUp then "0X" else "0x"
  }

  /** The text before the digits, and after them. */
  function Before(a: Attrs, b: Base, j: nat): string {
    (if a.space then " " else "") + (if a.left then "" else Repeat(if a.zero then '0' else ' ', Padding(a, j)))
    + Prefix(a, b) + Repeat('0', Zeros(a, j))
  }

  function Behind(a: Attrs, j: nat): string {
    if a.left then Repeat(' ', Padding(a, j)) else ""
  }

  /** What a number looks like when there is room for it. */
  function NumberText(d: nat, a: Attrs, b: Base): string {
    var ds := DigitsOf(d, b);
    Before(a, b, |ds|) + ds + Behind(a, |ds|)
  }

  // ---------- reading a number back ----------

  function DigitValue(c: char): nat {
    if '0' <= c <= '9' then (c - '0') as nat else if 'a' <= c <= 'f' then (c - 'a') as nat + 10
    else if 'A' <= c <= 'F' then (c - 'A') as nat + 10 else 0
  }

  /** The value of a string of digits. */
  function Value(s: string, b: Base): nat {
    if s == "" then 0 else Radix(b) * Value(s[..|s| - 1], b) + DigitValue(s[|s| - 1])
  }

  function NoSpaces(s: string): string {
    if s == "" then "" else NoSpaces(s[..|s| - 1]) + if s[|s| - 1] == ' ' then "" else [s[|s| - 1]]
  }

  lemma DigitCharValue(i: nat, b: Base)
    requires i < Radix(b)
    ensures DigitValue(DigitChar(i, b)) == i
  {
  }

  lemma {:induction false} DigitsValue(d: nat, b: Base)
    ensures Value(DigitsOf(d, b), b) == d
    decreases d
  {
    hide DigitChar, DigitValue;
    var s := DigitsOf(d, b);
    if d < Radix(b) {
      DigitCharValue(d, b);
      assert s[..|s| - 1] == "" && Value("", b) == 0;
    } else {
      DigitsValue(d / Radix(b), b);
      DigitCharValue(d % Radix(b), b);
      assert s[..|s| - 1] == DigitsOf(d / Radix(b), b);
    }
  }

  lemma {:induction false} LeadingZeros(s: string, b: Base, n: nat)
    ensures Value(Repeat('0', n) + s, b) == Value(s, b)
    decreases |s|, n
  {
    var z := Repeat('0', n) + s;
    if s != "" {
      assert z[..|z| - 1] == Repeat('0', n) + s[..|s| - 1];
      LeadingZeros(s[..|s| - 1], b, n);
    } else if n > 0 {
      assert z[..|z| - 1] == Repeat('0', n - 1) + s;
      LeadingZeros(s, b, n - 1);
    }
  }

  lemma {:induction false} NoSpacesAppend(s: string, t: string)
    ensures NoSpaces(s + t) == NoSpaces(s) + NoSpaces(t)
    decreases |t|
  {
    if t == "" {
      assert s + t == s;
    } else {
      assert (s + t)[..|s + t| - 1] == s + t[..|t| - 1];
      NoSpacesAppend(s, t[..|t| - 1]);
    }
  }

  lemma {:induction false} NoSpacesKeeps(s: string)
    requires forall k :: 0 <= k < |s| ==> s[k] != ' '
    ensures NoSpaces(s) == s
  {
    if s != "" {
      NoSpacesKeeps(s[..|s| - 1]);
      assert s == s[..|s| - 1] + [s[|s| - 1]];
    }
  }

  lemma {:induction false} NoSpacesDrops(n: nat)
    ensures NoSpaces(Repeat(' ', n)) == ""
  {
    if n > 0 {
      NoSpacesDrops(n - 1);
      assert Repeat(' ', n)[..n - 1] == Repeat(' ', n - 1);
    }
  }

  /** The zeros that pad a number on the left. */
  function FrontZeros(a: Attrs, j: nat): nat {
    if a.left || !a.zero then 0 else Padding(a, j)
  }

  /** Without its spaces a printed number is its digits with zeros before them. */
  lemma NoSpacesText(d: nat, a: Attrs, b: Base)
    requires Prefix(a, b) == ""
    ensures var ds := DigitsOf(d, b);
            NoSpaces(NumberText(d, a, b)) == Repeat('0', FrontZeros(a, |ds|)) + (Repeat('0', Zeros(a, |ds|)) + ds)
  {
    hide DigitsOf, Repeat, NoSpaces, Prefix, Padding, Zeros;
    var ds := DigitsOf(d, b);
    var j := |ds|;
    var zeros := Repeat('0', Zeros(a, j));
    var space := if a.space then " " else "";
    var pad := if a.left then "" else Repeat(if a.zero then '0' else ' ', Padding(a, j));
    assert Before(a, b, j) == space + pad + zeros;
    NoSpacesAppend(Before(a, b, j) + ds, Behind(a, j));
    NoSpacesAppend(Before(a, b, j), ds);
    NoSpacesAppend(space + pad, zeros);
    NoSpacesAppend(space, pad);
    NoSpacesKeeps(ds);
    NoSpacesKeeps(zeros);
    SpaceGone(a);
    PadGone(a, Padding(a, j));
    NoZeros();
  }

  lemma NoZeros()
    ensures Repeat('0', 0) == ""
  {
  }

  /** The printed number, spaces removed, reads back as the number: for every 64-bit value, base, width,
      precision and flag, unless a sign or a prefix was asked for. */
  lemma PrintRoundTrip(d: nat, a: Attrs, b: Base)
    requires Prefix(a, b) == ""
    ensures Value(NoSpaces(NumberText(d, a, b)), b) == d
  {
    hide DigitsOf, Value, Repeat, NoSpaces, NumberText, Prefix, FrontZeros, Zeros;
    var ds := DigitsOf(d, b);
    NoSpacesText(d, a, b);
    DigitsValue(d, b);
    LeadingZeros(ds, b, Zeros(a, |ds|));
    LeadingZeros(Repeat('0', Zeros(a, |ds|)) + ds, b, FrontZeros(a, |ds|));
  }

  lemma SpaceGone(a: Attrs)
    ensures NoSpaces(if a.space then " " else "") == ""
  {
    assert " "[..0] == "";
  }

  lemma PadGone(a: Attrs, n: nat)
    ensures NoSpaces(if a.left then "" else Repeat(if a.zero then '0' else ' ', n)) == if a.left || !a.zero then ""
            else Repeat('0', n)
    ensures NoSpaces(if a.left then Repeat(' ', n) else "") == ""
  {
    NoSpacesDrops(n);
    NoSpacesKeeps(Repeat('0', n));
  }

  /** The length of a printed number without sign or prefix. */
  lemma PrintLength(d: nat, a: Attrs, b: Base)
    requires Prefix(a, b) == ""
    ensures var j := |DigitsOf(d, b)|;
            var n := |NumberText(d, a, b)| - if a.space then 1 else 0;
            n >= a.width && n >= a.precision && n >= j && (n == a.width || n == a.precision || n == j)
  {
    hide DigitsOf;
  }

  lemma {:induction false} DigitCount(d: nat, b: Base, n: nat)
    requires d < Pow2(n) && n > 0
    ensures |DigitsOf(d, b)| <= n
    decreases n
  {
    if d >= Radix(b) {
      assert d / Radix(b) < Pow2(n - 1);
      DigitCount(d / Radix(b), b, n - 1);
    }
  }

  /** A signed decimal is printed as the 64-bit pattern that represents it, because the test for a
      negative number looks at an unsigned variable: it reads back exactly if it is not negative. */
  lemma SignedExactly(v: int, a: Attrs)
    requires v < TWO64 / 2 && -v <= TWO64 / 2 && Prefix(a, Dec) == ""
    ensures (Value(NoSpaces(NumberText(Add64(v, 0), a, Dec)), Dec) == v) <==> v >= 0
  {
    hide NumberText, Value, NoSpaces, Prefix;
    PrintRoundTrip(Add64(v, 0), a, Dec);
  }
}
