/** How the kernel's printf writes into its buffer (mlibc/kprintf.c): characters, padding, numbers,
    strings, and what becomes of them when there is little room. */
module Emission {
  import opened Words
  import opened Bits
  import opened NumberPrinting

  // ---------- writing into the buffer ----------

  /** `s` with `t` written over it from position `off` on. */
  ghost function Overlay(s: string, off: nat, t: string): string
    requires off + |t| <= |s|
  {
    s[..off] + t + s[off + |t|..]
  }

  lemma OverlayTwice(s: string, off: nat, t: string, u: string)
    requires off + |t| + |u| <= |s|
    ensures Overlay(Overlay(s, off, t), off + |t|, u) == Overlay(s, off, t + u)
  {
    assert Overlay(s, off, t)[..off + |t|] == s[..off] + t;
    assert Overlay(s, off, t)[off + |t| + |u|..] == s[off + |t| + |u|..];
  }

  /** Only positions from off to off + room may have changed. */
  ghost predicate Within(before: string, after: string, off: nat, room: nat) {
    |after| == |before| && off + room <= |before| && after[..off] == before[..off]
      && after[off + room..] == before[off + room..]
  }

  /** `memset` */
  method Memset(dest: array<char>, off: nat, c: char, n: nat)
    requires off + n <= dest.Length
    modifies dest
    ensures dest[..] == Overlay(old(dest[..]), off, Repeat(c, n))
  {
    forall k | off <= k < off + n {
      dest[k] := c;
    }
  }

  /** `__copy_byte_ip` */
  method CopyByteIp(dest: array<char>, off: nat, room: nat, c: char) returns (ok: bool)
    requires off + room <= dest.Length
    modifies dest
    ensures ok <==> room > 0
    ensures dest[..] == if ok then Overlay(old(dest[..]), off, [c]) else old(dest[..])
  {
    if room == 0 {
      return false;
    }
    dest[off] := c;
    ok := true;
  }

  /** `__make_width`: padding is written in full or not at all. */
  method MakeWidth(dest: array<char>, off: nat, room: nat, c: char, width: nat) returns (n: nat)
    requires off + room <= dest.Length
    modifies dest
    ensures n == (if width <= room then width else 0) && dest[..] == Overlay(old(dest[..]), off, Repeat(c, n))
  {
    if width == 0 || width > room {
      return 0;
    }
    Memset(dest, off, c, width);
    n := width;
  }

  // ---------- numbers ----------

  ghost function Reverse(s: string): string {
    if s == "" then "" else Reverse(s[1..]) + [s[0]]
  }

  lemma {:induction false} ReverseAppend(s: string, c: char)
    ensures Reverse(s + [c]) == [c] + Reverse(s) && |Reverse(s)| == |s|
  {
    if s == "" {
      assert [c][1..] == "";
    } else {
      assert (s + [c])[1..] == s[1..] + [c];
      ReverseAppend(s[1..], c);
    }
  }

  lemma {:induction false} ReverseAt(s: string, k: nat)
    requires k < |s|
    ensures |Reverse(s)| == |s| && Reverse(s)[k] == s[|s| - 1 - k]
  {
    ReverseAppend(s[1..], s[0]);
    if k < |s| - 1 {
      ReverseAt(s[1..], k);
    }
  }

  lemma NextDigit(rest: nat, b: Base, was: string)
    ensures var was' := was + [DigitChar(rest % Radix(b), b)];
            && rest / Radix(b) < rest + 1
            && (rest / Radix(b) == 0 ==> Reverse(was') == DigitsOf(rest, b) + Reverse(was))
            && (rest / Radix(b) != 0 ==>
                  && rest / Radix(b) < rest && |DigitsOf(rest, b)| == 1 + |DigitsOf(rest / Radix(b), b)|
                  && DigitsOf(rest / Radix(b), b) + Reverse(was') == DigitsOf(rest, b) + Reverse(was))
  {
    hide DigitChar;
    ReverseAppend(was, DigitChar(rest % Radix(b), b));
  }

  /** How far the digits have got: what is in the buffer, reversed, ends the number. */
  ghost predicate Tail(d: nat, b: Base, rest: nat, more: bool, was: string) {
    if more then |was| + |DigitsOf(rest, b)| <= FMT_DBUF_SIZE && DigitsOf(rest, b) + Reverse(was) == DigitsOf(d, b)
    else was != "" && Reverse(was) == DigitsOf(d, b)
  }

  lemma TailStart(d: Word, b: Base)
    ensures Tail(d, b, d, true, "")
  {
    hide DigitsOf;
    WordSizes();
    DigitCount(d, b, 64);
    assert DigitsOf(d, b) + "" == DigitsOf(d, b);
  }

  /** `d % base` and `d / base` */
  function LowDigit(d: nat, b: Base): (i: nat)
    ensures i < Radix(b)
  {
    d % Radix(b)
  }

  function HighDigits(d: nat, b: Base): nat {
    d / Radix(b)
  }

  lemma TailNext(d: nat, b: Base, rest: nat, was: string)
    requires Tail(d, b, rest, true, was)
    ensures |was| < FMT_DBUF_SIZE && HighDigits(rest, b) <= rest
            && (HighDigits(rest, b) != 0 ==> HighDigits(rest, b) < rest)
    ensures Tail(d, b, HighDigits(rest, b), HighDigits(rest, b) != 0, was + [DigitChar(LowDigit(rest, b), b)])
  {
    hide DigitsOf, Reverse, DigitChar, Radix;
    NextDigit(rest, b, was);
  }

  /** The loop that fills `tmp_buf`: the digits of d, the least significant first. */
  method DigitSequence(d: Word, b: Base) returns (tmp: array<char>, j: nat)
    ensures fresh(tmp) && 0 < j <= tmp.Length && Reverse(tmp[..j]) == DigitsOf(d, b)
  {
    hide DigitChar, Tail, Radix, Reverse, DigitsOf, LowDigit, HighDigits;
    tmp := new char[FMT_DBUF_SIZE](_ => '\0');
    j := 0;
    var rest: nat, more := d, true;
    assert tmp[..0] == "";
    TailStart(d, b);
    while more
      invariant j <= tmp.Length == FMT_DBUF_SIZE && fresh(tmp) && Tail(d, b, rest, more, tmp[..j])
      decreases rest, more
    {
      ghost var was := tmp[..j];
      TailNext(d, b, rest, was);
      var c := DigitChar(LowDigit(rest, b), b);
      rest := HighDigits(rest, b);
      tmp[j] := c;
      j := j + 1;
      assert tmp[..j] == was + [c];
      more := rest != 0;
    }
    TailEnd(d, b, rest, tmp[..j]);
  }

  lemma TailEnd(d: nat, b: Base, rest: nat, was: string)
    requires Tail(d, b, rest, false, was)
    ensures was != "" && Reverse(was) == DigitsOf(d, b)
  {
  }

  // ---------- pieces of output ----------

  /** The output is made of pieces. Without room for a `Must` character the whole output ends, a `Whole`
      piece is written in full or not at all, and of a `Low` piece as much of its end as there is room
      for. */
  datatype Piece = Must(c: char) | Whole(s: string) | Low(s: string)

  /** What is written of one piece into the given room, and whether the output goes on. */
  function EmitOne(p: Piece, room: nat): (r: (string, bool))
    ensures |r.0| <= room
  {
    match p
    case Must(c) => if room == 0 then ("", false) else ([c], true)
    case Whole(s) => (if |s| <= room then s else "", true)
    case Low(s) => (if |s| <= room then s else s[|s| - room..], true)
  }

  /** What is written of the pieces. */
  function Emit(ps: seq<Piece>, room: nat): (r: (string, bool))
    ensures |r.0| <= room
    decreases |ps|
  {
    if ps == [] then ("", true) else
      var (s, ok) := EmitOne(ps[0], room);
      if !ok then (s, false) else
        var (out, ok') := Emit(ps[1..], room - |s|);
        (s + out, ok')
  }

  lemma OnePiece(p: Piece, room: nat)
    ensures Emit([p], room) == EmitOne(p, room)
  {
    hide EmitOne;
    assert [p][1..] == [];
    var s := EmitOne(p, room).0;
    assert s + "" == s;
  }

  function PieceText(p: Piece): string {
    if p.Must? then [p.c] else p.s
  }

  lemma PieceFits(p: Piece, room: nat)
    requires |PieceText(p)| <= room
    ensures EmitOne(p, room) == (PieceText(p), true)
  {
  }

  /** The text that the pieces stand for. */
  function Flat(ps: seq<Piece>): string {
    if ps == [] then "" else PieceText(ps[0]) + Flat(ps[1..])
  }

  /** `Emit`, by another name, which proofs can hide. */
  function Output(ps: seq<Piece>, room: nat): (r: (string, bool))
    ensures |r.0| <= room
  {
    Emit(ps, room)
  }

  lemma {:induction false} EmitAppend(ps: seq<Piece>, qs: seq<Piece>, room: nat)
    ensures var (out, ok) := Emit(ps, room);
            Emit(ps + qs, room) == if !ok then (out, false) else
              var (out', ok') := Emit(qs, room - |out|);
              (out + out', ok')
    decreases |ps|
  {
    hide EmitOne;
    if ps == [] {
      assert ps + qs == qs;
      assert "" + Emit(qs, room).0 == Emit(qs, room).0;
    } else {
      assert (ps + qs)[1..] == ps[1..] + qs;
      var (s, ok) := EmitOne(ps[0], room);
      if ok {
        EmitAppend(ps[1..], qs, room - |s|);
        var (out, ok') := Emit(ps[1..], room - |s|);
        if ok' {
          var out' := Emit(qs, room - |s| - |out|).0;
          assert s + (out + out') == s + out + out';
        }
      }
    }
  }

  /** With room for all of it, the text is written. */
  lemma {:induction false} EmitFits(ps: seq<Piece>, room: nat)
    requires |Flat(ps)| <= room
    ensures Emit(ps, room) == (Flat(ps), true)
    decreases |ps|
  {
    hide EmitOne, PieceText;
    if ps != [] {
      PieceFits(ps[0], room);
      EmitFits(ps[1..], room - |PieceText(ps[0])|);
    }
  }

  lemma {:induction false} FlatAppend(ps: seq<Piece>, qs: seq<Piece>)
    ensures Flat(ps + qs) == Flat(ps) + Flat(qs)
    decreases |ps|
  {
    if ps == [] {
      assert ps + qs == qs;
    } else {
      assert (ps + qs)[1..] == ps[1..] + qs;
      FlatAppend(ps[1..], qs);
    }
  }

  /** Without `Must` pieces the output always goes on. */
  lemma {:induction false} NoMustGoesOn(ps: seq<Piece>, room: nat)
    requires forall k :: 0 <= k < |ps| ==> !ps[k].Must?
    ensures Emit(ps, room).1
    decreases |ps|
  {
    if ps != [] {
      assert !ps[0].Must?;
      NoMustGoesOn(ps[1..], room - |EmitOne(ps[0], room).0|);
    }
  }

  // ---------- what the pieces are ----------

  function Some<T>(cond: bool, ps: seq<T>): seq<T> {
    if cond then ps else []
  }

  function Pad(c: char, n: nat): Piece {
    Whole(Repeat(c, n))
  }

  function PrefixPieces(a: Attrs, b: Base): seq<Piece> {
    if b == Dec then Some(a.sign, [Must('+')])
    else Some(a.prefix, [Must('0')] + (if b == Hex then [Must('x')] else if b == HexUp then [Must('X')] else []))
  }

  function BeforePieces(a: Attrs, b: Base, j: nat): seq<Piece> {
    Some(a.space, [Must(' ')]) + Some(!a.left, [Pad(if a.zero then '0' else ' ', Padding(a, j))]) + PrefixPieces(a, b)
    + [Pad('0', Zeros(a, j))]
  }

  /** A number: padding, sign or prefix, zeros, digits, padding. */
  function NumberPieces(d: nat, a: Attrs, b: Base): seq<Piece> {
    var ds := DigitsOf(d, b);
    BeforePieces(a, b, |ds|) + [Low(ds)] + Some(a.left, [Pad(' ', Padding(a, |ds|))])
  }

  function StringPieces(s: string, a: Attrs): seq<Piece> {
    var pad := Pad(' ', Minus(a.width, |s|));
    Some(!a.left, [pad]) + [Whole(s)] + Some(a.left, [pad])
  }

  function CharPieces(c: char, a: Attrs): seq<Piece> {
    var pad := Pad(' ', Minus(a.width, 1));
    Some(!a.left, [pad]) + [Must(c)] + Some(a.left, [pad])
  }

  /** A padded text, when there is room for it. */
  function PaddedText(s: string, a: Attrs): string {
    var pad := Repeat(' ', Minus(a.width, |s|));
    (if a.left then "" else pad) + s + if a.left then pad else ""
  }

  lemma FlatOne(p: Piece)
    ensures Flat([p]) == PieceText(p)
  {
    assert [p][1..] == [];
  }

  lemma FlatSome(cond: bool, p: Piece)
    ensures Flat(Some(cond, [p])) == if cond then PieceText(p) else ""
  {
    FlatOne(p);
  }

  lemma FlatPrefix(a: Attrs, b: Base)
    ensures Flat(PrefixPieces(a, b)) == Prefix(a, b)
  {
    FlatOne(Must('+'));
    FlatOne(Must('0'));
    FlatAppend([Must('0')], [Must('x')]);
    FlatOne(Must('x'));
    FlatAppend([Must('0')], [Must('X')]);
    FlatOne(Must('X'));
    assert [Must('0')] + [] == [Must('0')];
  }

  lemma FlatNumber(d: nat, a: Attrs, b: Base)
    ensures Flat(NumberPieces(d, a, b)) == NumberText(d, a, b)
  {
    hide Flat, PrefixPieces, Prefix, DigitsOf, Padding, Zeros, Repeat;
    var ds := DigitsOf(d, b);
    var j := |ds|;
    var space, zeros := Some(a.space, [Must(' ')]), Pad('0', Zeros(a, j));
    var pad := Pad(if a.zero then '0' else ' ', Padding(a, j));
    FlatAppend(BeforePieces(a, b, j) + [Low(ds)], Some(a.left, [Pad(' ', Padding(a, j))]));
    FlatAppend(BeforePieces(a, b, j), [Low(ds)]);
    FlatAppend(space + Some(!a.left, [pad]) + PrefixPieces(a, b), [zeros]);
    FlatAppend(space + Some(!a.left, [pad]), PrefixPieces(a, b));
    FlatAppend(space, Some(!a.left, [pad]));
    FlatSome(a.space, Must(' '));
    FlatSome(!a.left, pad);
    FlatPrefix(a, b);
    FlatOne(zeros);
    FlatOne(Low(ds));
    FlatSome(a.left, Pad(' ', Padding(a, j)));
  }

  lemma FlatString(s: string, a: Attrs)
    ensures Flat(StringPieces(s, a)) == PaddedText(s, a)
  {
    hide Flat, Repeat, Minus;
    var pad := Pad(' ', Minus(a.width, |s|));
    FlatAppend(Some(!a.left, [pad]) + [Whole(s)], Some(a.left, [pad]));
    FlatAppend(Some(!a.left, [pad]), [Whole(s)]);
    FlatSome(!a.left, pad);
    FlatSome(a.left, pad);
    FlatOne(Whole(s));
  }

  lemma FlatChar(c: char, a: Attrs)
    ensures Flat(CharPieces(c, a)) == PaddedText([c], a)
  {
    hide Flat, Repeat, Minus;
    var pad := Pad(' ', Minus(a.width, 1));
    FlatAppend(Some(!a.left, [pad]) + [Must(c)], Some(a.left, [pad]));
    FlatAppend(Some(!a.left, [pad]), [Must(c)]);
    FlatSome(!a.left, pad);
    FlatSome(a.left, pad);
    FlatOne(Must(c));
  }

  /** Into any room at all, some of a number is written unless the output ends. */
  lemma NumberStarts(d: nat, a: Attrs, b: Base, room: nat)
    ensures room > 0 && Emit(NumberPieces(d, a, b), room).1 ==> Emit(NumberPieces(d, a, b), room).0 != ""
  {
    hide DigitsOf;
    var ds := DigitsOf(d, b);
    var before, behind := BeforePieces(a, b, |ds|), Some(a.left, [Pad(' ', Padding(a, |ds|))]);
    EmitAppend(before + [Low(ds)], behind, room);
    EmitAppend(before, [Low(ds)], room);
    LowStarts(ds, room - |Emit(before, room).0|);
  }

  lemma LowStarts(ds: string, room: nat)
    requires ds != ""
    ensures Emit([Low(ds)], room) == Output([Low(ds)], room) == (if |ds| <= room then ds else ds[|ds| - room..], true)
  {
    OnePiece(Low(ds), room);
  }

  // ---------- writing the pieces ----------

  /** The pieces were written at `off`: `out` is what came of them, and `ok` whether the output goes on. */
  ghost predicate Emitted(before: string, after: string, off: nat, room: nat, ps: seq<Piece>, ok: bool, out: string) {
    off + room <= |before| && (out, ok) == Output(ps, room) && after == Overlay(before, off, out)
  }

  lemma EmittedRoom(s: string, s': string, off: nat, room: nat, ps: seq<Piece>, ok: bool, out: string)
    requires Emitted(s, s', off, room, ps, ok, out)
    ensures |out| <= room
  {
  }

  lemma EmittedJoin(s0: string, s1: string, s2: string, off: nat, room: nat,
                    ps: seq<Piece>, out: string, qs: seq<Piece>, ok: bool, out': string)
    requires Emitted(s0, s1, off, room, ps, true, out) && |out| <= room
    requires Emitted(s1, s2, off + |out|, room - |out|, qs, ok, out')
    ensures Emitted(s0, s2, off, room, ps + qs, ok, out + out')
  {
    EmitAppend(ps, qs, room);
    OverlayTwice(s0, off, out, out');
  }

  lemma EmittedMore(s: string, s': string, off: nat, room: nat, ps: seq<Piece>, out: string, qs: seq<Piece>)
    requires Emitted(s, s', off, room, ps, false, out)
    ensures Emitted(s, s', off, room, ps + qs, false, out)
  {
    EmitAppend(ps, qs, room);
  }

  /** One character if a condition holds. */
  method EmitIf(cond: bool, dest: array<char>, off: nat, room: nat, c: char) returns (ok: bool, ghost out: string)
    requires off + room <= dest.Length
    modifies dest
    ensures Emitted(old(dest[..]), dest[..], off, room, Some(cond, [Must(c)]), ok, out)
    ensures ok ==> |out| == if cond then 1 else 0
  {
    ok, out := true, "";
    if cond {
      OnePiece(Must(c), room);
      ok := CopyByteIp(dest, off, room, c);
      out := if ok then [c] else "";
    }
  }

  method EmitWidth(cond: bool, dest: array<char>, off: nat, room: nat, c: char, width: nat)
    returns (n: nat, ghost out: string)
    requires off + room <= dest.Length
    modifies dest
    ensures n == |out| && Emitted(old(dest[..]), dest[..], off, room, Some(cond, [Pad(c, width)]), true, out)
  {
    n, out := 0, "";
    if cond {
      OnePiece(Pad(c, width), room);
      n := MakeWidth(dest, off, room, c, width);
      out := Repeat(c, n);
    }
  }

  /** The sign or the prefix. */
  method EmitPrefix(dest: array<char>, off: nat, room: nat, a: Attrs, b: Base)
    returns (ok: bool, n: nat, ghost out: string)
    requires off + room <= dest.Length
    modifies dest
    ensures Emitted(old(dest[..]), dest[..], off, room, PrefixPieces(a, b), ok, out)
    ensures ok ==> n == |out|
  {
    hide Overlay, Output;
    ghost var s := dest[..];
    n := 0;
    if b == Dec {
      ok, out := EmitIf(a.sign, dest, off, room, '+');
      n := if a.sign then 1 else 0;
      return;
    }
    ok, out := EmitIf(a.prefix, dest, off, room, '0');
    n := if a.prefix then 1 else 0;
    if b == Oct || !a.prefix {
      assert Some(a.prefix, [Must('0')]) == PrefixPieces(a, b);
      return;
    }
    var c := if b == HexUp then 'X' else 'x';
    assert [Must('0')] + [Must(c)] == PrefixPieces(a, b);
    if !ok {
      EmittedMore(s, dest[..], off, room, [Must('0')], out, [Must(c)]);
      return;
    }
    EmittedRoom(s, dest[..], off, room, [Must('0')], ok, out);
    ghost var s1, out1 := dest[..], out;
    ok, out := EmitIf(true, dest, off + 1, room - 1, c);
    EmittedJoin(s, s1, dest[..], off, room, [Must('0')], out1, [Must(c)], ok, out);
    out := out1 + out;
    n := 2;
  }

  /** The digits, the most significant first; without enough room the least significant ones. */
  method EmitDigits(dest: array<char>, off: nat, room: nat, tmp: array<char>, digits: nat)
    returns (n: nat, ghost out: string)
    requires off + room <= dest.Length && 0 < digits <= tmp.Length && tmp != dest
    modifies dest
    ensures n == |out| && Emitted(old(dest[..]), dest[..], off, room, [Low(Reverse(tmp[..digits]))], true, out)
  {
    hide Reverse, Output, Overlay;
    var j := digits;
    if j > room {
      j := room;
    }
    n := j;
    out := Reverse(tmp[..j]);
    ReverseLength(tmp[..j]);
    ReverseLength(tmp[..digits]);
    DigitsOut(tmp[..digits], j, room);
    assert tmp[..digits][..j] == tmp[..j];
    CopyDigits(dest, off, tmp, j);
  }

  /** `while(j-- != 0)`: the last of the n characters first. */
  method CopyDigits(dest: array<char>, off: nat, tmp: array<char>, n: nat)
    requires off + n <= dest.Length && n <= tmp.Length && tmp != dest
    modifies dest
    ensures |Reverse(tmp[..n])| == n && dest[..] == Overlay(old(dest[..]), off, Reverse(tmp[..n]))
  {
    hide Reverse;
    ghost var s, out := dest[..], Reverse(tmp[..n]);
    ReverseLength(tmp[..n]);
    var j, cs := n, 0;
    while j != 0
      invariant j + cs == n
      invariant forall k :: 0 <= k < dest.Length ==> dest[k] == if off <= k < off + cs then out[k - off] else s[k]
    {
      j := j - 1;
      ReverseAt(tmp[..n], cs);
      dest[off + cs] := tmp[j];
      cs := cs + 1;
    }
    assert dest[..] == Overlay(s, off, out);
  }

  lemma ReverseLength(s: string)
    ensures |Reverse(s)| == |s|
  {
    if s != "" {
      ReverseAt(s, 0);
    }
  }

  /** The first n characters, reversed, are the last n of the reversed text. */
  lemma ReverseEnd(s: string, n: nat)
    requires n <= |s|
    ensures |Reverse(s)| == |s| && Reverse(s[..n]) == Reverse(s)[|s| - n..]
  {
    hide Reverse;
    ReverseLength(s);
    ReverseLength(s[..n]);
    forall k | 0 <= k < n ensures Reverse(s[..n])[k] == Reverse(s)[|s| - n + k] {
      ReverseAt(s[..n], k);
      ReverseAt(s, |s| - n + k);
    }
  }

  lemma DigitsOut(s: string, j: nat, room: nat)
    requires s != "" && j == if |s| <= room then |s| else room
    ensures Output([Low(Reverse(s))], room) == (Reverse(s[..j]), true)
  {
    hide Reverse, Output;
    ReverseEnd(s, j);
    LowEnd(Reverse(s), j, room);
  }

  lemma LowEnd(r: string, j: nat, room: nat)
    requires r != "" && j == if |r| <= room then |r| else room
    ensures Output([Low(r)], room) == (r[|r| - j..], true)
  {
    hide Output;
    LowStarts(r, room);
    assert r[0..] == r;
  }

  /** What comes before the digits. */
  method EmitBefore(dest: array<char>, off: nat, room: nat, a: Attrs, b: Base, j: nat)
    returns (ok: bool, cs: nat, ghost out: string)
    requires off + room <= dest.Length
    modifies dest
    ensures Emitted(old(dest[..]), dest[..], off, room, BeforePieces(a, b, j), ok, out)
    ensures ok ==> cs == |out|
  {
    hide Overlay, Output, Padding, Zeros, PrefixPieces, Some, Emitted, Pad;
    ghost var s := dest[..];
    ghost var space, zeros := Some(a.space, [Must(' ')]), [Pad('0', Zeros(a, j))];
    ghost var pad := Some(!a.left, [Pad(if a.zero then '0' else ' ', Padding(a, j))]);
    ghost var piece;
    var n;
    cs := if a.space then 1 else 0;
    ok, out := EmitIf(a.space, dest, off, room, ' ');
    if !ok {
      EmittedMore(s, dest[..], off, room, space, out, pad);
      EmittedMore(s, dest[..], off, room, space + pad, out, PrefixPieces(a, b));
      EmittedMore(s, dest[..], off, room, space + pad + PrefixPieces(a, b), out, zeros);
      return;
    }
    EmittedRoom(s, dest[..], off, room, space, ok, out);
    ghost var s1 := dest[..];
    n, piece := EmitWidth(!a.left, dest, off + cs, room - cs, if a.zero then '0' else ' ', Padding(a, j));
    EmittedJoin(s, s1, dest[..], off, room, space, out, pad, true, piece);
    out, cs := out + piece, cs + n;
    EmittedRoom(s, dest[..], off, room, space + pad, ok, out);
    ghost var s2 := dest[..];
    ok, n, piece := EmitPrefix(dest, off + cs, room - cs, a, b);
    EmittedJoin(s, s2, dest[..], off, room, space + pad, out, PrefixPieces(a, b), ok, piece);
    out, cs := out + piece, cs + n;
    if !ok {
      EmittedMore(s, dest[..], off, room, space + pad + PrefixPieces(a, b), out, zeros);
      return;
    }
    EmittedRoom(s, dest[..], off, room, space + pad + PrefixPieces(a, b), ok, out);
    ghost var s3 := dest[..];
    n, piece := EmitZeros(dest, off + cs, room - cs, Zeros(a, j));
    EmittedJoin(s, s3, dest[..], off, room, space + pad + PrefixPieces(a, b), out, zeros, true, piece);
    out, cs := out + piece, cs + n;
  }

  /** The zeros that the precision asks for. */
  method EmitZeros(dest: array<char>, off: nat, room: nat, zeros: nat) returns (n: nat, ghost out: string)
    requires off + room <= dest.Length
    modifies dest
    ensures n == |out| && Emitted(old(dest[..]), dest[..], off, room, [Pad('0', zeros)], true, out)
  {
    n, out := EmitWidth(true, dest, off, room, '0', zeros);
  }

  /** `__digit`: writes the pieces of a number and returns how much room they took, all of it if the
      output ends; it returns 0 exactly if there is no room. */
  method Digit(dest: array<char>, off: nat, room: nat, number: Word, a: Attrs, b: Base)
    returns (n: nat, ghost ok: bool, ghost out: string)
    requires off + room <= dest.Length
    modifies dest
    ensures Emitted(old(dest[..]), dest[..], off, room, NumberPieces(number, a, b), ok, out)
    ensures n == (if ok then |out| else room) && (n == 0 <==> room == 0)
  {
    hide Overlay, Output, DigitsOf, Reverse, Padding, BeforePieces, Emitted, Some, Pad;
    ghost var s := dest[..];
    var tmp, j := DigitSequence(number, b);
    ghost var ds := DigitsOf(number, b);
    ghost var behind := Some(a.left, [Pad(' ', Padding(a, j))]);
    ReverseLength(tmp[..j]);
    var go, m;
    ghost var piece;
    go, n, out := EmitBefore(dest, off, room, a, b, j);
    ok := go;
    if !go {
      EmittedMore(s, dest[..], off, room, BeforePieces(a, b, j), out, [Low(ds)]);
      EmittedMore(s, dest[..], off, room, BeforePieces(a, b, j) + [Low(ds)], out, behind);
      n := room;
      return;
    }
    EmittedRoom(s, dest[..], off, room, BeforePieces(a, b, j), ok, out);
    ghost var s1 := dest[..];
    m, piece := EmitDigits(dest, off + n, room - n, tmp, j);
    EmittedJoin(s, s1, dest[..], off, room, BeforePieces(a, b, j), out, [Low(ds)], true, piece);
    n, out := n + m, out + piece;
    EmittedRoom(s, dest[..], off, room, BeforePieces(a, b, j) + [Low(ds)], ok, out);
    ghost var s2 := dest[..];
    m, piece := EmitWidth(a.left, dest, off + n, room - n, ' ', Padding(a, j));
    EmittedJoin(s, s2, dest[..], off, room, BeforePieces(a, b, j) + [Low(ds)], out, behind, true, piece);
    n, out := n + m, out + piece;
    NumberTook(s, dest[..], off, room, number, a, b, out);
  }

  lemma NumberTook(s: string, s': string, off: nat, room: nat, d: nat, a: Attrs, b: Base, out: string)
    requires Emitted(s, s', off, room, NumberPieces(d, a, b), true, out)
    ensures out == "" <==> room == 0
  {
    hide NumberPieces;
    NumberStarts(d, a, b, room);
  }

  /** The `%s` branch, for a precision within the length of the string. */
  method EmitString(dest: array<char>, off: nat, room: nat, s: string, a: Attrs) returns (n: nat, ghost out: string)
    requires off + room <= dest.Length
    modifies dest
    ensures Emitted(old(dest[..]), dest[..], off, room, StringPieces(s, a), true, out) && n == |out|
  {
    hide Overlay, Output, Minus, Some, Emitted, Pad;
    ghost var s0 := dest[..];
    var width := Minus(a.width, |s|);
    ghost var pad := [Pad(' ', width)];
    ghost var piece;
    var m;
    n, out := EmitWidth(!a.left, dest, off, room, ' ', width);
    EmittedRoom(s0, dest[..], off, room, Some(!a.left, pad), true, out);
    ghost var s1 := dest[..];
    m, piece := CopyText(dest, off + n, room - n, s);
    EmittedJoin(s0, s1, dest[..], off, room, Some(!a.left, pad), out, [Whole(s)], true, piece);
    n, out := n + m, out + piece;
    EmittedRoom(s0, dest[..], off, room, Some(!a.left, pad) + [Whole(s)], true, out);
    ghost var s2 := dest[..];
    m, piece := EmitWidth(a.left, dest, off + n, room - n, ' ', width);
    EmittedJoin(s0, s2, dest[..], off, room, Some(!a.left, pad) + [Whole(s)], out, Some(a.left, pad), true, piece);
    n, out := n + m, out + piece;
  }

  /** `memcpy` of the whole string, if there is room. */
  method CopyText(dest: array<char>, off: nat, room: nat, s: string) returns (n: nat, ghost out: string)
    requires off + room <= dest.Length
    modifies dest
    ensures n == |out| && Emitted(old(dest[..]), dest[..], off, room, [Whole(s)], true, out)
  {
    n, out := 0, "";
    OnePiece(Whole(s), room);
    if |s| <= room {
      forall k | 0 <= k < |s| {
        dest[off + k] := s[k];
      }
      n, out := |s|, s;
    }
  }

  /** The `%c` branch: one character; without room for it the output ends. */
  method EmitChar(dest: array<char>, off: nat, room: nat, c: char, a: Attrs)
    returns (ok: bool, n: nat, ghost out: string)
    requires off + room <= dest.Length
    modifies dest
    ensures Emitted(old(dest[..]), dest[..], off, room, CharPieces(c, a), ok, out)
    ensures ok ==> n == |out|
  {
    hide Overlay, Output, Minus, Emitted, Pad;
    ghost var s0 := dest[..];
    var width := Minus(a.width, 1);
    ghost var pad := [Pad(' ', width)];
    ghost var piece;
    n, out := EmitWidth(!a.left, dest, off, room, ' ', width);
    EmittedRoom(s0, dest[..], off, room, Some(!a.left, pad), true, out);
    ghost var s1 := dest[..];
    ok, piece := EmitIf(true, dest, off + n, room - n, c);
    EmittedJoin(s0, s1, dest[..], off, room, Some(!a.left, pad), out, [Must(c)], ok, piece);
    n, out := n + 1, out + piece;
    if !ok {
      EmittedMore(s0, dest[..], off, room, Some(!a.left, pad) + [Must(c)], out, Some(a.left, pad));
      return;
    }
    EmittedRoom(s0, dest[..], off, room, Some(!a.left, pad) + [Must(c)], true, out);
    ghost var s2 := dest[..];
    var m;
    m, piece := EmitWidth(a.left, dest, off + n, room - n, ' ', width);
    EmittedJoin(s0, s2, dest[..], off, room, Some(!a.left, pad) + [Must(c)], out, Some(a.left, pad), true, piece);
    n, out := n + m, out + piece;
  }
}
