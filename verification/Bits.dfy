/** Bitmaps of 64-bit words (include/eza/amd64/bits.h). A word is a number; bit i of w is the i-th
    binary digit. */
module Bits {
  const WORD_BITS: nat := 64
  const INVALID_BIT_INDEX: nat := 0xffff_ffff

  predicate Bit(w: nat, i: nat) {
    if i == 0 then w % 2 == 1 else Bit(w / 2, i - 1)
  }

  function Pow2(n: nat): (p: nat)
    ensures p > 0
  {
    if n == 0 then 1 else 2 * Pow2(n - 1)
  }

  /** The width of words: 2^32 and 2^64. */
  lemma WordSizes()
    ensures Pow2(32) == 0x1_0000_0000 && Pow2(64) == 0x1_0000_0000_0000_0000
  {
    assert Pow2(8) == 256;
    Doubled(8, 8);
    Doubled(16, 16);
    Doubled(32, 32);
  }

  lemma {:induction false} Doubled(a: nat, b: nat)
    ensures Pow2(a + b) == Pow2(a) * Pow2(b)
    decreases a
  {
    if a > 0 {
      Doubled(a - 1, b);
    }
  }

  /** `w & ~(1 << i)` */
  function ClearBit(w: nat, i: nat): nat {
    if i == 0 then w - w % 2 else 2 * ClearBit(w / 2, i - 1) + w % 2
  }

  /** `w | (1 << i)` */
  function SetBit(w: nat, i: nat): nat {
    if i == 0 then w + 1 - w % 2 else 2 * SetBit(w / 2, i - 1) + w % 2
  }

  lemma {:induction false} ClearBitAt(w: nat, i: nat, j: nat)
    ensures Bit(ClearBit(w, i), j) == (Bit(w, j) && j != i)
  {
    if i > 0 && j > 0 {
      ClearBitAt(w / 2, i - 1, j - 1);
    }
  }

  lemma {:induction false} SetBitAt(w: nat, i: nat, j: nat)
    ensures Bit(SetBit(w, i), j) == (Bit(w, j) || j == i)
  {
    if i > 0 && j > 0 {
      SetBitAt(w / 2, i - 1, j - 1);
    }
  }

  lemma {:induction false} ClearBitSize(w: nat, i: nat)
    ensures ClearBit(w, i) <= w
  {
    if i > 0 {
      ClearBitSize(w / 2, i - 1);
    }
  }

  lemma {:induction false} SetBitSize(w: nat, i: nat, n: nat)
    requires w < Pow2(n) && i < n
    ensures SetBit(w, i) < Pow2(n)
  {
    if i > 0 {
      SetBitSize(w / 2, i - 1, n - 1);
    }
  }

  lemma {:induction false} ZeroBits(i: nat)
    ensures !Bit(0, i)
  {
    if i > 0 {
      ZeroBits(i - 1);
    }
  }

  /** The word with the low n bits set. */
  lemma {:induction false} OnesBits(n: nat, i: nat)
    ensures Bit(Pow2(n) - 1, i) <==> i < n
  {
    if n == 0 {
      ZeroBits(i);
    } else if i > 0 {
      assert (Pow2(n) - 1) / 2 == Pow2(n - 1) - 1;
      OnesBits(n - 1, i - 1);
    }
  }

  /** `bsf`: the index of the lowest set bit. */
  function LowestBit(w: nat): (i: nat)
    requires w > 0
    ensures Bit(w, i) && forall j: nat :: j < i ==> !Bit(w, j)
    ensures forall n: nat :: w < Pow2(n) ==> i < n
  {
    if w % 2 == 1 then 0 else
      var i := 1 + LowestBit(w / 2);
      assert forall j: nat :: 0 < j < i ==> Bit(w, j) == Bit(w / 2, j - 1);
      assert forall n: nat :: w < Pow2(n) && n > 0 ==> w / 2 < Pow2(n - 1);
      i
  }

  /** Bit `i` of a bitmap. */
  ghost predicate MapBit(ws: seq<nat>, i: nat)
    requires i < |ws| * WORD_BITS
  {
    Bit(ws[i / WORD_BITS], i % WORD_BITS)
  }

  ghost predicate WordsFit(ws: seq<nat>) {
    forall k :: 0 <= k < |ws| ==> ws[k] < Pow2(WORD_BITS)
  }

  lemma ZeroWords(ws: seq<nat>, p: nat)
    requires p <= |ws| && forall k :: 0 <= k < p ==> ws[k] == 0
    ensures forall j: nat :: j < p * WORD_BITS ==> !MapBit(ws, j)
  {
    forall j: nat | j < p * WORD_BITS ensures !MapBit(ws, j) {
      ZeroBits(j % WORD_BITS);
    }
  }

  /** The lowest set bit of word p is the lowest of the map if all words before p are zero. */
  lemma FirstInWord(ws: seq<nat>, p: nat)
    requires p < |ws| && ws[p] > 0 && WordsFit(ws) && forall k :: 0 <= k < p ==> ws[k] == 0
    ensures var idx := p * WORD_BITS + LowestBit(ws[p]);
            idx < (p + 1) * WORD_BITS && MapBit(ws, idx) && forall j: nat :: j < idx ==> !MapBit(ws, j)
  {
    hide Bit, Pow2;
    ZeroWords(ws, p);
    var b := LowestBit(ws[p]);
    assert ws[p] < Pow2(WORD_BITS);
    assert b < WORD_BITS;
    var idx := p * WORD_BITS + b;
    assert idx / WORD_BITS == p && idx % WORD_BITS == b;
    forall j: nat | p * WORD_BITS <= j < idx ensures !MapBit(ws, j) {
      assert j / WORD_BITS == p && j % WORD_BITS == j - p * WORD_BITS < b;
    }
  }

  /** `find_first_bit_mem_64`: scans word by word; `bsf` leaves its target unchanged on a zero word. */
  method FindFirstBitMem64(bitmap: array<nat>, count: nat) returns (idx: nat)
    requires 0 < count <= bitmap.Length && WordsFit(bitmap[..]) && count * WORD_BITS <= INVALID_BIT_INDEX
    ensures idx != INVALID_BIT_INDEX ==>
              idx < count * WORD_BITS && MapBit(bitmap[..], idx) && forall j: nat :: j < idx ==> !MapBit(bitmap[..], j)
    ensures idx == INVALID_BIT_INDEX ==> forall j: nat :: j < count * WORD_BITS ==> !MapBit(bitmap[..], j)
  {
    idx := INVALID_BIT_INDEX;
    var p, base, left := 0, 0, count;
    while left != 0
      invariant left == count - p && base == p * WORD_BITS
      invariant forall k :: 0 <= k < p ==> bitmap[..][k] == 0
    {
      if bitmap[p] != 0 {
        FirstInWord(bitmap[..], p);
        return base + LowestBit(bitmap[p]);
      }
      p, base, left := p + 1, base + WORD_BITS, left - 1;
    }
    ZeroWords(bitmap[..], count);
  }

  /** `reset_bit_mem_64`: clears one bit and no other. */
  method ResetBitMem64(bitmap: array<nat>, bit: nat)
    requires bit < bitmap.Length * WORD_BITS && WordsFit(bitmap[..])
    modifies bitmap
    ensures WordsFit(bitmap[..])
    ensures forall j: nat :: j < bitmap.Length * WORD_BITS ==>
              MapBit(bitmap[..], j) == (old(MapBit(bitmap[..], j)) && j != bit)
  {
    ghost var ws := bitmap[..];
    var word, offset := bit / WORD_BITS, bit % WORD_BITS;
    bitmap[word] := ClearBit(bitmap[word], offset);
    ClearBitSize(ws[word], offset);
    forall j: nat | j < bitmap.Length * WORD_BITS
      ensures MapBit(bitmap[..], j) == (MapBit(ws, j) && j != bit)
    {
      ClearBitAt(ws[word], offset, j % WORD_BITS);
    }
  }
}
