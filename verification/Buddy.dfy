/** The allocation path of the bitmap binary buddy allocator (mm/bbuddy.c), for up to 64 blocks: a
    heap-ordered tree whose layer `align` holds the nodes align, ..., 2 * align - 1; node h is bit h % 32
    of word h / 32 of each bitmap. */
module Buddy {
  import opened Bits
  import opened Words

  const ENOBLOCK: nat := 65535

  // ---------- the tree ----------

  predicate Layer(a: nat) {
    a in {1, 2, 4, 8, 16, 32, 64}
  }

  /** a is node l or an ancestor of it. */
  predicate Above(a: nat, l: nat)
    decreases l
  {
    a == l || (l > a && Above(a, l / 2))
  }

  /** `free`: the nodes on offer; `whole`: those marked not separated; `taken`: those handed out. */
  datatype Pool = Pool(free: set<nat>, whole: set<nat>, taken: set<nat>)

  ghost function InUse(p: Pool): set<nat> {
    p.free + p.taken
  }

  /** No node in the set is above another. */
  ghost predicate Antichain(s: set<nat>) {
    forall a, b :: a in s && b in s && Above(a, b) ==> a == b
  }

  ghost predicate Covered(s: set<nat>, l: nat) {
    exists a :: a in s && Above(a, l)
  }

  ghost predicate Covers(pn: nat, s: set<nat>) {
    forall l: nat :: pn <= l < 2 * pn ==> Covered(s, l)
  }

  /** The free and the taken nodes form an antichain that covers every leaf; taken nodes are marked
      whole, and nodes above a free or taken one are marked separated. */
  ghost predicate Inv(pn: nat, p: Pool) {
    && (forall h :: h in InUse(p) ==> 1 <= h < 2 * pn) && p.free !! p.taken
    && Antichain(InUse(p)) && Covers(pn, InUse(p))
    && p.taken <= p.whole && (forall a, b :: a in InUse(p) && 0 < b != a && Above(b, a) ==> b !in p.whole)
  }

  lemma {:induction false} AboveSmaller(a: nat, b: nat)
    requires Above(a, b)
    ensures a <= b
    decreases b
  {
    if a != b {
      AboveSmaller(a, b / 2);
    }
  }

  /** The ancestors of a node form a chain. */
  lemma {:induction false} AboveChain(a: nat, b: nat, l: nat)
    requires Above(a, l) && Above(b, l) && a <= b
    ensures Above(a, b)
    decreases l
  {
    if b != l {
      if a == l {
        AboveSmaller(b, l);
      } else {
        AboveChain(a, b, l / 2);
      }
    }
  }

  /** What is above a node is the node or above its parent; what a node is above of, its children are. */
  lemma {:induction false} AboveChildren(h: nat, l: nat)
    requires h > 0
    ensures Above(h, l) && h != l <==> Above(2 * h, l) || Above(2 * h + 1, l)
    decreases l
  {
    var c: nat, d: nat := 2 * h, 2 * h + 1;
    if l / 2 > h {
      AboveChildren(h, l / 2);
    } else if l / 2 < h {
      NotAbove(h, l / 2);
      NotAbove(c, l);
      NotAbove(d, l);
    } else {
      assert l == c || l == d;
    }
  }

  lemma NotAbove(a: nat, l: nat)
    requires l < a
    ensures !Above(a, l)
  {
  }

  /** A leaf lies under at most one free or taken node: blocks never overlap. */
  lemma NoOverlap(pn: nat, p: Pool, a: nat, b: nat, l: nat)
    requires Inv(pn, p) && a in InUse(p) && b in InUse(p) && Above(a, l) && Above(b, l)
    ensures a == b
  {
    if a <= b {
      AboveChain(a, b, l);
    } else {
      AboveChain(b, a, l);
    }
  }

  /** Block `num` of layer `align` consists of the size leaves from num * size on. */
  lemma {:induction false} LeafRange(align: nat, num: nat, size: nat, k: nat, l: nat)
    requires size == Pow2(k) && num < align && align * size <= l < 2 * (align * size)
    ensures Above(align + num, l) <==> num * size <= l - align * size < (num + 1) * size
    decreases k
  {
    if k == 0 {
      AboveSameLayer(align + num, l, align);
    } else {
      var half := Pow2(k - 1);
      HalfRange(align, num, half, l);
      LeafRange(align, num, half, k - 1, l / 2);
      assert l > align + num;
    }
  }

  lemma AboveSameLayer(a: nat, l: nat, align: nat)
    requires align <= a < 2 * align && align <= l < 2 * align
    ensures Above(a, l) <==> a == l
  {
    if l > a && Above(a, l / 2) {
      AboveSmaller(a, l / 2);
    }
  }

  lemma HalfRange(align: nat, num: nat, half: nat, l: nat)
    requires num < align && half > 0 && align * (2 * half) <= l < 2 * (align * (2 * half))
    ensures align * half <= l / 2 < 2 * (align * half) && l >= 2 * align > align + num
    ensures num * (2 * half) <= l - align * (2 * half) < (num + 1) * (2 * half) <==>
            num * half <= l / 2 - align * half < (num + 1) * half
  {
    Doubles(align, half);
    Doubles(num, half);
    Doubles(num + 1, half);
    AtLeast(align, half);
    Halves(align * half, num * half, (num + 1) * half, l);
  }

  lemma Doubles(a: nat, half: nat)
    ensures a * (2 * half) == 2 * (a * half)
  {
  }

  lemma AtLeast(a: nat, b: nat)
    requires b > 0
    ensures a * b >= a
  {
  }

  lemma Halves(x: nat, y: nat, z: nat, l: nat)
    requires 2 * x <= l < 4 * x
    ensures x <= l / 2 < 2 * x && (2 * y <= l - 2 * x < 2 * z <==> y <= l / 2 - x < z)
  {
  }

  // ---------- what an allocation does to the pool ----------

  /** The first free node from lo on, or hi. */
  function LowestFrom(free: set<nat>, lo: nat, hi: nat): (h: nat)
    requires lo <= hi
    ensures lo <= h <= hi && (h < hi ==> h in free) && forall k: nat :: lo <= k < h ==> k !in free
    decreases hi - lo
  {
    if lo == hi || lo in free then lo else LowestFrom(free, lo + 1, hi)
  }

  /** The first free node of a layer, or the first node of the next. */
  function Lowest(p: Pool, align: nat): (h: nat)
    ensures align <= h <= 2 * align && (h < 2 * align ==> h in p.free) && NoneIn(p.free, align, h)
  {
    LowestFrom(p.free, align, 2 * align)
  }

  ghost predicate NoneIn(free: set<nat>, lo: nat, hi: nat) {
    forall h :: h in free ==> !(lo <= h < hi)
  }

  function Split(p: Pool, h: nat): Pool {
    Pool(p.free - {h} + {2 * h, 2 * h + 1}, p.whole - {h} + {2 * h, 2 * h + 1}, p.taken)
  }

  function HandOut(p: Pool, h: nat): Pool {
    Pool(p.free - {h}, p.whole + {h}, p.taken + {h})
  }

  /** Split a free node m times, each time going on with the first child, and hand out the last. */
  function Descend(p: Pool, h: nat, m: nat): (Pool, nat)
    decreases m
  {
    if m == 0 then (HandOut(p, h), h) else Descend(Split(p, h), 2 * h, m - 1)
  }

  /** Climb from layer align to the first that has a free node, then descend to the layer wanted. */
  function Allocate(p: Pool, align: nat, m: nat): (Pool, Option<nat>)
    decreases align
  {
    if align == 0 then (p, None) else
      var h := Lowest(p, align);
      if h == 2 * align then Allocate(p, align / 2, m + 1) else
        var (p', h') := Descend(p, h, m);
        (p', Some(h'))
  }

  lemma SplitInv(pn: nat, p: Pool, h: nat)
    requires Inv(pn, p) && h in p.free && h < pn
    ensures Inv(pn, Split(p, h))
  {
    hide Above;
    var s, s' := InUse(p), InUse(Split(p, h));
    ChildrenNew(pn, p, h);
    assert s' == s - {h} + {2 * h, 2 * h + 1};
    SplitAntichain(s, h);
    forall l: nat | pn <= l < 2 * pn ensures Covered(s', l) {
      assert Covered(s, l);
      var a: nat :| a in s && Above(a, l);
      if a == h {
        AboveChildren(h, l);
      } else {
        assert a in s';
      }
    }
    forall a, b | a in s' && 0 < b != a && Above(b, a) ensures b !in Split(p, h).whole {
      SplitMarks(pn, p, h, a, b);
    }
  }

  lemma Selfs(a: nat)
    ensures Above(a, a)
  {
  }

  /** The children of a free node are neither free nor taken. */
  lemma ChildrenNew(pn: nat, p: Pool, h: nat)
    requires Inv(pn, p) && h in p.free
    ensures h > 0 && 2 * h !in InUse(p) && 2 * h + 1 !in InUse(p) && Above(h, 2 * h) && Above(h, 2 * h + 1)
  {
    var c, d := 2 * h, 2 * h + 1;
    assert h in InUse(p) && Above(h, c) && Above(h, d);
  }

  lemma SplitAntichain(s: set<nat>, h: nat)
    requires Antichain(s) && h in s && h > 0
    ensures Antichain(s - {h} + {2 * h, 2 * h + 1})
  {
    hide Above;
    var s' := s - {h} + {2 * h, 2 * h + 1};
    forall a, b | a in s' && b in s' && Above(a, b) ensures a == b {
      if a in s && b in s {
      } else if b in s {
        AboveChildren(h, b);
      } else {
        BelowChild(h, a, b);
      }
    }
  }

  /** What is above a child of h is that child or above h. */
  lemma BelowChild(h: nat, a: nat, c: nat)
    requires h > 0 && (c == 2 * h || c == 2 * h + 1) && Above(a, c)
    ensures a == c || Above(a, h)
    ensures Above(a, h) ==> a <= h
  {
    if Above(a, h) {
      AboveSmaller(a, h);
    }
  }

  lemma SplitMarks(pn: nat, p: Pool, h: nat, a: nat, b: nat)
    requires Inv(pn, p) && h in p.free && a in InUse(Split(p, h)) && 0 < b != a && Above(b, a)
    ensures b !in Split(p, h).whole
  {
    hide Above;
    ChildrenNew(pn, p, h);
    Selfs(h);
    assert h in InUse(p);
    if a in InUse(p) {
      if b == 2 * h || b == 2 * h + 1 {
        AboveChildren(h, a);
      }
    } else {
      BelowChild(h, b, a);
    }
  }

  lemma HandOutInv(pn: nat, p: Pool, h: nat)
    requires Inv(pn, p) && h in p.free
    ensures Inv(pn, HandOut(p, h)) && InUse(HandOut(p, h)) == InUse(p)
  {
    hide Above;
    assert InUse(HandOut(p, h)) == InUse(p);
    assert h in InUse(p);
  }

  /** The second children that splitting leaves on offer. */
  ghost function Siblings(h: nat, m: nat): set<nat>
    decreases m
  {
    if m == 0 then {} else {2 * h + 1} + Siblings(2 * h, m - 1)
  }

  /** The nodes that are split on the way. */
  ghost function PathDown(h: nat, m: nat): set<nat>
    decreases m
  {
    if m == 0 then {} else {h} + PathDown(2 * h, m - 1)
  }

  lemma {:induction false} PathBounds(h: nat, m: nat)
    ensures forall x :: x in PathDown(h, m) ==> x == h || x >= 2 * h
    ensures m > 0 ==> h in PathDown(h, m)
    decreases m
  {
    if m > 0 {
      PathBounds(2 * h, m - 1);
    }
  }

  lemma {:induction false} SiblingsAbove(h: nat, m: nat)
    ensures forall x :: x in Siblings(h, m) ==> x > 2 * h
    decreases m
  {
    if m > 0 {
      SiblingsAbove(2 * h, m - 1);
    }
  }

  /** Descending replaces the free node by the second children on the way and hands out the first
      grandchild of the m-th generation; nothing else changes hands. The nodes on the way are marked
      separated, and what was offered or handed out is not. */
  lemma {:induction false} DescendExactly(pn: nat, p: Pool, h: nat, m: nat)
    requires Inv(pn, p) && h in p.free && h * Pow2(m) < 2 * pn
    ensures var (p', h') := Descend(p, h, m);
            && Inv(pn, p') && h' == h * Pow2(m) && h' !in p.taken && p'.taken == p.taken + {h'}
            && p'.free == p.free - {h} + Siblings(h, m)
            && p'.whole == p.whole - PathDown(h, m) + Siblings(h, m) + {h'}
    decreases m
  {
    hide Inv, Above;
    if m == 0 {
      HandOutInv(pn, p, h);
      FreeNotTaken(pn, p, h);
    } else {
      Generation(h, m);
      GenerationBound(h, m, pn);
      SplitInv(pn, p, h);
      ChildrenNewFree(pn, p, h);
      DescendExactly(pn, Split(p, h), 2 * h, m - 1);
      SiblingsAbove(2 * h, m - 1);
      assert p.free - {h} + {2 * h, 2 * h + 1} - {2 * h} == p.free - {h} + {2 * h + 1};
      FreeNotTaken(pn, p, h);
      MarksDown(p.whole, h, m, Descend(p, h, m).1);
    }
  }

  lemma MarksDown(whole: set<nat>, h: nat, m: nat, h': nat)
    requires m > 0 && h > 0 && (m == 1 ==> h' == 2 * h)
    ensures whole - {h} + {2 * h, 2 * h + 1} - PathDown(2 * h, m - 1) + Siblings(2 * h, m - 1) + {h'}
         == whole - PathDown(h, m) + Siblings(h, m) + {h'}
  {
    PathBounds(2 * h, m - 1);
  }

  lemma FreeNotTaken(pn: nat, p: Pool, h: nat)
    requires Inv(pn, p) && h in p.free
    ensures h !in p.taken && 1 <= h < 2 * pn
  {
    hide Above;
    assert h in InUse(p);
  }

  lemma ChildrenNewFree(pn: nat, p: Pool, h: nat)
    requires Inv(pn, p) && h in p.free
    ensures 2 * h !in p.free && h > 0
  {
    ChildrenNew(pn, p, h);
  }

  lemma Generation(h: nat, m: nat)
    requires m > 0
    ensures h * Pow2(m) == 2 * h * Pow2(m - 1)
  {
  }

  lemma GenerationBound(h: nat, m: nat, pn: nat)
    requires m > 0 && h * Pow2(m) < 2 * pn
    ensures h < pn
  {
    Generation(h, m);
    AtLeast(2 * h, Pow2(m - 1));
  }

  /** The layer from which m splits lead to the layer wanted. */
  predicate DescendsTo(align: nat, m: nat, target: nat) {
    Layer(target) && (align > 0 ==> Layer(align) && align * Pow2(m) == target)
  }

  lemma ClimbsUp(align: nat, m: nat, target: nat)
    requires DescendsTo(align, m, target) && align > 0
    ensures DescendsTo(align / 2, m + 1, target) && (align > 1 ==> 2 * (align / 2) == align)
  {
    if align > 1 {
      var a := align / 2;
      assert align == 2 * a;
      Generation(a, m + 1);
    }
  }

  lemma InLayer(layer: nat, h: nat, m: nat)
    requires layer <= h < 2 * layer
    ensures layer * Pow2(m) <= h * Pow2(m) < 2 * (layer * Pow2(m))
  {
    var q := Pow2(m);
    Grows(layer, h, q);
    Grows(h + 1, 2 * layer, q);
  }

  lemma Grows(a: nat, b: nat, q: nat)
    requires a <= b
    ensures a * q <= b * q && (a + 1) * q == a * q + q
  {
  }

  /** Allocation fails exactly if no layer from the one wanted up to the root has a free block. Otherwise
      it takes the lowest free block of the nearest such layer, splits it down, hands out the first
      block of the layer wanted, and keeps the pool a partition. */
  lemma {:induction false} AllocateExactly(pn: nat, p: Pool, align: nat, m: nat, target: nat)
    returns (layer: nat, h: nat, k: nat)
    requires Inv(pn, p) && DescendsTo(align, m, target) && target <= pn
    ensures var (p', r) := Allocate(p, align, m);
            && (r.None? <==> forall x :: x in p.free ==> x >= 2 * align)
            && (r.None? ==> p' == p)
            && (r.Some? ==>
                  && 0 < layer <= align && DescendsTo(layer, k, target) && layer <= h < 2 * layer && h in p.free
                  && (forall x :: x in p.free ==> !(layer <= x < h) && !(2 * layer <= x < 2 * align))
                  && r.value == h * Pow2(k) && target <= r.value < 2 * target
                  && Inv(pn, p') && r.value !in p.taken && p'.taken == p.taken + {r.value}
                  && p'.free == p.free - {h} + Siblings(h, k)
                  && p'.whole == p.whole - PathDown(h, k) + Siblings(h, k) + {r.value})
    decreases align
  {
    hide Inv, Siblings, PathDown, Descend;
    layer, h, k := align, 0, m;
    if align > 0 {
      h := Lowest(p, align);
      ClimbsUp(align, m, target);
      if h == 2 * align {
        FreePositive(pn, p);
        layer, h, k := AllocateExactly(pn, p, align / 2, m + 1, target);
      } else {
        InLayer(align, h, m);
        DescendExactly(pn, p, h, m);
      }
    }
  }

  lemma FreePositive(pn: nat, p: Pool)
    requires Inv(pn, p)
    ensures forall x :: x in p.free ==> 1 <= x < 2 * pn
  {
    hide Above;
    assert forall x :: x in p.free ==> x in InUse(p);
  }

  // ---------- runs ----------

  /** The pool after bbuddy_init. */
  function Fresh(whole: set<nat>): Pool {
    Pool({1}, whole, {})
  }

  lemma FreshInv(pn: nat, whole: set<nat>)
    requires pn > 0
    ensures Inv(pn, Fresh(whole))
  {
    assert InUse(Fresh(whole)) == {1};
    forall l: nat | pn <= l < 2 * pn ensures Covered({1}, l) {
      RootAbove(l);
    }
    forall b | b > 0 && Above(b, 1) ensures b == 1 {
      AboveSmaller(b, 1);
    }
  }

  /** With the root free and nothing taken the partition holds exactly if no other node is free. */
  lemma FreshOnly(pn: nat, p: Pool)
    requires pn > 0 && p.taken == {} && 1 in p.free && forall h :: h in p.free ==> 1 <= h < 2 * pn
    ensures Inv(pn, p) <==> p.free == {1}
  {
    if p.free == {1} {
      FreshInv(pn, p.whole);
      assert p == Fresh(p.whole);
    } else {
      var h :| h in p.free && h != 1;
      RootAbove(h);
      assert InUse(p) == p.free;
    }
  }

  lemma {:induction false} RootAbove(l: nat)
    requires l >= 1
    ensures Above(1, l)
    decreases l
  {
    if l > 1 {
      RootAbove(l / 2);
    }
  }

  /** The pool after a sequence of requests, each for a layer. */
  function Serve(p: Pool, requests: seq<nat>): Pool
    decreases |requests|
  {
    if requests == [] then p else Serve(Allocate(p, requests[0], 0).0, requests[1..])
  }

  /** Over every run the free and the taken blocks partition the leaves, no block is handed out twice,
      and what is taken stays taken. */
  lemma {:induction false} ServeKeeps(pn: nat, p: Pool, requests: seq<nat>)
    requires Inv(pn, p) && forall i :: 0 <= i < |requests| ==> Layer(requests[i]) && requests[i] <= pn
    ensures Inv(pn, Serve(p, requests)) && p.taken <= Serve(p, requests).taken
    decreases |requests|
  {
    hide Inv, Allocate;
    if requests != [] {
      OneLayer(requests[0]);
      var _, _, _ := AllocateExactly(pn, p, requests[0], 0, requests[0]);
      ServeKeeps(pn, Allocate(p, requests[0], 0).0, requests[1..]);
    }
  }

  lemma OneLayer(a: nat)
    requires Layer(a)
    ensures DescendsTo(a, 0, a)
  {
  }

  // ---------- the bitmaps ----------

  const MAP_BITS: nat := 32

  /** Bit h % 32 of word h / 32. */
  predicate NodeBit(ws: seq<nat>, h: nat)
    requires h < MAP_BITS * |ws|
  {
    Bit(ws[h / MAP_BITS], h % MAP_BITS)
  }

  ghost predicate Fit32(ws: seq<nat>) {
    forall k :: 0 <= k < |ws| ==> ws[k] < Pow2(MAP_BITS)
  }

  /** The nodes whose bit is set. */
  ghost function NodesOf(ws: seq<nat>, pn: nat): set<nat>
    requires 2 * pn <= MAP_BITS * |ws|
  {
    set h: nat | 1 <= h < 2 * pn && NodeBit(ws, h)
  }

  lemma WordAndBit(h: nat, w: nat, i: nat)
    requires i < MAP_BITS
    ensures h == MAP_BITS * w + i <==> h / MAP_BITS == w && h % MAP_BITS == i
  {
  }

  lemma SetNode(ws: seq<nat>, pn: nat, w: nat, i: nat)
    requires 2 * pn <= MAP_BITS * |ws| && w < |ws| && i < MAP_BITS && 1 <= MAP_BITS * w + i < 2 * pn && Fit32(ws)
    ensures var ws' := ws[w := SetBit(ws[w], i)];
            Fit32(ws') && NodesOf(ws', pn) == NodesOf(ws, pn) + {MAP_BITS * w + i}
  {
    hide Bit, SetBit, Pow2;
    SetBitSize(ws[w], i, MAP_BITS);
    forall h: nat | 1 <= h < 2 * pn ensures NodeBit(ws[w := SetBit(ws[w], i)], h) <==>
      NodeBit(ws, h) || h == MAP_BITS * w + i {
      WordAndBit(h, w, i);
      SetBitAt(ws[w], i, h % MAP_BITS);
    }
  }

  lemma ClearNode(ws: seq<nat>, pn: nat, w: nat, i: nat)
    requires 2 * pn <= MAP_BITS * |ws| && w < |ws| && i < MAP_BITS && 1 <= MAP_BITS * w + i < 2 * pn && Fit32(ws)
    ensures var ws' := ws[w := ClearBit(ws[w], i)];
            Fit32(ws') && NodesOf(ws', pn) == NodesOf(ws, pn) - {MAP_BITS * w + i}
  {
    hide Bit, ClearBit, Pow2;
    ClearBitSize(ws[w], i);
    forall h: nat | 1 <= h < 2 * pn ensures NodeBit(ws[w := ClearBit(ws[w], i)], h) <==>
      NodeBit(ws, h) && h != MAP_BITS * w + i {
      WordAndBit(h, w, i);
      ClearBitAt(ws[w], i, h % MAP_BITS);
    }
  }

  /** The bits from lo to hi are clear. */
  ghost predicate NoBit(w: nat, lo: nat, hi: nat) {
    forall k: nat :: lo <= k < hi ==> !Bit(w, k)
  }

  lemma SomeBit(w: nat, n: nat)
    requires w < Pow2(n)
    ensures w == 0 <==> NoBit(w, 0, n)
  {
    hide Bit, Pow2;
    if w == 0 {
      forall i: nat | i < n ensures !Bit(w, i) {
        ZeroBits(i);
      }
    } else {
      assert Bit(w, LowestBit(w)) && LowestBit(w) < n;
    }
  }

  class BuddyMap {
    const pn: nat
    const nbmp: array<nat>
    const pbmp: array<nat>
    ghost var taken: set<nat>

    /** The bitmaps have room for the 2 * pn nodes. */
    ghost predicate Shape()
      reads nbmp, pbmp
    {
      && Layer(pn) && nbmp != pbmp && nbmp.Length == pbmp.Length && 2 * pn <= MAP_BITS * nbmp.Length
      && Fit32(nbmp[..]) && Fit32(pbmp[..])
    }

    ghost function Now(): Pool
      requires Shape()
      reads this, nbmp, pbmp
    {
      Pool(NodesOf(nbmp[..], pn), NodesOf(pbmp[..], pn), taken)
    }

    ghost predicate Valid()
      reads this, nbmp, pbmp
    {
      Shape() && Inv(pn, Now())
    }

    /** A free node is marked used and not separated. */
    method Use(w: nat, i: nat, ghost h: nat)
      requires Shape() && w < nbmp.Length && i < MAP_BITS && h == MAP_BITS * w + i && 1 <= h < 2 * pn
      modifies this, nbmp, pbmp
      ensures Shape() && Now() == HandOut(old(Now()), h)
    {
      hide NodesOf, Fit32, SetBit, ClearBit;
      ClearNode(nbmp[..], pn, w, i);
      SetNode(pbmp[..], pn, w, i);
      nbmp[w] := ClearBit(nbmp[w], i);
      pbmp[w] := SetBit(pbmp[w], i);
      taken := taken + {h};
      assert nbmp[..] == old(nbmp[..])[w := ClearBit(old(nbmp[w]), i)];
      assert pbmp[..] == old(pbmp[..])[w := SetBit(old(pbmp[w]), i)];
    }

    /** A free node is marked used and separated, and its children, at bits j and j + 1 of word v, free
        and not separated. */
    method Separate(w: nat, i: nat, v: nat, j: nat, ghost h: nat)
      requires Shape() && w < nbmp.Length && i < MAP_BITS && h == MAP_BITS * w + i && 1 <= h < pn
      requires v < nbmp.Length && j + 1 < MAP_BITS && 2 * h == MAP_BITS * v + j
      modifies nbmp, pbmp
      ensures Shape() && Now() == Split(old(Now()), h)
    {
      hide NodesOf, Fit32, SetBit, ClearBit;
      ClearNode(nbmp[..], pn, w, i);
      ClearNode(pbmp[..], pn, w, i);
      nbmp[w] := ClearBit(nbmp[w], i);
      pbmp[w] := ClearBit(pbmp[w], i);
      SetNode(nbmp[..], pn, v, j);
      SetNode(pbmp[..], pn, v, j);
      nbmp[v] := SetBit(nbmp[v], j);
      pbmp[v] := SetBit(pbmp[v], j);
      SetNode(nbmp[..], pn, v, j + 1);
      SetNode(pbmp[..], pn, v, j + 1);
      nbmp[v] := SetBit(nbmp[v], j + 1);
      pbmp[v] := SetBit(pbmp[v], j + 1);
      Children(old(Now()).free, h);
      Children(old(Now()).whole, h);
    }

    /** `bbuddy_init` on memory that the caller provides. Below 32 blocks it does not clear the bitmap of
        free nodes: the result is a partition exactly if the bits of all other nodes were clear. */
    constructor (maxPart: nat, nmem: array<nat>, pmem: array<nat>)
      requires Layer(maxPart) && nmem != pmem
               && nmem.Length == pmem.Length == (if maxPart < 32 then 1 else maxPart / 16)
      requires Fit32(nmem[..]) && Fit32(pmem[..])
      modifies nmem, pmem
      ensures Shape() && pn == maxPart && nbmp == nmem && pbmp == pmem && taken == {} && NodeBit(nbmp[..], 0)
      ensures Now().free == (if maxPart >= 32 then {} else NodesOf(old(nmem[..]), maxPart)) + {1}
      ensures Valid() <==> Now().free == {1}
      ensures Valid() <==> maxPart >= 32 || NoBit(old(nmem[0]), 2, 2 * maxPart)
      ensures if maxPart >= 32 then forall h: nat :: 1 <= h < 2 * pn ==> h in Now().whole else pmem[..] == old(pmem[..])
    {
      nbmp, pbmp, pn, taken := nmem, pmem, maxPart, {};
      new;
      hide Bit, SetBit, Pow2, Inv, NodesOf, NoBit, NodeBit;
      var yy := maxPart / 32 * 2;
      var i := 0;
      while i < yy
        invariant 0 <= i <= yy && (maxPart >= 32 ==> yy == nbmp.Length) && (maxPart < 32 ==> yy == 0)
        invariant Fit32(nbmp[..]) && Fit32(pbmp[..]) && (forall k :: 0 <= k < i ==> nbmp[..][k] == 0)
        invariant (forall k :: 0 <= k < i ==> pbmp[..][k] == Pow2(MAP_BITS) - 1)
        invariant maxPart < 32 ==> pbmp[..] == old(pmem[..]) && nbmp[..] == old(nmem[..])
        modifies nbmp, pbmp
      {
        nbmp[i] := 0;
        pbmp[i] := 0xffff_ffff;
        FullWord();
        i := i + 1;
      }
      ghost var ws := nbmp[..];
      FirstNodes(ws, pn);
      nbmp[0] := SetBit(nbmp[0], 0);
      nbmp[0] := SetBit(nbmp[0], 1);
      assert nbmp[..] == ws[0 := SetBit(SetBit(ws[0], 0), 1)];
      if maxPart >= 32 {
        NoNodes(ws, pn);
        FullMap(pbmp[..], pn);
      } else {
        OthersClear(ws, pn);
      }
      FreshOnly(pn, Now());
    }

    /** `bbuddy_block_alloc` */
    method BlockAlloc(align: nat) returns (num: nat)
      requires Valid() && Layer(align) && align <= pn
      modifies this, nbmp, pbmp
      ensures Valid()
      ensures var (p', r) := Allocate(old(Now()), align, 0);
              && Now() == p'
              && (r.None? <==> num == 65535)
              && (r.Some? ==>
                    num < align && r.value == align + num && r.value !in old(taken)
                    && taken == old(taken) + {r.value})
    {
      hide Inv, Lowest, Descend, NodesOf, Fit32;
      OneLayer(align);
      ghost var _, _, _ := AllocateExactly(pn, Now(), align, 0, align);
      num := Alloc(align, 0, align);
    }

    /** `__bbuddy_block_alloc`: m_flag counts the layers still to descend; the layers passed on the way
        up have no free node. It ends because it climbs to a layer with a free node and then descends. */
    method Alloc(align: nat, mFlag: nat, ghost target: nat) returns (num: nat)
      requires Shape() && DescendsTo(align, mFlag, target) && target <= pn && NoneIn(Now().free, 2 * align, 2 * target)
      modifies this, nbmp, pbmp
      ensures Shape()
      ensures var (p', r) := Allocate(old(Now()), align, mFlag);
              && Now() == p'
              && (r.None? ==> num == ENOBLOCK)
              && (r.Some? ==> r.value == target + num)
      decreases if HasFree(Now(), align) then 0 else 1, if HasFree(Now(), align) then mFlag else align
    {
      hide NodesOf, Fit32, Bit, Pow2, NoneIn;
      var pIndx := align / 32;
      if pIndx != 0 {
        num := AllocLong(align, mFlag, target);
      } else {
        num := AllocSmall(align, mFlag, target);
      }
    }

    /** Layers of 32 nodes and more: word by word, and then bit by bit. */
    method AllocLong(align: nat, mFlag: nat, ghost target: nat) returns (num: nat)
      requires Shape() && DescendsTo(align, mFlag, target) && target <= pn
               && NoneIn(Now().free, 2 * align, 2 * target) && align >= 32
      modifies this, nbmp, pbmp
      ensures Shape()
      ensures var (p', r) := Allocate(old(Now()), align, mFlag);
              && Now() == p'
              && (r.None? ==> num == ENOBLOCK)
              && (r.Some? ==> r.value == target + num)
      decreases if HasFree(Now(), align) then 0 else 1, if HasFree(Now(), align) then mFlag else align, 0
    {
      hide NodesOf, Fit32, Bit, NoBit, Pow2, NoneIn, Lowest, Layer, DescendsTo, Split, HandOut;
      ghost var before, ws := Now(), nbmp[..];
      DescendsBound(align, mFlag, target);
      var pIndx := align / 32;
      var i := 0;
      while i < pIndx && nbmp[pIndx + i] == 0
        invariant i <= pIndx && nbmp[..] == ws
        invariant forall k :: pIndx <= k < pIndx + i ==> nbmp[..][k] == 0
      {
        i := i + 1;
      }
      SomeWord(nbmp[..], pn);
      if i == pIndx {
        EmptyWords(before, nbmp[..], pn, align);
        Climb(before, align, mFlag, target);
        num := Alloc(align / 2, mFlag + 1, target);
        return;
      }
      WordHasBit(nbmp[..], pIndx + i);
      NoBitYet(nbmp[pIndx + i], 0);
      var o := 0;
      while o < 32 && !Bit(nbmp[pIndx + i], o)
        invariant o <= 32 && NoBit(nbmp[pIndx + i], 0, o)
        invariant nbmp[..] == ws
        modifies {}
      {
        NextBit(nbmp[pIndx + i], 0, o);
        o := o + 1;
      }
      ghost var h := MAP_BITS * (pIndx + i) + o;
      FoundInWord(before, nbmp[..], pn, align, pIndx + i, o);
      if mFlag == 0 {
        Use(pIndx + i, o, h);
        num := if pIndx > 1 then (pIndx + i - 2) * 32 + o else o;
        LongNumber(align, pIndx + i, o);
      } else {
        DescendStep(before, align, mFlag, target, h);
        var align', o' := align * 2, o * 2;
        LongChild(align, mFlag, target, o);
        Separate(pIndx + i, o, IndexP(align', o'), IndexBn(o'), h);
        num := Alloc(align', mFlag - 1, target);
      }
    }

    /** The scan of the first word: the first set bit from lo on, or hi. */
    method ScanWord(w: nat, lo: nat, hi: nat) returns (i: nat)
      requires lo <= hi
      ensures lo <= i <= hi && NoBit(w, lo, i) && (i < hi ==> Bit(w, i))
    {
      hide Bit, NoBit;
      NoBitYet(w, lo);
      i := lo;
      while i < hi && !Bit(w, i)
        invariant lo <= i <= hi && NoBit(w, lo, i)
      {
        NextBit(w, lo, i);
        i := i + 1;
      }
    }

    /** Layers of fewer than 32 nodes, in the first word. */
    method AllocSmall(align: nat, mFlag: nat, ghost target: nat) returns (num: nat)
      requires Shape() && DescendsTo(align, mFlag, target) && target <= pn
               && NoneIn(Now().free, 2 * align, 2 * target) && align < 32
      modifies this, nbmp, pbmp
      ensures Shape()
      ensures var (p', r) := Allocate(old(Now()), align, mFlag);
              && Now() == p'
              && (r.None? ==> num == ENOBLOCK)
              && (r.Some? ==> r.value == target + num)
      decreases if HasFree(Now(), align) then 0 else 1, if HasFree(Now(), align) then mFlag else align, 0
    {
      hide NodesOf, Fit32, Bit, NoBit, Pow2, NoneIn, Lowest, Layer, DescendsTo, Split, HandOut, IndexBn;
      ghost var before := Now();
      DescendsBound(align, mFlag, target);
      SomeWord(nbmp[..], pn);
      var o := align * 2;
      var i := ScanWord(nbmp[0], align, o);
      if i < o {
        FoundInFirst(before, nbmp[..], pn, align, i);
        if mFlag == 0 {
          Use(0, i, i);
          num := i - align;
        } else {
          DescendStep(before, align, mFlag, target, i);
          SmallChild(align, mFlag, target, i);
          var align', i' := align * 2, i * 2;
          Separate(0, i, align' / 32, IndexBn(i'), i);
          num := Alloc(align', mFlag - 1, target);
        }
      } else if i < 2 {
        num := ENOBLOCK;
      } else {
        EmptyFirst(before, nbmp[..], pn, align);
        Climb(before, align, mFlag, target);
        num := Alloc(align / 2, mFlag + 1, target);
      }
    }
  }

  /** The index macros `bbuddy_indexp` and `bbuddy_indexbn` */
  function IndexP(p: nat, n: nat): nat {
    if p / 32 > 1 then p / 32 + n / 32 else p / 32
  }

  function IndexBn(n: nat): nat {
    if n / 32 != 0 then n % 32 else n
  }

  predicate HasFree(p: Pool, align: nat) {
    Lowest(p, align) < 2 * align
  }

  lemma FullWord()
    ensures 0xffff_ffff == Pow2(MAP_BITS) - 1
  {
    WordSizes();
  }

  lemma FullMap(ws: seq<nat>, pn: nat)
    requires 2 * pn <= MAP_BITS * |ws| && forall k :: 0 <= k < |ws| ==> ws[k] == Pow2(MAP_BITS) - 1
    ensures forall h: nat :: 1 <= h < 2 * pn ==> h in NodesOf(ws, pn)
  {
    hide Bit, Pow2;
    forall h: nat | 1 <= h < 2 * pn ensures NodeBit(ws, h) {
      OnesBits(MAP_BITS, h % MAP_BITS);
    }
  }

  /** Setting bits 0 and 1 offers the root. */
  lemma FirstNodes(ws: seq<nat>, pn: nat)
    requires Layer(pn) && 2 * pn <= MAP_BITS * |ws| && Fit32(ws) && |ws| > 0
    ensures var ws' := ws[0 := SetBit(SetBit(ws[0], 0), 1)];
            Fit32(ws') && NodesOf(ws', pn) == NodesOf(ws, pn) + {1} && NodeBit(ws', 0)
    ensures forall h :: h in NodesOf(ws, pn) ==> 1 <= h < 2 * pn
  {
    hide Bit, SetBit, Pow2;
    SetBitSize(ws[0], 0, MAP_BITS);
    SetBitSize(SetBit(ws[0], 0), 1, MAP_BITS);
    var ws' := ws[0 := SetBit(SetBit(ws[0], 0), 1)];
    forall h: nat | h < 2 * pn ensures NodeBit(ws', h) <==> h <= 1 || NodeBit(ws, h) {
      WordAndBit(h, 0, 1);
      WordAndBit(h, 0, 0);
      SetBitAt(SetBit(ws[0], 0), 1, h % MAP_BITS);
      SetBitAt(ws[0], 0, h % MAP_BITS);
    }
  }

  lemma NoNodes(ws: seq<nat>, pn: nat)
    requires 2 * pn <= MAP_BITS * |ws| && forall k :: 0 <= k < |ws| ==> ws[k] == 0
    ensures NodesOf(ws, pn) == {}
  {
    hide Bit;
    forall h: nat | 1 <= h < 2 * pn ensures !NodeBit(ws, h) {
      ZeroBits(h % MAP_BITS);
    }
  }

  /** Below 32 blocks all nodes have their bits in the first word. */
  lemma OthersClear(ws: seq<nat>, pn: nat)
    requires Layer(pn) && pn < 32 && |ws| == 1
    ensures NodesOf(ws, pn) + {1} == {1} <==> NoBit(ws[0], 2, 2 * pn)
  {
    hide Bit;
    forall h: nat | 1 <= h < 2 * pn ensures NodeBit(ws, h) <==> Bit(ws[0], h) {
      WordAndBit(h, 0, h);
    }
    if NodesOf(ws, pn) + {1} == {1} {
      forall h: nat | 2 <= h < 2 * pn ensures !Bit(ws[0], h) {
        assert h !in NodesOf(ws, pn) + {1};
      }
    }
  }

  lemma Children(s: set<nat>, h: nat)
    ensures s - {h} + {2 * h} + {2 * h + 1} == s - {h} + {2 * h, 2 * h + 1}
  {
  }

  lemma LowestIs(p: Pool, align: nat, h: nat)
    requires align <= h <= 2 * align && (h < 2 * align ==> h in p.free) && NoneIn(p.free, align, h)
    ensures Lowest(p, align) == h
  {
    hide Lowest;
    var l := Lowest(p, align);
    assert l < h ==> l in p.free;
  }

  lemma EmptyWords(p: Pool, ws: seq<nat>, pn: nat, align: nat)
    requires Layer(align) && align >= 32 && 2 * align <= 2 * pn <= MAP_BITS * |ws|
    requires forall k :: align / 32 <= k < align / 32 * 2 ==> ws[k] == 0
    requires p.free == NodesOf(ws, pn)
    ensures Lowest(p, align) == 2 * align
  {
    hide Lowest, Bit;
    forall h: nat | align <= h < 2 * align ensures h !in p.free {
      InWords(align, h);
      ZeroBits(h % MAP_BITS);
    }
    LowestIs(p, align, 2 * align);
  }

  lemma InWords(align: nat, h: nat)
    requires Layer(align) && align >= 32 && align <= h < 2 * align
    ensures align / 32 <= h / MAP_BITS < align / 32 * 2 && h / MAP_BITS * 32 + h % MAP_BITS == h
            && align / 32 * 32 == align
  {
  }

  lemma EmptyFirst(p: Pool, ws: seq<nat>, pn: nat, align: nat)
    requires align < 32 && Layer(align) && 2 * align <= 2 * pn <= MAP_BITS * |ws|
    requires NoBit(ws[0], align, 2 * align)
    requires p.free == NodesOf(ws, pn)
    ensures Lowest(p, align) == 2 * align
  {
    hide Lowest, Bit;
    forall h: nat | align <= h < 2 * align ensures h !in p.free {
      WordAndBit(h, 0, h);
    }
    LowestIs(p, align, 2 * align);
  }

  lemma NoBitYet(w: nat, lo: nat)
    ensures NoBit(w, lo, lo)
  {
  }

  lemma SomeWord(ws: seq<nat>, pn: nat)
    requires Layer(pn) && 2 * pn <= MAP_BITS * |ws|
    ensures |ws| > 0 && pn > 0 && 0 !in NodesOf(ws, pn)
  {
  }

  lemma NextBit(w: nat, lo: nat, k: nat)
    requires NoBit(w, lo, k) && !Bit(w, k)
    ensures NoBit(w, lo, k + 1)
  {
    hide Bit;
  }

  lemma WordHasBit(ws: seq<nat>, w: nat)
    requires Fit32(ws) && w < |ws| && ws[w] != 0
    ensures !NoBit(ws[w], 0, 32)
  {
    SomeBit(ws[w], 32);
  }

  lemma FoundInWord(p: Pool, ws: seq<nat>, pn: nat, align: nat, w: nat, o: nat)
    requires Layer(align) && align >= 32 && 2 * align <= 2 * pn <= MAP_BITS * |ws| && align / 32 <= w < align / 32 * 2
             && o < 32
    requires (forall k :: align / 32 <= k < w ==> ws[k] == 0) && NoBit(ws[w], 0, o) && Bit(ws[w], o)
    requires p.free == NodesOf(ws, pn)
    ensures var h := MAP_BITS * w + o; align <= h < 2 * align && Lowest(p, align) == h
  {
    hide Lowest, Bit;
    var h := MAP_BITS * w + o;
    InWords(align, align);
    WordAndBit(h, w, o);
    assert h in p.free;
    forall k: nat | align <= k < h ensures k !in p.free {
      InWords(align, k);
      WordAndBit(k, w, k % MAP_BITS);
      ZeroBits(k % MAP_BITS);
    }
    LowestIs(p, align, h);
  }

  lemma FoundInFirst(p: Pool, ws: seq<nat>, pn: nat, align: nat, i: nat)
    requires 0 < align < 32 && Layer(align) && 2 * align <= 2 * pn <= MAP_BITS * |ws| && align <= i < 2 * align
    requires NoBit(ws[0], align, i) && Bit(ws[0], i)
    requires p.free == NodesOf(ws, pn)
    ensures Lowest(p, align) == i < 32
  {
    hide Lowest, Bit;
    assert align <= 16;
    WordAndBit(i, 0, i);
    forall h: nat | align <= h < i ensures h !in p.free {
      WordAndBit(h, 0, h);
    }
    LowestIs(p, align, i);
  }

  /** Going up from an empty layer. */
  lemma Climb(p: Pool, align: nat, m: nat, target: nat)
    requires DescendsTo(align, m, target) && align > 0 && Lowest(p, align) == 2 * align
             && NoneIn(p.free, 2 * align, 2 * target)
    requires 0 !in p.free
    ensures DescendsTo(align / 2, m + 1, target) && NoneIn(p.free, 2 * (align / 2), 2 * target)
    ensures !HasFree(p, align) && Allocate(p, align, m) == Allocate(p, align / 2, m + 1)
  {
    hide Lowest, Descend, Pow2;
    ClimbsUp(align, m, target);
  }

  /** Going down from a node that was split: its children are the only free nodes of their layer. */
  lemma DescendStep(p: Pool, align: nat, m: nat, target: nat, h: nat)
    requires DescendsTo(align, m, target) && m > 0 && align <= h < 2 * align && NoneIn(p.free, 2 * align, 2 * target)
    requires Lowest(p, align) == h
    ensures DescendsTo(2 * align, m - 1, target) && 2 * align <= target
            && NoneIn(Split(p, h).free, 4 * align, 2 * target)
    ensures HasFree(p, align) && HasFree(Split(p, h), 2 * align)
            && Allocate(p, align, m) == Allocate(Split(p, h), 2 * align, m - 1)
  {
    hide Lowest, Pow2;
    LeadsDown(align, m, target);
    LowestIs(Split(p, h), 2 * align, 2 * h);
  }

  lemma DescendsBound(align: nat, m: nat, target: nat)
    requires DescendsTo(align, m, target)
    ensures align <= target && Layer(target) && (align > 0 ==> Layer(align) && (m == 0 ==> align == target))
  {
    AtLeast(align, Pow2(m));
  }

  lemma LeadsDown(align: nat, m: nat, target: nat)
    requires DescendsTo(align, m, target) && m > 0 && align > 0
    ensures DescendsTo(2 * align, m - 1, target) && 2 * align <= target
  {
    Generation(align, m);
    AtLeast(2 * align, Pow2(m - 1));
  }

  lemma LongNumber(align: nat, w: nat, o: nat)
    requires Layer(align) && align >= 32 && align / 32 <= w < align / 32 * 2
    ensures MAP_BITS * w + o == align + if align / 32 > 1 then (w - 2) * 32 + o else o
  {
  }

  lemma LongChild(align: nat, m: nat, target: nat, o: nat)
    requires Layer(align) && align >= 32 && 2 * align <= target && Layer(target) && o < 32
    ensures align == 32 && target == 64
    ensures var v, j := IndexP(2 * align, 2 * o), IndexBn(2 * o);
            v < 4 && j + 1 < 32 && 2 * (32 + o) == MAP_BITS * v + j
  {
  }

  lemma SmallChild(align: nat, m: nat, target: nat, i: nat)
    requires Layer(align) && align < 32 && align <= i < 2 * align
    ensures var v, j := 2 * align / 32, IndexBn(2 * i);
            v <= 1 && (v == 1 ==> align == 16) && j + 1 < 32 && 2 * i == MAP_BITS * v + j
  {
  }
}
