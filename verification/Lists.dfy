/** Intrusive circular doubly-linked lists (include/eza/list.h). List nodes live in one arena and
    are named by index, as C names them by address; a page's node has the page's own number. */
module Lists {
  const POISON1: int := -1
  const POISON2: int := -2

  /** The nodes of `ring`, each pointing to the next one and back, closed into a cycle. */
  ghost predicate IsRing(next: seq<int>, prev: seq<int>, ring: seq<int>) {
    && |next| == |prev| && |ring| > 0
    && (forall k :: 0 <= k < |ring| ==> 0 <= ring[k] < |next|)
    && (forall j, k :: 0 <= j < k < |ring| ==> ring[j] != ring[k])
    && (forall k :: 0 <= k < |ring| ==> next[ring[k]] == ring[Succ(k, |ring|)])
    && (forall k :: 0 <= k < |ring| ==> prev[ring[Succ(k, |ring|)]] == ring[k])
  }

  function Succ(k: nat, n: nat): nat {
    if k + 1 == n then 0 else k + 1
  }

  /** `next` and `prev` are mutually inverse on every list. */
  lemma NextPrevInverse(next: seq<int>, prev: seq<int>, ring: seq<int>, x: int)
    requires IsRing(next, prev, ring) && x in ring
    ensures next[x] in ring && prev[x] in ring && prev[next[x]] == x && next[prev[x]] == x
  {
    var k :| 0 <= k < |ring| && ring[k] == x;
    var p := if k == 0 then |ring| - 1 else k - 1;
    assert ring[Succ(p, |ring|)] == x;
    assert next[ring[k]] == ring[Succ(k, |ring|)];
  }

  ghost function InsertAt(ring: seq<int>, k: nat, x: int): seq<int>
    requires k < |ring|
  {
    ring[..k + 1] + [x] + ring[k + 1..]
  }

  ghost function RemoveAt(ring: seq<int>, k: nat): seq<int>
    requires k < |ring|
  {
    ring[..k] + ring[k + 1..]
  }

  lemma InsertedAt(next: seq<int>, prev: seq<int>, ring: seq<int>, k: nat, x: int, j: nat)
    requires IsRing(next, prev, ring) && k < |ring| && 0 <= x < |next| && x !in ring && j < |ring| + 1
    requires 0 <= next[ring[k]] < |next| && next[ring[k]] == ring[Succ(k, |ring|)]
    ensures var p := ring[k];
            var n := next[p];
            var ring' := InsertAt(ring, k, x);
            && 0 <= ring'[j] < |next| && 0 <= ring'[Succ(j, |ring'|)] < |next|
            && next[x := n][p := x][ring'[j]] == ring'[Succ(j, |ring'|)]
            && prev[n := x][x := p][ring'[Succ(j, |ring'|)]] == ring'[j]
  {
    var ring' := InsertAt(ring, k, x);
    var i := if j <= k then j else j - 1;
    assert ring'[j] == if j == k + 1 then x else ring[i];
    assert next[ring[i]] == ring[Succ(i, |ring|)] && prev[ring[Succ(i, |ring|)]] == ring[i];
    assert i != k ==> Succ(i, |ring|) != Succ(k, |ring|) && ring'[Succ(j, |ring'|)] == ring[Succ(i, |ring|)];
  }

  lemma InsertedNodes(next: seq<int>, prev: seq<int>, ring: seq<int>, k: nat, x: int)
    requires IsRing(next, prev, ring) && k < |ring| && 0 <= x < |next| && x !in ring
    ensures var ring' := InsertAt(ring, k, x);
            && |ring'| == |ring| + 1
            && (forall j :: 0 <= j < |ring'| ==> 0 <= ring'[j] < |next|)
            && (forall i, j :: 0 <= i < j < |ring'| ==> ring'[i] != ring'[j])
    ensures var n := next[ring[k]];
            0 <= n < |next| && n == ring[Succ(k, |ring|)]
  {
    assert next[ring[k]] == ring[Succ(k, |ring|)];
  }

  lemma RingInsert(next: seq<int>, prev: seq<int>, ring: seq<int>, k: nat, x: int)
    requires IsRing(next, prev, ring) && k < |ring| && 0 <= x < |next| && x !in ring
    ensures var p := ring[k];
            var n := next[p];
            0 <= n < |next| && n == ring[Succ(k, |ring|)] &&
            IsRing(next[x := n][p := x], prev[n := x][x := p], InsertAt(ring, k, x))
  {
    hide InsertAt;
    InsertedNodes(next, prev, ring, k, x);
    forall j | 0 <= j < |ring| + 1
      ensures var p := ring[k];
              var n := next[p];
              var ring' := InsertAt(ring, k, x);
              && next[x := n][p := x][ring'[j]] == ring'[Succ(j, |ring'|)]
              && prev[n := x][x := p][ring'[Succ(j, |ring'|)]] == ring'[j]
    {
      InsertedAt(next, prev, ring, k, x, j);
    }
  }

  lemma RemovedAt(next: seq<int>, prev: seq<int>, ring: seq<int>, k: nat, j: nat)
    requires IsRing(next, prev, ring) && 0 < k < |ring| && j < |ring| - 1
    requires prev[ring[k]] == ring[k - 1] && next[ring[k]] == ring[Succ(k, |ring|)]
    ensures var x := ring[k];
            var p, n := prev[x], next[x];
            var ring' := RemoveAt(ring, k);
            && next[p := n][x := POISON1][ring'[j]] == ring'[Succ(j, |ring'|)]
            && prev[n := p][x := POISON2][ring'[Succ(j, |ring'|)]] == ring'[j]
  {
    var ring' := RemoveAt(ring, k);
    var i := if j < k then j else j + 1;
    assert ring'[j] == ring[i];
    assert next[ring[i]] == ring[Succ(i, |ring|)] && prev[ring[Succ(i, |ring|)]] == ring[i];
    assert i != k - 1 ==> Succ(i, |ring|) != Succ(k, |ring|) && ring'[Succ(j, |ring'|)] == ring[Succ(i, |ring|)];
  }

  lemma RemovedNodes(next: seq<int>, prev: seq<int>, ring: seq<int>, k: nat)
    requires IsRing(next, prev, ring) && 0 < k < |ring|
    ensures var ring' := RemoveAt(ring, k);
            && |ring'| == |ring| - 1
            && (forall j :: 0 <= j < |ring'| ==> 0 <= ring'[j] < |next|)
            && (forall i, j :: 0 <= i < j < |ring'| ==> ring'[i] != ring'[j])
    ensures var x := ring[k];
            var p, n := prev[x], next[x];
            0 <= n < |next| && 0 <= p < |next| && p != x && n != x && p in ring && n in ring
    ensures prev[ring[k]] == ring[k - 1] && next[ring[k]] == ring[Succ(k, |ring|)]
  {
    assert prev[ring[Succ(k - 1, |ring|)]] == ring[k - 1];
    assert next[ring[k]] == ring[Succ(k, |ring|)];
  }

  lemma RingRemove(next: seq<int>, prev: seq<int>, ring: seq<int>, k: nat)
    requires IsRing(next, prev, ring) && 0 < k < |ring|
    ensures var x := ring[k];
            var p, n := prev[x], next[x];
            0 <= n < |next| && 0 <= p < |next| && p != x && n != x && p in ring && n in ring &&
            IsRing(next[p := n][x := POISON1], prev[n := p][x := POISON2], RemoveAt(ring, k))
  {
    hide RemoveAt;
    RemovedNodes(next, prev, ring, k);
    forall j | 0 <= j < |ring| - 1
      ensures var x := ring[k];
              var p, n := prev[x], next[x];
              var ring' := RemoveAt(ring, k);
              && next[p := n][x := POISON1][ring'[j]] == ring'[Succ(j, |ring'|)]
              && prev[n := p][x := POISON2][ring'[Succ(j, |ring'|)]] == ring'[j]
    {
      RemovedAt(next, prev, ring, k, j);
    }
  }

  /** A ring is untouched by writes to nodes outside it. */
  lemma RingFrame(next: seq<int>, prev: seq<int>, next': seq<int>, prev': seq<int>, ring: seq<int>)
    requires IsRing(next, prev, ring) && |next'| == |prev'| == |next|
    requires forall x :: x in ring ==> next'[x] == next[x] && prev'[x] == prev[x]
    ensures IsRing(next', prev', ring)
  {
    forall k | 0 <= k < |ring| ensures prev'[ring[Succ(k, |ring|)]] == ring[k] {
      assert ring[Succ(k, |ring|)] in ring;
    }
  }

  /** The heads and the nodes on each list, in order; a node is on at most one list. */
  type Heads = map<int, seq<int>>

  ghost function Ring(lists: Heads, h: int): seq<int>
    requires h in lists
  {
    [h] + lists[h]
  }

  ghost predicate AllRings(next: seq<int>, prev: seq<int>, lists: Heads) {
    && (forall h :: h in lists ==> IsRing(next, prev, Ring(lists, h)))
    && (forall h, h', x :: h in lists && h' in lists && x in Ring(lists, h) && x in Ring(lists, h') ==> h == h')
  }

  /** `x` may be put on a list: it is on none, and if it is itself a head, its list is empty. */
  ghost predicate Loose(lists: Heads, x: int) {
    forall h :: h in lists && x in Ring(lists, h) ==> h == x && lists[h] == []
  }

  lemma AllRingsInsert(next: seq<int>, prev: seq<int>, lists: Heads, h: int, k: nat, x: int)
    requires AllRings(next, prev, lists) && h in lists && k <= |lists[h]|
    requires 0 <= x < |next| && |prev| == |next| && x != h && Loose(lists, x)
    ensures var p := Ring(lists, h)[k];
            0 <= p < |next| && 0 <= next[p] < |next| && next[p] == Ring(lists, h)[Succ(k, 1 + |lists[h]|)] &&
            AllRings(next[x := next[p]][p := x], prev[next[p] := x][x := p],
                     (lists - {x})[h := lists[h][..k] + [x] + lists[h][k..]])
  {
    hide IsRing, Succ;
    var ring := Ring(lists, h);
    assert IsRing(next, prev, ring);
    RingInsert(next, prev, ring, k, x);
    RingNode(next, prev, ring, k);
    var p := ring[k];
    var n := next[p];
    var next', prev' := next[x := n][p := x], prev[n := x][x := p];
    var lists' := (lists - {x})[h := lists[h][..k] + [x] + lists[h][k..]];
    assert Ring(lists', h) == InsertAt(ring, k, x);
    forall g | g in lists' && g != h ensures IsRing(next', prev', Ring(lists', g)) {
      OtherRing(next, prev, lists, h, g, p, n, x);
      assert Ring(lists', g) == Ring(lists, g);
    }
    InsertKeepsDisjoint(next, prev, lists, h, k, x);
  }

  lemma RingNode(next: seq<int>, prev: seq<int>, ring: seq<int>, k: nat)
    requires IsRing(next, prev, ring) && k < |ring|
    ensures 0 <= ring[k] < |next| && next[ring[k]] in ring
  {
  }

  lemma OtherRing(next: seq<int>, prev: seq<int>, lists: Heads, h: int, g: int, p: int, n: int, x: int)
    requires AllRings(next, prev, lists) && h in lists && g in lists && g != h && x != g && Loose(lists, x)
    requires p in Ring(lists, h) && n in Ring(lists, h) && 0 <= x < |next| && 0 <= p < |next|
             && 0 <= n < |next| == |prev|
    ensures IsRing(next[x := n][p := x], prev[n := x][x := p], Ring(lists, g))
  {
    forall y | y in Ring(lists, g) ensures y != p && y != n && y != x {
    }
    RingFrame(next, prev, next[x := n][p := x], prev[n := x][x := p], Ring(lists, g));
  }

  lemma InsertKeepsDisjoint(next: seq<int>, prev: seq<int>, lists: Heads, h: int, k: nat, x: int)
    requires AllRings(next, prev, lists) && h in lists && k <= |lists[h]| && x != h && Loose(lists, x)
    ensures var lists' := (lists - {x})[h := lists[h][..k] + [x] + lists[h][k..]];
            forall g, g', y :: g in lists' && g' in lists' && y in Ring(lists', g) && y in Ring(lists', g') ==> g == g'
  {
    var lists' := (lists - {x})[h := lists[h][..k] + [x] + lists[h][k..]];
    forall g, y | g in lists' && y in Ring(lists', g)
      ensures if y == x then g == h else g in lists && y in Ring(lists, g)
    {
      if g == h {
        assert y == h || y in lists[h][..k] || y == x || y in lists[h][k..];
      } else {
        assert Ring(lists', g) == Ring(lists, g);
      }
    }
  }

  lemma AllRingsRemove(next: seq<int>, prev: seq<int>, lists: Heads, h: int, k: nat)
    requires AllRings(next, prev, lists) && h in lists && k < |lists[h]|
    ensures var x := lists[h][k];
            && 0 <= x < |next| && |prev| == |next| && 0 <= next[x] < |next| && 0 <= prev[x] < |next|
            && AllRings(next[prev[x] := next[x]][x := POISON1], prev[next[x] := prev[x]][x := POISON2],
                        lists[h := lists[h][..k] + lists[h][k + 1..]])
            && Loose(lists[h := lists[h][..k] + lists[h][k + 1..]], x)
  {
    var ring := Ring(lists, h);
    assert IsRing(next, prev, ring) && ring[k + 1] == lists[h][k];
    RingRemove(next, prev, ring, k + 1);
    var x := lists[h][k];
    var p, n := prev[x], next[x];
    var next', prev' := next[p := n][x := POISON1], prev[n := p][x := POISON2];
    var lists' := lists[h := lists[h][..k] + lists[h][k + 1..]];
    assert Ring(lists', h) == RemoveAt(ring, k + 1);
    assert x in ring;
    forall g | g in lists' && g != h
      ensures Ring(lists', g) == Ring(lists, g) && IsRing(next', prev', Ring(lists', g)) && x !in Ring(lists', g)
    {
      assert Ring(lists', g) == Ring(lists, g);
      RingFrame(next, prev, next', prev', Ring(lists, g));
    }
    assert x !in Ring(lists', h);
    forall g, g', y | g in lists' && g' in lists' && y in Ring(lists', g) && y in Ring(lists', g') ensures g == g' {
      assert y in Ring(lists', h) ==> y in ring;
    }
  }

  // ---------- runs ----------

  datatype Links = Links(next: seq<int>, prev: seq<int>)

  /** The four operations; a removal names the list and the position only for the abstract view. */
  datatype Op =
    | Init(list: int)
    | AddFirst(node: int, head: int)
    | AddLast(node: int, head: int)
    | Delete(entry: int, head: int, k: nat)

  /** The operation is used as intended: no node is put on a list while it is on one, and only a node
      on a list is taken off. */
  ghost predicate Proper(lists: Heads, size: nat, op: Op) {
    match op
    case Init(list) => 0 <= list < size && Loose(lists, list)
    case AddFirst(node, head) => head in lists && 0 <= node < size && node != head && Loose(lists, node)
    case AddLast(node, head) => head in lists && 0 <= node < size && node != head && Loose(lists, node)
    case Delete(entry, head, k) => head in lists && k < |lists[head]| && lists[head][k] == entry
  }

  /** What the operation means for the sequences: start empty, prepend, append, remove. */
  ghost function After(lists: Heads, op: Op): Heads {
    match op
    case Init(list) => lists[list := []]
    case AddFirst(node, head) => if head in lists then (lists - {node})[head := [node] + lists[head]] else lists
    case AddLast(node, head) => if head in lists then (lists - {node})[head := lists[head] + [node]] else lists
    case Delete(_, head, k) =>
      if head in lists && k < |lists[head]| then lists[head := lists[head][..k] + lists[head][k + 1..]] else lists
  }

  predicate Within(l: Links, x: int) {
    0 <= x < |l.next| && x < |l.prev|
  }

  /** The stores of `list_del`. */
  function Unlinked(l: Links, entry: int): Links
    requires Within(l, entry) && Within(l, l.next[entry]) && Within(l, l.prev[entry])
  {
    Links(l.next[l.prev[entry] := l.next[entry]][entry := POISON1],
          l.prev[l.next[entry] := l.prev[entry]][entry := POISON2])
  }

  /** The stores of `__list_add`. */
  function Splice(l: Links, node: int, before: int, after: int): Links
    requires Within(l, node) && Within(l, before) && Within(l, after)
  {
    Links(l.next[node := after][before := node], l.prev[after := node][node := before])
  }

  /** What the operation does to the links; pointers out of the arena leave them alone. */
  function Apply(l: Links, op: Op): Links {
    match op
    case Init(list) => if Within(l, list) then Links(l.next[list := list], l.prev[list := list]) else l
    case AddFirst(node, head) =>
      if Within(l, node) && Within(l, head) && Within(l, l.next[head]) then Splice(l, node, head, l.next[head]) else l
    case AddLast(node, head) =>
      if Within(l, node) && Within(l, head) && Within(l, l.prev[head]) then Splice(l, node, l.prev[head], head) else l
    case Delete(entry, _, _) =>
      if Within(l, entry) && Within(l, l.next[entry]) && Within(l, l.prev[entry]) then Unlinked(l, entry) else l
  }

  lemma InitRefines(l: Links, lists: Heads, list: int)
    requires AllRings(l.next, l.prev, lists) && |l.next| == |l.prev| && 0 <= list < |l.next| && Loose(lists, list)
    ensures AllRings(l.next[list := list], l.prev[list := list], lists[list := []])
  {
    var lists' := lists[list := []];
    forall g | g in lists' && g != list
      ensures Ring(lists', g) == Ring(lists, g) && IsRing(l.next[list := list], l.prev[list := list], Ring(lists', g)) {
      assert Ring(lists', g) == Ring(lists, g);
      RingFrame(l.next, l.prev, l.next[list := list], l.prev[list := list], Ring(lists, g));
    }
  }

  lemma HeadLinks(l: Links, lists: Heads, head: int)
    requires AllRings(l.next, l.prev, lists) && head in lists
    ensures var ring := Ring(lists, head);
            && Within(l, head) && Within(l, l.next[head]) && Within(l, l.prev[head]) && |l.next| == |l.prev|
            && l.prev[head] == ring[|ring| - 1] && l.next[l.prev[head]] == head
  {
    var ring := Ring(lists, head);
    assert IsRing(l.next, l.prev, ring) && ring[0] == head;
    assert ring[Succ(|ring| - 1, |ring|)] == head;
    assert l.next[ring[0]] == ring[Succ(0, |ring|)];
  }

  /** `next` of a head is the first node, or the head itself when the list is empty. */
  lemma FirstNode(l: Links, lists: Heads, head: int)
    requires AllRings(l.next, l.prev, lists) && head in lists
    ensures 0 <= head < |l.next| && l.next[head] == (if lists[head] == [] then head else lists[head][0])
    ensures l.next[head] == head <==> lists[head] == []
  {
    var ring := Ring(lists, head);
    assert IsRing(l.next, l.prev, ring) && ring[0] == head;
    assert l.next[ring[0]] == ring[Succ(0, |ring|)];
    assert lists[head] != [] ==> ring[1] == lists[head][0];
  }

  /** One operation on the links is the operation on the sequences. */
  lemma ApplyRefines(l: Links, lists: Heads, op: Op)
    requires AllRings(l.next, l.prev, lists) && |l.next| == |l.prev| && Proper(lists, |l.next|, op)
    ensures var l' := Apply(l, op);
            AllRings(l'.next, l'.prev, After(lists, op)) && |l'.next| == |l'.prev| == |l.next|
  {
    hide AllRings, Loose, IsRing;
    match op
    case Init(list) => InitRefines(l, lists, list);
    case AddFirst(node, head) =>
      HeadLinks(l, lists, head);
      AllRingsInsert(l.next, l.prev, lists, head, 0, node);
      assert lists[head][..0] + [node] + lists[head][0..] == [node] + lists[head];
    case AddLast(node, head) =>
      HeadLinks(l, lists, head);
      AllRingsInsert(l.next, l.prev, lists, head, |lists[head]|, node);
      assert lists[head][..|lists[head]|] + [node] + lists[head][|lists[head]|..] == lists[head] + [node];
    case Delete(entry, head, k) => AllRingsRemove(l.next, l.prev, lists, head, k);
  }

  function RunLinks(l: Links, ops: seq<Op>): Links
    decreases |ops|
  {
    if ops == [] then l else RunLinks(Apply(l, ops[0]), ops[1..])
  }

  ghost function RunLists(lists: Heads, ops: seq<Op>): Heads
    decreases |ops|
  {
    if ops == [] then lists else RunLists(After(lists, ops[0]), ops[1..])
  }

  ghost predicate ProperRun(lists: Heads, size: nat, ops: seq<Op>)
    decreases |ops|
  {
    ops != [] ==> Proper(lists, size, ops[0]) && ProperRun(After(lists, ops[0]), size, ops[1..])
  }

  /** Any run of operations over any number of lists refines the same run on sequences; afterwards, too,
      every list is one cycle and no node is on two. */
  lemma {:induction false} RunRefines(l: Links, lists: Heads, ops: seq<Op>)
    requires AllRings(l.next, l.prev, lists) && |l.next| == |l.prev| && ProperRun(lists, |l.next|, ops)
    ensures var l' := RunLinks(l, ops);
            AllRings(l'.next, l'.prev, RunLists(lists, ops)) && |l'.next| == |l'.prev| == |l.next|
    decreases |ops|
  {
    hide AllRings, Apply, After, Proper;
    if ops != [] {
      ApplyRefines(l, lists, ops[0]);
      RunRefines(Apply(l, ops[0]), After(lists, ops[0]), ops[1..]);
    }
  }

  class ListArena {
    const next: array<int>
    const prev: array<int>
    ghost var lists: Heads

    ghost predicate Valid()
      reads this, next, prev
    {
      next != prev && next.Length == prev.Length && AllRings(next[..], prev[..], lists)
    }

    ghost function Now(): Links
      reads this, next, prev
    {
      Links(next[..], prev[..])
    }

    constructor (size: nat)
      ensures Valid() && fresh(next) && fresh(prev) && next.Length == size && lists == map[]
    {
      next := new int[size];
      prev := new int[size];
      lists := map[];
    }

    /** `init_list_head` */
    method InitListHead(list: int)
      requires Valid() && 0 <= list < next.Length && Loose(lists, list)
      modifies this, next, prev
      ensures Valid() && lists == old(lists)[list := []] && Now() == Apply(old(Now()), Init(list))
    {
      hide AllRings, Loose;
      ApplyRefines(Now(), lists, Init(list));
      next[list] := list;
      prev[list] := list;
      lists := lists[list := []];
    }

    /** `__list_add` */
    method Insert(node: int, before: int, after: int)
      requires next.Length == prev.Length && next != prev
      requires 0 <= node < next.Length && 0 <= before < next.Length && 0 <= after < next.Length
      modifies next, prev
      ensures Now() == Splice(old(Now()), node, before, after)
    {
      prev[after] := node;
      next[node] := after;
      prev[node] := before;
      next[before] := node;
    }

    /** `list_add` puts a node first. */
    method ListAdd(node: int, head: int)
      requires Valid() && head in lists && 0 <= node < next.Length && node != head && Loose(lists, node)
      modifies this, next, prev
      ensures Valid() && lists == (old(lists) - {node})[head := [node] + old(lists[head])]
      ensures Now() == Apply(old(Now()), AddFirst(node, head))
    {
      hide AllRings, Loose;
      HeadLinks(Now(), lists, head);
      ApplyRefines(Now(), lists, AddFirst(node, head));
      Insert(node, head, next[head]);
      lists := (lists - {node})[head := [node] + lists[head]];
    }

    /** `list_add_tail` puts a node last. */
    method ListAddTail(node: int, head: int)
      requires Valid() && head in lists && 0 <= node < next.Length && node != head && Loose(lists, node)
      modifies this, next, prev
      ensures Valid() && lists == (old(lists) - {node})[head := old(lists[head]) + [node]]
      ensures Now() == Apply(old(Now()), AddLast(node, head))
    {
      hide AllRings, Loose;
      HeadLinks(Now(), lists, head);
      ApplyRefines(Now(), lists, AddLast(node, head));
      Insert(node, prev[head], head);
      lists := (lists - {node})[head := lists[head] + [node]];
    }

    /** `list_del` takes the k-th node off its list and poisons its links. */
    method ListDel(entry: int, ghost head: int, ghost k: nat)
      requires Valid() && head in lists && k < |lists[head]| && lists[head][k] == entry
      modifies this, next, prev
      ensures Valid() && lists == old(lists)[head := old(lists[head])[..k] + old(lists[head])[k + 1..]]
      ensures Now() == Apply(old(Now()), Delete(entry, head, k)) && Loose(lists, entry)
    {
      hide AllRings, Loose;
      AllRingsRemove(next[..], prev[..], lists, head, k);
      assert Within(Now(), entry);
      Unlink(entry);
      lists := lists[head := lists[head][..k] + lists[head][k + 1..]];
    }

    /** The stores of `list_del`. */
    method Unlink(entry: int)
      requires next.Length == prev.Length && next != prev && 0 <= entry < next.Length
      requires 0 <= next[entry] < next.Length && 0 <= prev[entry] < next.Length
      modifies next, prev
      ensures Now() == Unlinked(old(Now()), entry)
    {
      var before, after := prev[entry], next[entry];
      prev[after] := before;
      next[before] := after;
      next[entry] := POISON1;
      prev[entry] := POISON2;
    }
  }
}
