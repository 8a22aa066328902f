/** The page-frame accessors of mm/pageaccs.c: streams of frame numbers handed to the mapper. */
module PageAccess {
  import opened Words
  import opened PageTable
  import opened Lists

  datatype AccessorKind = LinearPa | ListPa

  /** An accessor with its context: `pageaccs_linear_pa_ctx_t` or `pageaccs_list_pa_ctx_t`. */
  class FrameAccessor {
    const kind: AccessorKind

    // linear context
    var startPage: nat
    var endPage: nat
    var currPage: nat

    // list context: the `next` links of the list nodes, the first node and the cursor
    const links: array<int>
    const head: int
    const numPages: nat
    var curr: int
    var pagesLeft: nat
    ghost const ring: seq<int>

    // frames delivered since the last reset
    ghost var pos: nat

    ghost predicate WellFormed()
      reads links
    {
      kind == ListPa ==>
        && |ring| > 0 && ring[0] == head && numPages <= |ring|
        && (forall k :: 0 <= k < |ring| ==> 0 <= ring[k] < links.Length && links[ring[k]] == ring[Succ(k, |ring|)])
    }

    /** The cursor stands at position `pos` of the stream. */
    ghost predicate Valid()
      reads this, links
    {
      && WellFormed()
      && (kind == LinearPa ==> currPage == (startPage + pos) % TWO32)
      && (kind == ListPa ==>
            pagesLeft == (if pos < numPages then numPages - pos else 0)
            && (pagesLeft > 0 ==> curr == ring[pos]))
    }

    /** The k-th frame delivered after a reset. */
    ghost function Stream(k: nat): nat
      reads this`startPage
    {
      match kind
      case LinearPa => (startPage + k) % TWO32
      case ListPa => if k < numPages && k < |ring| && ring[k] >= 0 then ring[k] else INVALID_PAGE_IDX
    }

    /** The n frames of the stream from position `from` on. */
    ghost function Slice(from: nat, n: nat): (s: seq<nat>)
      reads this`startPage
      ensures |s| == n && forall k :: 0 <= k < n ==> s[k] == Stream(from + k)
    {
      if n == 0 then [] else Slice(from, n - 1) + [Stream(from + n - 1)]
    }

    lemma SliceLength(from: nat, n: nat)
      ensures |Slice(from, n)| == n
    {
    }

    lemma SliceEmpty(from: nat)
      ensures Slice(from, 0) == []
    {
    }

    lemma SliceJoin(from: nat, n: nat, c: nat)
      ensures Slice(from, n) + Slice(from + n, c) == Slice(from, n + c)
    {
    }

    /** A list context delivers its nodes in order. */
    lemma ListSlice(n: nat)
      requires kind == ListPa && n <= numPages <= |ring| && forall k :: 0 <= k < |ring| ==> ring[k] >= 0
      ensures Slice(0, n) == ring[..n]
    {
    }

    lemma LinearSlice(n: nat)
      requires kind == LinearPa && n <= 1 && startPage < TWO32
      ensures Slice(0, n) == [startPage][..n]
    {
    }

    /** A linear context over start..end, after `reset`. */
    constructor Linear(start: nat, end: nat)
      requires start < TWO32
      ensures Valid() && kind == LinearPa && startPage == start && endPage == end && pos == 0
    {
      kind := LinearPa;
      startPage, endPage, currPage := start, end, start;
      links := new int[0];
      head, numPages, curr, pagesLeft, ring := 0, 0, 0, 0, [];
      pos := 0;
    }

    /** A list context over the first `count` nodes of the circular list that starts at node
        `first`, after `reset`. */
    constructor List(arena: ListArena, first: int, count: nat)
      requires arena.Valid() && first in arena.lists && count <= 1 + |arena.lists[first]|
      ensures Valid() && kind == ListPa && links == arena.next && numPages == count && pos == 0
      ensures ring == Ring(arena.lists, first) && forall k :: 0 <= k < |ring| ==> ring[k] >= 0
    {
      kind := ListPa;
      startPage, endPage, currPage := 0, 0, 0;
      links := arena.next;
      head, numPages := first, count;
      curr, pagesLeft := first, count;
      ring := Ring(arena.lists, first);
      pos := 0;
      new;
      assert IsRing(arena.next[..], arena.prev[..], ring);
      assert forall k :: 0 <= k < |ring| ==> arena.next[..][ring[k]] == ring[Succ(k, |ring|)];
    }

    /** `reset` rewinds the stream to its start. */
    method Reset()
      requires WellFormed() && startPage < TWO32
      modifies this`currPage, this`curr, this`pagesLeft, this`pos
      ensures Valid() && pos == 0
    {
      match kind {
        case LinearPa => currPage := startPage;
        case ListPa => curr, pagesLeft := head, numPages;
      }
      pos := 0;
    }

    /** `next_frame` */
    method NextFrame() returns (idx: nat)
      requires Valid()
      modifies this`currPage, this`curr, this`pagesLeft, this`pos
      ensures Valid() && pos == old(pos) + 1 && idx == Stream(old(pos))
    {
      match kind {
        case LinearPa =>
          idx := currPage;
          currPage := (currPage + 1) % TWO32;
        case ListPa =>
          if pagesLeft != 0 {
            idx := curr;
            curr := links[curr];
            pagesLeft := pagesLeft - 1;
          } else {
            idx := INVALID_PAGE_IDX;
          }
      }
      pos := pos + 1;
    }
  }
}
