/**
 * Where the host heap places a request, without the search: which free block serves it, where in the
 * block, and how much of it is taken.
 */
module HostPlacement {
  import opened Arith
  import opened Segments
  import opened Allocator
  import opened HostMemory

  /** The size in the header of block `i`: the last block's counts its header, the others' do not. */
  function HeaderSize(s: seq<Seg>, i: nat, page: nat): int
    requires i < |s|
  {
    if i == |s| - 1 then s[i].len else s[i].len - page
  }

  /** A payload a page behind `start` ends before the next hugepage, or whole elements fit before it. */
  predicate InPlace(start: nat, total: nat, elem: nat, page: nat, large: nat)
    requires elem > 0 && large > 0
  {
    var room := large - start % large;
    room >= total + page || (room - page) % elem == 0
  }

  /** Free block `i` can serve: at its front, or else at the next hugepage, if one hugepage is enough. */
  predicate CanServe(s: seq<Seg>, i: nat, total: nat, elem: nat, page: nat, large: nat)
    requires i < |s| && elem > 0 && large > 0
  {
    s[i].free
    && if InPlace(s[i].start, total, elem, page, large) then HeaderSize(s, i, page) >= total + page
       else total + page <= large && HeaderSize(s, i, page) - (large - s[i].start % large) >= total + page
  }

  function ServedAt(start: nat, total: nat, elem: nat, page: nat, large: nat): nat
    requires elem > 0 && large > 0
  {
    if InPlace(start, total, elem, page, large) then start else start + (large - start % large)
  }

  ghost predicate NoneServes(s: seq<Seg>, total: nat, elem: nat, page: nat, large: nat)
    requires elem > 0 && large > 0
  {
    forall i: nat :: i < |s| ==> !CanServe(s, i, total, elem, page, large)
  }

  /** Block `k` is the first that can serve, and the request starts at `at` in it. */
  ghost predicate FirstServes(s: seq<Seg>, k: nat, at: nat, total: nat, elem: nat, page: nat, large: nat)
    requires elem > 0 && large > 0
  {
    && k < |s| && CanServe(s, k, total, elem, page, large)
    && (forall j: nat :: j < k ==> !CanServe(s, j, total, elem, page, large))
    && at == ServedAt(s[k].start, total, elem, page, large)
  }

  lemma ServesIff(s: seq<Seg>, i: nat, r: Request, g: Geometry)
    requires r.Valid() && g.Valid() && g.header > 0 && i < |s|
    ensures GrantedBy(s, r, g, i) <==> CanServe(s, i, r.total, r.elem, g.header, g.large)
    ensures Landing(s[i].start, r, g) == ServedAt(s[i].start, r.total, r.elem, g.header, g.large)
  {
    assert |s[i..]| == |s| - i;
  }

  /** The search is served by the first block that can, and fails exactly if there is none. */
  lemma {:induction false} SearchServes(s: seq<Seg>, r: Request, g: Geometry) returns (k: nat)
    requires r.Valid() && g.Valid() && g.header > 0 && Regular(r, g) && OnHeaderGrid(s, g)
    ensures var out := Search(s, r, g, Unlimited).1;
      if out.Granted? then FirstServes(s, k, out.start, r.total, r.elem, g.header, g.large)
      else out == NoSpace && NoneServes(s, r.total, r.elem, g.header, g.large)
  {
    hide Search, CanServe, GrantedBy, Landing, ServedAt, FirstFit;
    SearchIsFirstFit(s, r, g);
    k := FirstFitIndex(s, r, g);
    forall i: nat | i < |s| ensures GrantedBy(s, r, g, i) <==> CanServe(s, i, r.total, r.elem, g.header, g.large) {
      ServesIff(s, i, r, g);
    }
    if k < |s| { ServesIff(s, k, r, g); }
  }

  lemma {:induction false} FirstFitIndex(s: seq<Seg>, r: Request, g: Geometry) returns (k: nat)
    requires r.Valid() && g.Valid()
    ensures k <= |s| && forall j: nat :: j < k ==> !GrantedBy(s, r, g, j)
    ensures if k < |s| then GrantedBy(s, r, g, k) && FirstFit(s, r, g) == Granted(Landing(s[k].start, r, g))
            else FirstFit(s, r, g) == NoSpace
    decreases |s|
  {
    hide Fits, Stored, Landing;
    k := 0;
    assert s[0..] == s;
    if s != [] && !GrantedBy(s, r, g, 0) {
      k := FirstFitIndex(s[1..], r, g);
      forall i: nat | i < |s[1..]| ensures GrantedBy(s[1..], r, g, i) <==> GrantedBy(s, r, g, i + 1) {
        assert s[1..][i..] == s[i + 1..];
      }
      k := k + 1;
      forall j: nat | j < k ensures !GrantedBy(s, r, g, j) {
        if j > 0 { assert !GrantedBy(s[1..], r, g, j - 1); }
      }
    }
  }

  /** How much is taken: the payload and its header, or a page more, when what is left of a block that is
      not the last would be just that page. */
  lemma TakenLength(len: nat, total: nat, page: nat, slack: nat, last: bool)
    requires slack < page && len % page == 0 && total % page == 0
    requires page + total <= len <= page + total + slack + (if last then 0 else page)
    ensures len == page + total || (len == 2 * page + total && !last)
  {
    var d := len - page - total;
    Multiple(page, 0);
    Multiple(page, 1);
    MultiplesClosed(len, page, page);
    MultiplesClosed(len - page, total, page);
    MultipleBelow(d, page, slack, last);
  }

  lemma MultipleBelow(d: nat, page: nat, slack: nat, last: bool)
    requires slack < page && d % page == 0 && 0 % page == 0 && page % page == 0
    requires d <= slack + (if last then 0 else page)
    ensures d == 0 || (d == page && !last)
  {
    if d > 0 { MultipleGap(0, d, page); }
    if d > page { MultipleGap(page, d, page); }
  }

  lemma LiveOnPages(s: seq<Seg>, x: Seg, page: nat)
    requires page > 0 && OnPages(s, page) && x in Live(s)
    ensures x.start % page == 0 && x.len % page == 0
  {
  }

  /** Requests of single pages are in place wherever a block of whole pages starts. */
  lemma PagesInPlace(start: nat, total: nat, page: nat, large: nat)
    requires page > 0 && large > 0 && large % page == 0 && start % page == 0
    ensures InPlace(start, total, page, page, large)
  {
    RemainderOfRemainder(start, large, page);
    MultiplesClosed(large, start % large, page);
    Multiple(page, 1);
    MultiplesClosed(large - start % large, page, page);
  }

  lemma PageServes(s: seq<Seg>, i: nat, n: nat, page: nat, large: nat)
    requires page > 0 && large > 0 && large % page == 0 && OnPages(s, page) && i < |s|
    ensures CanServe(s, i, n, page, page, large) <==> s[i].free && HeaderSize(s, i, page) >= n + page
    ensures ServedAt(s[i].start, n, page, page, large) == s[i].start
  {
    hide InPlace, HeaderSize;
    PagesInPlace(s[i].start, n, page, large);
  }

  // ---- A heap with everything in use but its tail

  ghost predicate AllUsed(s: seq<Seg>) {
    forall i :: 0 <= i < |s| ==> !s[i].free
  }

  /** What a request at the front of the tail leaves. */
  function TailAfter(a: nat, m: nat, need: nat, slack: nat): seq<Seg> {
    if m <= need + slack then [Seg(a, m, false)] else [Seg(a, need, false), Seg(a + need, m - need, true)]
  }

  lemma {:induction false} TailSearch(used: seq<Seg>, a: nat, m: nat, r: Request, g: Geometry)
    requires r.Valid() && g.Valid() && AllUsed(used) && !MustSkip(a, r, g) && m >= r.total + g.header
    ensures Search(used + [Seg(a, m, true)], r, g, Unlimited).0 == used + TailAfter(a, m, r.total + g.header, g.slack)
  {
    var s := used + [Seg(a, m, true)];
    if used == [] {
      assert s == [Seg(a, m, true)] && s[1..] == [];
      assert [] + TailAfter(a, m, r.total + g.header, g.slack) == TailAfter(a, m, r.total + g.header, g.slack);
    } else {
      TailSearch(used[1..], a, m, r, g);
      assert s[1..] == used[1..] + [Seg(a, m, true)];
      UnfoldPass(s, r, g, Unlimited);
      assert used == [used[0]] + used[1..];
    }
  }

  lemma TailServes(used: seq<Seg>, a: nat, m: nat, total: nat, elem: nat, page: nat, large: nat)
    requires elem > 0 && large > 0 && AllUsed(used) && InPlace(a, total, elem, page, large)
    ensures NoneServes(used + [Seg(a, m, true)], total, elem, page, large) <==> m < total + page
  {
    hide InPlace;
    var s := used + [Seg(a, m, true)];
    assert s[|used|] == Seg(a, m, true) && |used| == |s| - 1;
    assert CanServe(s, |used|, total, elem, page, large) <==> m >= total + page;
    forall i: nat | i < |used| ensures !CanServe(s, i, total, elem, page, large) { assert s[i] == used[i]; }
  }

  lemma FullServesNone(s: seq<Seg>, total: nat, elem: nat, page: nat, large: nat)
    requires elem > 0 && large > 0 && AllUsed(s)
    ensures NoneServes(s, total, elem, page, large)
  {
  }
}
