/**
 * The host heap's search as the C code computes it, for any request. Its boundary test subtracts a page
 * in `size_t`, so a block that starts less than a page before a hugepage boundary is tested with a
 * wrapped number. Whole-page requests never meet such a block; a request off the page grid leaves one.
 */
module OffGrid {
  import opened Arith
  import opened Bits
  import opened Segments
  import opened Allocator
  import opened HostMemory
  import opened HostHeap

  /** `hpage_remaining - alignment`, in 64 bits. */
  function Subtracted(start: nat, g: Geometry): (d: nat)
    requires g.Valid() && g.header <= SIZE_MAX
  {
    if Room(start, g) >= g.header then Room(start, g) - g.header else Room(start, g) - g.header + (SIZE_MAX + 1)
  }

  function CodeMisfit(start: nat, r: Request, g: Geometry): (d: nat)
    requires r.Valid() && g.Valid() && g.header <= SIZE_MAX
    ensures d < r.elem
  {
    Subtracted(start, g) % r.elem
  }

  predicate CodeSkips(start: nat, r: Request, g: Geometry)
    requires r.Valid() && g.Valid() && g.header <= SIZE_MAX
  {
    Room(start, g) < r.total + g.header && CodeMisfit(start, r, g) != 0
  }

  function CodeSearch(s: seq<Seg>, r: Request, g: Geometry): (seq<Seg>, Outcome)
    requires r.Valid() && g.Valid() && g.header <= SIZE_MAX
    decreases Total(s), |s|
  {
    if s == [] then ([], NoSpace)
    else
      var b, rest := s[0], s[1..];
      if !(b.free && Stored(s, g) >= r.total + g.header) then
        var (tail, out) := CodeSearch(rest, r, g);
        ([b] + tail, out)
      else if CodeSkips(b.start, r, g) then
        var at := g.header + CodeMisfit(b.start, r, g);
        var (tail, out) := CodeSearch([Seg(b.start + at, b.len - at, true)] + rest, r, g);
        ([Seg(b.start, at, true)] + tail, out)
      else if Stored(s, g) - r.total - g.header <= g.slack then
        ([b.(free := false)] + rest, Granted(b.start))
      else
        var at := g.header + r.total;
        ([Seg(b.start, at, false), Seg(b.start + at, b.len - at, true)] + rest, Granted(b.start))
  }

  /** On the page grid nothing wraps: the code performs the search that AllocArray is proved against. */
  lemma {:induction false} OnGridSearch(s: seq<Seg>, r: Request, g: Geometry)
    requires r.Valid() && g.Valid() && 0 < g.header <= SIZE_MAX && g.large % g.header == 0
    requires OnPages(s, g.header) && (r.elem % g.header == 0 || g.header % r.elem == 0)
    ensures CodeSearch(s, r, g) == Search(s, r, g, Unlimited)
    decreases Total(s), |s|
  {
    hide Stored, MustSkip, Room, Misfit, OnPages;
    if s != [] {
      var b, rest := s[0], s[1..];
      PageRoom(s, 0, r, g);
      StoredBelow(s, g);
      Multiple(g.header, 0);
      GridTail(s, b, 0, g.header);
      if !(b.free && Stored(s, g) >= r.total + g.header) {
        OnGridSearch(rest, r, g);
      } else if CodeSkips(b.start, r, g) {
        var at := g.header + Misfit(b.start, r, g);
        var back := Seg(b.start + at, b.len - at, true);
        GridTail(s, back, at, g.header);
        assert ([back] + rest)[1..] == rest;
        OnGridSearch([back] + rest, r, g);
      }
    }
  }

  lemma GridTail(s: seq<Seg>, back: Seg, at: nat, page: nat)
    requires page > 0 && s != [] && OnPages(s, page) && at % page == 0
    requires back.start == s[0].start + at && back.len == s[0].len - at
    ensures OnPages(s[1..], page) && OnPages([back] + s[1..], page)
  {
    MultiplesClosed(s[0].start, at, page);
    MultiplesClosed(s[0].len, at, page);
  }

  lemma StoredBelow(s: seq<Seg>, g: Geometry)
    requires s != []
    ensures Stored(s, g) <= s[0].len
  {
  }

  // ---- When a served block keeps its elements inside hugepages

  /** The payload starts in the block's own hugepage, or past the boundary where whole elements fit. */
  predicate InPlace(start: nat, r: Request, g: Geometry)
    requires r.Valid() && g.Valid() && g.header <= g.large
  {
    var room := Room(start, g);
    room >= g.header || (var left := g.large - (g.header - room); left >= r.total || left % r.elem == 0)
  }

  /** A block the code serves: exactly when no element straddles a hugepage. */
  lemma ServedIff(start: nat, r: Request, g: Geometry, count: nat)
    requires r.Valid() && g.Valid() && g.header <= g.large && g.header <= SIZE_MAX
    requires r.total == count * r.elem && Accepted(count, r.elem, g.large) && !CodeSkips(start, r, g)
    ensures NoStraddle(start + g.header, r.elem, count, g.large) <==> InPlace(start, r, g)
  {
    hide NoStraddle, Accepted;
    if Room(start, g) >= g.header {
      UnskippedNoStraddle(start, r, g, count);
    } else {
      PastBoundary(start, g);
      var at, flat := start + g.header, Geometry(0, g.large, 0);
      if Room(at, flat) >= r.total || Room(at, flat) % r.elem == 0 {
        UnskippedNoStraddle(at, r, flat, count);
        assert at + 0 == at;
      } else {
        Straddles(at, r.elem, count, g.large);
      }
    }
  }

  lemma {:induction false} CodeGrantUnskipped(s: seq<Seg>, r: Request, g: Geometry)
    requires r.Valid() && g.Valid() && g.header <= SIZE_MAX
    ensures var out := CodeSearch(s, r, g).1;
      out.Granted? ==> !CodeSkips(out.start, r, g)
    decreases Total(s), |s|
  {
    hide CodeMisfit;
    if s != [] {
      var b, rest := s[0], s[1..];
      if !(b.free && Stored(s, g) >= r.total + g.header) {
        CodeGrantUnskipped(rest, r, g);
      } else if CodeSkips(b.start, r, g) {
        var at := g.header + CodeMisfit(b.start, r, g);
        StoredBelow(s, g);
        var cut := [Seg(b.start + at, b.len - at, true)] + rest;
        SkipShortens(s, cut, at);
        CodeGrantUnskipped(cut, r, g);
      }
    }
  }

  lemma SkipShortens(s: seq<Seg>, cut: seq<Seg>, at: nat)
    requires s != [] && 0 < at <= s[0].len && cut == [Seg(s[0].start + at, s[0].len - at, true)] + s[1..]
    ensures Total(cut) < Total(s)
  {
    assert cut[1..] == s[1..];
  }

  /** So for every heap and every accepted request: what the code grants is free of straddling exactly when in place. */
  lemma GrantedInPlaceIff(s: seq<Seg>, r: Request, g: Geometry, count: nat)
    requires r.Valid() && g.Valid() && g.header <= g.large && g.header <= SIZE_MAX
    requires r.total == count * r.elem && Accepted(count, r.elem, g.large)
    ensures var out := CodeSearch(s, r, g).1;
      out.Granted? ==> (NoStraddle(out.start + g.header, r.elem, count, g.large) <==> InPlace(out.start, r, g))
  {
    hide NoStraddle, InPlace, CodeSearch, CodeSkips;
    CodeGrantUnskipped(s, r, g);
    var out := CodeSearch(s, r, g).1;
    if out.Granted? { ServedIff(out.start, r, g, count); }
  }

  /** A payload past the boundary has the rest of that hugepage. */
  lemma PastBoundary(start: nat, g: Geometry)
    requires g.Valid() && Room(start, g) < g.header <= g.large
    ensures Room(start + g.header, Geometry(0, g.large, 0)) == g.large - (g.header - Room(start, g))
  {
    var q, m := start / g.large, start % g.large;
    assert start == g.large * q + m;
    assert g.large * (q + 1) == g.large * q + g.large;
    DivModUnique(start + g.header, g.large, q + 1, g.header - Room(start, g));
  }

  lemma {:induction false} Straddles(at: nat, elem: nat, count: nat, large: nat)
    requires elem > 0 && large > 0
    requires var left := large - at % large; left < count * elem && left % elem != 0
    ensures !NoStraddle(at, elem, count, large)
  {
    var left := large - at % large;
    var i, within := left / elem, left % elem;
    DivMonotone(0, left, elem);
    assert left == elem * i + within && elem * i == i * elem;
    if count <= i { MulMonotone(count, i, elem); }
    var q := at / large;
    assert at + i * elem == large * q + (large - within);
    DivModUnique(at + i * elem, large, q, large - within);
    assert !ElementFits(at, elem, i, large);
  }

  // ---- The guarantee fails off the grid

  const HUGE: nat := 0x20_0000
  const PAGE: nat := 0x1000

  function SmallHeap(): (g: Geometry)
    ensures g.Valid()
  {
    Geometry(PAGE, HUGE, HEADER_BYTES)
  }

  /**
   * Three hugepages; `hostmem_dma_alloc_array(1, 2090960)` and then `(1, 2097142)`. The second block
   * starts 2096 bytes before the boundary; the wrapped difference happens to be a multiple of the
   * element, so it is served there, and its only element crosses the next boundary.
   */
  lemma OffGridStraddles()
    ensures var s0 := [Seg(0, 3 * HUGE, true)];
      var (s1, out1) := CodeSearch(s0, Request(2_090_960, 2_090_960), SmallHeap());
      var (s2, out2) := CodeSearch(s1, Request(2_097_142, 2_097_142), SmallHeap());
      && out1 == Granted(0) && out2 == Granted(2_095_056)
      && Accepted(1, 2_097_142, HUGE) && !NoStraddle(2_095_056 + PAGE, 2_097_142, 1, HUGE)
  {
    var g, first, second := SmallHeap(), Request(2_090_960, 2_090_960), Request(2_097_142, 2_097_142);
    var s0 := [Seg(0, 3 * HUGE, true)];
    assert Stored(s0, g) == 3 * HUGE && Room(0, g) == HUGE;
    assert CodeSearch(s0, first, g)
        == ([Seg(0, 2_095_056, false), Seg(2_095_056, 3 * HUGE - 2_095_056, true)] + s0[1..], Granted(0));
    var tail := [Seg(2_095_056, 3 * HUGE - 2_095_056, true)];
    var s1 := [Seg(0, 2_095_056, false)] + tail;
    assert CodeSearch(s0, first, g).0 == s1;
    assert s1[1..] == tail;
    assert Room(2_095_056, g) == 2096;
    assert CodeMisfit(2_095_056, second, g) == 0;
    assert CodeSearch(tail, second, g).1 == Granted(2_095_056);
    Straddles(2_095_056 + PAGE, 2_097_142, 1, HUGE);
  }
}
