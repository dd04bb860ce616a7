/**
 * Where the CUDA heap places a request, without the search: at the lowest address of a free block that
 * holds it and lets no element cross a device page.
 */
module Placement {
  import opened Arith
  import opened Segments
  import opened Allocator

  /** `total` bytes at `a`, in elements of `elem`, end before the next device page, or whole elements fit before it. */
  predicate InPlace(a: nat, total: nat, elem: nat, large: nat)
    requires elem > 0 && large > 0
  {
    large - a % large >= total || (large - a % large) % elem == 0
  }

  /** `n` bytes at `a` lie in one free block. */
  ghost predicate RangeFree(s: seq<Seg>, a: nat, n: nat) {
    exists i :: 0 <= i < |s| && Inside(s[i], a, n)
  }

  ghost predicate Inside(b: Seg, a: nat, n: nat) {
    b.free && b.start <= a && a + n <= b.start + b.len
  }

  ghost predicate Place(s: seq<Seg>, a: nat, total: nat, elem: nat, large: nat)
    requires elem > 0 && large > 0
  {
    RangeFree(s, a, total) && InPlace(a, total, elem, large)
  }

  ghost predicate NoPlace(s: seq<Seg>, total: nat, elem: nat, large: nat)
    requires elem > 0 && large > 0
  {
    forall a: nat :: !Place(s, a, total, elem, large)
  }

  ghost predicate LowestPlace(s: seq<Seg>, at: nat, total: nat, elem: nat, large: nat)
    requires elem > 0 && large > 0
  {
    Place(s, at, total, elem, large) && forall a: nat :: a < at ==> !Place(s, a, total, elem, large)
  }

  /** The skip leads to the first place at or after the front of the block. */
  lemma SkipIsLeast(start: nat, r: Request, g: Geometry, a: nat)
    requires r.Valid() && g.Valid() && g.header == 0 && r.elem <= g.large
    ensures start <= Landing(start, r, g) && InPlace(Landing(start, r, g), r.total, r.elem, g.large)
    ensures start <= a < Landing(start, r, g) ==> !InPlace(a, r.total, r.elem, g.large)
  {
    var room, at := Room(start, g), Landing(start, r, g);
    if MustSkip(start, r, g) {
      assert Misfit(start, r, g) == room % r.elem;
      FloorMultiple(room, r.elem);
      if room % r.elem < room {
        RoomAfter(start, room % r.elem, g);
        if start <= a < at {
          RoomAfter(start, a - start, g);
          LessMisfit(room, r.elem, a - start);
        }
      } else {
        PastRoom(start, r, g, a);
      }
    }
  }

  lemma LessMisfit(room: nat, elem: nat, j: nat)
    requires elem > 0 && j < room % elem
    ensures (room - j) % elem == room % elem - j
  {
    var q := room / elem;
    assert room == elem * q + room % elem;
    DivModUnique(room - j, elem, q, room % elem - j);
  }

  /** No element fits before the boundary. */
  lemma PastRoom(start: nat, r: Request, g: Geometry, a: nat)
    requires r.Valid() && g.Valid() && g.header == 0 && r.elem <= g.large && MustSkip(start, r, g)
    requires Room(start, g) % r.elem == Room(start, g)
    ensures InPlace(Landing(start, r, g), r.total, r.elem, g.large)
    ensures start <= a < Landing(start, r, g) ==> !InPlace(a, r.total, r.elem, g.large)
  {
    var room := Room(start, g);
    var edge := start + room;
    RoomAfter(start, room, g);
    FloorMultiple(g.large, r.elem);
    RoomAfter(edge, g.large % r.elem, g);
    if start <= a < edge {
      RoomAfter(start, a - start, g);
      LessMisfit(room, r.elem, a - start);
    } else if edge <= a < Landing(start, r, g) {
      RoomAfter(edge, a - edge, g);
      LessMisfit(g.large, r.elem, a - edge);
    }
  }

  /** The search grants the lowest place, and fails exactly if there is none. */
  lemma {:induction false} SearchIsLowest(s: seq<Seg>, r: Request, g: Geometry, lo: nat, hi: nat)
    requires r.Valid() && g.Valid() && g.header == 0 && r.elem <= g.large && Tiles(s, lo, hi)
    ensures var out := Search(s, r, g, Unlimited).1;
      if out.Granted? then LowestPlace(s, out.start, r.total, r.elem, g.large)
      else out == NoSpace && NoPlace(s, r.total, r.elem, g.large)
  {
    hide Search, Fits, Landing, Place, Tiles;
    SearchIsFirstFit(s, r, g);
    FirstFitIsLowest(s, r, g, lo, hi);
  }

  lemma {:induction false} FirstFitIsLowest(s: seq<Seg>, r: Request, g: Geometry, lo: nat, hi: nat)
    requires r.Valid() && g.Valid() && g.header == 0 && r.elem <= g.large && Tiles(s, lo, hi)
    ensures var out := FirstFit(s, r, g);
      if out.Granted? then LowestPlace(s, out.start, r.total, r.elem, g.large)
      else out == NoSpace && NoPlace(s, r.total, r.elem, g.large)
    decreases |s|
  {
    hide InPlace, Inside, Landing;
    if s != [] {
      TilesTail(s, lo, hi);
      var b, rest, out := s[0], s[1..], FirstFit(s, r, g);
      FirstFitIsLowest(rest, r, g, lo + b.len, hi);
      forall a: nat ensures Place(s, a, r.total, r.elem, g.large) <==>
        Place(rest, a, r.total, r.elem, g.large)
        || (Inside(b, a, r.total) && InPlace(a, r.total, r.elem, g.large))
      {
        FirstOrRest(s, a, r.total);
      }
      forall a: nat ensures Place(rest, a, r.total, r.elem, g.large) ==> a >= lo + b.len {
        RestAbove(rest, a, r.total, lo + b.len, hi);
      }
      HeadPlace(b, r, g);
      InsideBounds(b, Landing(b.start, r, g), r.total);
    }
  }

  /** In one block: where the request goes, if it fits. */
  lemma HeadPlace(b: Seg, r: Request, g: Geometry)
    requires r.Valid() && g.Valid() && g.header == 0 && r.elem <= g.large
    ensures var at := Landing(b.start, r, g);
      if b.free && Fits(b.start, b.len, r, g) then
        && Inside(b, at, r.total) && InPlace(at, r.total, r.elem, g.large)
        && forall a: nat :: a < at ==> !(Inside(b, a, r.total) && InPlace(a, r.total, r.elem, g.large))
      else forall a: nat :: !(Inside(b, a, r.total) && InPlace(a, r.total, r.elem, g.large))
  {
    hide InPlace, Room, MustSkip, Skip;
    var at := Landing(b.start, r, g);
    SkipIsLeast(b.start, r, g, b.start);
    forall a: nat | Inside(b, a, r.total) && InPlace(a, r.total, r.elem, g.large) ensures a >= at {
      SkipIsLeast(b.start, r, g, a);
    }
  }

  lemma InsideBounds(b: Seg, a: nat, n: nat)
    ensures Inside(b, a, n) ==> b.start <= a && a + n <= b.start + b.len
  {
  }

  lemma FirstOrRest(s: seq<Seg>, a: nat, n: nat)
    requires s != []
    ensures RangeFree(s, a, n) <==> RangeFree(s[1..], a, n) || Inside(s[0], a, n)
  {
    hide Inside;
    if i :| 0 <= i < |s| && Inside(s[i], a, n) {
      if i > 0 { assert Inside(s[1..][i - 1], a, n); }
    }
    if i :| 0 <= i < |s[1..]| && Inside(s[1..][i], a, n) { assert Inside(s[i + 1], a, n); }
  }

  lemma RestAbove(s: seq<Seg>, a: nat, n: nat, lo: nat, hi: nat)
    requires Tiles(s, lo, hi)
    ensures RangeFree(s, a, n) ==> lo <= a && a + n <= hi
  {
    TilesBounds(s, lo, hi);
  }

  // ---- What a grant leaves

  lemma GrantAbove(s: seq<Seg>, r: Request, g: Geometry, budget: Budget, lo: nat, hi: nat)
    requires r.Valid() && g.Valid() && Tiles(s, lo, hi)
    ensures var out := Search(s, r, g, budget).1; out.Granted? ==> out.start >= lo
  {
    hide Search, Tiles, Used;
    var (t, out) := Search(s, r, g, budget);
    if out.Granted? {
      SearchSound(s, r, g, budget, lo, hi);
      TilesBounds(t, lo, hi);
    }
  }

  lemma RangeCons(x: Seg, s: seq<Seg>, a: nat, n: nat)
    ensures RangeFree([x] + s, a, n) <==> RangeFree(s, a, n) || Inside(x, a, n)
  {
    assert ([x] + s)[1..] == s;
    FirstOrRest([x] + s, a, n);
  }

  /** The bytes behind a grant, in the block it was cut from, stay free and in one block. */
  lemma {:induction false} RestStaysFree(s: seq<Seg>, r: Request, large: nat, budget: Budget, lo: nat, hi: nat, n: nat)
    requires r.Valid() && large > 0 && Tiles(s, lo, hi) && n > 0
    ensures var (t, out) := Search(s, r, Geometry(0, large, 0), budget);
      out.Granted? && RangeFree(s, out.start, r.total + n) ==> RangeFree(t, out.start + r.total, n)
    decreases Total(s), |s|
  {
    hide Tiles, RangeFree, MustSkip, Misfit, Room, Search, Stored, Inside;
    var g := Geometry(0, large, 0);
    var (t, out) := Search(s, r, g, budget);
    NothingGranted(r, g, budget);
    if out.Granted? && RangeFree(s, out.start, r.total + n) {
      var a := out.start;
      TilesTail(s, lo, hi);
      var b, rest := s[0], s[1..];
      FirstOrRest(s, a, r.total + n);
      InsideBounds(b, a, r.total + n);
      if !(b.free && Stored(s, g) >= r.total + g.header) {
        UnfoldPass(s, r, g, budget);
        GrantAbove(rest, r, g, budget, lo + b.len, hi);
        RestStaysFree(rest, r, large, budget, lo + b.len, hi, n);
        RangeCons(b, Search(rest, r, g, budget).0, a + r.total, n);
      } else if MustSkip(b.start, r, g) {
        var at, cut := UnfoldSkip(s, r, g, budget);
        var back := Seg(b.start + at, b.len - at, true);
        TilesCons(back, rest, lo + at, hi);
        GrantAbove(cut, r, g, budget.Spend(), lo + at, hi);
        InsideBack(b, back, a, at, r.total + n);
        RangeCons(back, rest, a, r.total + n);
        RestStaysFree(cut, r, large, budget.Spend(), lo + at, hi, n);
        RangeCons(Seg(b.start, at, true), Search(cut, r, g, budget.Spend()).0, a + r.total, n);
      } else {
        RestAbove(rest, a, r.total + n, lo + b.len, hi);
        GrantHere(s, r, g, budget);
        SplitLeaves(s, r, large, budget, n);
      }
    }
  }

  lemma InsideBack(b: Seg, back: Seg, a: nat, at: nat, n: nat)
    requires back.start == b.start + at && back.start + back.len == b.start + b.len && back.free && a >= back.start
    ensures Inside(b, a, n) ==> Inside(back, a, n)
  {
  }

  /** Free bytes right behind `own` in its old block are one free block afterwards. */
  ghost predicate KeepsRest(before: seq<Seg>, after: seq<Seg>, own: Seg) {
    forall n: nat :: n > 0 ==> RestKept(before, after, own, n)
  }

  ghost predicate RestKept(before: seq<Seg>, after: seq<Seg>, own: Seg, n: nat) {
    RangeFree(before, own.start, own.len + n) ==> RangeFree(after, own.start + own.len, n)
  }

  /** In a fresh heap the lowest place is the front, if the request is in place there. */
  lemma FreshPlace(size: nat, n: nat, m: nat, elem: nat, large: nat)
    requires elem > 0 && large > 0 && n + m <= size && InPlace(0, n, elem, large)
    ensures var s := [Seg(0, size, true)];
      && RangeFree(s, 0, n + m) && !NoPlace(s, n, elem, large)
      && forall a: nat :: LowestPlace(s, a, n, elem, large) ==> a == 0
  {
    hide InPlace;
    var s := [Seg(0, size, true)];
    assert Inside(s[0], 0, n + m) && Inside(s[0], 0, n);
    assert Place(s, 0, n, elem, large);
  }

  /** With everything before `own`'s end in use, the lowest place is right behind it. */
  lemma PlaceBehind(t: seq<Seg>, own: Seg, m: nat, elem: nat, large: nat, hi: nat)
    requires elem > 0 && large > 0 && m > 0 && Tiles(t, 0, hi) && own in Live(t) && own.start == 0
    requires RangeFree(t, own.len, m) && InPlace(own.len, m, elem, large)
    ensures !NoPlace(t, m, elem, large)
    ensures forall a: nat :: LowestPlace(t, a, m, elem, large) ==> a == own.len
  {
    hide InPlace, RangeFree, Tiles, Live;
    assert Place(t, own.len, m, elem, large);
    forall a: nat | LowestPlace(t, a, m, elem, large) ensures a == own.len { FreeNotLive(t, own, a, m, hi); }
  }

  /** A live block and a free range are apart. */
  lemma FreeNotLive(t: seq<Seg>, own: Seg, a: nat, n: nat, hi: nat)
    requires Tiles(t, 0, hi) && own in Live(t) && RangeFree(t, a, n)
    ensures a + n <= own.start || own.start + own.len <= a
  {
    TilesBounds(t, 0, hi);
    var i :| 0 <= i < |t| && Inside(t[i], a, n);
    var j :| 0 <= j < |t| && t[j] == own;
    assert i < j || j < i;
  }

  lemma SplitLeaves(s: seq<Seg>, r: Request, large: nat, budget: Budget, n: nat)
    requires r.Valid() && large > 0 && n > 0 && s != [] && Inside(s[0], s[0].start, r.total + n)
    requires var g := Geometry(0, large, 0);
      !MustSkip(s[0].start, r, g) && Stored(s, g) >= r.total && Search(s, r, g, budget).1.Granted?
    ensures RangeFree(Search(s, r, Geometry(0, large, 0), budget).0, s[0].start + r.total, n)
  {
    hide MustSkip;
    var t := Search(s, r, Geometry(0, large, 0), budget).0;
    assert Inside(t[1], s[0].start + r.total, n);
  }

  /** A second request that fits in place behind a first one, in the same free block, is granted next. */
  lemma GrantedNext(s: seq<Seg>, r: Request, next: Request, large: nat, budget: Budget, lo: nat, hi: nat)
    requires r.Valid() && next.Valid() && large > 0 && next.elem <= large && Tiles(s, lo, hi)
    requires Search(s, r, Geometry(0, large, 0), budget).1.Granted?
    requires var a := Search(s, r, Geometry(0, large, 0), budget).1.start;
      RangeFree(s, a, r.total + next.total) && InPlace(a + r.total, next.total, next.elem, large)
    ensures var g := Geometry(0, large, 0);
      var (t, out) := Search(s, r, g, budget);
      var after := Search(t, next, g, Unlimited).1;
      after.Granted? && after.start <= out.start + r.total
  {
    hide Search, RangeFree, InPlace, Tiles;
    var g := Geometry(0, large, 0);
    var (t, out) := Search(s, r, g, budget);
    SearchSound(s, r, g, budget, lo, hi);
    RestStaysFree(s, r, large, budget, lo, hi, next.total);
    assert Place(t, out.start + r.total, next.total, next.elem, large);
    SearchIsLowest(t, next, g, lo, hi);
  }

  // ---- The operations of a run

  /** An allocation takes exactly its length at the lowest place, or nothing if there is none. */
  lemma AllocOp(s: seq<Seg>, r: Request, large: nat, lo: nat, hi: nat) returns (own: Seg)
    requires r.Valid() && large > 0 && r.elem <= large && Tiles(s, lo, hi)
    ensures var t := Allocator.Apply(s, Alloc(r, Unlimited), Geometry(0, large, 0));
      && Tiles(t, lo, hi)
      && (if NoPlace(s, r.total, r.elem, large) then Live(t) == Live(s)
          else LowestPlace(s, own.start, r.total, r.elem, large) && own.len == r.total && !own.free
               && own !in Live(s) && Live(t) == Live(s) + {own})
  {
    hide Search, Tiles, Live, Place, Used, Adds;
    own := Seg(0, 0, true);
    var g := Geometry(0, large, 0);
    SearchIsLowest(s, r, g, lo, hi);
    SearchSound(s, r, g, Unlimited, lo, hi);
    var (t, out) := Search(s, r, g, Unlimited);
    if out.Granted? {
      own := GrantedSeg(s, r, g, Unlimited, lo, hi);
    } else {
      LiveIsUsed(s);
      LiveIsUsed(t);
    }
  }

  /** A release takes exactly the block at its address out. */
  lemma FreeOp(s: seq<Seg>, start: nat, g: Geometry, lo: nat, hi: nat, x: Seg)
    requires g.Valid() && Tiles(s, lo, hi)
    ensures var t := Allocator.Apply(s, Free(start), g);
      Coalesced(t) && (x in Live(t) <==> x in Live(s) && x.start != start)
  {
    hide Live, Coalesced, Tiles, Release;
    ReleaseSound(s, lo, hi, start);
    ReleaseAny(s, start, lo, hi, x);
  }
}
