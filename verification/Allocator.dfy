/**
 * First-fit search over a heap's segments, shared by the two DMA heaps.
 *
 * Each segment begins with `header` bytes of bookkeeping (a page in the host heap, nothing in the
 * CUDA heap). `large` is the physically contiguous unit: a hugepage or a device page. `slack` is
 * the largest remainder that is not split off.
 */
module Allocator {
  import opened Arith
  import opened Segments

  datatype Geometry = Geometry(header: nat, large: nat, slack: nat) {
    predicate Valid() { large > 0 }
  }

  /** `total` payload bytes for elements of `elem` bytes each. */
  datatype Request = Request(total: nat, elem: nat) {
    predicate Valid() { 0 < elem <= total }
  }

  /** How many list nodes can still be allocated before the C library's `malloc` fails. */
  datatype Budget = Unlimited | Nodes(left: nat) {
    predicate Exhausted() { Nodes? && left == 0 }
    function Spend(): Budget
      requires !Exhausted()
    { if Nodes? then Nodes(left - 1) else Unlimited }
  }

  datatype Outcome = Granted(start: nat) | NoSpace | NoNode

  ghost function Total(s: seq<Seg>): nat {
    if s == [] then 0 else s[0].len + Total(s[1..])
  }

  /** The `size` a header stores: the last block's size includes its header, the others' do not. */
  function Stored(s: seq<Seg>, g: Geometry): int
    requires s != []
  {
    if |s| == 1 then s[0].len else s[0].len - g.header
  }

  /** Bytes from `start` to the next large-page boundary. */
  function Room(start: nat, g: Geometry): (r: nat)
    requires g.Valid()
    ensures 0 < r <= g.large
  {
    g.large - start % g.large
  }

  function Misfit(start: nat, r: Request, g: Geometry): (d: nat)
    requires r.Valid() && g.Valid()
    ensures d < r.elem
  {
    (Room(start, g) - g.header) % r.elem
  }

  /** The block at `start` must be skipped: it does not fit in its large page and would straddle. */
  predicate MustSkip(start: nat, r: Request, g: Geometry)
    requires r.Valid() && g.Valid()
  {
    Room(start, g) < r.total + g.header && Misfit(start, r, g) != 0
  }

  function Search(s: seq<Seg>, r: Request, g: Geometry, budget: Budget): (seq<Seg>, Outcome)
    requires r.Valid() && g.Valid()
    decreases Total(s), |s|
  {
    if s == [] then ([], NoSpace)
    else
      var b, rest := s[0], s[1..];
      if !(b.free && Stored(s, g) >= r.total + g.header) then
        var (tail, out) := Search(rest, r, g, budget);
        ([b] + tail, out)
      else if MustSkip(b.start, r, g) then
        if budget.Exhausted() then (s, NoNode)
        else
          var at := g.header + Misfit(b.start, r, g);
          var (tail, out) := Search([Seg(b.start + at, b.len - at, true)] + rest, r, g, budget.Spend());
          ([Seg(b.start, at, true)] + tail, out)
      else if Stored(s, g) - r.total - g.header <= g.slack then
        ([b.(free := false)] + rest, Granted(b.start))
      else if budget.Exhausted() then (s, NoNode)
      else
        var at := g.header + r.total;
        ([Seg(b.start, at, false), Seg(b.start + at, b.len - at, true)] + rest, Granted(b.start))
  }

  /** `t` uses exactly `used` and one more segment, at `start` and at least `need` bytes long. */
  ghost predicate Adds(used: seq<Seg>, t: seq<Seg>, start: nat, need: nat) {
    exists k :: 0 <= k < |t| && AddsAt(used, t, start, need, k)
  }

  ghost predicate AddsAt(used: seq<Seg>, t: seq<Seg>, start: nat, need: nat, k: nat)
    requires k < |t|
  {
    && t[k].start == start && !t[k].free && t[k].len >= need
    && used == Used(t[..k]) + Used(t[k + 1..])
  }

  ghost predicate SearchKeeps(used: seq<Seg>, res: (seq<Seg>, Outcome), need: nat, lo: nat, hi: nat) {
    && Tiles(res.0, lo, hi)
    && (if res.1.Granted? then Adds(used, res.0, res.1.start, need) else Used(res.0) == used)
  }

  /** Whatever the outcome, the list still covers the heap and every block in use is untouched. */
  lemma {:induction false} SearchSound(s: seq<Seg>, r: Request, g: Geometry, budget: Budget, lo: nat, hi: nat)
    requires r.Valid() && g.Valid() && Tiles(s, lo, hi)
    ensures SearchKeeps(Used(s), Search(s, r, g, budget), g.header + r.total, lo, hi)
    decreases Total(s), |s|
  {
    hide SearchKeeps, Misfit, Tiles, Used;
    var need := g.header + r.total;
    KeepsSame(s, NoSpace, need, lo, hi);
    KeepsSame(s, NoNode, need, lo, hi);
    if s != [] {
      TilesTail(s, lo, hi);
      var b, rest := s[0], s[1..];
      UsedCons(b, rest);
      assert s == [b] + rest;
      if !(b.free && Stored(s, g) >= r.total + g.header) {
        SearchSound(rest, r, g, budget, lo + b.len, hi);
        Prepend(b, Used(rest), Search(rest, r, g, budget), need, lo, hi);
      } else if MustSkip(b.start, r, g) {
        if !budget.Exhausted() {
          var at := g.header + Misfit(b.start, r, g);
          var back := Seg(b.start + at, b.len - at, true);
          TilesCons(back, rest, lo + at, hi);
          UsedCons(back, rest);
          assert ([back] + rest)[1..] == rest;
          SearchSound([back] + rest, r, g, budget.Spend(), lo + at, hi);
          Prepend(Seg(b.start, at, true), Used(rest), Search([back] + rest, r, g, budget.Spend()), need, lo, hi);
        }
      } else if Stored(s, g) - r.total - g.header <= g.slack {
        TakeWhole(s, need, lo, hi);
      } else if !budget.Exhausted() {
        TakeFront(s, need, lo, hi);
      }
    }
  }

  lemma KeepsSame(s: seq<Seg>, out: Outcome, need: nat, lo: nat, hi: nat)
    requires Tiles(s, lo, hi) && !out.Granted?
    ensures SearchKeeps(Used(s), (s, out), need, lo, hi)
  {
  }

  lemma TakeWhole(s: seq<Seg>, need: nat, lo: nat, hi: nat)
    requires Tiles(s, lo, hi) && s != [] && s[0].free && s[0].len >= need
    ensures SearchKeeps(Used(s), ([s[0].(free := false)] + s[1..], Granted(s[0].start)), need, lo, hi)
  {
    hide Tiles, Used;
    var x := s[0].(free := false);
    TilesTail(s, lo, hi);
    TilesCons(x, s[1..], lo, hi);
    TakenFirst(s, [x] + s[1..], need);
  }

  lemma TakeFront(s: seq<Seg>, need: nat, lo: nat, hi: nat)
    requires Tiles(s, lo, hi) && s != [] && s[0].free && 0 < need < s[0].len
    ensures var b := s[0];
      var t := [Seg(b.start, need, false), Seg(b.start + need, b.len - need, true)] + s[1..];
      SearchKeeps(Used(s), (t, Granted(b.start)), need, lo, hi)
  {
    hide Tiles, Used, Adds;
    var b := s[0];
    var front, back := Seg(b.start, need, false), Seg(b.start + need, b.len - need, true);
    TilesTail(s, lo, hi);
    TilesCons(back, s[1..], lo + need, hi);
    TilesCons(front, [back] + s[1..], lo, hi);
    assert [front, back] + s[1..] == [front] + ([back] + s[1..]);
    UsedCons(back, s[1..]);
    TakenFirst(s, [front] + ([back] + s[1..]), need);
  }

  lemma TakenFirst(s: seq<Seg>, t: seq<Seg>, need: nat)
    requires s != [] && s[0].free && t != [] && !t[0].free && t[0].len >= need
    requires Used(t[1..]) == Used(s[1..])
    ensures Adds(Used(s), t, t[0].start, need)
  {
    assert t[..0] == [];
    assert AddsAt(Used(s), t, t[0].start, need, 0);
  }

  lemma Prepend(x: Seg, used: seq<Seg>, res: (seq<Seg>, Outcome), need: nat, lo: nat, hi: nat)
    requires x.start == lo && x.len > 0 && SearchKeeps(used, res, need, lo + x.len, hi)
    ensures SearchKeeps(if x.free then used else [x] + used, ([x] + res.0, res.1), need, lo, hi)
  {
    hide Tiles, Used, Adds;
    TilesCons(x, res.0, lo, hi);
    UsedCons(x, res.0);
    if res.1.Granted? { PrependAdds(x, used, res.0, res.1.start, need); }
  }

  lemma PrependAdds(x: Seg, used: seq<Seg>, t: seq<Seg>, start: nat, need: nat)
    requires Adds(used, t, start, need)
    ensures Adds(if x.free then used else [x] + used, [x] + t, start, need)
  {
    hide Used;
    var k :| 0 <= k < |t| && AddsAt(used, t, start, need, k);
    var t' := [x] + t;
    assert t'[..k + 1] == [x] + t[..k] && t'[k + 1 + 1..] == t[k + 1..] && t'[k + 1] == t[k];
    UsedCons(x, t[..k]);
    Associate([x], Used(t[..k]), Used(t[k + 1..]));
    assert AddsAt(if x.free then used else [x] + used, t', start, need, k + 1);
  }

  /** In terms of live sets: one block more, which was not there before. */
  lemma AddsLive(s: seq<Seg>, t: seq<Seg>, start: nat, need: nat, lo: nat, hi: nat) returns (x: Seg)
    requires Tiles(s, lo, hi) && Tiles(t, lo, hi) && Adds(Used(s), t, start, need)
    ensures x.start == start && x.len >= need && !x.free
    ensures x !in Live(s) && Live(t) == Live(s) + {x}
  {
    hide Tiles, Used;
    var k :| 0 <= k < |t| && AddsAt(Used(s), t, start, need, k);
    x := t[k];
    var a, b := t[..k], t[k + 1..];
    assert t == a + [x] + b;
    OthersElsewhere(a, x, b, lo, hi);
    LiveIsUsed(s);
    UsedMembers(a);
    UsedMembers(b);
    forall y ensures y in Live(t) <==> y in Live(s) + {x} {
      assert y in t <==> y in a || y == x || y in b;
      assert y in Used(s) <==> y in Used(a) || y in Used(b);
    }
  }

  // ---- How much a grant takes

  /** The granted block is as long as the request, but for a remainder too small to split off; a block that
      is not the last loses one more header, which its stored size leaves out. */
  lemma {:induction false} GrantedBlock(s: seq<Seg>, r: Request, g: Geometry, budget: Budget) returns (k: nat)
    requires r.Valid() && g.Valid() && Search(s, r, g, budget).1.Granted?
    ensures var (t, out) := Search(s, r, g, budget);
      k < |t| && GrantAt(t, out.start, r, g, k)
    decreases Total(s), |s|
  {
    hide MustSkip, Misfit, Room, Search, Stored, GrantAt;
    NothingGranted(r, g, budget);
    var b, rest := s[0], s[1..];
    if !(b.free && Stored(s, g) >= r.total + g.header) {
      UnfoldPass(s, r, g, budget);
      k := GrantedBlock(rest, r, g, budget);
      GrantBehind(b, Search(rest, r, g, budget), r, g, k);
      k := k + 1;
    } else if MustSkip(b.start, r, g) {
      var at, cut := UnfoldSkip(s, r, g, budget);
      k := GrantedBlock(cut, r, g, budget.Spend());
      GrantBehind(Seg(b.start, at, true), Search(cut, r, g, budget.Spend()), r, g, k);
      k := k + 1;
    } else {
      GrantHere(s, r, g, budget);
      k := 0;
    }
  }

  ghost predicate GrantAt(t: seq<Seg>, start: nat, r: Request, g: Geometry, k: nat)
    requires k < |t|
  {
    && t[k].start == start && !t[k].free
    && g.header + r.total <= t[k].len
    && t[k].len <= g.header + r.total + g.slack + (if k == |t| - 1 then 0 else g.header)
  }

  lemma NothingGranted(r: Request, g: Geometry, budget: Budget)
    requires r.Valid() && g.Valid()
    ensures Search([], r, g, budget) == ([], NoSpace)
  {
  }

  lemma GrantBehind(x: Seg, res: (seq<Seg>, Outcome), r: Request, g: Geometry, k: nat)
    requires res.1.Granted? && k < |res.0| && GrantAt(res.0, res.1.start, r, g, k)
    ensures GrantAt([x] + res.0, res.1.start, r, g, k + 1)
  {
  }

  lemma GrantHere(s: seq<Seg>, r: Request, g: Geometry, budget: Budget)
    requires r.Valid() && g.Valid() && s != [] && s[0].free && Stored(s, g) >= r.total + g.header
    requires !MustSkip(s[0].start, r, g) && Search(s, r, g, budget).1.Granted?
    ensures var (t, out) := Search(s, r, g, budget);
      out.start == s[0].start && t != [] && GrantAt(t, out.start, r, g, 0)
  {
    hide MustSkip;
  }

  /** The search passes its first block. */
  lemma UnfoldPass(s: seq<Seg>, r: Request, g: Geometry, budget: Budget)
    requires r.Valid() && g.Valid() && s != [] && !(s[0].free && Stored(s, g) >= r.total + g.header)
    ensures var (tail, out) := Search(s[1..], r, g, budget); Search(s, r, g, budget) == ([s[0]] + tail, out)
  {
    hide MustSkip, Stored;
  }

  /** The search skips into its first block. */
  lemma UnfoldSkip(s: seq<Seg>, r: Request, g: Geometry, budget: Budget) returns (at: nat, cut: seq<Seg>)
    requires r.Valid() && g.Valid() && s != [] && s[0].free && Stored(s, g) >= r.total + g.header
    requires MustSkip(s[0].start, r, g) && Search(s, r, g, budget).1.Granted?
    ensures at == g.header + Misfit(s[0].start, r, g) && 0 < at < s[0].len && !budget.Exhausted()
    ensures cut == [Seg(s[0].start + at, s[0].len - at, true)] + s[1..] && Total(cut) < Total(s)
    ensures var (tail, out) := Search(cut, r, g, budget.Spend());
      Search(s, r, g, budget) == ([Seg(s[0].start, at, true)] + tail, out)
  {
    at := g.header + Misfit(s[0].start, r, g);
    StoredWithin(s, g);
    SkipWithin(s[0].start, r, g);
    hide MustSkip, Misfit, Stored;
    cut := [Seg(s[0].start + at, s[0].len - at, true)] + s[1..];
    assert cut[1..] == s[1..];
  }

  lemma StoredWithin(s: seq<Seg>, g: Geometry)
    requires s != []
    ensures Stored(s, g) <= s[0].len
  {
  }

  lemma SkipWithin(start: nat, r: Request, g: Geometry)
    requires r.Valid() && g.Valid() && MustSkip(start, r, g)
    ensures 0 < g.header + Misfit(start, r, g) < r.total + g.header
  {
  }

  lemma SameStart(t: seq<Seg>, x: Seg, y: Seg, lo: nat, hi: nat)
    requires Tiles(t, lo, hi) && x in t && y in t && x.start == y.start
    ensures x == y
  {
    TilesBounds(t, lo, hi);
    var i :| 0 <= i < |t| && t[i] == x;
    var j :| 0 <= j < |t| && t[j] == y;
    assert i < j || i == j || j < i;
  }

  lemma LastEnds(t: seq<Seg>, k: nat, lo: nat, hi: nat)
    requires Tiles(t, lo, hi) && k < |t|
    ensures t[k].start + t[k].len <= hi && (t[k].start + t[k].len == hi <==> k == |t| - 1)
  {
    TilesBounds(t, lo, hi);
    if k < |t| - 1 { assert t[k].start + t[k].len <= t[|t| - 1].start; }
  }

  /** A grant in terms of live blocks: exactly one more, of known place and length. */
  lemma GrantedSeg(s: seq<Seg>, r: Request, g: Geometry, budget: Budget, lo: nat, hi: nat) returns (x: Seg)
    requires r.Valid() && g.Valid() && Tiles(s, lo, hi) && Search(s, r, g, budget).1.Granted?
    ensures var (t, out) := Search(s, r, g, budget);
      && x.start == out.start && !x.free && x !in Live(s) && Live(t) == Live(s) + {x}
      && x.start + x.len <= hi && g.header + r.total <= x.len
      && x.len <= g.header + r.total + g.slack + (if x.start + x.len == hi then 0 else g.header)
  {
    hide Tiles, Used, Search, Live, Adds;
    var (t, out) := Search(s, r, g, budget);
    SearchSound(s, r, g, budget, lo, hi);
    x := AddsLive(s, t, out.start, g.header + r.total, lo, hi);
    var k := GrantedBlock(s, r, g, budget);
    assert GrantAt(t, out.start, r, g, k);
    LiveIsIn(t, x);
    SameStart(t, x, t[k], lo, hi);
    LastEnds(t, k, lo, hi);
  }

  lemma LiveIsIn(t: seq<Seg>, x: Seg)
    requires x in Live(t)
    ensures x in t
  {
  }

  /** Allocating and then releasing the result restores a coalesced list exactly. */
  lemma AllocThenRelease(s: seq<Seg>, r: Request, g: Geometry, budget: Budget, lo: nat, hi: nat)
    requires r.Valid() && g.Valid() && Tiles(s, lo, hi) && Coalesced(s)
    ensures var (t, out) := Search(s, r, g, budget);
      out.Granted? ==> Release(t, out.start) == s
  {
    var (t, out) := Search(s, r, g, budget);
    SearchSound(s, r, g, budget, lo, hi);
    if out.Granted? {
      AddedThenReleased(s, t, out.start, g.header + r.total, lo, hi);
      ReleaseSound(t, lo, hi, out.start);
      Canonical(Release(t, out.start), s, lo, hi);
    }
  }

  /** Releasing a just-added block leaves exactly the blocks that were in use before. */
  lemma AddedThenReleased(s: seq<Seg>, t: seq<Seg>, start: nat, need: nat, lo: nat, hi: nat)
    requires Tiles(t, lo, hi) && Adds(Used(s), t, start, need)
    ensures Used(Release(t, start)) == Used(s)
  {
    hide Tiles, Used, Merge, MarkFree;
    var k :| 0 <= k < |t| && AddsAt(Used(s), t, start, need, k);
    assert t == t[..k] + [t[k]] + t[k + 1..];
    MarkFreeUsed(t[..k], t[k], t[k + 1..], lo, hi);
    ReleaseSound(t, lo, hi, start);
  }

  /** A failed search may leave skip splits behind, but merging the list does not see them. */
  lemma FailedSearchIsInvisible(s: seq<Seg>, r: Request, g: Geometry, budget: Budget, lo: nat, hi: nat)
    requires r.Valid() && g.Valid() && Tiles(s, lo, hi)
    ensures var (t, out) := Search(s, r, g, budget);
      !out.Granted? ==> Merge(t) == Merge(s)
  {
    var (t, out) := Search(s, r, g, budget);
    SearchSound(s, r, g, budget, lo, hi);
    MergeSound(s, lo, hi);
    if !out.Granted? {
      MergeSound(t, lo, hi);
      Canonical(Merge(t), Merge(s), lo, hi);
    }
  }

  // ---- The search as a loop over the list sees it

  lemma AddsLess(used: seq<Seg>, t: seq<Seg>, start: nat, need: nat, less: nat)
    requires Adds(used, t, start, need) && less <= need
    ensures Adds(used, t, start, less)
  {
    var k :| 0 <= k < |t| && AddsAt(used, t, start, need, k);
    assert AddsAt(used, t, start, less, k);
  }

  lemma SplitKeepsCover(s: seq<Seg>, i: nat, at: nat, lo: nat, hi: nat)
    requires Tiles(s, lo, hi) && i < |s| && 0 < at < s[i].len
    ensures var t := SplitAt(s, i, at);
      && Tiles(t, lo, hi) && t[..i + 1] == s[..i] + [Seg(s[i].start, at, s[i].free)]
      && t[i + 1..] == [Seg(s[i].start + at, s[i].len - at, true)] + s[i + 1..]
      && Total(t[i + 1..]) < Total(s[i..])
  {
    SplitTiles(s, i, at, lo, hi);
    var back := [Seg(s[i].start + at, s[i].len - at, true)] + s[i + 1..];
    assert SplitAt(s, i, at)[i + 1..] == back;
    assert s[i..][1..] == s[i + 1..] && back[1..] == s[i + 1..];
  }

  /** The search resumed at block `i`, with the blocks already passed put back in front. */
  function Under(s: seq<Seg>, i: nat, r: Request, g: Geometry, left: Budget): (seq<Seg>, Outcome)
    requires r.Valid() && g.Valid() && i <= |s|
  {
    var res := Search(s[i..], r, g, left);
    (s[..i] + res.0, res.1)
  }

  lemma UnderStart(s: seq<Seg>, r: Request, g: Geometry, left: Budget)
    requires r.Valid() && g.Valid()
    ensures Under(s, 0, r, g, left) == Search(s, r, g, left)
  {
    assert s[0..] == s && s[..0] == [];
    assert Under(s, 0, r, g, left).0 == Search(s, r, g, left).0;
  }

  lemma UnderEnd(s: seq<Seg>, r: Request, g: Geometry, left: Budget)
    requires r.Valid() && g.Valid()
    ensures Under(s, |s|, r, g, left) == (s, NoSpace)
  {
    assert s[|s|..] == [] && s[..|s|] == s;
    assert Under(s, |s|, r, g, left).0 == s;
  }

  function StoredAt(s: seq<Seg>, i: nat, g: Geometry): int
    requires i < |s|
  {
    if i == |s| - 1 then s[i].len else s[i].len - g.header
  }

  ghost predicate Serves(s: seq<Seg>, i: nat, r: Request, g: Geometry)
    requires i < |s|
  {
    s[i].free && StoredAt(s, i, g) >= r.total + g.header
  }

  ghost predicate LeavesRest(s: seq<Seg>, i: nat, r: Request, g: Geometry)
    requires i < |s|
  {
    StoredAt(s, i, g) - r.total - g.header > g.slack
  }

  lemma UnderPass(s: seq<Seg>, i: nat, r: Request, g: Geometry, left: Budget)
    requires r.Valid() && g.Valid() && i < |s| && !Serves(s, i, r, g)
    ensures Under(s, i, r, g, left) == Under(s, i + 1, r, g, left)
    ensures Total(s[i + 1..]) <= Total(s[i..])
  {
    assert s[i..][1..] == s[i + 1..];
    var tail := Search(s[i + 1..], r, g, left).0;
    assert s[..i + 1] == s[..i] + [s[i]];
    Associate(s[..i], [s[i]], tail);
  }

  lemma UnderExhausted(s: seq<Seg>, i: nat, r: Request, g: Geometry, left: Budget)
    requires r.Valid() && g.Valid() && i < |s| && Serves(s, i, r, g)
    requires left.Exhausted() && (MustSkip(s[i].start, r, g) || LeavesRest(s, i, r, g))
    ensures Under(s, i, r, g, left) == (s, NoNode)
  {
    assert s[..i] + s[i..] == s;
  }

  lemma UnderSkip(s: seq<Seg>, i: nat, r: Request, g: Geometry, left: Budget, lo: nat, hi: nat)
    requires r.Valid() && g.Valid() && i < |s| && Serves(s, i, r, g) && Tiles(s, lo, hi)
    requires MustSkip(s[i].start, r, g) && !left.Exhausted()
    ensures var at := g.header + Misfit(s[i].start, r, g);
      && 0 < at < s[i].len
      && var t := SplitAt(s, i, at);
      && Under(s, i, r, g, left) == Under(t, i + 1, r, g, left.Spend())
      && Tiles(t, lo, hi) && Total(t[i + 1..]) < Total(s[i..])
  {
    var at := g.header + Misfit(s[i].start, r, g);
    SplitKeepsCover(s, i, at, lo, hi);
    var t := SplitAt(s, i, at);
    assert s[i..][1..] == s[i + 1..];
    var front := Seg(s[i].start, at, true);
    Associate(s[..i], [front], Search(t[i + 1..], r, g, left.Spend()).0);
  }

  lemma UnderTake(s: seq<Seg>, i: nat, r: Request, g: Geometry, left: Budget)
    requires r.Valid() && g.Valid() && i < |s| && Serves(s, i, r, g)
    requires !MustSkip(s[i].start, r, g) && (LeavesRest(s, i, r, g) ==> !left.Exhausted())
    ensures var t := if LeavesRest(s, i, r, g) then SplitAt(s, i, g.header + r.total) else s;
      Under(s, i, r, g, left) == (t[i := t[i].(free := false)], Granted(s[i].start))
  {
    assert s[i..][1..] == s[i + 1..];
    var b, at := s[i], g.header + r.total;
    if LeavesRest(s, i, r, g) {
      var t := SplitAt(s, i, at);
      assert t[i := t[i].(free := false)] ==
        s[..i] + ([Seg(b.start, at, false), Seg(b.start + at, b.len - at, true)] + s[i + 1..]);
    } else {
      assert s[i := b.(free := false)] == s[..i] + ([b.(free := false)] + s[i + 1..]);
    }
  }

  // ---- No element crosses a large-page boundary

  /** `count` elements of `elem` bytes from `at` each lie inside one large page. */
  ghost predicate NoStraddle(at: nat, elem: nat, count: nat, large: nat)
    requires large > 0
  {
    forall i :: 0 <= i < count ==> ElementFits(at, elem, i, large)
  }

  ghost predicate ElementFits(at: nat, elem: nat, i: nat, large: nat)
    requires large > 0
  {
    (at + i * elem) % large + elem <= large
  }

  /** The guard of the array allocators: an element fits a large page, and divides it if it must. */
  predicate Accepted(count: nat, elem: nat, large: nat)
    requires elem > 0
  {
    elem <= large && (count * elem > large ==> large % elem == 0)
  }

  /** A granted block was not one that had to be skipped. */
  lemma {:induction false} GrantedNotSkipped(s: seq<Seg>, r: Request, g: Geometry, budget: Budget)
    requires r.Valid() && g.Valid()
    ensures var out := Search(s, r, g, budget).1;
      out.Granted? ==> !MustSkip(out.start, r, g)
    decreases Total(s), |s|
  {
    if s != [] {
      var b, rest := s[0], s[1..];
      if !(b.free && Stored(s, g) >= r.total + g.header) {
        GrantedNotSkipped(rest, r, g, budget);
      } else if MustSkip(b.start, r, g) && !budget.Exhausted() {
        var at := g.header + Misfit(b.start, r, g);
        var cut := [Seg(b.start + at, b.len - at, true)] + rest;
        assert cut[1..] == rest;
        GrantedNotSkipped(cut, r, g, budget.Spend());
      }
    }
  }

  /** Why the skip test is the right one: a block it lets through holds no straddling element. */
  lemma {:induction false} UnskippedNoStraddle(start: nat, r: Request, g: Geometry, count: nat)
    requires r.Valid() && g.Valid() && !MustSkip(start, r, g)
    requires count * r.elem <= r.total && Accepted(count, r.elem, g.large)
    requires Room(start, g) >= g.header
    ensures NoStraddle(start + g.header, r.elem, count, g.large)
  {
    var at := start + g.header;
    NotSkipped(start, r, g, count);
    hide ElementFits, Room, Misfit, MustSkip, Accepted;
    forall i: nat | i < count ensures ElementFits(at, r.elem, i, g.large) {
      ElementEnd(i, count, r.elem);
      ElementInPage(start, at, r.elem, i, count, g.large);
    }
  }

  /** The boundary test in terms of the room left. */
  lemma NotSkipped(start: nat, r: Request, g: Geometry, count: nat)
    requires r.Valid() && g.Valid() && !MustSkip(start, r, g) && count * r.elem <= r.total
    requires Room(start, g) >= g.header
    ensures var room := g.large - start % g.large;
      g.header <= room && (room >= g.header + count * r.elem || (room - g.header) % r.elem == 0)
  {
  }

  lemma ElementEnd(i: nat, count: nat, elem: nat)
    requires i < count
    ensures i * elem + elem <= count * elem
  {
    MulMonotone(i + 1, count, elem);
    assert (i + 1) * elem == i * elem + elem;
  }

  lemma {:induction false} ElementInPage(start: nat, at: nat, elem: nat, i: nat, count: nat, large: nat)
    requires 0 < elem && 0 < large && Accepted(count, elem, large) && start <= at
    requires 0 <= i * elem && i * elem + elem <= count * elem
    requires var room := large - start % large;
      at - start <= room && (room >= (at - start) + count * elem || (room - (at - start)) % elem == 0)
    ensures ElementFits(at, elem, i, large)
  {
    hide Accepted, ElementFits;
    var q, r := start / large, start % large;
    var edge := start + (large - r);  // the boundary after `start`
    assert start == large * q + r;
    assert edge - at == large - r - (at - start);
    ElementBeforeEdge(at, edge, elem, i, count, large, q);
  }

  /** An element of an array that fits before the boundary, or meets it on an element boundary. */
  lemma ElementBeforeEdge(at: nat, edge: nat, elem: nat, i: nat, count: nat, large: nat, q: nat)
    requires 0 < elem && 0 < large && Accepted(count, elem, large) && large * q <= at <= edge == large * q + large
    requires 0 <= i * elem && i * elem + elem <= count * elem
    requires edge - at >= count * elem || (edge - at) % elem == 0
    ensures ElementFits(at, elem, i, large)
  {
    hide Accepted, ElementFits;
    if at + i * elem + elem <= edge {
      WithinBoundary(at, edge, elem, i, large, q);
    } else {
      // the elements before the boundary fill it exactly, so element `i` is past it
      PastBoundary(at, edge, elem, i);
      BeyondBoundary(at, edge, elem, i, count, large, q);
    }
  }

  lemma WithinBoundary(at: nat, edge: nat, elem: nat, i: nat, large: nat, q: nat)
    requires large > 0 && elem > 0 && edge == large * q + large && large * q <= at
    requires 0 <= i * elem && at + i * elem + elem <= edge
    ensures ElementFits(at, elem, i, large)
  {
    var x := at + i * elem;
    DivModUnique(x, large, q, x - large * q);
  }

  lemma BeyondBoundary(at: nat, edge: nat, elem: nat, i: nat, count: nat, large: nat, q: nat)
    requires 0 < elem && Accepted(count, elem, large) && at <= edge && edge == large * q + large && large > 0
    requires i * elem >= 0 && i * elem + elem <= count * elem && (edge - at) % elem == 0 && at + i * elem >= edge
    ensures ElementFits(at, elem, i, large)
  {
    var x := at + i * elem;
    assert edge == large * (q + 1);
    if count * elem <= large {
      DivModUnique(x, large, q + 1, x - edge);
    } else {
      ElementOffset(i, elem, edge - at);
      AlignedFits(x - edge, elem, large);
      AddMultiple(x - edge, large, q + 1);
    }
  }

  lemma ElementOffset(i: nat, elem: nat, gap: nat)
    requires elem > 0 && gap % elem == 0
    ensures (i * elem - gap) % elem == 0
  {
    Multiple(elem, i);
    assert elem * i == i * elem;
    MultiplesClosed(i * elem, gap, elem);
  }

  lemma {:induction false} PastBoundary(at: nat, edge: nat, elem: nat, i: nat)
    requires 0 < elem && at <= edge && (edge - at) % elem == 0
    requires at + i * elem + elem > edge
    ensures at + i * elem >= edge
  {
    if i * elem < edge - at {
      Multiple(elem, i);
      assert elem * i == i * elem;
      MultipleGap(i * elem, edge - at, elem);
    }
  }

  lemma {:induction false} AlignedFits(x: nat, elem: nat, large: nat)
    requires 0 < elem && 0 < large && x % elem == 0 && large % elem == 0
    ensures x % large + elem <= large
  {
    RemainderOfRemainder(x, large, elem);
    MultipleGap(x % large, large, elem);
  }

  // ---- Exactly which requests are granted

  /**
   * How far a headerless search moves into a block it must skip in: to the next element boundary, or
   * past the large page and, for an array longer than one, on to the element boundary there.
   */
  function Skip(start: nat, r: Request, g: Geometry): nat
    requires r.Valid() && g.Valid()
  {
    var room := Room(start, g);
    if room % r.elem < room then room % r.elem
    else room + if g.large < r.total then g.large % r.elem else 0
  }

  /**
   * The free block at `start`, storing size `stored`, ends up serving the request. When the block
   * must be skipped, the CUDA heap (no header) lands on an element boundary. The host heap places the
   * *header* there, so its payload is off by a page again and the search moves on until the next
   * hugepage boundary, where only a request that fits one hugepage can stop.
   */
  ghost predicate Fits(start: nat, stored: int, r: Request, g: Geometry)
    requires r.Valid() && g.Valid()
  {
    var need := r.total + g.header;
    if !MustSkip(start, r, g) then stored >= need
    else if g.header == 0 then stored - Skip(start, r, g) >= need
    else need <= g.large && stored - Room(start, g) >= need
  }

  /** What the heaps see to before they search (see HostHeap.WholeIsRegular, CudaHeap.PaddedIsRegular). */
  ghost predicate Regular(r: Request, g: Geometry)
    requires r.Valid() && g.Valid()
  {
    if g.header == 0 then r.elem <= g.large
    else
      && (r.total + g.header <= g.large || g.large % r.elem == 0)
      && (g.header < r.elem || g.header % r.elem == 0)
      && g.large % g.header == 0
  }

  ghost predicate OnHeaderGrid(s: seq<Seg>, g: Geometry) {
    g.header > 0 ==> forall i :: 0 <= i < |s| ==> s[i].start % g.header == 0
  }

  /** Some free block can serve the request. */
  ghost predicate Servable(s: seq<Seg>, r: Request, g: Geometry)
    requires r.Valid() && g.Valid()
  {
    exists i: nat :: i < |s| && GrantedBy(s, r, g, i)
  }

  ghost predicate GrantedBy(s: seq<Seg>, r: Request, g: Geometry, i: nat)
    requires r.Valid() && g.Valid() && i < |s|
  {
    s[i].free && Fits(s[i].start, Stored(s[i..], g), r, g)
  }

  /** Where a served request starts in the block: at its front, or past the skip. */
  function Landing(start: nat, r: Request, g: Geometry): (at: nat)
    requires r.Valid() && g.Valid()
  {
    if !MustSkip(start, r, g) then start
    else if g.header == 0 then start + Skip(start, r, g)
    else start + Room(start, g)
  }

  /** First fit without any splitting: the lowest free block that can serve the request does. */
  ghost function FirstFit(s: seq<Seg>, r: Request, g: Geometry): Outcome
    requires r.Valid() && g.Valid()
    decreases |s|
  {
    if s == [] then NoSpace
    else if s[0].free && Fits(s[0].start, Stored(s, g), r, g) then Granted(Landing(s[0].start, r, g))
    else FirstFit(s[1..], r, g)
  }

  /** With enough list nodes, the search with its skip blocks grants what first fit grants. */
  lemma {:induction false} SearchIsFirstFit(s: seq<Seg>, r: Request, g: Geometry)
    requires r.Valid() && g.Valid() && Regular(r, g) && OnHeaderGrid(s, g)
    ensures Search(s, r, g, Unlimited).1 == FirstFit(s, r, g)
    decreases |s|
  {
    if s != [] {
      SearchIsFirstFit(s[1..], r, g);
      if s[0].free { HeadGranted(s, r, g); }
    }
  }

  /** A request is granted exactly when some free block can serve it. */
  lemma {:induction false} GrantedIff(s: seq<Seg>, r: Request, g: Geometry)
    requires r.Valid() && g.Valid() && Regular(r, g) && OnHeaderGrid(s, g)
    ensures Search(s, r, g, Unlimited).1.Granted? <==> Servable(s, r, g)
  {
    hide Search, Fits, Stored, Landing;
    SearchIsFirstFit(s, r, g);
    FirstFitIff(s, r, g);
  }

  lemma {:induction false} FirstFitIff(s: seq<Seg>, r: Request, g: Geometry)
    requires r.Valid() && g.Valid()
    ensures FirstFit(s, r, g).Granted? <==> Servable(s, r, g)
    decreases |s|
  {
    hide Fits, Stored, Landing;
    if s != [] {
      FirstFitIff(s[1..], r, g);
      forall i: nat | i < |s[1..]| ensures GrantedBy(s[1..], r, g, i) <==> GrantedBy(s, r, g, i + 1) {
        assert s[1..][i..] == s[i + 1..];
      }
      assert s[0..] == s;
      assert GrantedBy(s, r, g, 0) <==> s[0].free && Fits(s[0].start, Stored(s, g), r, g);
      if exists i: nat :: i < |s| && GrantedBy(s, r, g, i) {
        var i: nat :| i < |s| && GrantedBy(s, r, g, i);
        if i > 0 { assert GrantedBy(s[1..], r, g, i - 1); }
      }
      if exists i: nat :: i < |s[1..]| && GrantedBy(s[1..], r, g, i) {
        var i: nat :| i < |s[1..]| && GrantedBy(s[1..], r, g, i);
        assert GrantedBy(s, r, g, i + 1);
      }
    }
  }

  /** The three ways the search deals with a free block at the front. */
  ghost function Cut(s: seq<Seg>, at: nat): (t: seq<Seg>)
    requires s != [] && at <= s[0].len
    ensures t != [] && t[0] == Seg(s[0].start + at, s[0].len - at, true) && t[1..] == s[1..]
  {
    var t := [Seg(s[0].start + at, s[0].len - at, true)] + s[1..];
    assert t[1..] == s[1..];
    t
  }

  lemma SearchPasses(s: seq<Seg>, r: Request, g: Geometry)
    requires r.Valid() && g.Valid() && s != [] && Stored(s, g) < r.total + g.header
    ensures Search(s, r, g, Unlimited).1 == Search(s[1..], r, g, Unlimited).1
  {
  }

  lemma SearchTakes(s: seq<Seg>, r: Request, g: Geometry)
    requires r.Valid() && g.Valid() && s != [] && s[0].free && !MustSkip(s[0].start, r, g)
    requires Stored(s, g) >= r.total + g.header
    ensures Search(s, r, g, Unlimited).1 == Granted(s[0].start)
  {
  }

  lemma SearchSkips(s: seq<Seg>, r: Request, g: Geometry)
    requires r.Valid() && g.Valid() && s != [] && s[0].free && MustSkip(s[0].start, r, g)
    requires Stored(s, g) >= r.total + g.header
    ensures var at := g.header + Misfit(s[0].start, r, g);
      && at <= s[0].len && Search(s, r, g, Unlimited).1 == Search(Cut(s, at), r, g, Unlimited).1
      && Stored(Cut(s, at), g) == Stored(s, g) - at
  {
    hide MustSkip, Misfit, Room;
    var at := g.header + Misfit(s[0].start, r, g);
    var cut := [Seg(s[0].start + at, s[0].len - at, true)] + s[1..];
    assert cut == Cut(s, at) && cut[1..] == s[1..];
  }

  lemma {:induction false} HeadGranted(s: seq<Seg>, r: Request, g: Geometry)
    requires r.Valid() && g.Valid() && Regular(r, g) && OnHeaderGrid(s, g)
    requires s != [] && s[0].free
    ensures Search(s, r, g, Unlimited).1 ==
            if Fits(s[0].start, Stored(s, g), r, g) then Granted(Landing(s[0].start, r, g))
            else Search(s[1..], r, g, Unlimited).1
  {
    hide Search, Stored, MustSkip, OnHeaderGrid, Room, Skip, Misfit;
    FirstOnGrid(s, g);
    if Stored(s, g) < r.total + g.header {
      SearchPasses(s, r, g);
    } else if !MustSkip(s[0].start, r, g) {
      SearchTakes(s, r, g);
    } else if g.header == 0 {
      PlainHead(s, r, g);
    } else {
      PageHead(s, r, g);
    }
  }

  lemma PlainHead(s: seq<Seg>, r: Request, g: Geometry)
    requires r.Valid() && g.Valid() && Regular(r, g) && g.header == 0 && s != [] && s[0].free
    requires MustSkip(s[0].start, r, g) && Stored(s, g) >= r.total
    ensures Search(s, r, g, Unlimited).1 ==
            if Stored(s, g) - Skip(s[0].start, r, g) >= r.total then Granted(s[0].start + Skip(s[0].start, r, g))
            else Search(s[1..], r, g, Unlimited).1
  {
    hide Search, Stored;
    var start, at := s[0].start, Misfit(s[0].start, r, g);
    SkipStaysInPage(start, r, g);
    SearchSkips(s, r, g);
    PlainSkip(Cut(s, at), r, g);
    hide Room;
    assert at == Room(start, g) % r.elem;
  }

  lemma PageHead(s: seq<Seg>, r: Request, g: Geometry)
    requires r.Valid() && g.Valid() && Regular(r, g) && g.header > 0 && s != [] && s[0].free
    requires s[0].start % g.header == 0 && MustSkip(s[0].start, r, g) && Stored(s, g) >= r.total + g.header
    ensures Search(s, r, g, Unlimited).1 ==
            (var need, room := r.total + g.header, Room(s[0].start, g);
             if need <= g.large && Stored(s, g) - room >= need then Granted(s[0].start + room)
             else Search(s[1..], r, g, Unlimited).1)
  {
    hide Search, Stored, Room;
    var start, at := s[0].start, g.header + Misfit(s[0].start, r, g);
    SkipStaysInPage(start, r, g);
    SearchSkips(s, r, g);
    AfterSkip(Cut(s, at), r, g);
  }

  lemma FirstOnGrid(s: seq<Seg>, g: Geometry)
    requires OnHeaderGrid(s, g) && s != []
    ensures g.header > 0 ==> s[0].start % g.header == 0
  {
  }

  /** CUDA heap: after one skip the search stops, or is at the boundary and stops after one more. */
  lemma {:induction false} PlainSkip(s: seq<Seg>, r: Request, g: Geometry)
    requires r.Valid() && g.Valid() && g.header == 0 && r.elem <= g.large && s != [] && s[0].free
    requires var room := Room(s[0].start, g); room % r.elem == 0 || room == g.large
    ensures var more := if Room(s[0].start, g) < r.total then Room(s[0].start, g) % r.elem else 0;
      Search(s, r, g, Unlimited).1 ==
      if Stored(s, g) >= r.total + more then Granted(s[0].start + more) else Search(s[1..], r, g, Unlimited).1
  {
    hide Search, Stored;
    var b, room := s[0], Room(s[0].start, g);
    if Stored(s, g) < r.total {
      SearchPasses(s, r, g);
    } else if !MustSkip(b.start, r, g) {
      SearchTakes(s, r, g);
    } else {
      var more := room % r.elem;
      SearchSkips(s, r, g);
      RoomAfter(b.start, more, g);
      FloorMultiple(room, r.elem);
      var cut := Cut(s, more);
      if Stored(cut, g) < r.total { SearchPasses(cut, r, g); } else { SearchTakes(cut, r, g); }
    }
  }

  /** A skip never passes the large-page boundary and leaves a whole number of elements before it. */
  lemma {:induction false} SkipStaysInPage(start: nat, r: Request, g: Geometry)
    requires r.Valid() && g.Valid() && Regular(r, g) && MustSkip(start, r, g)
    requires g.header > 0 ==> start % g.header == 0
    ensures var room, at := Room(start, g), g.header + Misfit(start, r, g);
      && at <= room && (room - at) % r.elem == 0
      && Room(start + at, g) == (if at < room then room - at else g.large)
      && (g.header > 0 ==> g.header < r.elem)
  {
    var room, dis := Room(start, g), Misfit(start, r, g);
    if g.header > 0 { RoomOnGrid(start, r, g); }
    FloorMultiple(room - g.header, r.elem);
    RoomAfter(start, g.header + dis, g);
  }

  lemma {:induction false} RoomOnGrid(start: nat, r: Request, g: Geometry)
    requires r.Valid() && g.Valid() && Regular(r, g) && g.header > 0 && start % g.header == 0
    ensures Room(start, g) >= g.header
    ensures g.header % r.elem == 0 ==> Misfit(start, r, g) == 0
  {
    var room := Room(start, g);
    RemainderOfRemainder(start, g.large, g.header);
    MultiplesClosed(g.large, start % g.large, g.header);
    MultipleGap(0, room, g.header);
    if g.header % r.elem == 0 {
      MultiplesClosed(room, g.header, g.header);
      assert g.header % g.header == 0;
      MultipleOfMultiple(room, g.header, r.elem);
      MultiplesClosed(room, g.header, r.elem);
    }
  }

  lemma {:induction false} RoomAfter(start: nat, at: nat, g: Geometry)
    requires g.Valid() && at <= Room(start, g)
    ensures Room(start + at, g) == (if at < Room(start, g) then Room(start, g) - at else g.large)
  {
    var q, m := start / g.large, start % g.large;
    assert start == g.large * q + m;
    if m + at < g.large {
      DivModUnique(start + at, g.large, q, m + at);
    } else {
      assert g.large * (q + 1) == g.large * q + g.large;
      DivModUnique(start + at, g.large, q + 1, 0);
    }
  }

  /** Host heap: once on an element boundary, a header there keeps the search moving to the edge. */
  lemma {:induction false} AfterSkip(s: seq<Seg>, r: Request, g: Geometry)
    requires r.Valid() && g.Valid() && Regular(r, g) && s != [] && s[0].free
    requires 0 < g.header < r.elem
    requires var room := Room(s[0].start, g); room % r.elem == 0 || room == g.large
    ensures var need, room, out := r.total + g.header, Room(s[0].start, g), Search(s, r, g, Unlimited).1;
      if need <= room && Stored(s, g) >= need then out == Granted(s[0].start)
      else if room < need <= g.large && Stored(s, g) - room >= need then out == Granted(s[0].start + room)
      else out == Search(s[1..], r, g, Unlimited).1
    decreases s[0].len
  {
    hide Search, Stored;
    var b, need, room := s[0], r.total + g.header, Room(s[0].start, g);
    if Stored(s, g) < need {
      SearchPasses(s, r, g);
    } else if need <= room {
      SearchTakes(s, r, g);
    } else {
      assert room % r.elem == 0;
      HeaderOffBoundary(room, g.header, r.elem);
      assert Misfit(b.start, r, g) == r.elem - g.header;
      SearchSkips(s, r, g);
      MultipleGap(0, room, r.elem);
      RoomAfter(b.start, r.elem, g);
      Multiple(r.elem, 1);
      MultiplesClosed(room, r.elem, r.elem);
      AfterSkip(Cut(s, r.elem), r, g);
    }
  }

  lemma {:induction false} HeaderOffBoundary(room: nat, header: nat, elem: nat)
    requires 0 < header < elem && room % elem == 0
    ensures (room - header) % elem == elem - header
  {
    var k := room / elem;
    assert room == elem * k;
    assert elem * (k - 1) == elem * k - elem;
    DivModUnique(room - header, elem, k - 1, elem - header);
  }

  /**
   * An array that cannot sit in one large page, of elements bigger than a header, is served only
   * from a free block whose payload already lies on an element boundary: skipping never helps.
   */
  lemma {:induction false} SpanningArrayGrantedIff(s: seq<Seg>, r: Request, g: Geometry)
    requires r.Valid() && g.Valid() && OnHeaderGrid(s, g)
    requires 0 < g.header < r.elem && g.large % r.elem == 0 && g.large % g.header == 0
    requires r.total + g.header > g.large
    ensures Search(s, r, g, Unlimited).1.Granted? <==>
      exists i: nat :: i < |s| && s[i].free && (s[i].start + g.header) % r.elem == 0
                       && Stored(s[i..], g) >= r.total + g.header
  {
    GrantedIff(s, r, g);
    forall i: nat | i < |s|
      ensures GrantedBy(s, r, g, i) <==>
        s[i].free && (s[i].start + g.header) % r.elem == 0 && Stored(s[i..], g) >= r.total + g.header
    {
      MisfitZeroIff(s[i].start, r, g);
    }
  }

  lemma {:induction false} MisfitZeroIff(start: nat, r: Request, g: Geometry)
    requires r.Valid() && g.Valid() && g.large % r.elem == 0
    ensures Misfit(start, r, g) == 0 <==> (start + g.header) % r.elem == 0
  {
    var room, edge := Room(start, g), start + Room(start, g);
    assert start == g.large * (start / g.large) + start % g.large;
    assert edge == g.large * (start / g.large + 1);
    Multiple(g.large, start / g.large + 1);
    MultipleOfMultiple(edge, g.large, r.elem);
    if Misfit(start, r, g) == 0 { MultiplesClosed(edge, room - g.header, r.elem); }
    if (start + g.header) % r.elem == 0 { MultiplesClosed(edge, start + g.header, r.elem); }
  }

  /** So on a heap with nothing allocated such an array is refused, however large the heap is. */
  lemma SpanningArrayRefusedByFreshHeap(size: nat, r: Request, g: Geometry)
    requires r.Valid() && g.Valid()
    requires 0 < g.header < r.elem && g.large % r.elem == 0 && g.large % g.header == 0
    requires r.total + g.header > g.large
    ensures Search([Seg(0, size, true)], r, g, Unlimited).1 == NoSpace
  {
    var s := [Seg(0, size, true)];
    SpanningArrayGrantedIff(s, r, g);
    DivModUnique(g.header, r.elem, 0, g.header);
    NeverOutOfNodes(s, r, g);
  }

  /** A shortage of list nodes can only stop a search; it never changes what is granted. */
  lemma {:induction false} BudgetOnlyStops(s: seq<Seg>, r: Request, g: Geometry, budget: Budget)
    requires r.Valid() && g.Valid()
    ensures var out := Search(s, r, g, budget).1; out.NoNode? || out == Search(s, r, g, Unlimited).1
    decreases Total(s), |s|
  {
    if s != [] {
      var b, rest := s[0], s[1..];
      if !(b.free && Stored(s, g) >= r.total + g.header) {
        BudgetOnlyStops(rest, r, g, budget);
      } else if MustSkip(b.start, r, g) && !budget.Exhausted() {
        var at := g.header + Misfit(b.start, r, g);
        var cut := [Seg(b.start + at, b.len - at, true)] + rest;
        assert cut[1..] == rest;
        BudgetOnlyStops(cut, r, g, budget.Spend());
      }
    }
  }

  lemma {:induction false} NeverOutOfNodes(s: seq<Seg>, r: Request, g: Geometry)
    requires r.Valid() && g.Valid()
    ensures !Search(s, r, g, Unlimited).1.NoNode?
    decreases Total(s), |s|
  {
    if s != [] {
      var b, rest := s[0], s[1..];
      if !(b.free && Stored(s, g) >= r.total + g.header) {
        NeverOutOfNodes(rest, r, g);
      } else if MustSkip(b.start, r, g) {
        var at := g.header + Misfit(b.start, r, g);
        var cut := [Seg(b.start + at, b.len - at, true)] + rest;
        assert cut[1..] == rest;
        NeverOutOfNodes(cut, r, g);
      }
    }
  }

  // ---- List nodes

  /** Each split takes one node. A search is exactly that with unlimited nodes if there are enough for its
      splits, and otherwise fails for want of one. */
  lemma {:induction false} BudgetIff(s: seq<Seg>, r: Request, g: Geometry, left: nat)
    requires r.Valid() && g.Valid()
    ensures var (t, out) := Search(s, r, g, Unlimited);
      && |t| >= |s|
      && (if |t| - |s| <= left then Search(s, r, g, Nodes(left)) == (t, out)
          else Search(s, r, g, Nodes(left)).1 == NoNode)
    decreases Total(s), |s|
  {
    hide MustSkip, Misfit, Room;
    if s != [] {
      var b, rest := s[0], s[1..];
      if !(b.free && Stored(s, g) >= r.total + g.header) {
        BudgetIff(rest, r, g, left);
      } else if MustSkip(b.start, r, g) {
        var at := g.header + Misfit(b.start, r, g);
        StoredWithin(s, g);
        SkipWithin(b.start, r, g);
        var cut := [Seg(b.start + at, b.len - at, true)] + rest;
        assert cut[1..] == rest;
        BudgetIff(cut, r, g, if left > 0 then left - 1 else 0);
      }
    }
  }

  // ---- Whole runs

  datatype Op = Alloc(r: Request, budget: Budget) | Free(start: nat)

  function Apply(s: seq<Seg>, op: Op, g: Geometry): seq<Seg>
    requires g.Valid()
  {
    match op
    case Alloc(r, budget) => if r.Valid() then Search(s, r, g, budget).0 else s
    case Free(start) => Release(s, start)
  }

  function Run(s: seq<Seg>, ops: seq<Op>, g: Geometry): seq<Seg>
    requires g.Valid()
    decreases |ops|
  {
    if ops == [] then s else Run(Apply(s, ops[0], g), ops[1..], g)
  }

  /** After any run the blocks cover the heap exactly, so blocks in use are in bounds and disjoint. */
  lemma {:induction false} RunTiles(s: seq<Seg>, ops: seq<Op>, g: Geometry, size: nat)
    requires g.Valid() && Tiles(s, 0, size)
    ensures var t := Run(s, ops, g);
      && Tiles(t, 0, size)
      && (forall i :: 0 <= i < |t| ==> t[i].len > 0 && t[i].start + t[i].len <= size)
      && (forall i, j :: 0 <= i < j < |t| ==> t[i].start + t[i].len <= t[j].start)
    decreases |ops|
  {
    if ops == [] {
      TilesBounds(s, 0, size);
    } else {
      match ops[0]
      case Alloc(r, budget) => if r.Valid() { SearchSound(s, r, g, budget, 0, size); }
                               RunTiles(Apply(s, ops[0], g), ops[1..], g, size);
      case Free(start) => ReleaseSound(s, 0, size, start);
                          RunTiles(Apply(s, ops[0], g), ops[1..], g, size);
    }
  }

  /** A run that ends in a release and leaves nothing in use ends in the heap it started from. */
  lemma {:induction false} DrainedRunRestoresHeap(ops: seq<Op>, last: nat, g: Geometry, size: nat)
    requires g.Valid() && size > 0
    requires Used(Run([Seg(0, size, true)], ops + [Free(last)], g)) == []
    ensures Run([Seg(0, size, true)], ops + [Free(last)], g) == [Seg(0, size, true)]
  {
    var whole := [Seg(0, size, true)];
    assert Tiles(whole, 0, size) by { assert whole[1..] == []; }
    RunAppend(whole, ops, [Free(last)], g);
    var s := Run(whole, ops, g);
    assert Run(s, [Free(last)], g) == Release(s, last) by { assert [Free(last)][1..] == []; }
    RunTiles(whole, ops, g, size);
    ReleaseSound(s, 0, size, last);
    ReleaseLast(s, size, last);
  }

  lemma {:induction false} RunAppend(s: seq<Seg>, a: seq<Op>, b: seq<Op>, g: Geometry)
    requires g.Valid()
    ensures Run(s, a + b, g) == Run(Run(s, a, g), b, g)
    decreases |a|
  {
    if a == [] {
      assert a + b == b;
    } else {
      assert (a + b)[1..] == a[1..] + b;
      RunAppend(Apply(s, a[0], g), a[1..], b, g);
    }
  }
}
