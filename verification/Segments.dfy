/**
 * A heap seen as a list of adjacent segments. Both DMA heaps keep such a list: the host heap in
 * headers inside the heap, the CUDA heap in nodes outside it.
 *
 * The main result is `Canonical`: a list with no two neighbouring free segments is determined by
 * its used segments alone. Everything the heaps promise about giving memory back follows from it.
 */
module Segments {
  import opened Common


  /** `start` is an offset from the heap's base; `len` counts every byte up to the next segment. */
  datatype Seg = Seg(start: nat, len: nat, free: bool)

  /** The segments are adjacent and nonempty, and cover exactly [lo, hi). */
  ghost predicate Tiles(s: seq<Seg>, lo: nat, hi: nat) {
    if s == [] then lo == hi
    else s[0].start == lo && s[0].len > 0 && Tiles(s[1..], lo + s[0].len, hi)
  }

  ghost function Used(s: seq<Seg>): seq<Seg> {
    if s == [] then []
    else if s[0].free then Used(s[1..])
    else [s[0]] + Used(s[1..])
  }

  ghost predicate Coalesced(s: seq<Seg>) {
    forall i :: 0 <= i < |s| - 1 ==> !(s[i].free && s[i + 1].free)
  }

  /** One pass over the list that joins neighbouring free segments. */
  function Merge(s: seq<Seg>): seq<Seg>
    decreases |s|
  {
    if |s| < 2 then s
    else if s[0].free && s[1].free then Merge([Seg(s[0].start, s[0].len + s[1].len, true)] + s[2..])
    else [s[0]] + Merge(s[1..])
  }

  function MarkFree(s: seq<Seg>, start: nat): (r: seq<Seg>)
    ensures |r| == |s|
  {
    if s == [] then []
    else [if s[0].start == start then s[0].(free := true) else s[0]] + MarkFree(s[1..], start)
  }

  /** What freeing the segment at `start` leaves behind. */
  function Release(s: seq<Seg>, start: nat): seq<Seg> {
    Merge(MarkFree(s, start))
  }

  lemma {:induction false} TilesBounds(s: seq<Seg>, lo: nat, hi: nat)
    requires Tiles(s, lo, hi)
    ensures lo <= hi && (s != [] <==> lo < hi)
    ensures forall i :: 0 <= i < |s| ==> lo <= s[i].start && s[i].start + s[i].len <= hi && s[i].len > 0
    ensures forall i, j :: 0 <= i < j < |s| ==> s[i].start + s[i].len <= s[j].start
    ensures s != [] ==> s[|s| - 1].start + s[|s| - 1].len == hi
  {
    if s != [] { TilesBounds(s[1..], lo + s[0].len, hi); }
  }

  lemma TilesTail(s: seq<Seg>, lo: nat, hi: nat)
    requires Tiles(s, lo, hi) && s != []
    ensures s[0].start == lo && s[0].len > 0 && Tiles(s[1..], lo + s[0].len, hi)
  {
  }

  lemma TilesCons(x: Seg, rest: seq<Seg>, lo: nat, hi: nat)
    requires x.start == lo && x.len > 0 && Tiles(rest, lo + x.len, hi)
    ensures Tiles([x] + rest, lo, hi)
  {
    assert ([x] + rest)[1..] == rest;
  }

  lemma UsedCons(x: Seg, rest: seq<Seg>)
    ensures Used([x] + rest) == if x.free then Used(rest) else [x] + Used(rest)
  {
    assert ([x] + rest)[1..] == rest;
  }

  lemma {:induction false} TilesAppend(a: seq<Seg>, b: seq<Seg>, lo: nat, mid: nat, hi: nat)
    requires Tiles(a, lo, mid) && Tiles(b, mid, hi)
    ensures Tiles(a + b, lo, hi)
  {
    if a == [] {
      assert a + b == b;
    } else {
      TilesAppend(a[1..], b, lo + a[0].len, mid, hi);
      assert (a + b)[1..] == a[1..] + b;
    }
  }

  lemma {:induction false} TilesSplit(a: seq<Seg>, b: seq<Seg>, lo: nat, hi: nat) returns (mid: nat)
    requires Tiles(a + b, lo, hi)
    ensures Tiles(a, lo, mid) && Tiles(b, mid, hi)
  {
    if a == [] {
      assert a + b == b;
      mid := lo;
    } else {
      assert (a + b)[1..] == a[1..] + b;
      mid := TilesSplit(a[1..], b, lo + a[0].len, hi);
    }
  }

  lemma {:induction false} UsedAppend(a: seq<Seg>, b: seq<Seg>)
    ensures Used(a + b) == Used(a) + Used(b)
  {
    hide Used;
    if a == [] {
      UsedNone();
      assert [] + b == b;
      assert [] + Used(b) == Used(b);
    } else {
      var x, rest := a[0], a[1..];
      assert a == [x] + rest;
      UsedAppend(rest, b);
      UsedCons(x, rest);
      UsedCons(x, rest + b);
      Associate([x], rest, b);
      if !x.free { Associate([x], Used(rest), Used(b)); }
    }
  }

  lemma UsedNone()
    ensures Used([]) == []
  {
  }

  lemma {:induction false} UsedMembers(s: seq<Seg>)
    ensures forall x :: x in Used(s) <==> x in s && !x.free
  {
    if s != [] {
      UsedMembers(s[1..]);
      assert forall x :: x in s <==> x == s[0] || x in s[1..];
    }
  }

  /** Merging keeps the cover and the used segments, and leaves no two free neighbours. */
  lemma {:induction false} MergeSound(s: seq<Seg>, lo: nat, hi: nat)
    requires Tiles(s, lo, hi)
    ensures Tiles(Merge(s), lo, hi) && Used(Merge(s)) == Used(s) && Coalesced(Merge(s))
    ensures s != [] ==> Merge(s) != [] && Merge(s)[0].free == s[0].free
    decreases |s|
  {
    if |s| < 2 {
    } else if s[0].free && s[1].free {
      var joined := [Seg(s[0].start, s[0].len + s[1].len, true)] + s[2..];
      assert s[1..][1..] == s[2..] && joined[1..] == s[2..];
      MergeSound(joined, lo, hi);
    } else {
      MergeSound(s[1..], lo + s[0].len, hi);
      assert Merge(s)[1..] == Merge(s[1..]);
    }
  }

  lemma {:induction false} MergeFixpoint(s: seq<Seg>)
    requires Coalesced(s)
    ensures Merge(s) == s
  {
    if |s| >= 2 {
      assert !(s[0].free && s[0 + 1].free);
      assert Coalesced(s[1..]) by {
        forall i | 0 <= i < |s[1..]| - 1 ensures !(s[1..][i].free && s[1..][i + 1].free) {
          assert !(s[i + 1].free && s[i + 1 + 1].free);
        }
      }
      MergeFixpoint(s[1..]);
    }
  }

  lemma {:induction false} UsedBounds(s: seq<Seg>, lo: nat, hi: nat)
    requires Tiles(s, lo, hi)
    ensures forall x :: x in Used(s) ==> lo <= x.start && x.start + x.len <= hi
  {
    TilesBounds(s, lo, hi);
    UsedMembers(s);
  }

  /** Two coalesced covers of the same range with the same used segments are the same list. */
  lemma {:induction false} Canonical(a: seq<Seg>, b: seq<Seg>, lo: nat, hi: nat)
    requires Tiles(a, lo, hi) && Tiles(b, lo, hi)
    requires Coalesced(a) && Coalesced(b) && Used(a) == Used(b)
    ensures a == b
  {
    TilesBounds(a, lo, hi);
    TilesBounds(b, lo, hi);
    if a != [] {
      SameHead(a, b, lo, hi);
      var mid := lo + a[0].len;
      assert Used(a[1..]) == if a[0].free then Used(a) else Used(a)[1..];
      assert Used(b[1..]) == if b[0].free then Used(b) else Used(b)[1..];
      TailCoalesced(a);
      TailCoalesced(b);
      Canonical(a[1..], b[1..], mid, hi);
      assert a == [a[0]] + a[1..] && b == [b[0]] + b[1..];
    }
  }

  lemma TailCoalesced(s: seq<Seg>)
    requires s != [] && Coalesced(s)
    ensures Coalesced(s[1..])
  {
    forall i | 0 <= i < |s[1..]| - 1 ensures !(s[1..][i].free && s[1..][i + 1].free) {
      assert !(s[i + 1].free && s[i + 1 + 1].free);
    }
  }

  lemma {:induction false} SameHead(a: seq<Seg>, b: seq<Seg>, lo: nat, hi: nat)
    requires Tiles(a, lo, hi) && Tiles(b, lo, hi) && lo < hi
    requires Coalesced(a) && Coalesced(b) && Used(a) == Used(b)
    ensures a != [] && b != [] && a[0] == b[0]
  {
    TilesBounds(a, lo, hi);
    TilesBounds(b, lo, hi);
    UsedBounds(a[1..], lo + a[0].len, hi);
    UsedBounds(b[1..], lo + b[0].len, hi);
    if a[0].free && b[0].free {
      FreeHeadEnd(a, lo, hi);
      FreeHeadEnd(b, lo, hi);
    } else if a[0].free {
      assert false;
    } else if b[0].free {
      assert false;
    } else {
      assert Used(a)[0] == a[0] && Used(b)[0] == b[0];
    }
  }

  /** A leading free segment of a coalesced list reaches to the first used one, or to the end. */
  lemma FreeHeadEnd(a: seq<Seg>, lo: nat, hi: nat)
    requires Tiles(a, lo, hi) && Coalesced(a) && a != [] && a[0].free
    ensures lo + a[0].len == if Used(a) == [] then hi else Used(a)[0].start
  {
    if |a| >= 2 {
      assert !(a[0].free && a[0 + 1].free);
      assert a[1..][0] == a[1];
    }
  }

  lemma {:induction false} MarkFreeSound(s: seq<Seg>, lo: nat, hi: nat, at: nat)
    requires Tiles(s, lo, hi)
    ensures Tiles(MarkFree(s, at), lo, hi)
  {
    if s != [] {
      MarkFreeSound(s[1..], lo + s[0].len, hi, at);
      assert MarkFree(s, at)[1..] == MarkFree(s[1..], at);
    }
  }

  lemma {:induction false} MarkFreeAppend(a: seq<Seg>, b: seq<Seg>, at: nat)
    ensures MarkFree(a + b, at) == MarkFree(a, at) + MarkFree(b, at)
  {
    if a == [] {
      assert a + b == b;
    } else {
      MarkFreeAppend(a[1..], b, at);
      assert (a + b)[1..] == a[1..] + b;
      var head := if a[0].start == at then a[0].(free := true) else a[0];
      Associate([head], MarkFree(a[1..], at), MarkFree(b, at));
    }
  }

  lemma {:induction false} MarkFreeElsewhere(s: seq<Seg>, at: nat)
    requires forall x :: x in s ==> x.start != at
    ensures MarkFree(s, at) == s
  {
    if s != [] {
      assert s[0] in s;
      forall x | x in s[1..] ensures x.start != at { assert x in s; }
      MarkFreeElsewhere(s[1..], at);
    }
  }

  /** Removing one used segment from a cover, by its start. */
  lemma {:induction false} MarkFreeUsed(a: seq<Seg>, x: Seg, b: seq<Seg>, lo: nat, hi: nat)
    requires Tiles(a + [x] + b, lo, hi)
    ensures MarkFree(a + [x] + b, x.start) == a + [x.(free := true)] + b
    ensures Used(MarkFree(a + [x] + b, x.start)) == Used(a) + Used(b)
  {
    hide Tiles;
    OthersElsewhere(a, x, b, lo, hi);
    MarkFreeElsewhere(a, x.start);
    MarkFreeElsewhere(b, x.start);
    MarkFreeAppend(a + [x], b, x.start);
    MarkFreeAppend(a, [x], x.start);
    assert MarkFree([x], x.start) == [x.(free := true)];
    UsedAppend(a + [x.(free := true)], b);
    UsedAppend(a, [x.(free := true)]);
  }

  lemma OthersElsewhere(a: seq<Seg>, x: Seg, b: seq<Seg>, lo: nat, hi: nat)
    requires Tiles(a + [x] + b, lo, hi)
    ensures forall y :: y in a || y in b ==> y.start != x.start
  {
    hide Tiles;
    var s := a + [x] + b;
    TilesBounds(s, lo, hi);
    assert s[|a|] == x;
    forall y | y in a || y in b ensures y.start != x.start {
      if y in a {
        var i :| 0 <= i < |a| && a[i] == y;
        assert s[i] == y;
      } else {
        var i :| 0 <= i < |b| && b[i] == y;
        assert s[|a| + 1 + i] == y;
      }
    }
  }

  /** Releasing always leaves a coalesced cover, whatever the argument. */
  lemma ReleaseSound(s: seq<Seg>, lo: nat, hi: nat, at: nat)
    requires Tiles(s, lo, hi)
    ensures Tiles(Release(s, at), lo, hi) && Coalesced(Release(s, at))
    ensures Used(Release(s, at)) == Used(MarkFree(s, at))
  {
    MarkFreeSound(s, lo, hi, at);
    MergeSound(MarkFree(s, at), lo, hi);
  }

  /** With nothing in use, a release leaves the one segment the heap started with. */
  lemma ReleaseLast(s: seq<Seg>, size: nat, at: nat)
    requires size > 0 && Tiles(s, 0, size) && Used(MarkFree(s, at)) == []
    ensures Release(s, at) == [Seg(0, size, true)]
  {
    ReleaseSound(s, 0, size, at);
    var whole := [Seg(0, size, true)];
    assert Tiles(whole, 0, size) by { assert whole[1..] == []; }
    assert Used(whole) == [] by { assert whole[1..] == []; }
    Canonical(Release(s, at), whole, 0, size);
  }

  /** Cut segment `i` after `at` bytes; the rest is free. */
  function SplitAt(s: seq<Seg>, i: nat, at: nat): (t: seq<Seg>)
    requires i < |s| && at <= s[i].len
    ensures |t| == |s| + 1 && t[i] == s[i].(len := at)
    ensures t[i + 1] == Seg(s[i].start + at, s[i].len - at, true)
    ensures forall k :: 0 <= k < i ==> t[k] == s[k]
    ensures forall k :: i + 1 < k < |t| ==> t[k] == s[k - 1]
  {
    InsertAt(s[i := s[i].(len := at)], i + 1, Seg(s[i].start + at, s[i].len - at, true))
  }

  lemma {:induction false} SplitTiles(s: seq<Seg>, i: nat, at: nat, lo: nat, hi: nat)
    requires Tiles(s, lo, hi) && i < |s| && 0 < at < s[i].len
    ensures Tiles(SplitAt(s, i, at), lo, hi)
  {
    var t := SplitAt(s, i, at);
    if i == 0 {
      assert t[1..][1..] == s[1..];
    } else {
      SplitTiles(s[1..], i - 1, at, lo + s[0].len, hi);
      assert t[1..] == SplitAt(s[1..], i - 1, at);
    }
  }

  /** Let segment `i` absorb its successor. */
  function JoinAt(s: seq<Seg>, i: nat): (t: seq<Seg>)
    requires i + 1 < |s|
    ensures |t| == |s| - 1 && t[i] == Seg(s[i].start, s[i].len + s[i + 1].len, true)
    ensures forall k :: 0 <= k < i ==> t[k] == s[k]
    ensures forall k :: i < k < |t| ==> t[k] == s[k + 1]
  {
    RemoveAt(s[i := Seg(s[i].start, s[i].len + s[i + 1].len, true)], i + 1)
  }

  lemma {:induction false} JoinTiles(s: seq<Seg>, i: nat, lo: nat, hi: nat)
    requires Tiles(s, lo, hi) && i + 1 < |s|
    ensures Tiles(JoinAt(s, i), lo, hi)
  {
    var t := JoinAt(s, i);
    if i == 0 {
      assert t[1..] == s[1..][1..];
    } else {
      JoinTiles(s[1..], i - 1, lo + s[0].len, hi);
      assert t[1..] == JoinAt(s[1..], i - 1);
    }
  }

  lemma MergePair(b: Seg, n: Seg, tail: seq<Seg>)
    ensures var m := Merge([b] + ([n] + tail));
      if b.free && n.free then m == Merge([Seg(b.start, b.len + n.len, true)] + tail)
      else m == [b] + Merge([n] + tail)
  {
    var m := [b] + ([n] + tail);
    assert m[1..] == [n] + tail && m[2..] == tail && m[0] == b && m[1] == n;
  }

  lemma Associate<T>(a: seq<T>, b: seq<T>, c: seq<T>)
    ensures (a + b) + c == a + (b + c)
  {
  }

  lemma {:induction false} SetFlagTiles(s: seq<Seg>, i: nat, free: bool, lo: nat, hi: nat)
    requires Tiles(s, lo, hi) && i < |s|
    ensures Tiles(s[i := s[i].(free := free)], lo, hi)
  {
    var t := s[i := s[i].(free := free)];
    if i == 0 {
      assert t[1..] == s[1..];
    } else {
      SetFlagTiles(s[1..], i - 1, free, lo + s[0].len, hi);
      assert t[1..] == s[1..][i - 1 := s[i].(free := free)];
    }
  }

  // ---- The merging pass as a loop over the list sees it

  /** The pass resumed at block `i`, with the blocks already passed put back in front. */
  function MergeFrom(s: seq<Seg>, i: nat): seq<Seg>
    requires i <= |s|
  {
    s[..i] + Merge(s[i..])
  }

  lemma MergeFromStart(s: seq<Seg>)
    ensures MergeFrom(s, 0) == Merge(s)
  {
    assert s[0..] == s;
  }

  lemma MergeFromLast(s: seq<Seg>, i: nat)
    requires i + 1 == |s|
    ensures MergeFrom(s, i) == s
  {
  }

  lemma MergeFromJoin(s: seq<Seg>, i: nat)
    requires i + 1 < |s| && s[i].free && s[i + 1].free
    ensures MergeFrom(s, i) == MergeFrom(JoinAt(s, i), i)
  {
    var rest := s[i + 2..];
    assert s[i..] == [s[i]] + ([s[i + 1]] + rest);
    MergePair(s[i], s[i + 1], rest);
    assert JoinAt(s, i)[i..] == [Seg(s[i].start, s[i].len + s[i + 1].len, true)] + rest;
    assert JoinAt(s, i)[..i] == s[..i];
  }

  lemma MergeFromKeep(s: seq<Seg>, i: nat)
    requires i + 1 < |s| && !(s[i].free && s[i + 1].free)
    ensures MergeFrom(s, i) == MergeFrom(s, i + 1)
  {
    var rest := s[i + 2..];
    assert s[i..] == [s[i]] + ([s[i + 1]] + rest);
    MergePair(s[i], s[i + 1], rest);
    assert s[i + 1..] == [s[i + 1]] + rest && s[..i + 1] == s[..i] + [s[i]];
    Associate(s[..i], [s[i]], Merge(s[i + 1..]));
  }

  // ---- The blocks in use as a set

  ghost function Live(s: seq<Seg>): set<Seg> {
    set x | x in s && !x.free
  }

  lemma LiveIsUsed(s: seq<Seg>)
    ensures forall x :: x in Live(s) <==> x in Used(s)
  {
    UsedMembers(s);
  }

  /** Covers with the same set of blocks in use have the same list of them. */
  lemma {:induction false} SameLive(a: seq<Seg>, b: seq<Seg>, lo: nat, hi: nat)
    requires Tiles(a, lo, hi) && Tiles(b, lo, hi) && Live(a) == Live(b)
    ensures Used(a) == Used(b)
  {
    UsedSorted(a, lo, hi);
    UsedSorted(b, lo, hi);
    LiveIsUsed(a);
    LiveIsUsed(b);
    SortedUnique(Used(a), Used(b));
  }

  ghost predicate Sorted(u: seq<Seg>) {
    forall i, j :: 0 <= i < j < |u| ==> u[i].start < u[j].start
  }

  lemma {:induction false} UsedSorted(s: seq<Seg>, lo: nat, hi: nat)
    requires Tiles(s, lo, hi)
    ensures Sorted(Used(s))
  {
    if s != [] {
      UsedSorted(s[1..], lo + s[0].len, hi);
      UsedBounds(s[1..], lo + s[0].len, hi);
      assert forall i :: 0 <= i < |Used(s[1..])| ==> Used(s[1..])[i] in Used(s[1..]);
    }
  }

  lemma {:induction false} SortedUnique(a: seq<Seg>, b: seq<Seg>)
    requires Sorted(a) && Sorted(b) && forall x :: x in a <==> x in b
    ensures a == b
  {
    assert a != [] ==> a[0] in b;
    assert b != [] ==> b[0] in a;
    if a != [] {
      assert a[0] in b && b[0] in a;
      assert a[0] == b[0];
      forall x ensures x in a[1..] <==> x in b[1..] {
        if x in a[1..] { assert x in a && x != a[0]; }
        if x in b[1..] { assert x in b && x != b[0]; }
      }
      SortedUnique(a[1..], b[1..]);
      assert a == [a[0]] + a[1..] && b == [b[0]] + b[1..];
    }
  }

  /** Releasing a block in use removes exactly that block from the live set. */
  lemma {:induction false} MarkFreeLive(s: seq<Seg>, at: nat, x: Seg)
    ensures x in Live(MarkFree(s, at)) <==> x in Live(s) && x.start != at
  {
    if s != [] {
      MarkFreeLive(s[1..], at, x);
      assert MarkFree(s, at)[1..] == MarkFree(s[1..], at);
      assert x in s <==> x == s[0] || x in s[1..];
    }
  }

  /** Any address: the block that starts there, if it is live, and no other leaves the live set. */
  lemma ReleaseAny(s: seq<Seg>, at: nat, lo: nat, hi: nat, x: Seg)
    requires Tiles(s, lo, hi)
    ensures x in Live(Release(s, at)) <==> x in Live(s) && x.start != at
  {
    hide Tiles, Merge, MarkFree, Used, Live;
    ReleaseSound(s, lo, hi, at);
    LiveIsUsed(Release(s, at));
    LiveIsUsed(MarkFree(s, at));
    MarkFreeLive(s, at, x);
  }

  lemma ReleaseLive(s: seq<Seg>, x: Seg, lo: nat, hi: nat)
    requires Tiles(s, lo, hi) && x in Live(s)
    ensures Tiles(Release(s, x.start), lo, hi) && Coalesced(Release(s, x.start))
    ensures Live(Release(s, x.start)) == Live(s) - {x}
  {
    hide Tiles, Merge, MarkFree, Used;
    var i :| 0 <= i < |s| && s[i] == x;
    var a, b := s[..i], s[i + 1..];
    assert s == a + [x] + b;
    MarkFreeUsed(a, x, b, lo, hi);
    OthersElsewhere(a, x, b, lo, hi);
    ReleaseSound(s, lo, hi, x.start);
    LiveIsUsed(Release(s, x.start));
    UsedMembers(a);
    UsedMembers(b);
    forall y ensures y in Live(Release(s, x.start)) <==> y in Live(s) - {x} {
      assert y in s <==> y in a || y == x || y in b;
    }
  }
}
