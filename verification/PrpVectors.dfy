/**
 * PRP lists for scatter-gather buffers, and for buffers resolved through the mapping registry.
 */
module PrpVectors {
  import opened Arith
  import opened Bits
  import opened Common
  import opened Translate
  import opened Prp

  datatype Iov = Iov(base: nat, len: nat)

  function PageCount(nbytes: nat, page: nat): nat
    requires page > 0
  {
    PagesSpanned(0, nbytes, page)
  }

  /** The pages of one segment, by address. */
  ghost function SegmentPages(v: Iov, page: nat): (s: seq<nat>)
    requires page > 0
    ensures |s| == PageCount(v.len, page)
  {
    seq(PageCount(v.len, page), k requires k >= 0 => v.base + k * page)
  }

  /** The pages of all segments, in order: page 0 is PRP1, the rest go to the list. */
  ghost function AllPages(dvec: seq<Iov>, page: nat): seq<nat>
    requires page > 0
  {
    if dvec == [] then [] else AllPages(dvec[..|dvec| - 1], page) + SegmentPages(dvec[|dvec| - 1], page)
  }

  ghost function TotalBytes(dvec: seq<Iov>): nat {
    if dvec == [] then 0 else TotalBytes(dvec[..|dvec| - 1]) + dvec[|dvec| - 1].len
  }

  /** Page `k` of segment `i` is where the builder's loop puts it. */
  lemma {:induction false} PageIndex(dvec: seq<Iov>, page: nat, i: nat, k: nat)
    requires page > 0 && i < |dvec| && k < PageCount(dvec[i].len, page)
    ensures |AllPages(dvec[..i], page)| + k < |AllPages(dvec, page)|
    ensures AllPages(dvec, page)[|AllPages(dvec[..i], page)| + k] == dvec[i].base + k * page
  {
    var init := dvec[..|dvec| - 1];
    if i < |init| {
      PageIndex(init, page, i, k);
      assert init[..i] == dvec[..i];
    }
  }

  lemma {:induction false} PagesGrow(dvec: seq<Iov>, page: nat, i: nat)
    requires page > 0 && i < |dvec|
    ensures |AllPages(dvec[..i + 1], page)| == |AllPages(dvec[..i], page)| + PageCount(dvec[i].len, page)
    ensures TotalBytes(dvec[..i + 1]) == TotalBytes(dvec[..i]) + dvec[i].len
  {
    assert dvec[..i + 1][..i] == dvec[..i];
  }

  lemma {:induction false} PagesMonotone(dvec: seq<Iov>, page: nat, i: nat, j: nat)
    requires page > 0 && i <= j <= |dvec|
    ensures |AllPages(dvec[..i], page)| <= |AllPages(dvec[..j], page)|
    ensures TotalBytes(dvec[..i]) <= TotalBytes(dvec[..j])
  {
    if i < j {
      PagesMonotone(dvec, page, i, j - 1);
      PagesGrow(dvec, page, j - 1);
    }
  }

  /** What both builders leave in the command and the list. */
  ghost predicate Built(tr: Translation, pages: seq<nat>, prp1: nat, prp2: nat, list: seq<nat>, listAddr: nat) {
    && |pages| > 0 && |pages| - 1 <= |list| && tr(pages[0]) == Some(prp1)
    && (forall k :: 1 <= k < |pages| ==> tr(pages[k]) == Some(list[k - 1]))
    && (|pages| == 2 ==> prp2 == list[0])
    && (|pages| > 2 ==> prp2 == listAddr)
  }

  /** Every segment that is followed by data is a whole number of pages. */
  ghost predicate Packed(dvec: seq<Iov>, page: nat)
    requires page > 0
  {
    forall i, j :: 0 <= i < j < |dvec| && dvec[j].len > 0 ==> dvec[i].len % page == 0
  }

  /** The controller's byte for offset `d` of segment `j` is that segment's byte. */
  ghost predicate ByteOk(tr: Translation, dvec: seq<Iov>, prp1: nat, prp2: nat, lists: map<nat, seq<nat>>,
                         page: nat, j: nat, d: nat)
    requires page > 0 && j < |dvec|
  {
    var at := tr(dvec[j].base + d);
    at.Some? && Decode(prp1, prp2, lists, TotalBytes(dvec), page, TotalBytes(dvec[..j]) + d) == at
  }

  ghost predicate CoversVector(tr: Translation, dvec: seq<Iov>, prp1: nat, prp2: nat,
                               lists: map<nat, seq<nat>>, page: nat)
    requires page > 0
  {
    forall j: nat, d: nat :: j < |dvec| && d < dvec[j].len ==> ByteOk(tr, dvec, prp1, prp2, lists, page, j, d)
  }

  /** At least one segment, all of them starting on page boundaries. */
  ghost predicate Vector(dvec: seq<Iov>, page: nat)
    requires page > 0
  {
    |dvec| > 0 && forall i :: 0 <= i < |dvec| ==> dvec[i].base % page == 0
  }

  /** What the caller of the iovec builders must see to: packed, and no empty segment before all data. */
  ghost predicate Transferable(dvec: seq<Iov>, page: nat)
    requires page > 0 && |dvec| > 0
  {
    Packed(dvec, page) && (dvec[0].len > 0 || TotalBytes(dvec) == 0)
  }

  /** An empty first segment shares its frame with the start of no segment that holds data. */
  ghost predicate FirstFrameApart(tr: Translation, dvec: seq<Iov>)
    requires |dvec| > 0
  {
    dvec[0].len == 0 ==> forall j :: 0 < j < |dvec| && dvec[j].len > 0 ==> tr(dvec[j].base) != tr(dvec[0].base)
  }

  lemma {:induction false} WholePagesBefore(dvec: seq<Iov>, page: nat, j: nat)
    requires page > 0 && j <= |dvec| && forall i :: 0 <= i < j ==> dvec[i].len % page == 0
    ensures TotalBytes(dvec[..j]) == page * |AllPages(dvec[..j], page)|
  {
    if j > 0 {
      WholePagesBefore(dvec, page, j - 1);
      PagesGrow(dvec, page, j - 1);
      WholeStep(|AllPages(dvec[..j - 1], page)|, dvec[j - 1].len, page);
    }
  }

  lemma WholeStep(c: nat, len: nat, page: nat)
    requires page > 0 && len % page == 0
    ensures page * c + len == page * (c + PageCount(len, page))
  {
    assert len == page * (len / page);
    DivModUnique(len + page - 1, page, len / page, page - 1);
    assert page * (c + len / page) == page * c + page * (len / page);
  }

  /** Trailing empty segments add nothing. */
  lemma {:induction false} EmptyTail(dvec: seq<Iov>, page: nat, j: nat)
    requires page > 0 && j <= |dvec| && forall i :: j <= i < |dvec| ==> dvec[i].len == 0
    ensures TotalBytes(dvec) == TotalBytes(dvec[..j]) && |AllPages(dvec, page)| == |AllPages(dvec[..j], page)|
  {
    if j < |dvec| {
      var init := dvec[..|dvec| - 1];
      EmptyTail(init, page, j);
      assert init[..j] == dvec[..j];
      DivModUnique(page - 1, page, 0, page - 1);
    } else {
      assert dvec[..j] == dvec;
    }
  }

  lemma {:induction false} LastData(dvec: seq<Iov>, from: nat) returns (j: nat)
    requires from < |dvec| && dvec[from].len > 0
    ensures from <= j < |dvec| && dvec[j].len > 0 && forall i :: j < i < |dvec| ==> dvec[i].len == 0
    decreases |dvec| - from
  {
    j := from;
    if exists i :: from < i < |dvec| && dvec[i].len > 0 {
      var i :| from < i < |dvec| && dvec[i].len > 0;
      j := LastData(dvec, i);
    }
  }

  /** A packed vector spans as many pages as the controller computes from its length. */
  lemma {:induction false} PackedPageCount(dvec: seq<Iov>, page: nat, data: nat)
    requires page > 0 && Packed(dvec, page) && data < |dvec| && dvec[data].len > 0
    ensures |AllPages(dvec, page)| == PageCount(TotalBytes(dvec), page)
  {
    var j := LastData(dvec, data);
    WholePagesBefore(dvec, page, j);
    EmptyTail(dvec, page, j + 1);
    PagesGrow(dvec, page, j);
    var c, len := |AllPages(dvec[..j], page)|, dvec[j].len;
    AddMultiple(len + page - 1, page, c);
  }

  lemma {:induction false} PagesAligned(dvec: seq<Iov>, page: nat)
    requires page > 0 && forall i :: 0 <= i < |dvec| ==> dvec[i].base % page == 0
    ensures forall k :: 0 <= k < |AllPages(dvec, page)| ==> AllPages(dvec, page)[k] % page == 0
  {
    if dvec != [] {
      var init, last := dvec[..|dvec| - 1], dvec[|dvec| - 1];
      PagesAligned(init, page);
      forall k: nat | k < PageCount(last.len, page) ensures (last.base + k * page) % page == 0 {
        AlignedStep(last.base, page, k);
      }
    }
  }

  lemma AlignedStep(base: nat, page: nat, k: nat)
    requires page > 0 && base % page == 0
    ensures (base + k * page) % page == 0
  {
    assert k * page == page * k;
    AddMultiple(base, page, k);
  }

  lemma WholeBefore(dvec: seq<Iov>, page: nat, j: nat)
    requires page > 0 && Packed(dvec, page) && j < |dvec| && dvec[j].len > 0
    ensures forall i :: 0 <= i < j ==> dvec[i].len % page == 0
  {
  }

  /** Where byte `d` of segment `j` sits in the transfer. */
  lemma {:induction false} SegmentByte(dvec: seq<Iov>, page: nat, j: nat, d: nat)
    requires page > 0 && Packed(dvec, page) && j < |dvec| && d < dvec[j].len
    ensures var at, c := TotalBytes(dvec[..j]) + d, |AllPages(dvec[..j], page)|;
      && at < TotalBytes(dvec)
      && at / page == c + d / page && at % page == d % page
      && 0 <= d / page && c + d / page < |AllPages(dvec, page)|
      && AllPages(dvec, page)[c + d / page] == dvec[j].base + (d / page) * page
      && d == (d / page) * page + d % page
  {
    hide AllPages, TotalBytes, Packed;
    assert forall i :: 0 <= i < j ==> dvec[i].len % page == 0 by { WholeBefore(dvec, page, j); }
    WholePagesBefore(dvec, page, j);
    AddMultiple(d, page, |AllPages(dvec[..j], page)|);
    PageOfByte(0, dvec[j].len, page, d);
    PageIndex(dvec, page, j, d / page);
    PagesGrow(dvec, page, j);
    PagesMonotone(dvec, page, j + 1, |dvec|);
    assert dvec[..|dvec|] == dvec;
    assert page * (d / page) == (d / page) * page;
  }

  /** A command that describes the frames of a packed vector's pages reaches every byte of its segments. */
  lemma {:induction false} FramesCover(tr: Translation, dvec: seq<Iov>, frames: seq<nat>, prp1: nat, prp2: nat,
                                       list: seq<nat>, listAddr: nat, page: nat)
    requires page > 0 && PageLinear(tr, page) && Vector(dvec, page) && Packed(dvec, page)
    requires |frames| == |AllPages(dvec, page)| == PagesSpanned(0, TotalBytes(dvec), page)
    requires forall k: nat :: k < |frames| ==> tr(AllPages(dvec, page)[k]) == Some(frames[k])
    requires Describes(prp1, prp2, list, listAddr, 0, frames, page)
    ensures CoversVector(tr, dvec, prp1, prp2, OneList(listAddr, list), page)
  {
    hide Decode, AllPages, TotalBytes, PagesSpanned, Packed, PageLinear, Describes, Vector;
    forall j: nat, d: nat | j < |dvec| && d < dvec[j].len
      ensures ByteOk(tr, dvec, prp1, prp2, OneList(listAddr, list), page, j, d)
    {
      var at := TotalBytes(dvec[..j]) + d;
      SegmentTarget(tr, dvec, frames, page, j, d);
      assert 0 + at == at;
      DecodeDescribed(prp1, prp2, list, listAddr, 0, frames, page, TotalBytes(dvec), at);
    }
  }

  /** The segments' bytes, if every segment followed by data is whole pages. */
  lemma PackedCovers(tr: Translation, dvec: seq<Iov>, prp1: nat, prp2: nat, list: seq<nat>, listAddr: nat, page: nat)
    requires page > 0 && PageLinear(tr, page) && Vector(dvec, page) && dvec[0].len > 0 && Packed(dvec, page)
    requires Built(tr, AllPages(dvec, page), prp1, prp2, list, listAddr)
    requires |AllPages(dvec, page)| - 1 <= page / ENTRY_BYTES
    ensures CoversVector(tr, dvec, prp1, prp2, OneList(listAddr, list), page)
  {
    hide AllPages, TotalBytes, PagesSpanned, Packed, PageLinear, Describes, Built, CoversVector;
    var frames := BuiltFrames(tr, dvec, prp1, prp2, list, listAddr, page);
    FramesCover(tr, dvec, frames, prp1, prp2, list, listAddr, page);
  }

  /** The frames of a packed vector's pages, as the command and the list describe them. */
  lemma BuiltFrames(tr: Translation, dvec: seq<Iov>, prp1: nat, prp2: nat, list: seq<nat>,
                    listAddr: nat, page: nat) returns (frames: seq<nat>)
    requires page > 0 && PageLinear(tr, page) && Vector(dvec, page) && dvec[0].len > 0 && Packed(dvec, page)
    requires Built(tr, AllPages(dvec, page), prp1, prp2, list, listAddr)
    requires |AllPages(dvec, page)| - 1 <= page / ENTRY_BYTES
    ensures |frames| == |AllPages(dvec, page)| == PagesSpanned(0, TotalBytes(dvec), page)
    ensures forall k: nat :: k < |frames| ==> tr(AllPages(dvec, page)[k]) == Some(frames[k])
    ensures Describes(prp1, prp2, list, listAddr, 0, frames, page)
  {
    hide AllPages, TotalBytes, PagesSpanned, Packed, PageLinear, Describes;
    var vpages := AllPages(dvec, page);
    frames := seq(|vpages|, k requires 0 <= k < |vpages| => if k == 0 then prp1 else list[k - 1]);
    PagesAligned(dvec, page);
    forall k: nat | k < |frames| ensures frames[k] % page == 0 && tr(vpages[k]) == Some(frames[k]) {
      AlignedTranslation(tr, page, vpages[k]);
    }
    PackedPageCount(dvec, page, 0);
    DescribedBy(prp1, prp2, list, listAddr, 0, frames, page);
  }

  /** Where byte `d` of segment `j` is, by the frame that its place in the transfer selects. */
  lemma SegmentTarget(tr: Translation, dvec: seq<Iov>, frames: seq<nat>, page: nat, j: nat, d: nat)
    requires page > 0 && PageLinear(tr, page) && Vector(dvec, page) && Packed(dvec, page)
    requires |frames| == |AllPages(dvec, page)|
    requires forall k: nat :: k < |frames| ==> tr(AllPages(dvec, page)[k]) == Some(frames[k])
    requires j < |dvec| && d < dvec[j].len
    ensures var at := TotalBytes(dvec[..j]) + d;
      && at < TotalBytes(dvec) && 0 <= at / page < |frames|
      && tr(dvec[j].base + d) == Some(frames[at / page] + at % page)
  {
    hide AllPages, TotalBytes, Packed, PageLinear;
    SegmentByte(dvec, page, j, d);
    SegmentOffset(tr, page, dvec[j].base, d);
  }

  lemma AlignedTranslation(tr: Translation, page: nat, va: nat)
    requires page > 0 && PageLinear(tr, page) && va % page == 0 && tr(va).Some?
    ensures tr(va).value % page == 0
  {
    assert LinearAt(tr, page, va, 0);
  }

  lemma SegmentOffset(tr: Translation, page: nat, base: nat, d: nat)
    requires page > 0 && PageLinear(tr, page) && base % page == 0
    ensures (d / page) * page >= 0
    ensures var page0 := tr(base + (d / page) * page);
      page0.Some? ==> tr(base + d) == Some(page0.value + d % page)
  {
    assert d == page * (d / page) + d % page && page * (d / page) == (d / page) * page;
    DivMonotone(0, d, page);
    AlignedStep(base, page, d / page);
    assert LinearAt(tr, page, base + (d / page) * page, d % page);
  }

  /** Whatever the list holds, a decoded byte keeps its offset within the page. */
  lemma DecodeResidue(prp1: nat, prp2: nat, lists: map<nat, seq<nat>>, nbytes: nat, page: nat, b: nat)
    requires page > 0 && prp1 % page == 0
    ensures var x := Decode(prp1, prp2, lists, nbytes, page, b);
      x.Some? ==> x.value % page == b % page
  {
    assert b == page * (b / page) + b % page;
    var x := Decode(prp1, prp2, lists, nbytes, page, b);
    if x.Some? {
      if b / page == 0 {
        AlignedPlus(prp1, b, page);
      } else if PagesSpanned(0, nbytes, page) == 2 {
        AlignedPlus(prp2, b % page, page);
      } else {
        AlignedPlus(lists[prp2][b / page - 1], b % page, page);
      }
    }
  }

  lemma AlignedPlus(e: nat, r: nat, page: nat)
    requires page > 0 && e % page == 0 && r < page
    ensures (e + r) % page == r
  {
    assert e == page * (e / page);
    DivModUnique(e + r, page, e / page, r);
  }

  /** If a segment followed by data is not whole pages, the byte after it goes astray. */
  lemma {:induction false} UnpackedMisses(tr: Translation, dvec: seq<Iov>, prp1: nat, prp2: nat,
                                          lists: map<nat, seq<nat>>, page: nat) returns (j: nat)
    requires page > 0 && PageLinear(tr, page) && Vector(dvec, page) && !Packed(dvec, page) && prp1 % page == 0
    ensures j < |dvec| && dvec[j].len > 0 && !ByteOk(tr, dvec, prp1, prp2, lists, page, j, 0)
  {
    hide Decode, AllPages, PagesSpanned;
    var i: nat :| i < |dvec| && dvec[i].len % page != 0 && exists j :: i < j < |dvec| && dvec[j].len > 0;
    i := FirstRagged(dvec, page, i);
    j := NextData(dvec, i);
    WholePagesBefore(dvec, page, i);
    PagesGrow(dvec, page, i);
    EmptyTail(dvec[..j], page, i + 1);
    assert dvec[..j][..i + 1] == dvec[..i + 1];
    var b := TotalBytes(dvec[..j]) + 0;
    AddMultiple(dvec[i].len, page, |AllPages(dvec[..i], page)|);
    DecodeResidue(prp1, prp2, lists, TotalBytes(dvec), page, b);
    assert LinearAt(tr, page, dvec[j].base, 0);
  }

  lemma {:induction false} FirstRagged(dvec: seq<Iov>, page: nat, i: nat) returns (k: nat)
    requires page > 0 && i < |dvec| && dvec[i].len % page != 0
    ensures k <= i && dvec[k].len % page != 0 && forall m :: 0 <= m < k ==> dvec[m].len % page == 0
  {
    k := i;
    if exists m: nat :: m < i && dvec[m].len % page != 0 {
      var m: nat :| m < i && dvec[m].len % page != 0;
      k := FirstRagged(dvec, page, m);
    }
  }

  lemma {:induction false} NextData(dvec: seq<Iov>, i: nat) returns (j: nat)
    requires i < |dvec| && exists j :: i < j < |dvec| && dvec[j].len > 0
    ensures i < j < |dvec| && dvec[j].len > 0 && forall m :: i < m < j ==> dvec[m].len == 0
    decreases |dvec| - i
  {
    if dvec[i + 1].len > 0 {
      j := i + 1;
    } else {
      j := NextData(dvec, i + 1);
    }
  }

  /** PRP1 always takes the first segment's first page, even of an empty segment. */
  ghost function Effective(dvec: seq<Iov>): seq<Iov>
    requires |dvec| > 0
  {
    if dvec[0].len == 0 then dvec[0 := dvec[0].(len := 1)] else dvec
  }

  lemma {:induction false} NoData(dvec: seq<Iov>)
    ensures TotalBytes(dvec) == 0 <==> forall i :: 0 <= i < |dvec| ==> dvec[i].len == 0
  {
    if dvec != [] { NoData(dvec[..|dvec| - 1]); }
  }

  /** An empty first segment followed by data: PRP1 is its page, and the first byte of data goes astray. */
  lemma EmptyFirstMisses(tr: Translation, dvec: seq<Iov>, prp1: nat, prp2: nat,
                         lists: map<nat, seq<nat>>, page: nat) returns (j: nat)
    requires page > 0 && Vector(dvec, page) && dvec[0].len == 0 && TotalBytes(dvec) > 0
    requires FirstFrameApart(tr, dvec) && tr(dvec[0].base) == Some(prp1) && prp1 % page == 0
    ensures j < |dvec| && dvec[j].len > 0 && !ByteOk(tr, dvec, prp1, prp2, lists, page, j, 0)
  {
    hide TotalBytes, PagesSpanned, AllPages;
    NoData(dvec);
    j := NextData(dvec, 0);
    NoData(dvec[..j]);
    DecodeFirst(prp1, prp2, lists, TotalBytes(dvec), page);
  }

  lemma DecodeFirst(prp1: nat, prp2: nat, lists: map<nat, seq<nat>>, nbytes: nat, page: nat)
    requires page > 0 && prp1 % page == 0
    ensures Decode(prp1, prp2, lists, nbytes, page, 0) == Some(prp1)
  {
    DivModUnique(0, page, 0, 0);
  }

  /** The frame of the first page is aligned, like the page. */
  lemma FirstEntryAligned(tr: Translation, dvec: seq<Iov>, prp1: nat, page: nat)
    requires page > 0 && PageLinear(tr, page) && Vector(dvec, page)
    requires var pages := AllPages(Effective(dvec), page); |pages| > 0 && tr(pages[0]) == Some(prp1)
    ensures prp1 % page == 0 && tr(dvec[0].base) == Some(prp1)
  {
    hide AllPages, PageLinear, PageCount;
    FirstPage(Effective(dvec), page);
    AlignedTranslation(tr, page, dvec[0].base);
  }

  /**
   * An empty first segment puts its own page before the `P` pages of data, so PRP1 and the list are one
   * page late. That is harmless only if the frames coincide: the first page of data is in the frame of
   * the empty segment; a second and last one is in the list page itself, where PRP2 points; and three or
   * more are all in one frame.
   */
  ghost predicate FramesCoincide(tr: Translation, dvec: seq<Iov>, listAddr: nat, page: nat)
    requires page > 0 && |dvec| > 0
  {
    var pages := AllPages(dvec, page);
    && (|pages| > 0 ==> tr(pages[0]) == tr(dvec[0].base))
    && (|pages| == 2 ==> tr(pages[1]) == Some(listAddr))
    && (|pages| > 2 ==> forall k :: 1 <= k < |pages| ==> tr(pages[k]) == tr(pages[k - 1]))
  }

  /** What makes the built list right, whatever the frames: Transferable; otherwise coinciding frames. */
  ghost predicate Describable(tr: Translation, dvec: seq<Iov>, listAddr: nat, page: nat)
    requires page > 0 && |dvec| > 0
  {
    Transferable(dvec, page) || (Packed(dvec, page) && FramesCoincide(tr, dvec, listAddr, page))
  }

  /** The builder's pages for an empty first segment: its own, then those of the data. */
  lemma {:induction false} EmptyFirstPages(dvec: seq<Iov>, page: nat)
    requires page > 0 && |dvec| > 0 && dvec[0].len == 0
    ensures AllPages(Effective(dvec), page) == [dvec[0].base] + AllPages(dvec, page)
  {
    var init, eff := dvec[..|dvec| - 1], Effective(dvec);
    DivModUnique(page - 1, page, 0, page - 1);
    if |dvec| == 1 {
      DivModUnique(page, page, 1, 0);
      assert eff[..0] == [] && init == [];
      assert SegmentPages(eff[0], page) == [dvec[0].base];
    } else {
      EmptyFirstPages(init, page);
      assert eff[..|eff| - 1] == Effective(init);
    }
  }

  /** Page `k` of a vector is page `i` of its segment `j`. */
  lemma {:induction false} PageOrigin(dvec: seq<Iov>, page: nat, k: nat) returns (j: nat, i: nat)
    requires page > 0 && k < |AllPages(dvec, page)|
    ensures j < |dvec| && i < PageCount(dvec[j].len, page) && k == |AllPages(dvec[..j], page)| + i
  {
    var init := dvec[..|dvec| - 1];
    if k < |AllPages(init, page)| {
      j, i := PageOrigin(init, page, k);
      assert init[..j] == dvec[..j];
    } else {
      j, i := |dvec| - 1, k - |AllPages(init, page)|;
    }
  }

  /** If the segments' bytes are covered, the first byte of each page of data is. */
  lemma {:induction false} CoveredPage(tr: Translation, dvec: seq<Iov>, prp1: nat, prp2: nat,
                                       lists: map<nat, seq<nat>>, page: nat, k: nat)
    requires page > 0 && Packed(dvec, page) && CoversVector(tr, dvec, prp1, prp2, lists, page)
    requires k < |AllPages(dvec, page)|
    ensures page * k >= 0 && tr(AllPages(dvec, page)[k]).Some?
    ensures Decode(prp1, prp2, lists, TotalBytes(dvec), page, page * k) == tr(AllPages(dvec, page)[k])
  {
    hide Decode, AllPages, TotalBytes, Packed, PageCount;
    var j, i := PageOrigin(dvec, page, k);
    CountIff(dvec[j].len, page, i);
    var d: nat := i * page;
    assert d == page * i;
    Multiple(page, i);
    SegmentByte(dvec, page, j, d);
    assert ByteOk(tr, dvec, prp1, prp2, lists, page, j, d);
    var at := TotalBytes(dvec[..j]) + d;
    assert at == page * (at / page) + at % page;
  }

  /** The entry the controller uses for the first byte of page `k`. */
  lemma DecodePageStart(prp1: nat, prp2: nat, lists: map<nat, seq<nat>>, nbytes: nat, page: nat, k: nat)
    requires page > 0 && prp1 % page == 0 && page * k >= 0
    ensures var n, x := PagesSpanned(0, nbytes, page), Decode(prp1, prp2, lists, nbytes, page, page * k);
      && (k == 0 ==> x == Some(prp1))
      && (k > 0 && n == 2 && x.Some? ==> x == Some(prp2))
      && (k > 0 && n != 2 && x.Some? ==> prp2 in lists && k - 1 < |lists[prp2]| && x == Some(lists[prp2][k - 1]))
  {
    hide PagesSpanned;
    Multiple(page, k);
    assert 0 + page * k == page * k;
  }

  /** Covered behind an empty first segment: the frames coincide. */
  lemma {:induction false} CoveredCoincide(tr: Translation, dvec: seq<Iov>, prp1: nat, prp2: nat, list: seq<nat>,
                                           listAddr: nat, page: nat)
    requires page > 0 && Packed(dvec, page) && |dvec| > 0 && dvec[0].len == 0 && TotalBytes(dvec) > 0
    requires tr(dvec[0].base) == Some(prp1) && prp1 % page == 0
    requires Built(tr, AllPages(Effective(dvec), page), prp1, prp2, list, listAddr)
    requires CoversVector(tr, dvec, prp1, prp2, OneList(listAddr, list), page)
    ensures FramesCoincide(tr, dvec, listAddr, page)
  {
    hide Decode, AllPages, TotalBytes, Packed, CoversVector, PagesSpanned;
    var pages := AllPages(dvec, page);
    EmptyFirstPages(dvec, page);
    DataPageCount(dvec, page);
    if |pages| > 0 { CoveredEntry(tr, dvec, pages, prp1, prp2, list, listAddr, page, 0); }
    if |pages| == 2 { CoveredEntry(tr, dvec, pages, prp1, prp2, list, listAddr, page, 1); }
    if |pages| > 2 {
      forall k: nat | 1 <= k < |pages| ensures tr(pages[k]) == tr(pages[k - 1]) {
        CoveredEntry(tr, dvec, pages, prp1, prp2, list, listAddr, page, k);
      }
    }
  }

  /** What the entry that the controller uses for page `k` says about the frame of that page. */
  lemma CoveredEntry(tr: Translation, dvec: seq<Iov>, pages: seq<nat>, prp1: nat, prp2: nat, list: seq<nat>,
                     listAddr: nat, page: nat, k: nat)
    requires page > 0 && Packed(dvec, page) && |dvec| > 0 && pages == AllPages(dvec, page) && k < |pages|
    requires |pages| == PagesSpanned(0, TotalBytes(dvec), page) && prp1 % page == 0
    requires Built(tr, [dvec[0].base] + pages, prp1, prp2, list, listAddr)
    requires CoversVector(tr, dvec, prp1, prp2, OneList(listAddr, list), page)
    ensures k == 0 ==> tr(pages[0]) == Some(prp1)
    ensures k > 0 && |pages| == 2 ==> tr(pages[k]) == Some(listAddr)
    ensures k > 0 && |pages| > 2 ==> tr(pages[k]) == tr(pages[k - 1])
  {
    hide Decode, AllPages, TotalBytes, Packed, CoversVector, PagesSpanned;
    CoveredPage(tr, dvec, prp1, prp2, OneList(listAddr, list), page, k);
    DecodePageStart(prp1, prp2, OneList(listAddr, list), TotalBytes(dvec), page, k);
    if k > 0 { assert tr(([dvec[0].base] + pages)[k]) == Some(list[k - 1]); }
  }

  lemma DataPageCount(dvec: seq<Iov>, page: nat)
    requires page > 0 && Packed(dvec, page) && TotalBytes(dvec) > 0
    ensures |AllPages(dvec, page)| == PagesSpanned(0, TotalBytes(dvec), page) > 0
  {
    hide AllPages, TotalBytes, Packed;
    NoData(dvec);
    var data: nat :| data < |dvec| && dvec[data].len > 0;
    PackedPageCount(dvec, page, data);
    CountIff(TotalBytes(dvec), page, 0);
  }

  /** Coinciding frames behind an empty first segment: the data is covered all the same. */
  lemma {:induction false} CoincideCovers(tr: Translation, dvec: seq<Iov>, prp1: nat, prp2: nat, list: seq<nat>,
                                          listAddr: nat, page: nat)
    requires page > 0 && PageLinear(tr, page) && Vector(dvec, page) && Packed(dvec, page)
    requires dvec[0].len == 0 && TotalBytes(dvec) > 0 && tr(dvec[0].base) == Some(prp1)
    requires Built(tr, AllPages(Effective(dvec), page), prp1, prp2, list, listAddr)
    requires |AllPages(Effective(dvec), page)| - 1 <= page / ENTRY_BYTES
    requires FramesCoincide(tr, dvec, listAddr, page)
    ensures CoversVector(tr, dvec, prp1, prp2, OneList(listAddr, list), page)
  {
    hide AllPages, TotalBytes, Packed, CoversVector, PagesSpanned, PageLinear, Describes;
    var pages := AllPages(dvec, page);
    EmptyFirstPages(dvec, page);
    DataPageCount(dvec, page);
    PagesAligned(dvec, page);
    var frames := seq(|pages|, k requires 0 <= k < |pages| => list[k]);
    forall k: nat | k < |frames| ensures frames[k] % page == 0 && tr(pages[k]) == Some(frames[k]) {
      assert tr(([dvec[0].base] + pages)[k + 1]) == Some(list[k]);
      AlignedTranslation(tr, page, pages[k]);
    }
    if |pages| > 2 {
      forall k: nat | 1 <= k < |pages| ensures frames[k] == list[k - 1] {
        assert tr(pages[k]) == tr(pages[k - 1]);
      }
    }
    DescribedBy(prp1, prp2, list, listAddr, 0, frames, page);
    FramesCover(tr, dvec, frames, prp1, prp2, list, listAddr, page);
  }

  /** Exactly when the built list describes the segments' bytes. */
  lemma CoversIff(tr: Translation, dvec: seq<Iov>, prp1: nat, prp2: nat, list: seq<nat>, listAddr: nat, page: nat)
    requires page > 0 && PageLinear(tr, page) && Vector(dvec, page)
    requires Built(tr, AllPages(Effective(dvec), page), prp1, prp2, list, listAddr)
    requires |AllPages(Effective(dvec), page)| - 1 <= page / ENTRY_BYTES
    ensures CoversVector(tr, dvec, prp1, prp2, OneList(listAddr, list), page) <==> Describable(tr, dvec, listAddr, page)
  {
    hide AllPages, PageLinear, TotalBytes, ByteOk, FramesCoincide, Built;
    assert prp1 % page == 0 && tr(dvec[0].base) == Some(prp1) by {
      assert var pages := AllPages(Effective(dvec), page); |pages| > 0 && tr(pages[0]) == Some(prp1) by {
        BuiltFirst(tr, AllPages(Effective(dvec), page), prp1, prp2, list, listAddr);
      }
      FirstEntryAligned(tr, dvec, prp1, page);
    }
    NoData(dvec);
    if !Packed(dvec, page) {
      var j := UnpackedMisses(tr, dvec, prp1, prp2, OneList(listAddr, list), page);
      assert !ByteOk(tr, dvec, prp1, prp2, OneList(listAddr, list), page, j, 0);
    } else if dvec[0].len > 0 {
      PackedCovers(tr, dvec, prp1, prp2, list, listAddr, page);
    } else if TotalBytes(dvec) > 0 {
      hide CoversVector;
      if FramesCoincide(tr, dvec, listAddr, page) {
        CoincideCovers(tr, dvec, prp1, prp2, list, listAddr, page);
      } else if CoversVector(tr, dvec, prp1, prp2, OneList(listAddr, list), page) {
        CoveredCoincide(tr, dvec, prp1, prp2, list, listAddr, page);
      }
    }
  }

  lemma BuiltFirst(tr: Translation, pages: seq<nat>, prp1: nat, prp2: nat, list: seq<nat>, listAddr: nat)
    requires Built(tr, pages, prp1, prp2, list, listAddr)
    ensures |pages| > 0 && tr(pages[0]) == Some(prp1)
  {
  }

  /** The smallest such input: an empty segment, then one page of data in another frame. */
  lemma EmptyThenPageMisses(tr: Translation, a: nat, b: nat, prp1: nat, prp2: nat, list: seq<nat>,
                            listAddr: nat, page: nat)
    requires page > 0 && PageLinear(tr, page) && a % page == 0 && b % page == 0
    requires tr(a).Some? && tr(b).Some? && tr(a) != tr(b) && 1 <= page / ENTRY_BYTES
    requires var dvec := [Iov(a, 0), Iov(b, page)];
      Built(tr, AllPages(Effective(dvec), page), prp1, prp2, list, listAddr)
    ensures var dvec := [Iov(a, 0), Iov(b, page)];
      Packed(dvec, page) && !CoversVector(tr, dvec, prp1, prp2, OneList(listAddr, list), page)
  {
    hide AllPages, PageLinear, Decode;
    var dvec := [Iov(a, 0), Iov(b, page)];
    FirstEntryAligned(tr, dvec, prp1, page);
    DivModUnique(0, page, 0, 0);
    NoData(dvec);
    assert dvec[1].len > 0;
    var j := EmptyFirstMisses(tr, dvec, prp1, prp2, OneList(listAddr, list), page);
    assert !ByteOk(tr, dvec, prp1, prp2, OneList(listAddr, list), page, j, 0);
  }

  // ---- The builders

  lemma {:induction false} CountIff(len: nat, page: nat, j: nat)
    requires page > 0
    ensures j * page < len <==> j < PageCount(len, page)
  {
    var n := PageCount(len, page);
    var top := len + page - 1;
    assert top == page * n + top % page && page * n == n * page;
    if j < n {
      MulMonotone(j + 1, n, page);
      assert (j + 1) * page == j * page + page;
    } else {
      MulMonotone(n, j, page);
    }
  }

  /** List entries `[idx0, idx0 + n - j0)` hold pages `[j0, n)` of the segment at `base`. */
  ghost predicate SegmentListed(tr: Translation, list: seq<nat>, idx0: nat, base: nat, j0: nat, n: nat, page: nat)
    requires j0 <= n && idx0 + n - j0 <= |list|
  {
    forall k: nat :: j0 <= k < n ==> EntryIs(tr, list, idx0 + k - j0, base + k * page)
  }

  ghost predicate EntryIs(tr: Translation, list: seq<nat>, at: nat, va: nat)
    requires at < |list|
  {
    tr(va) == Some(list[at])
  }

  function Less(remaining: nat, pagesize: nat): nat {
    if remaining > pagesize then remaining - pagesize else 0
  }

  /** The first `idx` list entries are pages 1 to `idx` of the vector. */
  ghost predicate ListedTo(tr: Translation, list: seq<nat>, pages: seq<nat>, idx: nat) {
    idx < |pages| && idx <= |list| && forall k: nat :: 1 <= k <= idx ==> EntryIs(tr, list, k - 1, pages[k])
  }

  /** Listing one more segment. `skip` is 1 for the first segment, whose first page is PRP1. */
  lemma {:induction false} ListedMore(tr: Translation, before: seq<nat>, list: seq<nat>, eff: seq<Iov>,
                                      page: nat, i: nat, skip: nat, idx: nat)
    requires page > 0 && i < |eff| && skip == (if i == 0 then 1 else 0) && |list| == |before|
    requires eff[0].len > 0 && idx - skip == |AllPages(eff[..i], page)| - 1
    requires i > 0 ==> ListedTo(tr, before, AllPages(eff, page), idx)
    requires forall m :: 0 <= m < idx <= |list| ==> list[m] == before[m]
    requires skip <= PageCount(eff[i].len, page) && idx + PageCount(eff[i].len, page) - skip <= |list|
    requires SegmentListed(tr, list, idx, eff[i].base, skip, PageCount(eff[i].len, page), page)
    ensures ListedTo(tr, list, AllPages(eff, page), idx + PageCount(eff[i].len, page) - skip)
    ensures idx + PageCount(eff[i].len, page) - skip == |AllPages(eff[..i + 1], page)| - 1
  {
    hide AllPages, PagesSpanned;
    var pages, c, n := AllPages(eff, page), |AllPages(eff[..i], page)|, PageCount(eff[i].len, page);
    SegmentStart(eff, page, i);
    PagesGrow(eff, page, i);
    PagesMonotone(eff, page, i + 1, |eff|);
    assert eff[..|eff|] == eff;
    forall k: nat | 1 <= k <= idx + n - skip ensures EntryIs(tr, list, k - 1, pages[k]) {
      if k <= idx {
        assert EntryIs(tr, before, k - 1, pages[k]);
      } else {
        PageIndex(eff, page, i, k - c);
        assert EntryIs(tr, list, idx + (k - c) - skip, eff[i].base + (k - c) * page);
      }
    }
  }

  /** From the full list to what the command says. */
  lemma BuiltFromList(tr: Translation, list: seq<nat>, pages: seq<nat>, prp1: nat, prp2: nat, listAddr: nat)
    requires |pages| > 0 && ListedTo(tr, list, pages, |pages| - 1) && tr(pages[0]) == Some(prp1)
    requires |pages| == 2 ==> prp2 == list[0]
    requires |pages| > 2 ==> prp2 == listAddr
    ensures Built(tr, pages, prp1, prp2, list, listAddr)
  {
    forall k: nat | 1 <= k < |pages| ensures tr(pages[k]) == Some(list[k - 1]) {
      assert EntryIs(tr, list, k - 1, pages[k]);
    }
  }

  ghost predicate Resolved(tr: Translation, pages: seq<nat>) {
    forall k :: 0 <= k < |pages| ==> tr(pages[k]).Some?
  }

  /** nvme_request_prep_command_prps_iov, and its CUDA twin: the caller guarantees that all fits. */
  method PrepIov(req: Request, v: View, dvec: seq<Iov>, cmd: DataPointer)
    requires v.Valid() && |dvec| > 0 && req.prp.Length == v.Page() / ENTRY_BYTES
    requires var pages := AllPages(Effective(dvec), v.Page());
      Resolved(HeapTranslation(v), pages) && |pages| - 1 <= req.prp.Length
    modifies cmd`prp1, cmd`prp2, req.prp
    ensures var pages := AllPages(Effective(dvec), v.Page());
      && Built(HeapTranslation(v), pages, cmd.prp1, cmd.prp2, req.prp[..], req.prpAddr)
      && (|pages| == 1 ==> cmd.prp2 == old(cmd.prp2))
    ensures Vector(dvec, v.Page()) ==>
      (CoversVector(HeapTranslation(v), dvec, cmd.prp1, cmd.prp2, OneList(req.prpAddr, req.prp[..]), v.Page())
       <==> Describable(HeapTranslation(v), dvec, req.prpAddr, v.Page()))
  {
    hide AllPages, PagesSpanned, V2p, Resolved, Built, ListedTo, SegmentListed, CoversVector, Describable, Vector;
    var pagesize := v.Page();
    ghost var tr, eff := HeapTranslation(v), Effective(dvec);
    ghost var pages := AllPages(eff, pagesize);
    FirstPage(eff, pagesize);
    ResolvedAt(tr, pages, 0);
    cmd.prp1 := V2p(v, dvec[0].base);
    var prpIdx: nat := 0;
    for i := 0 to |dvec|
      invariant i == 0 ==> prpIdx == 0
      invariant tr(pages[0]) == Some(cmd.prp1) && cmd.prp2 == old(cmd.prp2)
      invariant i > 0 ==> prpIdx == |AllPages(eff[..i], pagesize)| - 1 && ListedTo(tr, req.prp[..], pages, prpIdx)
    {
      SegmentStart(eff, pagesize, i);
      ghost var before := req.prp[..];
      var idx := HeapSegment(req.prp, v, dvec[i].base, dvec[i].len, if i == 0 then 1 else 0, prpIdx,
                             PageCount(eff[i].len, pagesize), eff, i);
      ListedMore(tr, before, req.prp[..], eff, pagesize, i, if i == 0 then 1 else 0, prpIdx);
      prpIdx := idx;
    }
    assert eff[..|dvec|] == eff;
    if prpIdx == 1 {
      cmd.prp2 := req.prp[0];
    } else if prpIdx > 1 {
      cmd.prp2 := req.prpAddr;
    }
    BuiltFromList(tr, req.prp[..], pages, cmd.prp1, cmd.prp2, req.prpAddr);
    if Vector(dvec, pagesize) {
      HeapIsPageLinear(v);
      CoversIff(tr, dvec, cmd.prp1, cmd.prp2, req.prp[..], req.prpAddr, pagesize);
    }
  }

  /** One segment of the unchecked builders. */
  method HeapSegment(prpList: array<nat>, v: View, base: nat, len: nat, skip: nat, prpIdx: nat, ghost n: nat,
                     ghost eff: seq<Iov>, ghost i: nat) returns (idx: nat)
    requires skip <= 1 && i < |eff| && eff[i].base == base && skip <= n
    requires eff[i].len == (if skip == 1 && len == 0 then 1 else len) && n == PageCount(eff[i].len, v.Page())
    requires prpIdx + n - skip <= prpList.Length && Resolved(HeapTranslation(v), AllPages(eff, v.Page()))
    modifies prpList
    ensures idx == prpIdx + n - skip
    ensures SegmentListed(HeapTranslation(v), prpList[..], prpIdx, base, skip, n, v.Page())
    ensures forall m :: 0 <= m < prpIdx ==> prpList[m] == old(prpList[m])
  {
    hide AllPages, PagesSpanned, V2p;
    var pagesize := v.Page();
    ghost var tr, full := HeapTranslation(v), eff[i].len;
    ghost var j := skip;
    idx := prpIdx;
    var offset := skip * pagesize;
    var remaining := if skip == 1 then Less(len, pagesize) else len;
    CountIff(full, pagesize, j);
    while remaining > 0
      invariant skip <= j <= n && offset == j * pagesize && idx == prpIdx + j - skip
      invariant remaining == if offset < full then full - offset else 0
      invariant SegmentListed(tr, prpList[..], prpIdx, base, skip, j, pagesize)
      invariant forall m :: 0 <= m < prpIdx ==> prpList[m] == old(prpList[m])
      decreases n - j
    {
      CountIff(full, pagesize, j);
      PageIndex(eff, pagesize, i, j);
      ResolvedAt(tr, AllPages(eff, pagesize), |AllPages(eff[..i], pagesize)| + j);
      ghost var before := prpList[..];
      prpList[idx] := V2p(v, base + offset);
      ListEntry(tr, before, prpList[..], prpIdx, base, skip, j, pagesize);
      idx := idx + 1;
      j := j + 1;
      Previous(j, pagesize);
      offset := offset + pagesize;
      remaining := Less(remaining, pagesize);
    }
    CountIff(full, pagesize, j);
  }

  lemma ListEntry(tr: Translation, before: seq<nat>, list: seq<nat>, idx0: nat, base: nat, j0: nat, j: nat, page: nat)
    requires j0 <= j && idx0 + j - j0 < |list| == |before|
    requires SegmentListed(tr, before, idx0, base, j0, j, page)
    requires list == before[idx0 + j - j0 := list[idx0 + j - j0]]
    requires EntryIs(tr, list, idx0 + j - j0, base + j * page)
    ensures SegmentListed(tr, list, idx0, base, j0, j + 1, page)
  {
    forall k: nat | j0 <= k < j + 1 ensures EntryIs(tr, list, idx0 + k - j0, base + k * page) {
      if k < j { assert EntryIs(tr, before, idx0 + k - j0, base + k * page); }
    }
  }

  lemma ResolvedAt(tr: Translation, pages: seq<nat>, k: nat)
    requires Resolved(tr, pages) && k < |pages|
    ensures tr(pages[k]).Some?
  {
  }

  lemma FirstPage(eff: seq<Iov>, page: nat)
    requires page > 0 && |eff| > 0 && eff[0].len > 0
    ensures |AllPages(eff, page)| > 0 && AllPages(eff, page)[0] == eff[0].base
    ensures PageCount(eff[0].len, page) > 0
  {
    CountIff(eff[0].len, page, 0);
    PageIndex(eff, page, 0, 0);
  }

  /** Where the list stands before segment `i`, and that the segment still fits if all do. */
  lemma NoPagesBefore(eff: seq<Iov>, page: nat)
    requires page > 0
    ensures AllPages(eff[..0], page) == []
  {
  }

  lemma SegmentStart(eff: seq<Iov>, page: nat, i: nat)
    requires page > 0 && i < |eff| && eff[0].len > 0
    ensures |AllPages(eff[..i], page)| + PageCount(eff[i].len, page) <= |AllPages(eff, page)|
    ensures i == 0 ==> |AllPages(eff[..i], page)| == 0 && PageCount(eff[0].len, page) > 0
    ensures i > 0 ==> |AllPages(eff[..i], page)| > 0
  {
    hide PageCount, AllPages;
    CountIff(eff[0].len, page, 0);
    NoPagesBefore(eff, page);
    PagesGrow(eff, page, i);
    PagesMonotone(eff, page, i + 1, |eff|);
    assert eff[..|eff|] == eff;
    if i > 0 {
      PagesGrow(eff, page, 0);
      PagesMonotone(eff, page, 1, i);
    }
  }

  /**
   * nvme_request_prep_command_prps_iov_cuda_mapped: rejects an empty vector, an unresolved page
   * and a list longer than the list page, and nothing else.
   */
  method PrepIovMapped(req: Request, lut: array<nat>, shift: nat, pageShift: nat, dvec: seq<Iov>, cmd: DataPointer)
    returns (err: Errno)
    requires req.prp != lut && req.prp.Length == Pow2(pageShift) / ENTRY_BYTES
    requires forall i :: 0 <= i < |dvec| ==> dvec[i].base % Pow2(pageShift) == 0
    modifies cmd`prp1, cmd`prp2, req.prp
    ensures lut[..] == old(lut[..])
    ensures var tr, page := ChunkTranslation(lut[..], shift), Pow2(pageShift);
      err == Ok <==> |dvec| > 0 && Resolved(tr, AllPages(Effective(dvec), page))
                     && |AllPages(Effective(dvec), page)| - 1 <= page / ENTRY_BYTES
    ensures var tr, page := ChunkTranslation(lut[..], shift), Pow2(pageShift);
      err == Ok ==> Built(tr, AllPages(Effective(dvec), page), cmd.prp1, cmd.prp2, req.prp[..], req.prpAddr)
    ensures var tr, page := ChunkTranslation(lut[..], shift), Pow2(pageShift);
      err == Ok && PageLinear(tr, page) ==>
      (CoversVector(tr, dvec, cmd.prp1, cmd.prp2, OneList(req.prpAddr, req.prp[..]), page)
       <==> Describable(tr, dvec, req.prpAddr, page))
  {
    hide AllPages, PageCount, PagesSpanned, ChunkLookup, Resolved, Built, ListedTo, SegmentListed, CoversVector,
      Describable, PageLinear, Pow2;
    if |dvec| == 0 { return EINVAL; }
    var pagesize: nat := Pow2(pageShift);
    ghost var table := lut[..];
    ghost var tr, eff := ChunkTranslation(table, shift), Effective(dvec);
    ghost var pages := AllPages(eff, pagesize);
    FirstPage(eff, pagesize);
    var prpIdx: nat := 0;
    var i := 0;
    while i < |dvec|
      invariant i <= |dvec| && lut[..] == table && prpIdx <= req.prp.Length
      invariant i == 0 ==> prpIdx == 0
      invariant i > 0 ==> tr(pages[0]) == Some(cmd.prp1)
      invariant i > 0 ==> prpIdx == |AllPages(eff[..i], pagesize)| - 1 && ListedTo(tr, req.prp[..], pages, prpIdx)
    {
      SegmentStart(eff, pagesize, i);
      if i == 0 {
        var first := ChunkLookup(lut[..], shift, dvec[0].base);
        if first.None? {
          Unresolved(tr, pages, 0);
          return EINVAL;
        }
        cmd.prp1 := first.value;
      }
      ghost var before, n := req.prp[..], PageCount(eff[i].len, pagesize);
      var e, idx := MappedSegment(req.prp, lut, shift, dvec[i].base, dvec[i].len, if i == 0 then 1 else 0,
                                  pagesize, prpIdx, eff[i].len);
      if e != Ok {
        RejectedSegment(tr, eff, pagesize, i, if i == 0 then 1 else 0, prpIdx, req.prp.Length);
        return EINVAL;
      }
      ListedMore(tr, before, req.prp[..], eff, pagesize, i, if i == 0 then 1 else 0, prpIdx);
      prpIdx := idx;
      i := i + 1;
    }
    assert eff[..|dvec|] == eff;
    if prpIdx == 1 {
      cmd.prp2 := req.prp[0];
    } else if prpIdx > 1 {
      cmd.prp2 := req.prpAddr;
    }
    AllListed(tr, req.prp[..], pages, cmd.prp1);
    BuiltFromList(tr, req.prp[..], pages, cmd.prp1, cmd.prp2, req.prpAddr);
    if PageLinear(tr, pagesize) {
      CoversIff(tr, dvec, cmd.prp1, cmd.prp2, req.prp[..], req.prpAddr, pagesize);
    }
    return Ok;
  }

  lemma Unresolved(tr: Translation, pages: seq<nat>, k: nat)
    requires k < |pages| && tr(pages[k]).None?
    ensures !Resolved(tr, pages)
  {
  }

  lemma AllListed(tr: Translation, list: seq<nat>, pages: seq<nat>, prp1: nat)
    requires |pages| > 0 && ListedTo(tr, list, pages, |pages| - 1) && tr(pages[0]) == Some(prp1)
    ensures Resolved(tr, pages)
  {
    forall k: nat | k < |pages| ensures tr(pages[k]).Some? {
      if k > 0 { assert EntryIs(tr, list, k - 1, pages[k]); }
    }
  }

  /** A rejected segment means that the vector as a whole is unresolved or too long. */
  lemma RejectedSegment(tr: Translation, eff: seq<Iov>, page: nat, i: nat, skip: nat, idx: nat, cap: nat)
    requires page > 0 && i < |eff| && idx - skip == |AllPages(eff[..i], page)| - 1
    requires var n := PageCount(eff[i].len, page);
      idx + n - skip > cap || exists k: nat :: skip <= k < n && tr(eff[i].base + k * page).None?
    ensures !Resolved(tr, AllPages(eff, page)) || |AllPages(eff, page)| - 1 > cap
  {
    hide AllPages, PageCount;
    var n := PageCount(eff[i].len, page);
    if idx + n - skip > cap {
      PagesGrow(eff, page, i);
      PagesMonotone(eff, page, i + 1, |eff|);
      assert eff[..|eff|] == eff;
    } else {
      var k: nat :| skip <= k < n && tr(eff[i].base + k * page).None?;
      PageIndex(eff, page, i, k);
    }
  }

  /**
   * One segment of the checked builder: it stops at the end of the list page, or at a page outside
   * every registered chunk.
   */
  method MappedSegment(prpList: array<nat>, lut: array<nat>, shift: nat, base: nat, len: nat, skip: nat,
                       pagesize: nat, prpIdx: nat, ghost full: nat) returns (err: Errno, idx: nat)
    requires pagesize > 0 && prpIdx <= prpList.Length && skip <= 1 && skip <= PageCount(full, pagesize)
    requires full == (if skip == 1 && len == 0 then 1 else len) && prpList != lut
    modifies prpList
    ensures lut[..] == old(lut[..])
    ensures var tr, n := ChunkTranslation(lut[..], shift), PageCount(full, pagesize);
      && (err == Ok <==> prpIdx + n - skip <= prpList.Length
                         && forall k: nat :: skip <= k < n ==> tr(base + k * pagesize).Some?)
      && (err == Ok ==> idx == prpIdx + n - skip
                        && SegmentListed(tr, prpList[..], prpIdx, base, skip, n, pagesize))
    ensures forall m :: 0 <= m < prpIdx ==> prpList[m] == old(prpList[m])
  {
    hide ChunkLookup, PagesSpanned;
    ghost var tr, n := ChunkTranslation(lut[..], shift), PageCount(full, pagesize);
    ghost var j := skip;
    idx := prpIdx;
    var offset := skip * pagesize;
    var remaining := if skip == 1 then Less(len, pagesize) else len;
    CountIff(full, pagesize, j);
    while remaining > 0
      invariant skip <= j <= n && offset == j * pagesize && idx == prpIdx + j - skip <= prpList.Length
      invariant remaining == if offset < full then full - offset else 0
      invariant lut[..] == old(lut[..])
      invariant forall k: nat :: skip <= k < j ==> tr(base + k * pagesize).Some?
      invariant SegmentListed(tr, prpList[..], prpIdx, base, skip, j, pagesize)
      invariant forall m :: 0 <= m < prpIdx ==> prpList[m] == old(prpList[m])
      decreases n - j
    {
      CountIff(full, pagesize, j);
      if idx >= prpList.Length { return EINVAL, idx; }
      var phys := ChunkLookup(lut[..], shift, base + offset);
      if phys.None? {
        assert tr(base + j * pagesize).None?;
        return EINVAL, idx;
      }
      ghost var before := prpList[..];
      prpList[idx] := phys.value;
      ListEntry(tr, before, prpList[..], prpIdx, base, skip, j, pagesize);
      idx := idx + 1;
      j := j + 1;
      Previous(j, pagesize);
      offset := offset + pagesize;
      remaining := Less(remaining, pagesize);
    }
    CountIff(full, pagesize, j);
    return Ok, idx;
  }

  // ---- A contiguous buffer resolved through the registry

  /** The controller's byte `b` is the buffer's byte `b`. */
  ghost predicate BufferByteOk(tr: Translation, dbuf: nat, nbytes: nat, prp1: nat, prp2: nat,
                               lists: map<nat, seq<nat>>, page: nat, b: nat)
    requires page > 0
  {
    tr(dbuf + b).Some? && Decode(prp1, prp2, lists, nbytes, page, b) == tr(dbuf + b)
  }

  ghost predicate CoversBuffer(tr: Translation, dbuf: nat, nbytes: nat, prp1: nat, prp2: nat,
                               lists: map<nat, seq<nat>>, page: nat)
    requires page > 0
  {
    forall b: nat :: b < nbytes ==> BufferByteOk(tr, dbuf, nbytes, prp1, prp2, lists, page, b)
  }

  /** Pages 1 to `n - 1` of the buffer whose first frame is `vbase` are mapped. */
  ghost predicate Mapped(tr: Translation, vbase: nat, n: nat, page: nat) {
    forall k: nat :: 1 <= k < n ==> tr(vbase + k * page).Some?
  }

  /** nvme_request_prep_command_prps_contig_cuda_mapped. */
  method PrepContigMapped(req: Request, lut: array<nat>, shift: nat, pageShift: nat, dbuf: nat, nbytes: nat,
                          cmd: DataPointer)
    returns (err: Errno)
    requires req.prp != lut && req.prp.Length == Pow2(pageShift) / ENTRY_BYTES
    modifies cmd`prp1, cmd`prp2, req.prp
    ensures lut[..] == old(lut[..]) && dbuf % Pow2(pageShift) <= dbuf
    ensures var tr, page := ChunkTranslation(lut[..], shift), Pow2(pageShift);
      var n := PagesSpanned(dbuf % page, nbytes, page);
      err == Ok <==> n <= 1 + page / ENTRY_BYTES && tr(dbuf).Some? && Mapped(tr, dbuf - dbuf % page, n, page)
    ensures var tr, page := ChunkTranslation(lut[..], shift), Pow2(pageShift);
      err == Ok && PageLinear(tr, page) ==>
        CoversBuffer(tr, dbuf, nbytes, cmd.prp1, cmd.prp2, OneList(req.prpAddr, req.prp[..]), page)
  {
    hide PagesSpanned, ChunkLookup, CoversBuffer, PageLinear, ListHolds, Pow2, And, Shr;
    var pagesize: nat := Pow2(pageShift);
    var prpCap := pagesize / ENTRY_BYTES;
    MaskIsRemainder(dbuf, pageShift);
    FloorMultiple(dbuf, pagesize);
    var pageOff := And(dbuf, pagesize - 1);
    var pageBase := dbuf - pageOff;
    ShiftIsSpan(pageOff, nbytes, pageShift);
    var npages := Shr(pageOff + nbytes + pagesize - 1, pageShift);
    ghost var table := lut[..];
    ghost var tr := ChunkTranslation(table, shift);
    if npages > 1 + prpCap { return EINVAL; }
    var first := ChunkLookup(lut[..], shift, dbuf);
    if first.None? { return EINVAL; }
    cmd.prp1 := first.value;
    if npages == 1 {
      BufferCovered(tr, dbuf, nbytes, cmd.prp1, cmd.prp2, req.prp[..], req.prpAddr, pagesize);
      return Ok;
    }
    if npages == 2 {
      var second := ChunkLookup(lut[..], shift, pageBase + pagesize);
      assert 1 * pagesize == pagesize;
      if second.None? { return EINVAL; }
      cmd.prp2 := second.value;
      BufferCovered(tr, dbuf, nbytes, cmd.prp1, cmd.prp2, req.prp[..], req.prpAddr, pagesize);
      return Ok;
    }
    cmd.prp2 := req.prpAddr;
    var ok := FillMapped(req.prp, lut, shift, pageShift, pageBase, npages);
    if !ok { return EINVAL; }
    BufferCovered(tr, dbuf, nbytes, cmd.prp1, cmd.prp2, req.prp[..], req.prpAddr, pagesize);
    return Ok;
  }

  /** Entries `0` to `n - 2` hold the translations of pages 1 to `n - 1`. */
  ghost predicate ListHolds(tr: Translation, list: seq<nat>, vbase: nat, n: nat, page: nat) {
    forall k: nat :: 1 <= k < n && k - 1 < |list| ==> EntryIs(tr, list, k - 1, vbase + k * page)
  }

  lemma ListGrows(tr: Translation, before: seq<nat>, list: seq<nat>, vbase: nat, i: nat, page: nat)
    requires ListHolds(tr, before, vbase, i, page) && 1 <= i <= |before|
    requires |list| == |before| && list == before[i - 1 := list[i - 1]]
    requires i * page >= 0 && tr(vbase + i * page) == Some(list[i - 1])
    ensures ListHolds(tr, list, vbase, i + 1, page)
  {
    forall k: nat | 1 <= k < i + 1 && k - 1 < |list| ensures EntryIs(tr, list, k - 1, vbase + k * page) {
      if k < i { assert EntryIs(tr, before, k - 1, vbase + k * page); }
    }
  }

  /** The list loop of the mapped builder; it stops at the first page that is not mapped. */
  method FillMapped(prpList: array<nat>, lut: array<nat>, shift: nat, pageShift: nat, pageBase: nat, npages: nat)
    returns (ok: bool)
    requires prpList != lut && npages <= prpList.Length + 1
    modifies prpList
    ensures lut[..] == old(lut[..])
    ensures ok <==> Mapped(ChunkTranslation(lut[..], shift), pageBase, npages, Pow2(pageShift))
    ensures ok ==> ListHolds(ChunkTranslation(lut[..], shift), prpList[..], pageBase, npages, Pow2(pageShift))
  {
    hide ChunkLookup, Pow2, ListHolds;
    ghost var table, tr, page := lut[..], ChunkTranslation(lut[..], shift), Pow2(pageShift);
    var i := 1;
    ListStart(tr, prpList[..], pageBase, page);
    while i < npages
      invariant 1 <= i && (npages > 0 ==> i <= npages) && lut[..] == table
      invariant Mapped(tr, pageBase, i, page)
      invariant ListHolds(tr, prpList[..], pageBase, i, page)
    {
      var va := pageBase + Shl(i, pageShift);
      var entry := ChunkLookup(lut[..], shift, va);
      assert tr(pageBase + i * page) == entry;
      if entry.None? { return false; }
      ghost var before := prpList[..];
      prpList[i - 1] := entry.value;
      ListGrows(tr, before, prpList[..], pageBase, i, page);
      i := i + 1;
    }
    if npages == 0 { NoPages(tr, prpList[..], pageBase, page); }
    return true;
  }

  lemma ListStart(tr: Translation, list: seq<nat>, vbase: nat, page: nat)
    ensures ListHolds(tr, list, vbase, 1, page)
  {
  }

  lemma NoPages(tr: Translation, list: seq<nat>, vbase: nat, page: nat)
    ensures ListHolds(tr, list, vbase, 0, page)
  {
  }

  lemma ShiftIsSpan(offset: nat, nbytes: nat, pageShift: nat)
    ensures Shr(offset + nbytes + Pow2(pageShift) - 1, pageShift) == PagesSpanned(offset, nbytes, Pow2(pageShift))
  {
  }

  lemma {:induction false} BufferCovered(tr: Translation, dbuf: nat, nbytes: nat, prp1: nat, prp2: nat, list: seq<nat>,
                                         listAddr: nat, page: nat)
    requires page > 0 && |list| == page / ENTRY_BYTES && dbuf % page <= dbuf && tr(dbuf) == Some(prp1)
    requires var n, vbase := PagesSpanned(dbuf % page, nbytes, page), dbuf - dbuf % page;
      && n <= 1 + page / ENTRY_BYTES
      && (n == 2 ==> tr(vbase + page) == Some(prp2))
      && (n > 2 ==> prp2 == listAddr)
      && (n > 2 ==> ListHolds(tr, list, vbase, n, page))
    ensures PageLinear(tr, page) ==> CoversBuffer(tr, dbuf, nbytes, prp1, prp2, OneList(listAddr, list), page)
  {
    hide Decode, PagesSpanned, PageLinear, Describes, ListHolds;
    if PageLinear(tr, page) && nbytes > 0 {
      var off := dbuf % page;
      var pages := BufferPageFrames(tr, dbuf, nbytes, prp1, prp2, list, listAddr, page);
      forall b: nat | b < nbytes ensures BufferByteOk(tr, dbuf, nbytes, prp1, prp2, OneList(listAddr, list), page, b) {
        DecodeDescribed(prp1, prp2, list, listAddr, off, pages, page, nbytes, b);
        PageOfByte(off, nbytes, page, b);
        DivMonotone(0, off + b, page);
        ByteOfPage(tr, page, dbuf, prp1 - off, pages[(off + b) / page], b);
      }
    }
  }

  /** The frames of a buffer's pages, as the command and the list describe them. */
  lemma BufferPageFrames(tr: Translation, dbuf: nat, nbytes: nat, prp1: nat, prp2: nat, list: seq<nat>,
                         listAddr: nat, page: nat) returns (pages: seq<nat>)
    requires page > 0 && |list| == page / ENTRY_BYTES && dbuf % page <= dbuf && tr(dbuf) == Some(prp1)
    requires PageLinear(tr, page) && nbytes > 0
    requires var n, vbase := PagesSpanned(dbuf % page, nbytes, page), dbuf - dbuf % page;
      && n <= 1 + page / ENTRY_BYTES
      && (n == 2 ==> tr(vbase + page) == Some(prp2))
      && (n > 2 ==> prp2 == listAddr)
      && (n > 2 ==> ListHolds(tr, list, vbase, n, page))
    ensures |pages| == PagesSpanned(dbuf % page, nbytes, page) > 0 && prp1 == pages[0] + dbuf % page
    ensures forall k: nat :: 1 <= k < |pages| ==> PageIs(tr, dbuf - dbuf % page, page, k, pages[k])
    ensures (dbuf - dbuf % page) % page == 0
    ensures Describes(prp1, prp2, list, listAddr, dbuf % page, pages, page)
  {
    hide PagesSpanned, PageLinear, Describes, ListHolds;
    var n, off := PagesSpanned(dbuf % page, nbytes, page), dbuf % page;
    var vbase := dbuf - off;
    FirstFrame(tr, page, dbuf, prp1);
    PageOfByte(off, nbytes, page, 0);
    pages := seq(n, k requires 0 <= k < n =>
      if k == 0 then prp1 - off else if n == 2 then prp2 else list[k - 1]);
    forall k: nat | 1 <= k < n ensures pages[k] % page == 0 && PageIs(tr, vbase, page, k, pages[k]) {
      LaterFrame(tr, page, vbase, n, k, prp2, list);
    }
    DescribedBy(prp1, prp2, list, listAddr, off, pages, page);
  }

  ghost predicate PageIs(tr: Translation, vbase: nat, page: nat, k: nat, phys: nat) {
    k * page >= 0 && tr(vbase + k * page) == Some(phys)
  }

  lemma DescribedBy(prp1: nat, prp2: nat, list: seq<nat>, listAddr: nat, offset: nat, pages: seq<nat>, page: nat)
    requires page > 0 && |pages| > 0 && offset < page && prp1 == pages[0] + offset
    requires forall k: nat :: k < |pages| ==> pages[k] % page == 0
    requires |pages| == 2 ==> prp2 == pages[1]
    requires |pages| > 2 ==>
      prp2 == listAddr && |pages| - 1 <= page / ENTRY_BYTES && |pages| - 1 <= |list|
      && forall k: nat :: 1 <= k < |pages| ==> pages[k] == list[k - 1]
    ensures Describes(prp1, prp2, list, listAddr, offset, pages, page)
  {
  }

  /** Page `k` of the buffer is what PRP2 or the list says. */
  lemma LaterFrame(tr: Translation, page: nat, vbase: nat, n: nat, k: nat, prp2: nat, list: seq<nat>)
    requires page > 0 && PageLinear(tr, page) && vbase % page == 0 && 1 <= k < n && (n > 2 ==> k - 1 < |list|)
    requires (n == 2 ==> tr(vbase + page) == Some(prp2)) && (n > 2 ==> ListHolds(tr, list, vbase, n, page))
    ensures k * page >= 0
    ensures var phys := if n == 2 then prp2 else list[k - 1];
      tr(vbase + k * page) == Some(phys) && phys % page == 0
  {
    hide PageLinear;
    MulMonotone(0, k, page);
    if n == 2 {
      assert k * page == page;
    } else {
      assert EntryIs(tr, list, k - 1, vbase + k * page);
    }
    FrameAligned(tr, page, vbase, k);
  }

  /** The frame the buffer starts in. */
  lemma FirstFrame(tr: Translation, page: nat, dbuf: nat, prp1: nat)
    requires page > 0 && PageLinear(tr, page) && tr(dbuf) == Some(prp1)
    ensures dbuf % page <= dbuf && dbuf % page <= prp1 && (prp1 - dbuf % page) % page == 0
    ensures (dbuf - dbuf % page) % page == 0
  {
    assert LinearAt(tr, page, dbuf, 0);
    FloorMultiple(dbuf, page);
    FloorMultiple(prp1, page);
  }

  lemma FrameAligned(tr: Translation, page: nat, vbase: nat, k: nat)
    requires page > 0 && PageLinear(tr, page) && vbase % page == 0 && k * page >= 0 && tr(vbase + k * page).Some?
    ensures tr(vbase + k * page).value % page == 0
  {
    AlignedStep(vbase, page, k);
    assert LinearAt(tr, page, vbase + k * page, 0);
  }

  /** Where byte `b` of a buffer goes, given the frame `phys` of the page it is in. */
  lemma ByteOfPage(tr: Translation, page: nat, dbuf: nat, first: nat, phys: nat, b: nat)
    requires page > 0 && PageLinear(tr, page) && dbuf % page <= dbuf && (dbuf - dbuf % page) % page == 0
    requires tr(dbuf) == Some(first + dbuf % page)
    requires var k := (dbuf % page + b) / page;
      if k <= 0 then phys == first else PageIs(tr, dbuf - dbuf % page, page, k, phys)
    ensures tr(dbuf + b) == Some(phys + (dbuf % page + b) % page)
  {
    hide PageLinear;
    var off := dbuf % page;
    var k, r := (off + b) / page, (off + b) % page;
    PageSplit(off, b, page);
    if k == 0 {
      StepInPage(tr, page, dbuf, b);
    } else {
      AlignedStep(dbuf - off, page, k);
      StepInPage(tr, page, dbuf - off + k * page, r);
    }
  }

  lemma PageSplit(off: nat, b: nat, page: nat)
    requires off < page
    ensures var k, r := (off + b) / page, (off + b) % page;
      0 <= k && 0 <= k * page && off + b == k * page + r && (k == 0 ==> r == off + b)
  {
    var k, r := (off + b) / page, (off + b) % page;
    DivMonotone(0, off + b, page);
    assert off + b == page * k + r && page * k == k * page;
  }

  lemma StepInPage(tr: Translation, page: nat, va: nat, d: nat)
    requires page > 0 && PageLinear(tr, page) && tr(va).Some? && va % page + d < page
    ensures tr(va + d) == Some(tr(va).value + d) && tr(va).value % page == va % page
  {
    assert LinearAt(tr, page, va, d);
  }
}
