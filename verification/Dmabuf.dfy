/**
 * The page table of a dma-buf (dmabuf.h): its segments cut into pages of a fixed size.
 */
module Dmabuf {
  import opened Arith

  datatype Extent = Extent(addr: nat, len: nat)

  ghost function ExtentPages(e: Extent, page: nat): (s: seq<nat>)
    requires page > 0
    ensures |s| == (if e.len / page >= 0 then e.len / page else 0)
  {
    DivMonotone(0, e.len, page);
    seq(e.len / page, k requires k >= 0 => e.addr + k * page)
  }

  /** The whole pages of every segment, in order. */
  ghost function Flatten(es: seq<Extent>, page: nat): seq<nat>
    requires page > 0
  {
    if es == [] then [] else Flatten(es[..|es| - 1], page) + ExtentPages(es[|es| - 1], page)
  }

  ghost function Bytes(es: seq<Extent>): nat {
    if es == [] then 0 else Bytes(es[..|es| - 1]) + es[|es| - 1].len
  }

  /** The address of byte `b` of the segments laid end to end. */
  ghost function ByteAddr(es: seq<Extent>, b: nat): nat
    requires b < Bytes(es)
  {
    var init, last := es[..|es| - 1], es[|es| - 1];
    if b < Bytes(init) then ByteAddr(init, b) else last.addr + (b - Bytes(init))
  }

  /** In numbers: after the bytes of the segments before it, segment `k` starts at its own address. */
  lemma {:induction false} SegmentAddr(es: seq<Extent>, k: nat, d: nat)
    requires k < |es| && d < es[k].len
    ensures Bytes(es[..k]) + d < Bytes(es) && ByteAddr(es, Bytes(es[..k]) + d) == es[k].addr + d
    decreases |es|
  {
    var init := es[..|es| - 1];
    if k < |init| {
      SegmentAddr(init, k, d);
      assert init[..k] == es[..k];
    }
  }

  ghost predicate WholePages(es: seq<Extent>, page: nat)
    requires page > 0
  {
    forall i :: 0 <= i < |es| ==> es[i].len % page == 0
  }

  /** For page-multiple segments, entry `b / page` plus the offset is the address of byte `b`. */
  lemma {:induction false} FlattenTranslates(es: seq<Extent>, page: nat)
    requires page > 0 && WholePages(es, page)
    ensures page * |Flatten(es, page)| == Bytes(es)
    ensures forall b: nat :: b < Bytes(es) ==> EntryTranslates(es, page, b)
  {
    if es != [] {
      var init, last := es[..|es| - 1], es[|es| - 1];
      FlattenTranslates(init, page);
      var n := |Flatten(init, page)|;
      WholeExtent(n, last.len, page);
      forall b: nat | b < Bytes(es) ensures EntryTranslates(es, page, b) {
        if b < Bytes(init) {
          assert EntryTranslates(init, page, b);
        } else {
          LastExtent(es, page, b - page * n);
        }
      }
    }
  }

  lemma WholeExtent(n: nat, len: nat, page: nat)
    requires page > 0 && len % page == 0
    ensures len / page >= 0 && page * (n + len / page) == page * n + len
  {
    DivMonotone(0, len, page);
    assert len == page * (len / page);
  }

  lemma LastExtent(es: seq<Extent>, page: nat, d: nat)
    requires page > 0 && es != [] && es[|es| - 1].len % page == 0 && d < es[|es| - 1].len
    requires page * |Flatten(es[..|es| - 1], page)| == Bytes(es[..|es| - 1])
    ensures EntryTranslates(es, page, page * |Flatten(es[..|es| - 1], page)| + d)
  {
    var last, n := es[|es| - 1], |Flatten(es[..|es| - 1], page)|;
    AddMultiple(d, page, n);
    WithinExtent(d, last.len, page);
    assert (d / page) * page == page * (d / page);
    assert Flatten(es, page)[n + d / page] == ExtentPages(last, page)[d / page];
  }

  ghost predicate EntryTranslates(es: seq<Extent>, page: nat, b: nat)
    requires page > 0 && b < Bytes(es)
  {
    && 0 <= b / page < |Flatten(es, page)|
    && Flatten(es, page)[b / page] + b % page == ByteAddr(es, b)
  }

  lemma WithinExtent(d: nat, len: nat, page: nat)
    requires page > 0 && d < len && len % page == 0
    ensures 0 <= d / page < len / page && d == page * (d / page) + d % page
  {
    DivMonotone(0, d, page);
    FloorMultiple(d, page);
    assert len % page == 0;
    MultipleGap(d - d % page, len, page);
    DivMonotone(d - d % page + page, len, page);
    AddMultiple(d - d % page, page, 1);
    AddMultiple(d % page, page, d / page);
    assert d - d % page == page * (d / page);
    Multiple(page, d / page);
  }

  lemma {:induction false} FlattenGrows(es: seq<Extent>, page: nat, j: nat)
    requires page > 0 && j <= |es|
    ensures Flatten(es[..j], page) <= Flatten(es, page)
    ensures j < |es| ==> Flatten(es[..j + 1], page) == Flatten(es[..j], page) + ExtentPages(es[j], page)
    decreases |es|
  {
    if j < |es| {
      var init := es[..|es| - 1];
      FlattenGrows(init, page, j);
      assert init[..j] == es[..j];
      assert es[..j + 1][..j] == es[..j];
    } else {
      assert es[..j] == es;
    }
  }

  lemma FlattenNone(es: seq<Extent>, page: nat)
    requires page > 0
    ensures Flatten(es[..0], page) == []
  {
  }

  /**
   * dmabuf_get_lut: fills exactly `nphys` entries or fails; never writes past them. It succeeds
   * exactly when the segments hold `nphys` pages.
   */
  method GetLut(es: seq<Extent>, nphys: nat, lut: array<nat>, page: nat) returns (ok: bool)
    requires page > 0 && nphys <= lut.Length
    modifies lut
    ensures ok <==> |Flatten(es, page)| == nphys
    ensures ok ==> lut[..nphys] == Flatten(es, page)
    ensures lut[nphys..] == old(lut[nphys..])
  {
    hide Flatten;
    var i := 0;
    FlattenNone(es, page);
    for j := 0 to |es|
      invariant 0 <= i <= nphys && lut[..i] == Flatten(es[..j], page)
      invariant lut[nphys..] == old(lut[nphys..])
    {
      FlattenGrows(es, page, j);
      FlattenGrows(es, page, j + 1);
      ghost var done := lut[..i];
      DivMonotone(0, es[j].len, page);
      var n := es[j].len / page;
      for k := 0 to n
        invariant i == |done| + k <= nphys
        invariant lut[..i] == done + ExtentPages(es[j], page)[..k]
        invariant lut[nphys..] == old(lut[nphys..])
      {
        if i >= nphys { return false; }
        lut[i] := es[j].addr + k * page;
        i := i + 1;
      }
    }
    assert es[..|es|] == es;
    return i == nphys;
  }

  /** The contiguity check of cudamem_mapping_chunk_populate. */
  ghost predicate Contiguous(lut: seq<nat>, page: nat) {
    forall i: nat :: 1 <= i < |lut| ==> lut[i] == lut[0] + i * page
  }

  lemma QuotientTimes(b: nat, page: nat)
    requires page > 0
    ensures b / page >= 0 && b == (b / page) * page + b % page
  {
    assert b == page * (b / page) + b % page;
    DivMonotone(0, b, page);
  }

  /** One base replaces the page table: base plus offset is the table's translation, byte by byte. */
  lemma BaseReplacesTable(es: seq<Extent>, page: nat, b: nat)
    requires page > 0 && WholePages(es, page) && Contiguous(Flatten(es, page), page) && b < Bytes(es)
    ensures |Flatten(es, page)| > 0 && ByteAddr(es, b) == Flatten(es, page)[0] + b
  {
    hide Flatten, ByteAddr, Bytes, WholePages;
    FlattenTranslates(es, page);
    assert EntryTranslates(es, page, b);
    QuotientTimes(b, page);
  }

  /** Page-aligned segments have page-aligned pages. */
  lemma {:induction false} FlattenAligned(es: seq<Extent>, page: nat, k: nat)
    requires page > 0 && (forall i :: 0 <= i < |es| ==> es[i].addr % page == 0) && k < |Flatten(es, page)|
    ensures Flatten(es, page)[k] % page == 0
    decreases |es|
  {
    var init, last := es[..|es| - 1], es[|es| - 1];
    var n := |Flatten(init, page)|;
    if k < n {
      FlattenAligned(init, page, k);
    } else {
      PageOfExtent(last.addr, page, k - n);
    }
  }

  lemma PageOfExtent(addr: nat, page: nat, k: nat)
    requires page > 0 && addr % page == 0
    ensures (addr + k * page) % page == 0
  {
    assert k * page == page * k;
    AddMultiple(addr, page, k);
  }
}
