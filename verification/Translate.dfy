/**
 * Virtual-to-physical translation through a table with one entry per large page: a hugepage of the
 * host heap or a device page of the CUDA heap.
 */
module Translate {
  import opened Arith
  import opened Bits
  import opened Allocator
  import opened Common

  /** A heap at `base`, `|lut|` large pages long; page sizes are powers of two given as shifts. */
  datatype View = View(base: nat, lut: seq<nat>, pageShift: nat, largeShift: nat) {
    function Page(): (p: nat)
      ensures p > 0
    { Pow2(pageShift) }

    function Large(): (p: nat)
      ensures p > 0
    { Pow2(largeShift) }

    /** Large pages hold whole pages; the heap and the physical pages are page-aligned. */
    ghost predicate Valid() {
      && pageShift <= largeShift && base % Page() == 0
      && forall i :: 0 <= i < |lut| ==> lut[i] % Page() == 0
    }

    predicate Holds(virt: nat) {
      base <= virt < base + |lut| * Large()
    }
  }

  lemma InTable(v: View, virt: nat)
    requires v.Holds(virt)
    ensures 0 <= (virt - v.base) / v.Large() < |v.lut|
  {
    var off, d := virt - v.base, v.Large();
    DivMonotone(0, off, d);
    assert off == d * (off / d) + off % d;
    QuotientBelow(off, d, |v.lut|);
  }

  lemma QuotientBelow(x: nat, d: nat, n: nat)
    requires d > 0 && x < n * d
    ensures x / d < n
  {
    var q := x / d;
    assert x == d * q + x % d;
    assert (q - n) * d == d * q - n * d;
    if q - n >= 1 { MulAtLeast(q - n, d); }
  }

  /** hostmem_heap_block_vtp: quotient and remainder by the large page. */
  function Vtp(v: View, virt: nat): nat
    requires v.Holds(virt)
  {
    InTable(v, virt);
    var offset := virt - v.base;
    v.lut[offset / v.Large()] + offset % v.Large()
  }

  /** hostmem_dma_v2p and cudamem_heap_block_vtp: the same by shift and mask. */
  function V2p(v: View, virt: nat): nat
    requires v.Holds(virt)
  {
    InTable(v, virt);
    var offset := virt - v.base;
    v.lut[Shr(offset, v.largeShift)] + And(offset, v.Large() - 1)
  }

  lemma ShiftMaskAgrees(v: View, virt: nat)
    requires v.Holds(virt)
    ensures V2p(v, virt) == Vtp(v, virt)
  {
    MaskIsRemainder(virt - v.base, v.largeShift);
  }

  /** The checked translation; `size` is the heap's size and need not match the table. */
  function VirtToPhys(v: View, size: nat, virt: nat): Option<nat> {
    if virt == 0 || virt < v.base || virt >= v.base + size then None
    else
      var offset := virt - v.base;
      var idx := offset / v.Large();
      if idx >= |v.lut| then None
      else
        DivMonotone(0, offset, v.Large());
        Some(v.lut[idx] + offset % v.Large())
  }

  /** With a full table the checked form succeeds exactly inside the heap, with the unchecked result. */
  lemma CheckedAgrees(v: View, virt: nat)
    requires v.base > 0
    ensures VirtToPhys(v, |v.lut| * v.Large(), virt) == if v.Holds(virt) then Some(Vtp(v, virt)) else None
  {
    if v.Holds(virt) { InTable(v, virt); }
  }

  /** Inside one large page, physical addresses advance with virtual ones. */
  lemma {:induction false} SameLargePage(v: View, virt: nat, d: nat)
    requires v.Holds(virt) && (virt - v.base) % v.Large() + d < v.Large()
    ensures v.Holds(virt + d) && Vtp(v, virt + d) == Vtp(v, virt) + d
  {
    var off, m := virt - v.base, v.Large();
    InTable(v, virt);
    assert off == m * (off / m) + off % m;
    DivModUnique(off + d, m, off / m, off % m + d);
    MulAtLeast(|v.lut| - off / m, m);
    assert (|v.lut| - off / m) * m == |v.lut| * m - m * (off / m);
  }

  /** An element that the array allocators place is physically contiguous. */
  lemma ElementContiguous(v: View, ptr: nat, elem: nat, count: nat, i: nat, d: nat)
    requires v.base <= ptr && NoStraddle(ptr - v.base, elem, count, v.Large()) && i < count && d < elem
    requires v.Holds(ptr + i * elem)
    ensures v.Holds(ptr + i * elem + d) && Vtp(v, ptr + i * elem + d) == Vtp(v, ptr + i * elem) + d
  {
    assert ElementFits(ptr - v.base, elem, i, v.Large());
    SameLargePage(v, ptr + i * elem, d);
  }

  /** A page of the heap translates to a page-aligned physical page, byte by byte. */
  lemma {:induction false} PageTranslates(v: View, virt: nat, d: nat)
    requires v.Valid() && v.Holds(virt) && (virt - v.base) % v.Page() == 0 && d < v.Page()
    ensures Vtp(v, virt) % v.Page() == 0
    ensures v.Holds(virt + d) && Vtp(v, virt + d) == Vtp(v, virt) + d
  {
    var off, m, p := virt - v.base, v.Large(), v.Page();
    Pow2Divides(v.pageShift, v.largeShift);
    InTable(v, virt);
    RemainderOfRemainder(off, m, p);
    MultipleGap(off % m, m, p);
    SameLargePage(v, virt, d);
    MultiplesClosed(v.lut[off / m], off % m, p);
  }

  /**
   * hostmem_heap_init's table: one page-map lookup per hugepage, and the first entry must be the
   * physical address recorded when the memory was mapped.
   */
  method BuildLut(nphys: nat, pagemap: seq<Option<nat>>, phys: nat) returns (ok: bool, lut: array<nat>)
    requires nphys > 0 && |pagemap| == nphys
    ensures ok <==> (forall i :: 0 <= i < nphys ==> pagemap[i].Some?) && pagemap[0] == Some(phys)
    ensures ok ==> lut.Length == nphys && forall i :: 0 <= i < nphys ==> Some(lut[i]) == pagemap[i]
  {
    lut := new nat[nphys];
    for i := 0 to nphys
      invariant forall j :: 0 <= j < i ==> Some(lut[j]) == pagemap[j]
    {
      if pagemap[i].None? { return false, lut; }
      lut[i] := pagemap[i].value;
    }
    if phys != lut[0] { return false, lut; }
    return true, lut;
  }

  /** Byte `d` of large page `i` is byte `d` of the physical page `phys`, by every form of the translation. */
  ghost predicate TranslatesTo(v: View, i: nat, d: nat, phys: nat) {
    var va := v.base + i * v.Large() + d;
    && va >= v.base && v.Holds(va)
    && Vtp(v, va) == phys + d && V2p(v, va) == phys + d
    && (v.base > 0 ==> VirtToPhys(v, |v.lut| * v.Large(), va) == Some(phys + d))
  }

  /** The translations in numbers: entry `i` of the table is where the heap's `i`-th large page is. */
  lemma TableTranslates(v: View, i: nat, d: nat)
    requires i < |v.lut| && d < v.Large()
    ensures TranslatesTo(v, i, d, v.lut[i])
  {
    hide Pow2, V2p;
    var m := v.Large();
    var va := v.base + i * m + d;
    MulMonotone(0, i, m);
    MulMonotone(i + 1, |v.lut|, m);
    assert (i + 1) * m == i * m + m && m * i == i * m;
    DivModUnique(i * m + d, m, i, d);
    assert va - v.base == i * m + d;
    ShiftMaskAgrees(v, va);
    if v.base > 0 { CheckedAgrees(v, va); }
  }

  /** The heap's view, built from the kernel's page map: every byte translates to its page-map entry. */
  method BuildView(base: nat, nphys: nat, pagemap: seq<Option<nat>>, phys: nat, pageShift: nat, largeShift: nat)
    returns (ok: bool, v: View)
    requires nphys > 0 && |pagemap| == nphys
    ensures ok <==> (forall i :: 0 <= i < nphys ==> pagemap[i].Some?) && pagemap[0] == Some(phys)
    ensures ok ==> v.base == base && v.pageShift == pageShift && v.largeShift == largeShift && |v.lut| == nphys
    ensures ok ==> forall i: nat, d: nat :: i < nphys && d < Pow2(largeShift) ==>
      TranslatesTo(v, i, d, pagemap[i].value)
  {
    hide Pow2, TranslatesTo;
    var lut: array<nat>;
    ok, lut := BuildLut(nphys, pagemap, phys);
    v := View(base, lut[..], pageShift, largeShift);
    if ok {
      forall i: nat, d: nat | i < nphys && d < Pow2(largeShift) ensures TranslatesTo(v, i, d, pagemap[i].value) {
        assert Some(v.lut[i]) == pagemap[i];
        TableTranslates(v, i, d);
      }
    }
  }

  // ---- Translations as partial functions

  type Translation = nat -> Option<nat>

  /** Within a page, physical addresses advance with virtual ones and keep the page offset. */
  ghost predicate PageLinear(tr: Translation, page: nat)
    requires page > 0
  {
    forall va, d :: LinearAt(tr, page, va, d)
  }

  ghost predicate LinearAt(tr: Translation, page: nat, va: nat, d: nat)
    requires page > 0
  {
    tr(va).Some? && va % page + d < page ==>
      tr(va).value % page == va % page && tr(va + d) == Some(tr(va).value + d)
  }

  function HeapTranslation(v: View): Translation {
    (va: nat) => if v.Holds(va) then Some(V2p(v, va)) else None
  }

  lemma HeapIsPageLinear(v: View)
    requires v.Valid()
    ensures PageLinear(HeapTranslation(v), v.Page())
  {
    hide LinearAt;
    forall va: nat, d: nat ensures LinearAt(HeapTranslation(v), v.Page(), va, d) {
      HeapLinearAt(v, va, d);
    }
  }

  lemma HeapLinearAt(v: View, va: nat, d: nat)
    requires v.Valid()
    ensures LinearAt(HeapTranslation(v), v.Page(), va, d)
  {
    hide V2p, Pow2;
    if v.Holds(va) && va % v.Page() + d < v.Page() { HeapStep(v, va, d); }
  }

  /** A step inside a page of the heap. */
  lemma HeapStep(v: View, va: nat, d: nat)
    requires v.Valid() && v.Holds(va) && va % v.Page() + d < v.Page()
    ensures v.Holds(va + d) && V2p(v, va) % v.Page() == va % v.Page() && V2p(v, va + d) == V2p(v, va) + d
  {
    hide V2p, Vtp, Pow2;
    var p := v.Page();
    var page, within := va - va % p, va % p;
    PageFloor(va, v.base, p);
    PageTranslates(v, page, within);
    PageTranslates(v, page, within + d);
    ShiftMaskAgrees(v, va);
    ShiftMaskAgrees(v, va + d);
    OffsetKept(Vtp(v, page), within, p);
  }

  lemma PageFloor(va: nat, base: nat, p: nat)
    requires p > 0 && base % p == 0 && base <= va
    ensures va % p <= va && base <= va - va % p && (va - va % p - base) % p == 0
  {
    FloorMultiple(va, p);
    if va - va % p < base { MultipleGap(va - va % p, base, p); }
    MultiplesClosed(va - va % p, base, p);
  }

  lemma OffsetKept(base: nat, offset: nat, p: nat)
    requires p > 0 && base % p == 0 && offset < p
    ensures (base + offset) % p == offset
  {
    assert base == p * (base / p);
    DivModUnique(base + offset, p, base / p, offset);
  }

  /**
   * cudamem_mapping_virt_to_phys: one base per chunk of `2^shift` bytes, 0 meaning unmapped.
   */
  function ChunkLookup(lut: seq<nat>, shift: nat, va: nat): Option<nat> {
    var idx := Shr(va, shift);
    if va == 0 || idx >= |lut| || lut[idx] == 0 then None
    else Some(lut[idx] + And(va, Pow2(shift) - 1))
  }

  function ChunkTranslation(lut: seq<nat>, shift: nat): Translation {
    (va: nat) => ChunkLookup(lut, shift, va)
  }

  lemma ChunksArePageLinear(lut: seq<nat>, shift: nat, pageShift: nat)
    requires pageShift <= shift && forall i :: 0 <= i < |lut| ==> lut[i] % Pow2(pageShift) == 0
    ensures PageLinear(ChunkTranslation(lut, shift), Pow2(pageShift))
  {
    hide LinearAt;
    forall va: nat, d: nat ensures LinearAt(ChunkTranslation(lut, shift), Pow2(pageShift), va, d) {
      ChunkLinearAt(lut, shift, pageShift, va, d);
    }
  }

  lemma ChunkLinearAt(lut: seq<nat>, shift: nat, pageShift: nat, va: nat, d: nat)
    requires pageShift <= shift && forall i :: 0 <= i < |lut| ==> lut[i] % Pow2(pageShift) == 0
    ensures LinearAt(ChunkTranslation(lut, shift), Pow2(pageShift), va, d)
  {
    hide And, Pow2, ChunkLookup;
    var p, m := Pow2(pageShift), Pow2(shift);
    if ChunkLookup(lut, shift, va).Some? && va % p + d < p {
      Pow2Divides(pageShift, shift);
      ChunkStep(va, d, m, p);
      LookupIs(lut, shift, va);
      LookupIs(lut, shift, va + d);
      RemainderOfRemainder(va, m, p);
      BaseKeepsRemainder(lut[va / m], va % m, p);
    }
  }

  /** The lookup by quotient and remainder. */
  lemma LookupIs(lut: seq<nat>, shift: nat, va: nat)
    ensures va / Pow2(shift) >= 0
    ensures var idx, off := va / Pow2(shift), va % Pow2(shift);
      ChunkLookup(lut, shift, va)
      == if va == 0 || idx >= |lut| || lut[idx] == 0 then None else Some(lut[idx] + off)
  {
    MaskIsRemainder(va, shift);
    DivMonotone(0, va, Pow2(shift));
    hide And, Pow2;
  }

  lemma BaseKeepsRemainder(base: nat, x: nat, p: nat)
    requires p > 0 && base % p == 0
    ensures (base + x) % p == x % p
  {
    assert base == p * (base / p);
    AddMultiple(x, p, base / p);
  }

  /** Staying inside a page means staying inside the chunk. */
  lemma {:induction false} ChunkStep(va: nat, d: nat, m: nat, p: nat)
    requires m > 0 && p > 0 && m % p == 0 && va % p + d < p
    ensures (va + d) / m == va / m && (va + d) % m == va % m + d
  {
    RemainderOfRemainder(va, m, p);
    FloorMultiple(va % m, p);
    MultipleGap(va % m - va % p, m, p);
    assert va == m * (va / m) + va % m;
    DivModUnique(va + d, m, va / m, va % m + d);
  }
}
