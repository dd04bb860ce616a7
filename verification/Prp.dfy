/**
 * Physical Region Page (PRP) entries: a decoder written from section 4.3 of the NVM Express Base
 * Specification 1.4, and the driver's builders, proved to describe exactly the buffer's bytes.
 */
module Prp {
  import opened Arith
  import opened Bits
  import opened Common
  import opened Translate

  class Request {
    var cid: nat
    var prpAddr: nat       // physical address of the list page
    const prp: array<nat>  // the list page

    constructor (cid: nat, prpAddr: nat, prp: array<nat>)
      ensures this.cid == cid && this.prpAddr == prpAddr && this.prp == prp
    {
      this.cid, this.prpAddr, this.prp := cid, prpAddr, prp;
    }
  }

  /** The part of a command that says where its data is (see Transfers.WithPrps). */
  class DataPointer {
    var prp1: nat
    var prp2: nat
  }

  const ENTRY_BYTES: nat := 8

  // ---- The controller's side

  function PagesSpanned(offset: nat, nbytes: nat, page: nat): (n: nat)
    requires page > 0
  {
    DivMonotone(0, offset + nbytes + page - 1, page);
    (offset + nbytes + page - 1) / page
  }

  /** In bytes: page `k` is spanned exactly when some byte of the transfer lies in it. */
  lemma PagesSpannedIff(offset: nat, nbytes: nat, page: nat, k: nat)
    requires page > 0 && offset < page && nbytes > 0
    ensures k < PagesSpanned(offset, nbytes, page) <==> exists b: nat :: b < nbytes && InPage(offset, b, page, k)
  {
    var last := nbytes - 1;
    PageOfByte(offset, nbytes, page, last);
    AddMultiple(offset + last, page, 1);
    assert offset + nbytes + page - 1 == offset + last + page * 1;
    if k < PagesSpanned(offset, nbytes, page) {
      if k == (offset + last) / page {
        assert InPage(offset, last, page, k);
      } else if k == 0 {
        DivModUnique(offset, page, 0, offset);
        assert InPage(offset, 0, page, k);
      } else {
        Multiple(page, k);
        MulMonotone(k + 1, (offset + last) / page, page);
        MulMonotone(1, k, page);
        assert page * ((offset + last) / page) == ((offset + last) / page) * page && page * k == k * page;
        assert (k + 1) * page == k * page + page;
        assert InPage(offset, page * k - offset, page, k);
      }
    }
    if b: nat :| b < nbytes && InPage(offset, b, page, k) { PageOfByte(offset, nbytes, page, b); }
  }

  ghost predicate InPage(offset: nat, b: nat, page: nat, k: nat)
    requires page > 0
  {
    (offset + b) / page == k
  }

  /** An entry other than PRP1 must have offset 0. */
  function Entry(e: nat, within: nat, page: nat): Option<nat>
    requires page > 0
  {
    if e % page == 0 then Some(e + within) else None
  }

  /**
   * The physical address the controller accesses for byte `b` of a transfer of `nbytes`, reading
   * PRP lists from `lists`. None means an offset error, or a list the controller cannot read
   * without chaining.
   */
  function Decode(prp1: nat, prp2: nat, lists: map<nat, seq<nat>>, nbytes: nat, page: nat, b: nat): Option<nat>
    requires page > 0
  {
    var offset := prp1 % page;
    var npages := PagesSpanned(offset, nbytes, page);
    var k := (offset + b) / page;
    var within := (offset + b) % page;
    if k == 0 then Some(prp1 + b)
    else if npages == 2 then Entry(prp2, within, page)
    else if prp2 in lists && npages - 1 <= page / ENTRY_BYTES && 0 <= k - 1 < |lists[prp2]| then
      Entry(lists[prp2][k - 1], within, page)
    else None
  }

  function OneList(addr: nat, list: seq<nat>): map<nat, seq<nat>> {
    map[addr := list]
  }

  /** What the controller needs of a transfer whose page `k` is the physical page `pages[k]`. */
  ghost predicate Describes(prp1: nat, prp2: nat, list: seq<nat>, listAddr: nat, offset: nat,
                            pages: seq<nat>, page: nat)
    requires page > 0
  {
    && |pages| > 0 && offset < page && prp1 == pages[0] + offset
    && (forall k :: 0 <= k < |pages| ==> pages[k] % page == 0)
    && (|pages| == 2 ==> prp2 == pages[1])
    && (|pages| > 2 ==>
          prp2 == listAddr && |pages| - 1 <= page / ENTRY_BYTES && |pages| - 1 <= |list|
          && forall k :: 1 <= k < |pages| ==> list[k - 1] == pages[k])
  }

  lemma {:induction false} DecodeDescribed(prp1: nat, prp2: nat, list: seq<nat>, listAddr: nat,
                                           offset: nat, pages: seq<nat>, page: nat, nbytes: nat, b: nat)
    requires page > 0 && Describes(prp1, prp2, list, listAddr, offset, pages, page)
    requires |pages| == PagesSpanned(offset, nbytes, page) && b < nbytes
    ensures 0 <= (offset + b) / page < |pages|
    ensures Decode(prp1, prp2, OneList(listAddr, list), nbytes, page, b)
            == Some(pages[(offset + b) / page] + (offset + b) % page)
  {
    FirstPageOffset(pages[0], offset, page);
    PageOfByte(offset, nbytes, page, b);
  }

  lemma FirstPageOffset(base: nat, offset: nat, page: nat)
    requires page > 0 && base % page == 0 && offset < page
    ensures (base + offset) % page == offset
  {
    assert base == page * (base / page);
    DivModUnique(base + offset, page, base / page, offset);
  }

  lemma PageOfByte(offset: nat, nbytes: nat, page: nat, b: nat)
    requires page > 0 && b < nbytes
    ensures 0 <= (offset + b) / page < PagesSpanned(offset, nbytes, page)
    ensures offset + b == page * ((offset + b) / page) + (offset + b) % page
  {
    var pos := offset + b;
    DivMonotone(0, pos, page);
    DivMonotone(pos + page, offset + nbytes + page - 1, page);
    AddMultiple(pos, page, 1);
  }

  // ---- The driver's side: a contiguous buffer in a heap

  /** Byte `b` of the transfer goes to where byte `b` of the buffer is. */
  ghost predicate Covers(prp1: nat, prp2: nat, lists: map<nat, seq<nat>>, v: View, dbuf: nat, nbytes: nat) {
    forall b: nat :: b < nbytes ==> DecodesTo(prp1, prp2, lists, v, dbuf, nbytes, b)
  }

  ghost predicate DecodesTo(prp1: nat, prp2: nat, lists: map<nat, seq<nat>>, v: View, dbuf: nat, nbytes: nat, b: nat) {
    v.Holds(dbuf + b) && Decode(prp1, prp2, lists, nbytes, v.Page(), b) == Some(V2p(v, dbuf + b))
  }

  /** If byte `b` of the buffer is byte `d` of large page `i`, it decodes to byte `d` of that page's table entry. */
  ghost predicate DecodesToEntry(prp1: nat, prp2: nat, lists: map<nat, seq<nat>>, v: View, dbuf: nat, nbytes: nat,
                                 b: nat, i: nat, d: nat)
  {
    b < nbytes && i < |v.lut| && d < v.Large() && dbuf + b == v.base + i * v.Large() + d ==>
      Decode(prp1, prp2, lists, nbytes, v.Page(), b) == Some(v.lut[i] + d)
  }

  lemma CoversEntries(prp1: nat, prp2: nat, lists: map<nat, seq<nat>>, v: View, dbuf: nat, nbytes: nat)
    requires Covers(prp1, prp2, lists, v, dbuf, nbytes)
    ensures forall b: nat, i: nat, d: nat :: DecodesToEntry(prp1, prp2, lists, v, dbuf, nbytes, b, i, d)
  {
    hide Decode, V2p, Pow2;
    forall b: nat, i: nat, d: nat ensures DecodesToEntry(prp1, prp2, lists, v, dbuf, nbytes, b, i, d) {
      if b < nbytes && i < |v.lut| && d < v.Large() && dbuf + b == v.base + i * v.Large() + d {
        assert DecodesTo(prp1, prp2, lists, v, dbuf, nbytes, b);
        TableTranslates(v, i, d);
      }
    }
  }

  /** Strides that stay inside the large page of the page-aligned offset `off`. */
  function StridesLeft(v: View, off: nat): int {
    (v.Large() - off % v.Large()) / v.Page() - 1
  }

  /** The fast path: while strides are left the next page is physically next. */
  lemma {:induction false} Stride(v: View, virt: nat)
    requires v.Valid() && v.Holds(virt) && v.Holds(virt + v.Page()) && (virt - v.base) % v.Page() == 0
    ensures var left := StridesLeft(v, virt - v.base);
      && left >= 0
      && StridesLeft(v, virt + v.Page() - v.base) == (if left > 0 then left - 1 else v.Large() / v.Page() - 1)
      && (left > 0 ==> Vtp(v, virt + v.Page()) == Vtp(v, virt) + v.Page())
  {
    hide Vtp, Pow2;
    var off, m, p := virt - v.base, v.Large(), v.Page();
    Pow2Divides(v.pageShift, v.largeShift);
    StrideArith(off, m, p);
    assert virt + p - v.base == off + p;
    if StridesLeft(v, off) > 0 { SameLargePage(v, virt, p); }
  }

  lemma {:induction false} StrideArith(off: nat, m: nat, p: nat)
    requires p > 0 && m > 0 && m % p == 0 && off % p == 0
    ensures var left := (m - off % m) / p - 1;
      && left >= 0
      && (left > 0 ==> off % m + p < m)
      && (m - (off + p) % m) / p - 1 == (if left > 0 then left - 1 else m / p - 1)
  {
    var room := m - off % m;
    RemainderOfRemainder(off, m, p);
    MultiplesClosed(m, off % m, p);
    MultipleGap(0, room, p);
    if room > p { StrideInside(off, m, p, room); } else { StrideToNext(off, m, p); }
  }

  lemma StrideInside(off: nat, m: nat, p: nat, room: nat)
    requires p > 0 && m > 0 && room == m - off % m && room % p == 0 && room > p
    ensures off % m + p < m && (m - (off + p) % m) / p - 1 == room / p - 2 && room / p >= 2
  {
    var q := off / m;
    assert off == m * q + off % m;
    DivModUnique(off + p, m, q, off % m + p);
    Multiple(p, 1);
    MultipleGap(p, room, p);
    assert p * (-1) == 0 - p;
    AddMultiple(room, p, -1);
    DivMonotone(2 * p, room, p);
    Multiple(p, 2);
  }

  lemma StrideToNext(off: nat, m: nat, p: nat)
    requires p > 0 && m > 0 && p == m - off % m
    ensures (m - off % m) / p == 1 && (off + p) % m == 0
  {
    var q := off / m;
    assert off == m * q + off % m && m * (q + 1) == m * q + m;
    DivModUnique(off + p, m, q + 1, 0);
    Multiple(p, 1);
  }

  /** The start of page `k` after `vbase`. */
  function PageVa(vbase: nat, k: nat, page: nat): (r: nat)
    ensures r >= vbase
  {
    vbase + k * page
  }

  /** The pages of a buffer, translated one at a time. */
  ghost function PageList(v: View, vbase: nat, n: nat): (pages: seq<nat>)
    requires n == 0 || v.Holds(PageVa(vbase, n - 1, v.Page()))
    requires v.base <= vbase
    ensures |pages| == n
  {
    seq(n, k requires 0 <= k < n => PageAt(v, vbase, n, k))
  }

  ghost function PageAt(v: View, vbase: nat, n: nat, k: nat): nat
    requires k < n && v.base <= vbase && v.Holds(PageVa(vbase, n - 1, v.Page()))
    ensures v.Holds(PageVa(vbase, k, v.Page())) && PageAt(v, vbase, n, k) == Vtp(v, PageVa(vbase, k, v.Page()))
  {
    MulMonotone(k, n - 1, v.Page());
    MulMonotone(0, k, v.Page());
    Vtp(v, PageVa(vbase, k, v.Page()))
  }

  /** A buffer of the heap: the page frame it starts in, and the number of pages it touches. */
  ghost predicate Buffer(v: View, dbuf: nat, nbytes: nat) {
    v.Valid() && v.Holds(dbuf) && (nbytes > 0 ==> v.Holds(dbuf + nbytes - 1))
  }

  function NumPages(v: View, dbuf: nat, nbytes: nat): nat {
    PagesSpanned(dbuf % v.Page(), nbytes, v.Page())
  }

  lemma {:induction false} BufferPages(v: View, dbuf: nat, nbytes: nat)
    requires Buffer(v, dbuf, nbytes)
    ensures var offset, n := dbuf % v.Page(), NumPages(v, dbuf, nbytes);
      && offset <= dbuf && v.base <= dbuf - offset
      && (dbuf - offset - v.base) % v.Page() == 0 && v.Holds(dbuf - offset)
      && (n > 0 ==> v.Holds(PageVa(dbuf - offset, n - 1, v.Page())))
      && (nbytes > 0 ==> n > 0)
  {
    BufferArith(dbuf, v.base, v.Page(), nbytes);
  }

  lemma {:induction false} BufferArith(dbuf: nat, base: nat, p: nat, nbytes: nat)
    requires p > 0 && base % p == 0 && base <= dbuf
    ensures var offset, n := dbuf % p, PagesSpanned(dbuf % p, nbytes, p);
      && offset <= dbuf && base <= dbuf - offset && (dbuf - offset - base) % p == 0
      && (n > 0 ==> 0 <= (n - 1) * p <= offset + (if nbytes > 0 then nbytes - 1 else 0))
      && (nbytes > 0 ==> n > 0)
  {
    var offset, n := dbuf % p, PagesSpanned(dbuf % p, nbytes, p);
    FloorMultiple(dbuf, p);
    if dbuf - offset < base { MultipleGap(dbuf - offset, base, p); }
    MultiplesClosed(dbuf - offset, base, p);
    var top := offset + nbytes + p - 1;
    assert top == p * n + top % p;
    assert (n - 1) * p == p * n - p;
    if n > 0 { MulMonotone(0, n - 1, p); }
    if nbytes > 0 { PageOfByte(offset, nbytes, p, 0); }
  }

  /** The pages the buffer touches, translated one at a time. */
  ghost function BufferFrames(v: View, dbuf: nat, nbytes: nat): (pages: seq<nat>)
    requires Buffer(v, dbuf, nbytes)
    ensures |pages| == NumPages(v, dbuf, nbytes)
  {
    BufferPages(v, dbuf, nbytes);
    PageList(v, dbuf - dbuf % v.Page(), NumPages(v, dbuf, nbytes))
  }

  /** From correct pages to correct bytes. */
  lemma {:induction false} PagesCover(v: View, dbuf: nat, nbytes: nat, prp1: nat, prp2: nat,
                                      list: seq<nat>, listAddr: nat)
    requires Buffer(v, dbuf, nbytes)
    requires nbytes > 0 ==>
      Describes(prp1, prp2, list, listAddr, dbuf % v.Page(), BufferFrames(v, dbuf, nbytes), v.Page())
    ensures Covers(prp1, prp2, OneList(listAddr, list), v, dbuf, nbytes)
  {
    hide Describes, Decode, V2p, Vtp, PageVa, BufferFrames;
    forall b: nat | b < nbytes ensures DecodesTo(prp1, prp2, OneList(listAddr, list), v, dbuf, nbytes, b) {
      DecodeDescribed(prp1, prp2, list, listAddr, dbuf % v.Page(), BufferFrames(v, dbuf, nbytes), v.Page(), nbytes, b);
      FrameOfByte(v, dbuf, nbytes, b);
    }
  }

  /** Where byte `b` of the buffer is, by the frame of the page it is in. */
  lemma FrameOfByte(v: View, dbuf: nat, nbytes: nat, b: nat)
    requires Buffer(v, dbuf, nbytes) && b < nbytes
    ensures var pos, p := dbuf % v.Page() + b, v.Page();
      && 0 <= pos / p < NumPages(v, dbuf, nbytes)
      && v.Holds(dbuf + b) && V2p(v, dbuf + b) == BufferFrames(v, dbuf, nbytes)[pos / p] + pos % p
  {
    var p, offset := v.Page(), dbuf % v.Page();
    BufferPages(v, dbuf, nbytes);
    PageOfByte(offset, nbytes, p, b);
    var vbase, k, d := dbuf - offset, (offset + b) / p, (offset + b) % p;
    hide V2p, Vtp;
    FrameByte(v, vbase, NumPages(v, dbuf, nbytes), k, d);
    assert k * p == p * k;
    ShiftMaskAgrees(v, dbuf + b);
  }

  lemma FrameByte(v: View, vbase: nat, n: nat, k: nat, d: nat)
    requires v.Valid() && k < n && d < v.Page() && v.base <= vbase && (vbase - v.base) % v.Page() == 0
    requires v.Holds(PageVa(vbase, n - 1, v.Page()))
    ensures PageAt(v, vbase, n, k) % v.Page() == 0
    ensures var va := PageVa(vbase, k, v.Page()) + d; v.Holds(va) && Vtp(v, va) == PageAt(v, vbase, n, k) + d
  {
    var page := PageAt(v, vbase, n, k);
    assert v.Page() * k == k * v.Page();
    Multiple(v.Page(), k);
    MultiplesClosed(vbase - v.base, v.Page() * k, v.Page());
    PageTranslates(v, PageVa(vbase, k, v.Page()), d);
  }

  /** What one loop iteration of the strided builder needs to know. */
  lemma {:induction false} NextFrame(v: View, vbase: nat, n: nat, i: nat)
    requires v.Valid() && 0 < i < n && v.base <= vbase && (vbase - v.base) % v.Page() == 0
    requires v.Holds(PageVa(vbase, n - 1, v.Page()))
    ensures (i - 1) * v.Page() >= 0 && v.Holds(PageVa(vbase, i, v.Page()))
    ensures V2p(v, PageVa(vbase, i, v.Page())) == PageAt(v, vbase, n, i)
    ensures var left := StridesLeft(v, vbase - v.base + (i - 1) * v.Page());
      && left >= 0
      && (left > 0 ==> PageAt(v, vbase, n, i) == PageAt(v, vbase, n, i - 1) + v.Page())
      && StridesLeft(v, vbase - v.base + i * v.Page()) == (if left > 0 then left - 1 else v.Large() / v.Page() - 1)
  {
    hide StridesLeft, Vtp, V2p;
    var p := v.Page();
    var a, b := PageAt(v, vbase, n, i - 1), PageAt(v, vbase, n, i);
    Previous(i, p);
    Multiple(p, i - 1);
    MultiplesClosed(vbase - v.base, p * (i - 1), p);
    Stride(v, vbase + (i - 1) * p);
    ShiftMaskAgrees(v, vbase + i * p);
  }

  lemma Previous(i: nat, p: nat)
    requires i > 0
    ensures (i - 1) * p + p == i * p && p * (i - 1) == (i - 1) * p && (i - 1) * p >= 0
  {
    MulMonotone(0, i - 1, p);
  }

  /** The page frames themselves are page-aligned and start at PRP1's frame. */
  lemma FramesAligned(v: View, dbuf: nat, nbytes: nat)
    requires Buffer(v, dbuf, nbytes) && NumPages(v, dbuf, nbytes) > 0
    ensures var pages := BufferFrames(v, dbuf, nbytes);
      && V2p(v, dbuf) == pages[0] + dbuf % v.Page()
      && forall k :: 0 <= k < |pages| ==> pages[k] % v.Page() == 0
  {
    BufferPages(v, dbuf, nbytes);
    var offset, n := dbuf % v.Page(), NumPages(v, dbuf, nbytes);
    forall k | 0 <= k < n ensures BufferFrames(v, dbuf, nbytes)[k] % v.Page() == 0 {
      FrameByte(v, dbuf - offset, n, k, 0);
    }
    FrameByte(v, dbuf - offset, n, 0, offset);
    ShiftMaskAgrees(v, dbuf);
  }

  /**
   * nvme_request_prep_command_prps_contig, and its CUDA twin: stride while inside a large page,
   * translate again at each boundary.
   */
  method PrepContig(req: Request, v: View, dbuf: nat, nbytes: nat, cmd: DataPointer)
    requires Buffer(v, dbuf, nbytes) && NumPages(v, dbuf, nbytes) <= 1 + 512
    requires 512 * ENTRY_BYTES <= v.Page() && req.prp.Length == v.Page() / ENTRY_BYTES
    modifies cmd`prp1, cmd`prp2, req.prp
    ensures Covers(cmd.prp1, cmd.prp2, OneList(req.prpAddr, req.prp[..]), v, dbuf, nbytes)
    ensures forall b: nat, i: nat, d: nat ::
      DecodesToEntry(cmd.prp1, cmd.prp2, OneList(req.prpAddr, req.prp[..]), v, dbuf, nbytes, b, i, d)
    ensures cmd.prp1 == V2p(v, dbuf)
    ensures NumPages(v, dbuf, nbytes) == 1 ==> cmd.prp2 == old(cmd.prp2)
    ensures NumPages(v, dbuf, nbytes) in {1, 2} ==> req.prp[..] == old(req.prp[..])
  {
    hide Covers, DecodesToEntry, V2p, Vtp, StridesLeft, PagesSpanned, Describes, And, Shr;
    var pagesize := v.Page();
    cmd.prp1 := V2p(v, dbuf);
    MaskIsRemainder(dbuf, v.pageShift);
    BufferPages(v, dbuf, nbytes);
    var pageOff := And(dbuf, pagesize - 1);
    var npages := Shr(pageOff + nbytes + pagesize - 1, v.pageShift);
    ShiftCountsPages(v, dbuf, nbytes);
    if npages == 1 {
      Described(v, dbuf, nbytes, cmd.prp1, cmd.prp2, req.prp[..], req.prpAddr);
      return;
    }
    if npages > 0 { FramesAligned(v, dbuf, nbytes); }
    var vbase := dbuf - pageOff;
    var hpOff := And(vbase - v.base, v.Large() - 1);
    FirstStrides(v, vbase);
    var stridesLeft := Shr(v.Large() - hpOff, v.pageShift) - 1;
    var pagePhys := cmd.prp1 - pageOff;
    if npages == 2 {
      NextFrame(v, vbase, npages, 1);
      cmd.prp2 := if stridesLeft != 0 then pagePhys + pagesize else V2p(v, vbase + pagesize);
      Described(v, dbuf, nbytes, cmd.prp1, cmd.prp2, req.prp[..], req.prpAddr);
      return;
    }
    cmd.prp2 := req.prpAddr;
    if npages > 0 { FillList(req.prp, v, vbase, npages, pagePhys, stridesLeft); }
    Described(v, dbuf, nbytes, cmd.prp1, cmd.prp2, req.prp[..], req.prpAddr);
  }

  /** The stride loop: entry `i - 1` is page `i` of the buffer. */
  method FillList(prpList: array<nat>, v: View, vbase: nat, npages: nat, firstPhys: nat, firstStrides: int)
    requires v.Valid() && 0 < npages <= prpList.Length + 1
    requires v.base <= vbase && (vbase - v.base) % v.Page() == 0 && v.Holds(PageVa(vbase, npages - 1, v.Page()))
    requires firstPhys == PageAt(v, vbase, npages, 0) && firstStrides == StridesLeft(v, vbase - v.base)
    modifies prpList
    ensures forall k :: 1 <= k < npages ==> prpList[k - 1] == PageAt(v, vbase, npages, k)
  {
    hide V2p, Vtp, StridesLeft, PageAt;
    var pagesize := v.Page();
    var pagePhys, stridesLeft := firstPhys, firstStrides;
    for i := 1 to npages
      invariant pagePhys == PageAt(v, vbase, npages, i - 1)
      invariant (i - 1) * pagesize >= 0 && stridesLeft == StridesLeft(v, vbase - v.base + (i - 1) * pagesize)
      invariant forall k :: 1 <= k < i ==> prpList[k - 1] == PageAt(v, vbase, npages, k)
    {
      NextFrame(v, vbase, npages, i);
      if stridesLeft != 0 {
        pagePhys := pagePhys + pagesize;
        stridesLeft := stridesLeft - 1;
      } else {
        pagePhys := V2p(v, vbase + Shl(i, v.pageShift));
        stridesLeft := Shr(v.Large(), v.pageShift) - 1;
      }
      prpList[i - 1] := pagePhys;
    }
  }

  lemma ShiftCountsPages(v: View, dbuf: nat, nbytes: nat)
    ensures Shr(dbuf % v.Page() + nbytes + v.Page() - 1, v.pageShift) == NumPages(v, dbuf, nbytes)
  {
  }

  /** The builder's result describes the buffer's frames, hence its bytes. */
  lemma Described(v: View, dbuf: nat, nbytes: nat, prp1: nat, prp2: nat, list: seq<nat>, listAddr: nat)
    requires Buffer(v, dbuf, nbytes) && NumPages(v, dbuf, nbytes) <= 513
    requires 512 * ENTRY_BYTES <= v.Page() && |list| == v.Page() / ENTRY_BYTES && prp1 == V2p(v, dbuf)
    requires var pages := BufferFrames(v, dbuf, nbytes);
      && (|pages| == 2 ==> prp2 == pages[1])
      && (|pages| > 2 ==> prp2 == listAddr && forall k :: 1 <= k < |pages| ==> list[k - 1] == pages[k])
    ensures Covers(prp1, prp2, OneList(listAddr, list), v, dbuf, nbytes)
    ensures forall b: nat, i: nat, d: nat ::
      DecodesToEntry(prp1, prp2, OneList(listAddr, list), v, dbuf, nbytes, b, i, d)
  {
    hide Covers, V2p, Vtp, PagesSpanned, BufferFrames, DecodesToEntry;
    BufferPages(v, dbuf, nbytes);
    if NumPages(v, dbuf, nbytes) > 0 { FramesAligned(v, dbuf, nbytes); }
    PagesCover(v, dbuf, nbytes, prp1, prp2, list, listAddr);
    CoversEntries(prp1, prp2, OneList(listAddr, list), v, dbuf, nbytes);
  }

  lemma FirstStrides(v: View, vbase: nat)
    requires v.Valid() && v.base <= vbase
    ensures And(vbase - v.base, v.Large() - 1) <= v.Large()
    ensures Shr(v.Large() - And(vbase - v.base, v.Large() - 1), v.pageShift) - 1 == StridesLeft(v, vbase - v.base)
  {
    MaskIsRemainder(vbase - v.base, v.largeShift);
  }
}
