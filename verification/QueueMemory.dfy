/**
 * The DMA memory behind a queue pair (nvme_qpair_init, nvme_qpair_term): two queues and 1024 PRP
 * list pages from the host heap, all or nothing.
 */
module QueueMemory {
  import opened Arith
  import opened Bits
  import opened Common
  import opened Segments
  import opened Allocator
  import opened HostMemory
  import opened HostHeap
  import opened HostPlacement
  import opened Translate
  import opened PoolMachine

  const QUEUE_BYTES: nat := 0x1_0000

  /** The translation table of a heap. */
  ghost predicate TableOf(v: View, virt: nat, size: nat, page: nat, large: nat) {
    v.base == virt && v.Page() == page && v.Large() == large && |v.lut| * large == size
  }

  /** `n` bytes from `ptr` occupy consecutive physical addresses. */
  ghost predicate Contig(v: View, ptr: nat, n: nat) {
    forall d: nat :: d < n ==> ContigAt(v, ptr, d)
  }

  ghost predicate ContigAt(v: View, ptr: nat, d: nat) {
    v.Holds(ptr) && v.Holds(ptr + d) && V2p(v, ptr + d) == V2p(v, ptr) + d
  }

  ghost predicate ZeroAt(m: Memory, x: nat) {
    x in m.bytes && m.bytes[x] == 0
  }

  /** List page `i` of the array at `prps`: where it is, its physical address, and that it is contiguous. */
  ghost predicate PageOk(v: View, prps: nat, page: nat, i: nat, virt: nat, phys: nat) {
    && virt == prps + i * page && Contig(v, virt, page)
    && v.Holds(virt) && phys == V2p(v, virt)
  }

  ghost predicate Zeroed(m: Memory, ptr: nat) {
    forall x: nat :: ptr <= x < ptr + QUEUE_BYTES ==> ZeroAt(m, x)
  }

  predicate Apart(a: nat, n: nat, b: nat, m: nat) {
    a + n <= b || b + m <= a
  }

  class QueueMemory {
    const heap: HostHeap
    const view: View
    const prp: array<nat>      // reqs[i].prp
    const prpAddr: array<nat>  // reqs[i].prp_addr
    var sq: nat
    var cq: nat
    var prps: nat
    ghost var ownSq: Seg
    ghost var ownCq: Seg
    ghost var ownPrps: Seg

    constructor (heap: HostHeap, view: View)
      requires heap.Valid() && TableOf(view, heap.virt, heap.size, heap.pagesize, heap.hugepgsz)
      requires QUEUE_BYTES % heap.pagesize == 0
      ensures Usable() && this.heap == heap && fresh(prp) && fresh(prpAddr)
    {
      this.heap, this.view := heap, view;
      prp, prpAddr := new nat[POOL_LEN], new nat[POOL_LEN];
      sq, cq, prps := 0, 0, 0;
      ownSq, ownCq, ownPrps := Seg(0, 0, true), Seg(0, 0, true), Seg(0, 0, true);
    }

    ghost predicate Usable()
      reads this, heap
    {
      && heap.Valid() && TableOf(view, heap.virt, heap.size, heap.pagesize, heap.hugepgsz)
      && QUEUE_BYTES % heap.pagesize == 0
      && prp.Length == POOL_LEN == prpAddr.Length && prp != prpAddr
    }

    /** Both queues and the list pages are owned, and everything the controller uses is contiguous. */
    ghost predicate Ready()
      reads this, heap, prp, prpAddr
    {
      && Usable()
      && heap.Owns(sq, ownSq, QUEUE_BYTES) && heap.Owns(cq, ownCq, QUEUE_BYTES)
      && heap.Owns(prps, ownPrps, POOL_LEN * heap.pagesize)
      && ownSq != ownCq && ownSq != ownPrps && ownCq != ownPrps
      && Contig(view, sq, QUEUE_BYTES) && Contig(view, cq, QUEUE_BYTES)
      && (forall i :: 0 <= i < POOL_LEN ==> ListPage(i))
    }

    ghost predicate ListPage(i: nat)
      reads this, heap, prp, prpAddr
      requires prp.Length == POOL_LEN == prpAddr.Length && i < POOL_LEN
    {
      PageOk(view, prps, heap.pagesize, i, prp[i], prpAddr[i])
    }

    /** memset of a queue. */
    method Clear(ptr: nat, ghost own: Seg)
      requires Usable() && heap.Owns(ptr, own, QUEUE_BYTES)
      modifies heap
      ensures Usable() && heap.segs == old(heap.segs) && Zeroed(heap.mem, ptr)
      ensures forall x: nat :: !(ptr <= x < ptr + QUEUE_BYTES) ==> SameByte(old(heap.mem), heap.mem, x)
    {
      hide Tiles, OnPages, Describes, IsPow2, TableOf;
      for n := 0 to QUEUE_BYTES
        invariant Usable() && heap.segs == old(heap.segs)
        invariant forall x: nat :: ptr <= x < ptr + n ==> ZeroAt(heap.mem, x)
        invariant forall x: nat :: !(ptr <= x < ptr + n) ==> SameByte(old(heap.mem), heap.mem, x)
      {
        OwnedPayload(heap.segs, own, heap.At(), ptr + n);
        ghost var before := heap.mem;
        heap.Store(ptr + n, 0);
        forall x: nat | ptr <= x < ptr + n + 1 ensures ZeroAt(heap.mem, x) {
          assert x < ptr + n ==> ZeroAt(before, x);
        }
        forall x: nat | !(ptr <= x < ptr + n + 1) ensures SameByte(old(heap.mem), heap.mem, x) {
          assert SameByte(old(heap.mem), before, x);
        }
      }
    }

    /** One queue: allocate and clear it. */
    method AllocQueue() returns (ptr: nat, errno: Errno, ghost own: Seg)
      requires Usable()
      modifies heap
      ensures Usable() && (ptr == 0) == (errno != Ok)
      ensures Untouched(old(heap.mem), heap.mem, Used(old(heap.segs)), heap.At())
      ensures errno in {Ok, ENOMEM}
      ensures ptr != 0 <==> QueueFits(old(heap.segs), heap.pagesize, heap.hugepgsz)
      ensures ptr != 0 ==> heap.segs == AfterQueue(old(heap.segs), heap.pagesize, heap.hugepgsz)
      ensures ptr == 0 ==> Live(heap.segs) == Live(old(heap.segs))
      ensures ptr != 0 ==>
        && own !in Live(old(heap.segs)) && Live(heap.segs) == Live(old(heap.segs)) + {own}
        && heap.Owns(ptr, own, QUEUE_BYTES) && Zeroed(heap.mem, ptr) && Contig(view, ptr, QUEUE_BYTES)
    {
      hide Tiles, OnPages, Describes, IsPow2, Untouched, NoStraddle, Live, Contig, Zeroed, Search, NoneServes,
        FirstServes, Servable;
      OneQueue();
      ListBytes(heap.pagesize);
      ghost var m0, s0 := heap.mem, heap.segs;
      ptr, errno, own := heap.DmaAllocArray(1, QUEUE_BYTES);
      if ptr == 0 { return; }
      ghost var m1 := heap.mem;
      Clear(ptr, own);
      ClearElsewhere(m1, heap.mem, ptr, own, s0, heap.segs, heap.At(), heap.size);
      UntouchedTransitive(m0, m1, heap.mem, Used(s0), heap.At());
      OwnedInside(heap.segs, own, heap.size);
      ElementIsContig(view, ptr, QUEUE_BYTES, 1, 0, own, heap.size, heap.pagesize);
    }

    /** nvme_request_pool_init_prps. */
    method InitPrps() returns (ok: bool)
      requires Usable()
      modifies this`prps, this`ownPrps, heap, prp, prpAddr
      ensures Usable() && Untouched(old(heap.mem), heap.mem, Used(old(heap.segs)), heap.At())
      ensures ok <==> ListsFit(old(heap.segs), heap.pagesize, heap.hugepgsz)
      ensures !ok ==> Live(heap.segs) == Live(old(heap.segs))
      ensures ok ==>
        && ownPrps !in Live(old(heap.segs)) && Live(heap.segs) == Live(old(heap.segs)) + {ownPrps}
        && heap.Owns(prps, ownPrps, POOL_LEN * heap.pagesize)
        && forall i :: 0 <= i < POOL_LEN ==> ListPage(i)
    {
      hide Tiles, OnPages, Describes, IsPow2, Untouched, NoStraddle, Live, Contig, Search, NoneServes, FirstServes,
        Servable;
      var errno;
      ListBytes(heap.pagesize);
      PagesAccepted(POOL_LEN, heap.pagesize, heap.hugepgsz);
      prps, errno, ownPrps := heap.DmaAllocArray(POOL_LEN, heap.pagesize);
      if prps == 0 { return false; }
      FillPrps();
      return true;
    }

    /** nvme_qpair_init's memory; `callocOk` says whether the request pool could be allocated. */
    method Init(callocOk: bool) returns (err: Errno)
      requires Usable()
      modifies this, heap, prp, prpAddr
      ensures Usable() && Untouched(old(heap.mem), heap.mem, Used(old(heap.segs)), heap.At())
      ensures err in {Ok, ENOMEM}
      ensures err == Ok <==> callocOk && SetUpFits(old(heap.segs), heap.pagesize, heap.hugepgsz)
      ensures err != Ok ==> Live(heap.segs) == Live(old(heap.segs))
      ensures err == Ok ==>
        && Ready() && Zeroed(heap.mem, sq) && Zeroed(heap.mem, cq)
        && {ownSq, ownCq, ownPrps} !! Live(old(heap.segs))
        && Live(heap.segs) == Live(old(heap.segs)) + {ownSq, ownCq, ownPrps}
    {
      hide Tiles, OnPages, Describes, IsPow2, TableOf, Untouched, Live, Contig, Zeroed, QueueFits, AfterQueue, ListsFit;
      ghost var at, m0, s0 := heap.At(), heap.mem, heap.segs;
      sq, err, ownSq := AllocQueue();
      if sq == 0 { return; }
      ghost var m1, s1 := heap.mem, heap.segs;
      cq, err, ownCq := AllocQueue();
      UntouchedFewer(m1, heap.mem, s1, s0, at);
      UntouchedTransitive(m0, m1, heap.mem, Used(s0), at);
      ghost var m2, s2 := heap.mem, heap.segs;
      if cq == 0 {
        heap.DmaFree(sq, ownSq);
        UntouchedFewer(m2, heap.mem, heap.segs, s0, at);
        UntouchedTransitive(m0, m2, heap.mem, Used(s0), at);
        return;
      }
      ZeroKept(m1, m2, s1, ownSq, at, sq);
      if !callocOk {
        FreeQueues(s0, m0);
        return ENOMEM;
      }
      var ok := InitPrps();
      UntouchedFewer(m2, heap.mem, s2, s0, at);
      UntouchedTransitive(m0, m2, heap.mem, Used(s0), at);
      if !ok {
        FreeQueues(s0, m0);
        return ENOMEM;
      }
      ZeroKept(m2, heap.mem, s2, ownSq, at, sq);
      ZeroKept(m2, heap.mem, s2, ownCq, at, cq);
      return Ok;
    }

    /** The error paths that give both queues back. */
    method FreeQueues(ghost s0: seq<Seg>, ghost m0: Memory)
      requires Usable() && heap.Owns(sq, ownSq, QUEUE_BYTES) && heap.Owns(cq, ownCq, QUEUE_BYTES) && ownSq != ownCq
      requires Live(heap.segs) == Live(s0) + {ownSq, ownCq} && {ownSq, ownCq} !! Live(s0)
      requires Untouched(m0, heap.mem, Used(s0), heap.At())
      modifies heap
      ensures Usable() && Live(heap.segs) == Live(s0)
      ensures Untouched(m0, heap.mem, Used(s0), heap.At())
    {
      hide Tiles, OnPages, Describes, IsPow2, TableOf, Untouched, Live;
      ghost var at, m1 := heap.At(), heap.mem;
      heap.DmaFree(sq, ownSq);
      ghost var m2 := heap.mem;
      UntouchedFewer(m1, m2, heap.segs, s0, at);
      UntouchedTransitive(m0, m1, m2, Used(s0), at);
      heap.DmaFree(cq, ownCq);
      UntouchedFewer(m2, heap.mem, heap.segs, s0, at);
      UntouchedTransitive(m0, m2, heap.mem, Used(s0), at);
    }

    /** nvme_qpair_term. */
    method Term()
      requires Ready()
      modifies heap
      ensures Usable() && Coalesced(heap.segs)
      ensures Live(heap.segs) == Live(old(heap.segs)) - {ownSq, ownCq, ownPrps}
    {
      hide Tiles, OnPages, Describes, IsPow2, TableOf, Untouched, Live, Contig, Coalesced;
      heap.DmaFree(prps, ownPrps);
      heap.DmaFree(sq, ownSq);
      heap.DmaFree(cq, ownCq);
    }

    /** A queue pair set up and torn down again leaves the heap as it was: the live blocks always, and
        block for block if it had no free neighbours. */
    method InitThenTerm(callocOk: bool) returns (err: Errno)
      requires Usable()
      modifies this, heap, prp, prpAddr
      ensures Usable() && Live(heap.segs) == Live(old(heap.segs))
      ensures err == Ok <==> callocOk && SetUpFits(old(heap.segs), heap.pagesize, heap.hugepgsz)
      ensures err == Ok && Coalesced(old(heap.segs)) ==> heap.segs == old(heap.segs)
    {
      hide OnPages, Describes, IsPow2, TableOf, Untouched, Live, Contig, Coalesced, Tiles, SetUpFits;
      ghost var s0 := heap.segs;
      err := Init(callocOk);
      if err == Ok {
        Term();
        assert Live(heap.segs) == Live(s0);
        if Coalesced(s0) { SameLiveSameHeap(heap.segs, s0, heap.size); }
      }
    }

    method FillPrps()
      requires Usable() && heap.Owns(prps, ownPrps, POOL_LEN * heap.pagesize)
      requires NoStraddle(prps - heap.virt, heap.pagesize, POOL_LEN, heap.hugepgsz)
      modifies prp, prpAddr
      ensures forall i :: 0 <= i < POOL_LEN ==> ListPage(i)
    {
      hide Tiles, OnPages, Describes, IsPow2, NoStraddle, PageOk, V2p, Live;
      OwnedInside(heap.segs, ownPrps, heap.size);
      for i := 0 to POOL_LEN
        invariant forall j :: 0 <= j < i ==> PageOk(view, prps, heap.pagesize, j, prp[j], prpAddr[j])
      {
        var p := prps + i * heap.pagesize;
        ListPageOk(view, prps, heap.pagesize, i, ownPrps, heap.size);
        prp[i] := p;
        prpAddr[i] := V2p(view, p);
      }
    }
  }

  // ---- When the set-up succeeds

  /** A free block can serve one queue. */
  ghost predicate QueueFits(s: seq<Seg>, page: nat, large: nat) {
    QUEUE_BYTES <= large && !NoneServes(s, QUEUE_BYTES, QUEUE_BYTES, page, large)
  }

  /** The heap with one queue more. */
  ghost function AfterQueue(s: seq<Seg>, page: nat, large: nat): seq<Seg>
    requires large > 0
  {
    Search(s, Request(QUEUE_BYTES, QUEUE_BYTES), Geometry(page, large, HEADER_BYTES), Unlimited).0
  }

  /** A free block can serve all the list pages. */
  ghost predicate ListsFit(s: seq<Seg>, page: nat, large: nat)
    requires page > 0 && large > 0
  {
    !NoneServes(s, POOL_LEN * page, page, page, large)
  }

  /** Each of the three requests can be served in the heap that the ones before leave. */
  ghost predicate SetUpFits(s: seq<Seg>, page: nat, large: nat)
    requires page > 0 && large > 0
  {
    && QueueFits(s, page, large)
    && QueueFits(AfterQueue(s, page, large), page, large)
    && ListsFit(AfterQueue(AfterQueue(s, page, large), page, large), page, large)
  }

  lemma OneQueue()
    ensures Whole(1, QUEUE_BYTES) == Request(QUEUE_BYTES, QUEUE_BYTES)
    ensures forall large: nat :: Accepted(1, QUEUE_BYTES, large) <==> QUEUE_BYTES <= large
  {
  }

  /** In numbers: a fresh heap is enough exactly if it holds two queues, 1024 list pages and three headers. */
  lemma FreshSetUpIff(size: nat, page: nat, large: nat)
    requires HEADER_BYTES < page && large % page == 0 && QUEUE_BYTES % page == 0 && 2 * (page + QUEUE_BYTES) <= large
    ensures SetUpFits([Seg(0, size, true)], page, large) <==> 2 * QUEUE_BYTES + (POOL_LEN + 3) * page <= size
  {
    hide Search, NoneServes;
    var need := page + QUEUE_BYTES;
    var s0 := [Seg(0, size, true)];
    assert s0 == [] + [Seg(0, size, true)];
    QueueAtTail([], 0, size, page, large);
    if size >= need {
      var s1 := AfterQueue(s0, page, large);
      if size > need + HEADER_BYTES {
        var used := [Seg(0, need, false)];
        assert s1 == used + [Seg(need, size - need, true)];
        QueueAtTail(used, need, size - need, page, large);
        if size - need >= need {
          var s2 := AfterQueue(s1, page, large);
          if size - need > need + HEADER_BYTES {
            var used2 := [Seg(0, need, false), Seg(need, need, false)];
            assert s2 == used2 + [Seg(2 * need, size - 2 * need, true)];
            ListsAtTail(used2, 2 * need, size - 2 * need, page, large);
          } else {
            assert s2 == [Seg(0, need, false), Seg(need, size - need, false)];
            FullServesNone(s2, POOL_LEN * page, page, page, large);
          }
        }
      } else {
        assert s1 == [Seg(0, size, false)];
        FullServesNone(s1, QUEUE_BYTES, QUEUE_BYTES, page, large);
      }
    }
  }

  lemma QueueAtTail(used: seq<Seg>, a: nat, m: nat, page: nat, large: nat)
    requires AllUsed(used) && a + page + QUEUE_BYTES <= large
    ensures large > 0 && (QueueFits(used + [Seg(a, m, true)], page, large) <==> m >= page + QUEUE_BYTES)
    ensures m >= page + QUEUE_BYTES ==>
      AfterQueue(used + [Seg(a, m, true)], page, large) == used + TailAfter(a, m, page + QUEUE_BYTES, HEADER_BYTES)
  {
    hide Search;
    DivModUnique(a, large, 0, a);
    TailServes(used, a, m, QUEUE_BYTES, QUEUE_BYTES, page, large);
    var r, g := Request(QUEUE_BYTES, QUEUE_BYTES), Geometry(page, large, HEADER_BYTES);
    if m >= page + QUEUE_BYTES { TailSearch(used, a, m, r, g); }
  }

  lemma ListsAtTail(used: seq<Seg>, a: nat, m: nat, page: nat, large: nat)
    requires AllUsed(used) && page > 0 && large > 0 && large % page == 0 && QUEUE_BYTES % page == 0
    requires a == 2 * (page + QUEUE_BYTES)
    ensures ListsFit(used + [Seg(a, m, true)], page, large) <==> m >= (POOL_LEN + 1) * page
  {
    Multiple(page, 1);
    MultiplesClosed(page, QUEUE_BYTES, page);
    MultiplesClosed(page + QUEUE_BYTES, page + QUEUE_BYTES, page);
    PagesInPlace(a, POOL_LEN * page, page, large);
    TailServes(used, a, m, POOL_LEN * page, page, page, large);
  }

  lemma SameLiveSameHeap(a: seq<Seg>, b: seq<Seg>, size: nat)
    requires Tiles(a, 0, size) && Tiles(b, 0, size) && Coalesced(a) && Coalesced(b) && Live(a) == Live(b)
    ensures a == b
  {
    SameLive(a, b, 0, size);
    Canonical(a, b, 0, size);
  }

  /** A payload range of a live block. */
  ghost predicate Payload(own: Seg, at: Place, ptr: nat) {
    ptr == at.virt + own.start + at.page && own.len >= at.page + QUEUE_BYTES
  }

  lemma UntouchedFewer(m: Memory, m': Memory, more: seq<Seg>, fewer: seq<Seg>, at: Place)
    requires Untouched(m, m', Used(more), at) && Live(fewer) <= Live(more)
    ensures Untouched(m, m', Used(fewer), at)
  {
    LiveIsUsed(more);
    LiveIsUsed(fewer);
    forall x: nat | InPayload(x, Used(fewer), at) ensures SameByte(m, m', x) {
      var b :| b in Used(fewer) && PayloadOf(x, b, at);
      assert b in Used(more);
    }
  }

  lemma ZeroKept(m: Memory, m': Memory, s: seq<Seg>, own: Seg, at: Place, ptr: nat)
    requires Zeroed(m, ptr) && Untouched(m, m', Used(s), at) && own in Live(s) && Payload(own, at, ptr)
    ensures Zeroed(m', ptr)
  {
    forall x: nat | ptr <= x < ptr + QUEUE_BYTES ensures ZeroAt(m', x) {
      OwnedPayload(s, own, at, x);
      assert ZeroAt(m, x) && SameByte(m, m', x);
    }
  }

  /** Writing inside one live block leaves the others' bytes alone. */
  lemma ClearElsewhere(m: Memory, m': Memory, ptr: nat, own: Seg, s0: seq<Seg>, s: seq<Seg>, at: Place, size: nat)
    requires Tiles(s, 0, size) && own !in Live(s0) && Live(s) == Live(s0) + {own} && Payload(own, at, ptr)
    requires forall x: nat :: !(ptr <= x < ptr + QUEUE_BYTES) ==> SameByte(m, m', x)
    ensures Untouched(m, m', Used(s0), at)
  {
    LiveIsUsed(s0);
    forall x: nat | InPayload(x, Used(s0), at) ensures SameByte(m, m', x) {
      var b :| b in Used(s0) && PayloadOf(x, b, at);
      assert b in Live(s) && own in Live(s);
      BlocksApart(s, b, own, size);
    }
  }

  lemma BlocksApart(s: seq<Seg>, a: Seg, b: Seg, size: nat)
    requires Tiles(s, 0, size) && a in s && b in s && a != b
    ensures Apart(a.start, a.len, b.start, b.len)
  {
    TilesBounds(s, 0, size);
    var i :| 0 <= i < |s| && s[i] == a;
    var j :| 0 <= j < |s| && s[j] == b;
    assert i < j || j < i;
  }

  lemma ListPageOk(v: View, prps: nat, page: nat, i: nat, own: Seg, size: nat)
    requires TableOf(v, v.base, size, page, v.Large())
    requires prps == v.base + own.start + page && own.len >= page + POOL_LEN * page && own.start + own.len <= size
    requires NoStraddle(prps - v.base, page, POOL_LEN, v.Large()) && i < POOL_LEN
    ensures v.Holds(prps + i * page) && PageOk(v, prps, page, i, prps + i * page, V2p(v, prps + i * page))
  {
    hide NoStraddle, V2p, Contig;
    ElementIsContig(v, prps, page, POOL_LEN, i, own, size, page);
  }

  lemma ListBytes(page: nat)
    requires page > 0 && QUEUE_BYTES % page == 0
    ensures WholePages(POOL_LEN, page, page) && POOL_LEN * page + page <= SIZE_MAX && WholePages(1, QUEUE_BYTES, page)
  {
    Multiple(page, POOL_LEN);
    Multiple(page, 1);
    MultipleGap(0, QUEUE_BYTES, page);
    assert QUEUE_BYTES == 1 * QUEUE_BYTES;
  }

  lemma OwnedPayload(s: seq<Seg>, own: Seg, at: Place, x: nat)
    requires own in Live(s) && PayloadOf(x, own, at)
    ensures InPayload(x, Used(s), at)
  {
    LiveIsUsed(s);
  }

  lemma OwnedInside(s: seq<Seg>, own: Seg, size: nat)
    requires Tiles(s, 0, size) && own in Live(s)
    ensures own.start + own.len <= size
  {
    TilesBounds(s, 0, size);
  }

  /** Every element of an array in an owned block is physically contiguous. */
  lemma ElementIsContig(v: View, ptr: nat, elem: nat, count: nat, i: nat, own: Seg, size: nat, page: nat)
    requires TableOf(v, v.base, size, v.Page(), v.Large())
    requires ptr == v.base + own.start + page && own.len >= page + count * elem && own.start + own.len <= size
    requires NoStraddle(ptr - v.base, elem, count, v.Large()) && i < count && elem > 0
    ensures v.Holds(ptr + i * elem) && Contig(v, ptr + i * elem, elem)
  {
    var p := ptr + i * elem;
    MulMonotone(i + 1, count, elem);
    assert (i + 1) * elem == i * elem + elem;
    hide NoStraddle, V2p, Vtp;
    forall d: nat | d < elem ensures ContigAt(v, p, d) {
      ElementContiguous(v, ptr, elem, count, i, d);
      ShiftMaskAgrees(v, p);
      ShiftMaskAgrees(v, p + d);
    }
  }

  /** The two queues and all the list pages are pairwise disjoint. */
  lemma NothingOverlaps(q: QueueMemory, i: nat, j: nat)
    requires q.Ready() && i < POOL_LEN && j < POOL_LEN
    ensures Apart(q.sq, QUEUE_BYTES, q.cq, QUEUE_BYTES)
    ensures Apart(q.prp[i], q.heap.pagesize, q.sq, QUEUE_BYTES) && Apart(q.prp[i], q.heap.pagesize, q.cq, QUEUE_BYTES)
    ensures i != j ==> Apart(q.prp[i], q.heap.pagesize, q.prp[j], q.heap.pagesize)
  {
    hide Tiles, OnPages, Describes, IsPow2, TableOf, Contig, V2p;
    var h := q.heap;
    BlocksApart(h.segs, q.ownSq, q.ownCq, h.size);
    BlocksApart(h.segs, q.ownSq, q.ownPrps, h.size);
    BlocksApart(h.segs, q.ownCq, q.ownPrps, h.size);
    assert q.ListPage(i) && q.ListPage(j);
    PageInside(i, h.pagesize);
    PageInside(j, h.pagesize);
    if i < j { MulMonotone(i + 1, j, h.pagesize); }
    if j < i { MulMonotone(j + 1, i, h.pagesize); }
  }

  lemma PageInside(i: nat, page: nat)
    requires i < POOL_LEN
    ensures (i + 1) * page == i * page + page <= POOL_LEN * page
  {
    MulMonotone(i + 1, POOL_LEN, page);
  }
}
