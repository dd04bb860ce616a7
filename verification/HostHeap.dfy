/**
 * The hugepage heap: block headers live in the heap itself, one page before each payload
 * (hostmem_heap.h). Addresses are absolute and 0 is NULL.
 */
module HostHeap {
  import opened Arith
  import opened Bits
  import opened Common
  import opened Segments
  import opened Allocator
  import opened HostMemory
  import opened HostPlacement

  class HostHeap {
    const virt: nat
    const size: nat
    const pagesize: nat
    const hugepgsz: nat
    var mem: Memory
    ghost var segs: seq<Seg>  // what the headers say about the heap

    ghost predicate Valid()
      reads this
    {
      Config() && Consistent()
    }

    ghost predicate Config() {
      && virt > 0 && size > 0 && hugepgsz > 0 && size % hugepgsz == 0
      && IsPow2(pagesize) && HEADER_BYTES < pagesize <= SIZE_MAX && hugepgsz % pagesize == 0
    }

    ghost predicate Consistent()
      reads this
    {
      && At().Valid()
      && Tiles(segs, 0, size) && OnPages(segs, pagesize) && Describes(mem, segs, At())
    }

    ghost function At(): Place { Place(virt, pagesize) }

    ghost function Shape(): Geometry { Geometry(pagesize, hugepgsz, HEADER_BYTES) }

    /** A single free block spanning the heap; `mem` is what the mapping holds. */
    constructor (virt: nat, size: nat, pagesize: nat, hugepgsz: nat, mem: Memory)
      requires virt > 0 && size > 0 && hugepgsz > 0 && size % hugepgsz == 0
      requires IsPow2(pagesize) && HEADER_BYTES < pagesize <= SIZE_MAX && hugepgsz % pagesize == 0
      ensures Valid() && segs == [Seg(0, size, true)]
      ensures this.virt == virt && this.size == size && this.pagesize == pagesize && this.hugepgsz == hugepgsz
    {
      this.virt, this.size, this.pagesize, this.hugepgsz := virt, size, pagesize, hugepgsz;
      this.mem := PutHeader(mem, virt, Header(size, true, 0));
      segs := [Seg(0, size, true)];
      new;
      hide Tiles, OnPages, Describes, PutHeader, IsPow2;
      FreshHeap(mem, Place(virt, pagesize), size, hugepgsz);
    }

    /** The user writes one byte of a live allocation. */
    method Store(x: nat, v: int)
      requires Valid() && InPayload(x, Used(segs), At())
      modifies this
      ensures Valid() && segs == old(segs) && mem.bytes == old(mem.bytes)[x := v]
    {
      PayloadStoreIsHarmless(mem, x, v, segs, At(), size);
      mem := PutByte(mem, x, v);
    }

    ghost predicate IsPayload(ptr: nat, i: nat)
      reads this
    {
      i < |segs| && !segs[i].free && ptr == virt + segs[i].start + pagesize
    }

    /** Free the block whose payload starts at `ptr`; NULL is ignored. */
    method Free(ptr: nat, ghost i: nat)
      requires Valid() && (ptr != 0 ==> IsPayload(ptr, i))
      modifies this
      ensures Valid()
      ensures segs == if ptr == 0 then old(segs) else Release(old(segs), old(segs)[i].start)
      ensures Untouched(old(mem), mem, Used(segs), At())
    {
      hide IsPow2, Tiles, OnPages, Describes, Untouched, MergeFrom, Merge, JoinAt, Used, MarkFree, Coalesced;
      ghost var m0, at := mem, At();
      UntouchedRefl(mem, Used(segs), at);
      if ptr == 0 { return; }
      var block := ptr - pagesize;
      MarkOne(segs, i, size);
      SetFree(block, true, i);
      ghost var s, m1 := segs, mem;
      MergeFromStart(s);
      MergeSound(s, 0, size);
      FirstHeader(mem, s, at, size);
      block := virt;
      ghost var k := 0;
      while mem.headers[block].next != 0
        invariant Consistent() && k < |segs| && block == virt + segs[k].start
        invariant HeaderOk(mem, segs, k, at)
        invariant MergeFrom(segs, k) == Merge(s) && Used(segs) == Used(s)
        invariant Untouched(m0, mem, Used(s), at)
        decreases |segs| - k
      {
        HeaderAt(mem, segs, k + 1, at);
        var next := mem.headers[block].next;
        if mem.headers[block].free && mem.headers[next].free {
          MergeFromJoin(segs, k);
          Join(block, k);
        } else {
          MergeFromKeep(segs, k);
          block := next;
          k := k + 1;
        }
      }
      MergeFromLast(segs, k);
    }

    /** `block->free = flag`. */
    method SetFree(block: nat, flag: bool, ghost i: nat)
      requires Consistent() && i < |segs| && block == virt + segs[i].start
      modifies this
      ensures Consistent() && segs == old(segs)[i := old(segs)[i].(free := flag)]
      ensures Untouched(old(mem), mem, Used(segs), At()) && Untouched(old(mem), mem, Used(old(segs)), At())
    {
      hide Tiles, OnPages, Describes, Untouched;
      ghost var at := At();
      FlagHeader(mem, segs, i, flag, at, size);
      var h := mem.headers[block].(free := flag);
      HeaderWriteIsHarmless(mem, block, h, segs, i, at, size);
      segs := segs[i := segs[i].(free := flag)];
      HeaderWriteIsHarmless(mem, block, h, segs, i, at, size);
      mem := PutHeader(mem, block, h);
    }

    /** Let the free block absorb its free successor. */
    method Join(block: nat, ghost k: nat)
      requires Consistent() && k + 1 < |segs| && block == virt + segs[k].start
      requires segs[k].free && segs[k + 1].free
      modifies this
      ensures Consistent() && segs == JoinAt(old(segs), k) && |segs| == |old(segs)| - 1 && block == virt + segs[k].start
      ensures HeaderOk(mem, segs, k, At()) && Used(segs) == Used(old(segs))
      ensures forall m, used :: used == Used(old(segs)) && Untouched(m, old(mem), used, At())
                ==> Untouched(m, mem, used, At())
    {
      hide Tiles, OnPages, Describes, Untouched, Used;
      ghost var at, m1 := At(), mem;
      JoinHeaders(mem, segs, k, at, size);
      JoinUsed(segs, k);
      var b := mem.headers[block];
      var n := mem.headers[b.next];
      var h := Header(b.size + pagesize + n.size, b.free, n.next);
      HeaderWriteIsHarmless(mem, block, h, segs, k, at, size);
      mem := PutHeader(mem, block, h);
      segs := JoinAt(segs, k);
      HeaderAt(mem, segs, k, at);
      forall m | Untouched(m, m1, Used(segs), at) ensures Untouched(m, mem, Used(segs), at) {
        UntouchedTransitive(m, m1, mem, Used(segs), at);
      }
    }

    /** Write a new header `cut` bytes into the free block and link it behind. */
    method SplitBlock(block: nat, cut: nat, ghost i: nat)
      requires Consistent() && i < |segs| && block == virt + segs[i].start && segs[i].free
      requires pagesize <= cut < segs[i].len && cut % pagesize == 0
      modifies this
      ensures Consistent() && segs == SplitAt(old(segs), i, cut) && |segs| == |old(segs)| + 1
      ensures block == virt + segs[i].start
      ensures HeaderOk(mem, segs, i, At()) && mem.headers[block].next == virt + segs[i + 1].start
      ensures forall m, used :: used == Used(old(segs)) && Untouched(m, old(mem), used, At())
                ==> Untouched(m, mem, used, At())
      ensures Used(segs) == Used(old(segs))
    {
      hide Tiles, OnPages, Describes, Untouched, Used;
      ghost var at, m0 := At(), mem;
      SplitHeaders(mem, segs, i, cut, at, size);
      SplitUsed(segs, i, cut);
      var b := mem.headers[block];
      var newblock := block + cut;
      var h1, h2 := Header(b.size - cut, true, b.next), Header(cut - pagesize, b.free, newblock);
      ghost var s' := SplitAt(segs, i, cut);
      HeaderWriteIsHarmless(mem, newblock, h1, s', i + 1, at, size);
      mem := PutHeader(mem, newblock, h1);
      ghost var m1 := mem;
      HeaderWriteIsHarmless(mem, block, h2, s', i, at, size);
      mem := PutHeader(mem, block, h2);
      segs := s';
      HeaderAt(mem, segs, i, at);
      forall m | Untouched(m, m0, Used(segs), at) ensures Untouched(m, mem, Used(segs), at) {
        UntouchedTransitive(m, m0, m1, Used(segs), at);
        UntouchedTransitive(m, m1, mem, Used(segs), at);
      }
    }

    /** Hand out `block`, returning what is left beyond a header to a new free block. */
    method Serve(block: nat, total: nat, ghost i: nat) returns (ptr: nat)
      requires Consistent() && i < |segs| && block == virt + segs[i].start && segs[i].free
      requires total % pagesize == 0 && StoredAt(segs, i, Shape()) >= total + pagesize
      modifies this
      ensures Consistent() && ptr == block + pagesize
      ensures var s := old(segs);
        var rest := StoredAt(s, i, Shape()) - total - pagesize;
        var t := if rest > HEADER_BYTES then SplitAt(s, i, pagesize + total) else s;
        segs == t[i := t[i].(free := false)]
      ensures forall m, used :: used == Used(old(segs)) && Untouched(m, old(mem), used, At())
                ==> Untouched(m, mem, used, At())
    {
      hide Tiles, OnPages, Describes, Untouched, Used;
      ghost var at, m0, used := At(), mem, Used(segs);
      HeaderAt(mem, segs, i, at);
      var remaining := mem.headers[block].size - total - pagesize;
      if remaining > HEADER_BYTES {
        WholeCut(total, pagesize);
        SplitBlock(block, pagesize + total, i);
      }
      ghost var m1 := mem;
      SetFree(block, false, i);
      forall m | Untouched(m, m0, used, at) ensures Untouched(m, mem, used, at) {
        UntouchedTransitive(m, m1, mem, used, at);
      }
      return block + pagesize;
    }

    /**
     * hostmem_heap_block_alloc_array: whole pages only, as every caller in the driver requests.
     * The result is NULL exactly when the search fails or the request is malformed.
     */
    method AllocArray(count: nat, elem: nat) returns (ptr: nat, errno: Errno)
      requires Valid() && count > 0 && 0 < elem <= SIZE_MAX && WholePages(count, elem, pagesize)
      requires count * elem + pagesize <= SIZE_MAX || count > SIZE_MAX / elem
      modifies this
      ensures Valid() && Untouched(old(mem), mem, Used(old(segs)), At())
      ensures count > SIZE_MAX / elem ==> ptr == 0 && errno == EINVAL && segs == old(segs)
      ensures count <= SIZE_MAX / elem && !Accepted(count, elem, hugepgsz)
              ==> ptr == 0 && errno == ENOMEM && segs == old(segs)
      ensures count <= SIZE_MAX / elem && Accepted(count, elem, hugepgsz) ==>
        var res := Search(old(segs), Whole(count, elem), Shape(), Unlimited);
        && segs == res.0
        && ptr == (if res.1.Granted? then virt + res.1.start + pagesize else 0)
        && errno == (if ptr == 0 then ENOMEM else Ok)
        && (ptr == 0 <==> !Servable(old(segs), Whole(count, elem), Shape()))
        && (ptr != 0 ==> NoStraddle(ptr - virt, elem, count, hugepgsz))
    {
      hide Tiles, OnPages, Describes, Untouched, Used, Search, NoStraddle, Servable;
      UntouchedRefl(mem, Used(segs), At());
      if count > SIZE_MAX / elem { return 0, EINVAL; }
      if elem > hugepgsz || (count * elem > hugepgsz && hugepgsz % elem != 0) { return 0, ENOMEM; }
      ghost var r, s := Whole(count, elem), segs;
      GrantedNotSkipped(s, r, Shape(), Unlimited);
      WholeIsRegular(count, elem, pagesize, hugepgsz);
      PagesAreGrid(s, Shape());
      GrantedIff(s, r, Shape());
      ptr := TakeFirstFit(count * elem, elem);
      errno := if ptr == 0 then ENOMEM else Ok;
      if ptr != 0 {
        ghost var start := Search(s, r, Shape(), Unlimited).1.start;
        UnskippedNoStraddle(start, r, Shape(), count);
      }
    }

    /** hostmem_dma_alloc_array: the public entry point, which rejects empty requests. */
    method DmaAllocArray(count: nat, elem: nat) returns (ptr: nat, errno: Errno, ghost own: Seg)
      requires Valid() && elem <= SIZE_MAX && (elem > 0 ==> WholePages(count, elem, pagesize))
      requires count * elem + pagesize <= SIZE_MAX || (elem > 0 && count > SIZE_MAX / elem)
      modifies this
      ensures Valid() && Untouched(old(mem), mem, Used(old(segs)), At())
      ensures (ptr == 0) == (errno != Ok)
      ensures errno == EINVAL <==> count == 0 || elem == 0 || count > SIZE_MAX / elem
      ensures errno in {Ok, EINVAL, ENOMEM}
      ensures ptr == 0 ==> Live(segs) == Live(old(segs))
      ensures ptr != 0 ==> Owns(ptr, own, count * elem)
      ensures ptr != 0 ==> own !in Live(old(segs)) && Live(segs) == Live(old(segs)) + {own}
      ensures ptr != 0 ==> NoStraddle(ptr - virt, elem, count, hugepgsz)
      ensures count > 0 && elem > 0 && count <= SIZE_MAX / elem && Accepted(count, elem, hugepgsz) ==>
        && (ptr == 0 <==> NoneServes(old(segs), count * elem, elem, pagesize, hugepgsz))
        && (ptr != 0 ==> exists k: nat :: FirstServes(old(segs), k, own.start, count * elem, elem, pagesize, hugepgsz))
        && segs == Search(old(segs), Whole(count, elem), Shape(), Unlimited).0
        && (ptr == 0 <==> !Servable(old(segs), Whole(count, elem), Shape()))
      ensures ptr != 0 ==> elem > 0 && Accepted(count, elem, hugepgsz) && TakesExactly(own, count * elem)
      ensures hugepgsz > 0 && (ptr != 0 <==>
        && count > 0 && 0 < elem <= hugepgsz && count <= SIZE_MAX / elem
        && (count * elem <= hugepgsz || hugepgsz % elem == 0)
        && !NoneServes(old(segs), count * elem, elem, pagesize, hugepgsz))
    {
      hide Tiles, OnPages, Describes, Untouched, Used, Search, NoStraddle, Live, Servable, NoneServes, FirstServes;
      own := Seg(0, 0, true);
      UntouchedRefl(mem, Used(segs), At());
      if elem == 0 || count == 0 { return 0, EINVAL, own; }
      ghost var s := segs;
      ptr, errno := AllocArray(count, elem);
      if count <= SIZE_MAX / elem && Accepted(count, elem, hugepgsz) {
        own := ArrayOutcome(s, count, elem, pagesize, hugepgsz, size);
      }
    }

    /** The block's length: the payload and its header; or a page more, and then it is not the last block. */
    ghost predicate TakesExactly(own: Seg, n: nat) {
      own.len == pagesize + n || (own.len == 2 * pagesize + n && own.start + own.len < size)
    }

    /** hostmem_dma_malloc: whole pages, at least `nbytes`, each page inside one hugepage. */
    method DmaMalloc(nbytes: nat) returns (ptr: nat, errno: Errno, ghost own: Seg)
      requires Valid() && nbytes + 2 * pagesize <= SIZE_MAX
      modifies this
      ensures Valid() && Untouched(old(mem), mem, Used(old(segs)), At())
      ensures (ptr == 0) == (errno != Ok)
      ensures errno == EINVAL <==> nbytes == 0
      ensures errno in {Ok, EINVAL, ENOMEM}
      ensures ptr == 0 ==> Live(segs) == Live(old(segs))
      ensures ptr != 0 ==> Owns(ptr, own, nbytes) && own !in Live(old(segs)) && Live(segs) == Live(old(segs)) + {own}
      ensures ptr != 0 ==> exists count: nat :: nbytes <= count * pagesize < nbytes + pagesize
                                                && NoStraddle(ptr - virt, pagesize, count, hugepgsz)
      ensures pagesize > 0 && (nbytes > 0 ==>
        var n := RoundUp(nbytes, pagesize);
        && nbytes <= n < nbytes + pagesize && n % pagesize == 0
        && (ptr == 0 <==> NoneHolds(old(segs), n))
        && (ptr != 0 ==> TakesExactly(own, n) && exists k: nat :: FirstHolds(old(segs), k, own.start, n)))
      ensures old(segs) == [Seg(0, size, true)] ==>
        (0 < nbytes && nbytes + 2 * pagesize <= size ==> ptr == virt + pagesize)
    {
      hide Tiles, OnPages, Describes, Untouched, Used, NoStraddle, Live, RoundUp, WholePages, NoneServes, FirstServes,
        NoneHolds, FirstHolds, Search, Servable, TakesExactly, Accepted, IsPow2, HeaderSize, Owns;
      own := Seg(0, 0, true);
      UntouchedRefl(mem, Used(segs), At());
      if nbytes == 0 { return 0, EINVAL, own; }
      RoundUpBounds(nbytes, pagesize);
      var total := RoundUp(nbytes, pagesize);
      var count := total / pagesize;
      CountOf(total, pagesize, hugepgsz);
      PagesHeld(segs, total);
      FreshHolds(total);
      ptr, errno, own := DmaAllocArray(count, pagesize);
      assert count * pagesize == total;
      if ptr != 0 { OwnsLess(ptr, own, total, nbytes); }
    }

    lemma OwnsLess(ptr: nat, own: Seg, n: nat, less: nat)
      requires Owns(ptr, own, n) && less <= n
      ensures Owns(ptr, own, less) && ptr == virt + own.start + pagesize
    {
    }

    /** In numbers: no free block has room for `n` bytes and a header. */
    ghost predicate NoneHolds(s: seq<Seg>, n: nat) {
      forall i: nat :: i < |s| && s[i].free ==> HeaderSize(s, i, pagesize) < n + pagesize
    }

    /** The lowest free block with room for them, taken from its front. */
    ghost predicate FirstHolds(s: seq<Seg>, k: nat, at: nat, n: nat) {
      && k < |s| && s[k].free && HeaderSize(s, k, pagesize) >= n + pagesize && at == s[k].start
      && forall j: nat :: j < k && s[j].free ==> HeaderSize(s, j, pagesize) < n + pagesize
    }

    lemma PagesHeld(s: seq<Seg>, n: nat)
      requires Config() && OnPages(s, pagesize)
      ensures NoneServes(s, n, pagesize, pagesize, hugepgsz) <==> NoneHolds(s, n)
      ensures forall k: nat, at: nat ::
        FirstServes(s, k, at, n, pagesize, pagesize, hugepgsz) <==> FirstHolds(s, k, at, n)
    {
      hide CanServe, ServedAt, HeaderSize;
      forall i: nat | i < |s|
        ensures CanServe(s, i, n, pagesize, pagesize, hugepgsz)
                <==> s[i].free && HeaderSize(s, i, pagesize) >= n + pagesize
        ensures ServedAt(s[i].start, n, pagesize, pagesize, hugepgsz) == s[i].start
      {
        PageServes(s, i, n, pagesize, hugepgsz);
      }
    }

    lemma FreshHolds(n: nat)
      requires Config()
      ensures var s := [Seg(0, size, true)];
        n + pagesize <= size ==> !NoneHolds(s, n) && forall k: nat, at: nat :: FirstHolds(s, k, at, n) ==> at == 0
    {
      var s := [Seg(0, size, true)];
      assert s[0].free && HeaderSize(s, 0, pagesize) == size;
    }

    /** `own` is a live block whose payload starts at `ptr` and holds at least `nbytes`. */
    ghost predicate Owns(ptr: nat, own: Seg, nbytes: nat)
      reads this
    {
      own in Live(segs) && ptr == virt + own.start + pagesize && own.len >= pagesize + nbytes
    }

    /** hostmem_dma_free on a live block, or on NULL. */
    method DmaFree(ptr: nat, ghost own: Seg)
      requires Valid() && (ptr != 0 ==> Owns(ptr, own, 0))
      modifies this
      ensures Valid() && Untouched(old(mem), mem, Used(segs), At())
      ensures ptr == 0 ==> segs == old(segs)
      ensures ptr != 0 ==> Coalesced(segs) && Live(segs) == Live(old(segs)) - {own}
    {
      hide Tiles, OnPages, Describes, Untouched, Used, Release, Coalesced;
      ghost var i: nat := 0;
      if ptr != 0 {
        i :| i < |segs| && segs[i] == own;
        ReleaseLive(segs, own, 0, size);
      }
      Free(ptr, i);
    }

    method TakeFirstFit(total: nat, elem: nat) returns (ptr: nat)
      requires Valid() && 0 < elem <= total && total % pagesize == 0
      requires elem % pagesize == 0 || pagesize % elem == 0
      modifies this
      ensures Valid() && Untouched(old(mem), mem, Used(old(segs)), At())
      ensures var res := Search(old(segs), Request(total, elem), Shape(), Unlimited);
        && segs == res.0 && ptr == (if res.1.Granted? then virt + res.1.start + pagesize else 0)
        && (res.1.Granted? ==> Room(res.1.start, Shape()) >= pagesize)
    {
      hide IsPow2, Tiles, OnPages, Describes, Untouched, Used, Search, Under, SplitAt, Misfit,
        MustSkip, Total, WholePages;
      ghost var r, g, at := Request(total, elem), Shape(), At();
      ghost var m0, used := mem, Used(segs);
      UntouchedRefl(mem, used, at);
      UnderStart(segs, r, g, Unlimited);
      FirstHeader(mem, segs, at, size);
      ghost var res := Search(segs, r, g, Unlimited);
      ghost var i := 0;
      var block := virt;
      while block != 0
        invariant Consistent() && i <= |segs| && Used(segs) == used
        invariant block == (if i < |segs| then virt + segs[i].start else 0)
        invariant res == Under(segs, i, r, g, Unlimited)
        invariant Untouched(m0, mem, used, at)
        decreases Total(segs[i..]), |segs| - i
      {
        HeaderAt(mem, segs, i, at);
        PageRoom(segs, i, r, g);
        var b := mem.headers[block];
        if b.free && b.size >= total + pagesize {
          var inHpageOffset := (block - virt) % hugepgsz;
          var hpageRemaining := hugepgsz - inHpageOffset;
          var disalignment := (hpageRemaining - pagesize) % elem;
          if hpageRemaining < total + pagesize && disalignment != 0 {
            UnderSkip(segs, i, r, g, Unlimited, 0, size);
            SplitBlock(block, pagesize + disalignment, i);
            block := mem.headers[block].next;
            i := i + 1;
            continue;
          }
          UnderTake(segs, i, r, g, Unlimited);
          ptr := Serve(block, total, i);
          return;
        }
        UnderPass(segs, i, r, g, Unlimited);
        block := b.next;
        i := i + 1;
      }
      UnderEnd(segs, r, g, Unlimited);
      return 0;
    }
  }

  /** Whole pages in total, and elements that line up with pages. */
  predicate WholePages(count: nat, elem: nat, page: nat)
    requires elem > 0 && page > 0
  {
    (count * elem) % page == 0 && (elem % page == 0 || page % elem == 0)
  }

  lemma WholeCount(total: nat, page: nat)
    requires page > 0 && total % page == 0 && total > 0
    ensures total / page > 0 && total / page * page == total && WholePages(total / page, page, page)
  {
    assert total == page * (total / page) + total % page;
    Multiple(page, 1);
  }

  ghost function Whole(count: nat, elem: nat): (r: Request)
    requires count > 0 && elem > 0
    ensures r.Valid() && r.elem == elem && r.total == count * elem
  {
    MulAtLeast(count, elem);
    Request(count * elem, elem)
  }

  /** What the callers request is regular: whole pages, of elements that line up with pages. */
  lemma WholeIsRegular(count: nat, elem: nat, page: nat, large: nat)
    requires count > 0 && elem > 0 && page > 0 && large > 0 && large % page == 0
    requires WholePages(count, elem, page) && Accepted(count, elem, large)
    ensures Regular(Whole(count, elem), Geometry(page, large, HEADER_BYTES))
  {
    hide Regular;
    MulAtLeast(count, elem);
    TotalLeavesPage(count * elem, count, elem, page, large);
    ElementAndPage(elem, page);
    RegularOf(Whole(count, elem), Geometry(page, large, HEADER_BYTES));
  }

  /** What an accepted array allocation of whole pages comes to. */
  lemma ArrayOutcome(s: seq<Seg>, count: nat, elem: nat, page: nat, large: nat, size: nat) returns (own: Seg)
    requires count > 0 && elem > 0 && large > 0 && HEADER_BYTES < page && large % page == 0
    requires WholePages(count, elem, page) && Accepted(count, elem, large) && Tiles(s, 0, size) && OnPages(s, page)
    requires OnPages(Search(s, Whole(count, elem), Geometry(page, large, HEADER_BYTES), Unlimited).0, page)
    ensures var (t, out) := Search(s, Whole(count, elem), Geometry(page, large, HEADER_BYTES), Unlimited);
      if out.Granted? then
        && own.start == out.start && own in Live(t) && own !in Live(s) && Live(t) == Live(s) + {own}
        && (own.len == page + count * elem || (own.len == 2 * page + count * elem && own.start + own.len < size))
        && (exists k: nat :: FirstServes(s, k, own.start, count * elem, elem, page, large))
        && !NoneServes(s, count * elem, elem, page, large)
      else Live(t) == Live(s) && NoneServes(s, count * elem, elem, page, large)
  {
    hide Search, Tiles, OnPages, Live, FirstServes, WholePages, Accepted, Used;
    own := Seg(0, 0, true);
    var r, g := Whole(count, elem), Geometry(page, large, HEADER_BYTES);
    var (t, out) := Search(s, r, g, Unlimited);
    WholeIsRegular(count, elem, page, large);
    PagesAreGrid(s, g);
    var k := SearchServes(s, r, g);
    SearchSound(s, r, g, Unlimited, 0, size);
    if out.Granted? {
      SomeServes(s, k, out.start, count * elem, elem, page, large);
      own := GrantedSeg(s, r, g, Unlimited, 0, size);
      LiveOnPages(t, own, page);
      TotalPages(count, elem, page);
      TakenLength(own.len, count * elem, page, HEADER_BYTES, own.start + own.len == size);
    } else {
      LiveIsUsed(s);
      LiveIsUsed(t);
      hide NoneServes;
    }
  }

  lemma CountOf(total: nat, page: nat, large: nat)
    requires 0 < page && large > 0 && large % page == 0 && 0 < total <= SIZE_MAX && total % page == 0
    ensures 0 < total / page <= SIZE_MAX / page && total / page * page == total
    ensures WholePages(total / page, page, page) && Accepted(total / page, page, large)
  {
    WholeCount(total, page);
    PageCountFits(total / page, page, total);
    PagesAccepted(total / page, page, large);
  }

  lemma PagesAccepted(count: nat, page: nat, large: nat)
    requires page > 0 && large > 0 && large % page == 0
    ensures Accepted(count, page, large)
  {
    MultipleGap(0, large, page);
  }

  lemma SomeServes(s: seq<Seg>, k: nat, at: nat, total: nat, elem: nat, page: nat, large: nat)
    requires elem > 0 && large > 0 && FirstServes(s, k, at, total, elem, page, large)
    ensures !NoneServes(s, total, elem, page, large)
  {
  }

  lemma TotalPages(count: nat, elem: nat, page: nat)
    requires elem > 0 && page > 0 && WholePages(count, elem, page)
    ensures count * elem >= 0 && (count * elem) % page == 0
  {
  }

  lemma RegularOf(r: Request, g: Geometry)
    requires r.Valid() && g.Valid() && g.header > 0 && g.large % g.header == 0
    requires r.total + g.header <= g.large || g.large % r.elem == 0
    requires g.header < r.elem || g.header % r.elem == 0
    ensures Regular(r, g)
  {
  }

  lemma TotalLeavesPage(total: nat, count: nat, elem: nat, page: nat, large: nat)
    requires elem > 0 && page > 0 && large > 0 && total == count * elem && total % page == 0 && large % page == 0
    requires total <= large || large % elem == 0
    ensures total + page <= large || large % elem == 0
  {
    if total < large { MultipleGap(total, large, page); }
    if total == large { Multiple(elem, count); }
  }

  lemma ElementAndPage(elem: nat, page: nat)
    requires elem > 0 && page > 0 && (elem % page == 0 || page % elem == 0)
    ensures page < elem || page % elem == 0
  {
    if elem % page == 0 { MultipleGap(0, elem, page); }
    if elem == page { Multiple(page, 1); }
  }

  lemma PagesAreGrid(s: seq<Seg>, g: Geometry)
    requires g.header > 0 && OnPages(s, g.header)
    ensures OnHeaderGrid(s, g)
  {
  }

  lemma FreshHeap(mem: Memory, at: Place, size: nat, large: nat)
    requires at.Valid() && size > 0 && large > 0 && size % large == 0 && large % at.page == 0
    ensures var segs := [Seg(0, size, true)];
      && Tiles(segs, 0, size) && OnPages(segs, at.page)
      && Describes(PutHeader(mem, at.virt, Header(size, true, 0)), segs, at)
  {
    MultipleOfMultiple(size, large, at.page);
    Multiple(at.page, 0);
    assert [Seg(0, size, true)][1..] == [];
  }

  lemma UntouchedRefl(m: Memory, used: seq<Seg>, at: Place)
    ensures Untouched(m, m, used, at)
  {
  }

  lemma HeaderAt(m: Memory, s: seq<Seg>, k: nat, at: Place)
    requires Describes(m, s, at) && k < |s|
    ensures HeaderOk(m, s, k, at)
  {
  }

  lemma FirstHeader(m: Memory, s: seq<Seg>, at: Place, size: nat)
    requires Describes(m, s, at) && Tiles(s, 0, size) && size > 0
    ensures |s| > 0 && s[0].start == 0 && HeaderOk(m, s, 0, at)
  {
  }

  /** Marking by address marks exactly the block there. */
  lemma MarkOne(s: seq<Seg>, i: nat, size: nat)
    requires Tiles(s, 0, size) && i < |s|
    ensures MarkFree(s, s[i].start) == s[i := s[i].(free := true)]
  {
    assert s == s[..i] + [s[i]] + s[i + 1..];
    MarkFreeUsed(s[..i], s[i], s[i + 1..], 0, size);
  }

  lemma {:induction false} JoinUsed(s: seq<Seg>, k: nat)
    requires k + 1 < |s| && s[k].free && s[k + 1].free
    ensures Used(JoinAt(s, k)) == Used(s)
  {
    var t := JoinAt(s, k);
    if k == 0 {
      assert t[1..] == s[1..][1..];
    } else {
      JoinUsed(s[1..], k - 1);
      assert t[1..] == JoinAt(s[1..], k - 1);
    }
  }

  lemma {:induction false} SplitUsed(s: seq<Seg>, i: nat, cut: nat)
    requires i < |s| && s[i].free && cut <= s[i].len
    ensures Used(SplitAt(s, i, cut)) == Used(s)
  {
    var t := SplitAt(s, i, cut);
    if i == 0 {
      assert t[1..][1..] == s[1..];
    } else {
      SplitUsed(s[1..], i - 1, cut);
      assert t[1..] == SplitAt(s[1..], i - 1, cut);
    }
  }

  lemma WholeCut(total: nat, page: nat)
    requires page > 0 && total % page == 0
    ensures (page + total) % page == 0
  {
    Multiple(page, 1);
    MultiplesClosed(page, total, page);
  }

  /** On the page grid the skip arithmetic neither wraps nor leaves the grid. */
  lemma PageRoom(s: seq<Seg>, i: nat, r: Request, g: Geometry)
    requires r.Valid() && g.Valid() && g.header > 0 && g.large % g.header == 0 && i < |s|
    requires OnPages(s, g.header) && (r.elem % g.header == 0 || g.header % r.elem == 0)
    ensures Room(s[i].start, g) >= g.header
    ensures Misfit(s[i].start, r, g) == (Room(s[i].start, g) - g.header) % r.elem
    ensures MustSkip(s[i].start, r, g) <==> Room(s[i].start, g) < r.total + g.header && Misfit(s[i].start, r, g) != 0
    ensures (g.header + Misfit(s[i].start, r, g)) % g.header == 0
  {
    var start, p := s[i].start, g.header;
    var room := Room(start, g);
    assert s[i].start % p == 0;
    RemainderOfRemainder(start, g.large, p);
    MultiplesClosed(g.large, start % g.large, p);
    MultipleGap(0, room, p);
    Multiple(p, 1);
    MultiplesClosed(room, p, p);
    if r.elem % p == 0 {
      RemainderOfRemainder(room - p, r.elem, p);
    } else {
      MultipleOfMultiple(room - p, p, r.elem);
    }
    MultiplesClosed(p, Misfit(start, r, g), p);
  }
}
