/**
 * The CUDA heap: a linked list of blocks kept in host memory (cudamem_heap.h).
 *
 * Addresses are absolute and 0 is NULL. `segs` reads the list as segments of the heap; every
 * operation is tied to the search and release of modules Allocator and Segments, where the
 * promises about whole runs are proved.
 */
module CudaHeap {
  import opened Arith
  import opened Bits
  import opened Common
  import opened Segments
  import opened Allocator
  import opened Placement

  class Node {
    const vaddr: nat
    var size: nat
    var free: bool
    var next: Node?

    constructor (vaddr: nat, size: nat, free: bool, next: Node?)
      ensures this.vaddr == vaddr && this.size == size && this.free == free && this.next == next
    {
      this.vaddr, this.size, this.free, this.next := vaddr, size, free, next;
    }
  }

  /** `ns` is a null-terminated list of distinct nodes holding exactly the segments `s`. */
  ghost predicate Holds(ns: seq<Node>, s: seq<Seg>, base: nat)
    reads ns
  {
    && |ns| == |s|
    && (forall i, j :: 0 <= i < j < |ns| ==> ns[i] != ns[j])
    && (forall i {:trigger ns[i].next} :: 0 <= i < |ns| ==> ns[i].next == if i == |ns| - 1 then null else ns[i + 1])
    && (forall i :: 0 <= i < |ns| ==>
          ns[i].vaddr == base + s[i].start && ns[i].size == s[i].len && ns[i].free == s[i].free)
  }

  class CudaHeap {
    const vaddr: nat
    const size: nat
    const pagesize: nat
    const devicePagesize: nat
    var freelist: Node
    ghost var nodes: seq<Node>
    ghost var segs: seq<Seg>  // what the list says about the heap
    ghost var Repr: set<Node>

    ghost predicate Valid()
      reads this, Repr
    {
      && Linked()
      && vaddr > 0 && devicePagesize > 0 && size > 0
      && IsPow2(pagesize) && pagesize <= SIZE_MAX
      && Tiles(segs, 0, size)
    }

    ghost predicate Linked()
      reads this, Repr
    {
      && |nodes| > 0 && nodes[0] == freelist
      && (forall i :: 0 <= i < |nodes| ==> nodes[i] in Repr)
      && Holds(nodes, segs, vaddr)
    }

    ghost function Shape(): Geometry { Geometry(0, devicePagesize, 0) }

    /** One free block spanning the heap (cudamem_heap_init, after the driver calls succeeded). */
    constructor (vaddr: nat, size: nat, pagesize: nat, devicePagesize: nat)
      requires vaddr > 0 && size > 0 && devicePagesize > 0 && IsPow2(pagesize) && pagesize <= SIZE_MAX
      ensures Valid() && fresh(Repr) && segs == [Seg(0, size, true)]
      ensures this.size == size && this.vaddr == vaddr
      ensures this.pagesize == pagesize && this.devicePagesize == devicePagesize
    {
      this.vaddr, this.size, this.pagesize, this.devicePagesize := vaddr, size, pagesize, devicePagesize;
      var n := new Node(vaddr, size, true, null);
      freelist := n;
      nodes, segs, Repr := [n], [Seg(0, size, true)], {n};
      new;
      assert segs[1..] == [];
    }

    method Free(ptr: nat)
      requires Valid()
      modifies this, Repr
      ensures Valid() && Repr == old(Repr)
      ensures segs == if ptr == 0 then old(segs) else Freed(old(segs), ptr, vaddr)
      ensures ptr != 0 ==> Coalesced(segs)
      ensures forall x :: x in Live(segs) <==> x in Live(old(segs)) && vaddr + x.start != ptr
    {
      hide Live, Coalesced, Freed, FreedFrom, Tiles, JoinAt, MarkTwo, Marked;
      if ptr == 0 { return; }
      FreedLive(segs, ptr, vaddr, size);
      var block: Node? := freelist;
      ghost var i := 0;
      ghost var target := Freed(segs, ptr, vaddr);
      FreedFromStart(segs, ptr, vaddr);
      while block != null && block.next != null
        invariant Linked() && Tiles(segs, 0, size)
        invariant Repr == old(Repr)
        invariant 0 <= i < |nodes| && block == nodes[i]
        invariant target == FreedFrom(segs, i, ptr, vaddr)
        decreases |nodes| - i
      {
        ghost var s := segs;
        assert nodes[i].next == nodes[i + 1];
        StartsDiffer(s, i, size);
        MarkPair(block, ptr, i);
        if block.free && block.next.free {
          FreedJoin(s, i, ptr, vaddr, size);
          Join(block, i);
        } else {
          FreedKeep(s, i, ptr, vaddr, size);
          block := block.next;
          i := i + 1;
        }
      }
      FreedLast(segs, i, ptr, vaddr, size);
      MarkLast(block, ptr, i);
    }

    /** The loop above never looks at the last block as a block to free. */
    method MarkLast(block: Node, ptr: nat, ghost i: nat)
      requires Linked() && i + 1 == |nodes| && nodes[i] == block
      modifies this`segs, block`free
      ensures Linked() && segs == old(segs)[i := Marked(old(segs)[i], ptr, vaddr)]
    {
      if block.vaddr == ptr {
        block.free := true;
      }
      segs := segs[i := Marked(segs[i], ptr, vaddr)];
    }

    /** Mark `block` or its successor free if it is the one at `ptr`. */
    method MarkPair(block: Node, ptr: nat, ghost i: nat)
      requires Linked() && i + 1 < |nodes| && nodes[i] == block && nodes[i + 1] == block.next
      requires segs[i].start != segs[i + 1].start
      modifies this`segs, block`free, block.next`free
      ensures Linked() && segs == MarkTwo(old(segs), i, ptr, vaddr)
    {
      hide MarkTwo;
      if block.vaddr == ptr {
        block.free := true;
      } else if block.next.vaddr == ptr {
        block.next.free := true;
      }
      segs := MarkTwo(segs, i, ptr, vaddr);
    }

    /** Let `block` absorb its successor. */
    method Join(block: Node, ghost i: nat)
      requires Linked() && i + 1 < |nodes| && nodes[i] == block && nodes[i + 1] == block.next && block.free
      modifies this`nodes, this`segs, block`size, block`next
      ensures Linked() && nodes == RemoveAt(old(nodes), i + 1)
      ensures segs == JoinAt(old(segs), i)
    {
      hide JoinAt, RemoveAt;
      var tmp := block.next;
      block.size := block.size + tmp.size;
      block.next := tmp.next;
      nodes := RemoveAt(nodes, i + 1);
      segs := JoinAt(segs, i);
    }

    /** Cut `block` after `at` bytes and link a new free node for the rest behind it. */
    method Split(block: Node, at: nat, ghost i: nat)
      requires Linked() && i < |nodes| && nodes[i] == block && at <= block.size
      modifies this`nodes, this`segs, this`Repr, block`size, block`next
      ensures Linked() && |nodes| == |old(nodes)| + 1 && fresh(nodes[i + 1])
      ensures nodes == InsertAt(old(nodes), i + 1, nodes[i + 1])
      ensures segs == SplitAt(old(segs), i, at) && Repr == old(Repr) + {nodes[i + 1]}
    {
      hide InsertAt, SplitAt;
      ghost var before := nodes;
      var newblock := new Node(block.vaddr + at, block.size - at, true, block.next);
      block.next := newblock;
      block.size := at;
      nodes := InsertAt(nodes, i + 1, newblock);
      segs, Repr := SplitAt(segs, i, at), Repr + {newblock};
      forall k | 0 <= k < |nodes|
        ensures nodes[k] in Repr && nodes[k].next == if k == |nodes| - 1 then null else nodes[k + 1]
        ensures nodes[k].vaddr == vaddr + segs[k].start && nodes[k].size == segs[k].len && nodes[k].free == segs[k].free
      {
        if k <= i { assert nodes[k] == before[k]; }
        if k > i + 1 { assert nodes[k] == before[k - 1]; }
      }
    }

    /**
     * Allocate `count` elements of `elem` bytes; `budget` is how many list nodes can still be
     * allocated. The result is NULL exactly when the search fails or the request is malformed.
     */
    method AllocArrayAligned(count: nat, elem: nat, align: nat, budget: Budget)
      returns (ptr: nat, errno: Errno, ghost own: Seg)
      requires Valid() && count > 0 && 0 < elem <= SIZE_MAX && IsPow2(align) && align <= SIZE_MAX
      requires count * elem + align - 1 <= SIZE_MAX || count > SIZE_MAX / elem
      modifies this, Repr
      ensures Valid() && fresh(Repr - old(Repr))
      ensures count > SIZE_MAX / elem ==> ptr == 0 && errno == EINVAL && segs == old(segs)
      ensures count <= SIZE_MAX / elem && !Accepted(count, elem, devicePagesize)
              ==> ptr == 0 && errno == ENOMEM && segs == old(segs)
      ensures count <= SIZE_MAX / elem && Accepted(count, elem, devicePagesize) ==>
        var res := Search(old(segs), Padded(count, elem, align), Shape(), budget);
        && segs == res.0
        && ptr == (if res.1.Granted? then vaddr + res.1.start else 0)
        && errno == (if ptr == 0 then ENOMEM else Ok)
        && (ptr == 0 <==> res.1.NoNode? || !Servable(old(segs), Padded(count, elem, align), Shape()))
        && (ptr != 0 ==> NoStraddle(ptr - vaddr, elem, count, devicePagesize))
      ensures ptr != 0 ==> count <= SIZE_MAX / elem && count * elem <= own.len < count * elem + align
                           && own.len % align == 0 && Takes(old(segs), ptr, own, elem)
      ensures ptr == 0 && count <= SIZE_MAX / elem && Accepted(count, elem, devicePagesize) && budget == Unlimited ==>
        forall n: nat :: count * elem <= n < count * elem + align && n % align == 0 ==>
          NoPlace(old(segs), n, elem, devicePagesize)
    {
      hide Search, Servable, MustSkip, NoStraddle, Tiles, RoundUp, NoPlace, LowestPlace, KeepsRest, Live;
      own := Seg(0, 0, true);
      if count > SIZE_MAX / elem { return 0, EINVAL, own; }
      if elem > devicePagesize || (count * elem > devicePagesize && devicePagesize % elem != 0) {
        return 0, ENOMEM, own;
      }
      own := ArrayOutcome(segs, count, elem, align, devicePagesize, budget, size);
      ptr := TakeFirstFit(RoundUp(count * elem, align), elem, budget);
      errno := if ptr == 0 then ENOMEM else Ok;
    }

    /** The grant in numbers: of the old heap's places the lowest, and exactly `own` more in use. */
    ghost predicate Takes(before: seq<Seg>, ptr: nat, own: Seg, elem: nat)
      reads this
      requires elem > 0 && devicePagesize > 0
    {
      && ptr == vaddr + own.start && !own.free && own !in Live(before) && Live(segs) == Live(before) + {own}
      && LowestPlace(before, own.start, own.len, elem, devicePagesize) && KeepsRest(before, segs, own)
    }

    /** Two allocations in a fresh heap lie side by side, if they fit and are in place there. */
    method AllocTwice(count: nat, elem: nat, more: nat, moreElem: nat, ghost n: nat, ghost m: nat)
      returns (ptr: nat, ptr2: nat)
      requires Valid() && segs == [Seg(0, size, true)] && pagesize > 0
      requires count > 0 && 0 < elem <= SIZE_MAX && Accepted(count, elem, devicePagesize)
      requires more > 0 && 0 < moreElem <= SIZE_MAX && Accepted(more, moreElem, devicePagesize)
      requires count * elem <= n < count * elem + pagesize && n % pagesize == 0
      requires more * moreElem <= m < more * moreElem + pagesize && m % pagesize == 0
      requires n + m <= size && count * elem + pagesize <= SIZE_MAX && more * moreElem + pagesize <= SIZE_MAX
      requires InPlace(0, n, elem, devicePagesize) && InPlace(n, m, moreElem, devicePagesize)
      modifies this, Repr
      ensures Valid() && ptr == vaddr && ptr2 == vaddr + n
    {
      hide InPlace, RangeFree, Live, Used, Adds, NoStraddle, Servable, Tiles, NoPlace, LowestPlace;
      ghost var own, own2, errno;
      MulAtLeast(count, elem);
      MulAtLeast(more, moreElem);
      NoOverflow(count, elem);
      NoOverflow(more, moreElem);
      OneMultiple(count * elem, pagesize, n);
      OneMultiple(more * moreElem, pagesize, m);
      FreshPlace(size, n, m, elem, devicePagesize);
      ptr, errno, own := DmaAllocArray(count, elem, Unlimited);
      assert RestKept([Seg(0, size, true)], segs, own, m);
      PlaceBehind(segs, own, m, moreElem, devicePagesize, size);
      ptr2, errno, own2 := DmaAllocArray(more, moreElem, Unlimited);
    }

    /** cudamem_dma_alloc_array: the public entry point, which rejects empty requests. */
    method DmaAllocArray(count: nat, elem: nat, budget: Budget) returns (ptr: nat, errno: Errno, ghost own: Seg)
      requires Valid() && elem <= SIZE_MAX
      requires count * elem + pagesize - 1 <= SIZE_MAX || (elem > 0 && count > SIZE_MAX / elem)
      modifies this, Repr
      ensures Valid() && fresh(Repr - old(Repr))
      ensures (ptr == 0) == (errno != Ok)
      ensures errno == EINVAL <==> count == 0 || elem == 0 || count > SIZE_MAX / elem
      ensures errno in {Ok, EINVAL, ENOMEM}
      ensures ptr == 0 ==> Used(segs) == Used(old(segs)) && Live(segs) == Live(old(segs))
      ensures ptr != 0 ==> ptr >= vaddr && Adds(Used(old(segs)), segs, ptr - vaddr, count * elem)
                           && NoStraddle(ptr - vaddr, elem, count, devicePagesize)
      ensures ptr != 0 ==> elem > 0 && count * elem <= own.len < count * elem + pagesize && own.len % pagesize == 0
                           && Accepted(count, elem, devicePagesize) && Takes(old(segs), ptr, own, elem)
      ensures devicePagesize > 0 && (ptr != 0 ==>
        0 < elem <= devicePagesize && (count * elem <= devicePagesize || devicePagesize % elem == 0))
      ensures ptr == 0 && budget == Unlimited && errno != EINVAL
              && 0 < elem <= devicePagesize && (count * elem <= devicePagesize || devicePagesize % elem == 0) ==>
        forall n: nat :: count * elem <= n < count * elem + pagesize && n % pagesize == 0 ==>
          NoPlace(old(segs), n, elem, devicePagesize)
      ensures count > 0 && elem > 0 && count <= SIZE_MAX / elem && Accepted(count, elem, devicePagesize) ==>
        var can := Servable(old(segs), Padded(count, elem, pagesize), Shape());
        (ptr != 0 ==> can) && (budget == Unlimited ==> (ptr == 0 <==> !can))
    {
      hide Tiles, Search, Used, Adds, Live, NoStraddle, Servable, RoundUp, Takes, NoPlace;
      own := Seg(0, 0, true);
      if elem == 0 || count == 0 { return 0, EINVAL, own; }
      ghost var s := segs;
      ptr, errno, own := AllocArrayAligned(count, elem, pagesize, budget);
      if count <= SIZE_MAX / elem && Accepted(count, elem, devicePagesize) {
        ghost var r := Padded(count, elem, pagesize);
        SearchSound(s, r, Shape(), budget, 0, size);
        NeverOutOfNodes(s, r, Shape());
        if ptr != 0 { AddsLess(Used(s), segs, ptr - vaddr, r.total, count * elem); }
      }
      SameUsedSameLive(s, segs);
    }

    /** cudamem_dma_malloc: whole pages, at least `nbytes`. */
    method DmaMalloc(nbytes: nat, budget: Budget) returns (ptr: nat, errno: Errno, ghost own: Seg)
      requires Valid() && nbytes + 2 * pagesize <= SIZE_MAX
      modifies this, Repr
      ensures Valid() && fresh(Repr - old(Repr))
      ensures (ptr == 0) == (errno != Ok)
      ensures errno == EINVAL <==> nbytes == 0
      ensures errno in {Ok, EINVAL, ENOMEM}
      ensures ptr == 0 ==> Used(segs) == Used(old(segs)) && Live(segs) == Live(old(segs))
      ensures ptr != 0 ==> ptr >= vaddr && Adds(Used(old(segs)), segs, ptr - vaddr, nbytes)
      ensures pagesize > 0
      ensures ptr != 0 ==> nbytes <= own.len < nbytes + pagesize && own.len % pagesize == 0
                           && Takes(old(segs), ptr, own, pagesize)
      ensures ptr == 0 && nbytes > 0 && budget == Unlimited ==>
        forall n: nat :: nbytes <= n < nbytes + pagesize && n % pagesize == 0 ==>
          || pagesize > devicePagesize || (n > devicePagesize && devicePagesize % pagesize != 0)
          || NoPlace(old(segs), n, pagesize, devicePagesize)
      ensures old(segs) == [Seg(0, size, true)] && budget == Unlimited && devicePagesize % pagesize == 0 ==>
        (0 < nbytes && nbytes + pagesize <= size ==> ptr == vaddr)
    {
      hide Tiles, Used, Adds, Live, RoundUp, NoPlace, LowestPlace, KeepsRest;
      own := Seg(0, 0, true);
      if nbytes == 0 { return 0, EINVAL, own; }
      var total := RoundUp(nbytes, pagesize);
      RoundUpBounds(nbytes, pagesize);
      var count := total / pagesize;
      assert count * pagesize == total by { assert total == pagesize * count + total % pagesize; }
      PageCountFits(count, pagesize, total);
      FreshPages(size, total, pagesize, devicePagesize);
      ghost var s := segs;
      ptr, errno, own := DmaAllocArray(count, pagesize, budget);
      if ptr != 0 {
        AddsLess(Used(s), segs, ptr - vaddr, total, nbytes);
        OneMultiple(total, pagesize, own.len);
      } else {
        OneMultiple(nbytes, pagesize, total);
      }
    }

    method TakeFirstFit(total: nat, elem: nat, budget: Budget) returns (ptr: nat)
      requires Valid() && 0 < elem <= total
      modifies this, Repr
      ensures Valid() && fresh(Repr - old(Repr))
      ensures var res := Search(old(segs), Request(total, elem), Shape(), budget);
        segs == res.0 && ptr == (if res.1.Granted? then vaddr + res.1.start else 0)
    {
      hide Under, Search, Tiles, SplitAt, Total, MustSkip;
      ghost var r, g := Request(total, elem), Shape();
      ghost var res := Search(segs, r, g, budget);
      SearchSound(segs, r, g, budget, 0, size);
      var left := budget;
      var block: Node? := freelist;
      ghost var i := 0;
      UnderStart(segs, r, g, budget);
      while block != null
        invariant Linked() && Tiles(segs, 0, size)
        invariant fresh(Repr - old(Repr))
        invariant 0 <= i <= |nodes| && block == (if i < |nodes| then nodes[i] else null)
        invariant res == Under(segs, i, r, g, left)
        decreases Total(segs[i..]), |nodes| - i
      {
        if block.free && block.size >= total {
          var inDpageOffset := (block.vaddr - vaddr) % devicePagesize;
          var dpageRemaining := devicePagesize - inDpageOffset;
          var disalignment := dpageRemaining % elem;
          MustSkipPlain(segs[i].start, r, g);
          if dpageRemaining < total && disalignment != 0 {
            if left.Exhausted() {
              UnderExhausted(segs, i, r, g, left);
              return 0;
            }
            UnderSkip(segs, i, r, g, left, 0, size);
            left := left.Spend();
            Split(block, disalignment, i);
            block := block.next;
            i := i + 1;
            continue;
          }
          ptr := Serve(block, total, elem, left, i);
          return;
        }
        UnderPass(segs, i, r, g, left);
        block := block.next;
        i := i + 1;
      }
      UnderEnd(segs, r, g, left);
      return 0;
    }

    /** Hand out `block`, returning the bytes beyond `total` to a new free block. */
    method Serve(block: Node, total: nat, elem: nat, left: Budget, ghost i: nat) returns (ptr: nat)
      requires Linked() && i < |nodes| && nodes[i] == block && Tiles(segs, 0, size)
      requires devicePagesize > 0 && 0 < elem <= total <= block.size && block.free
      requires !MustSkip(segs[i].start, Request(total, elem), Shape())
      modifies this, block
      ensures Linked() && fresh(Repr - old(Repr))
      ensures var res := Under(old(segs), i, Request(total, elem), Shape(), left);
        segs == res.0 && ptr == (if res.1.Granted? then vaddr + res.1.start else 0)
    {
      hide Under, Search, Tiles, SplitAt, MustSkip;
      ghost var r, g := Request(total, elem), Shape();
      var remaining := block.size - total;
      if remaining != 0 {
        if left.Exhausted() {
          UnderExhausted(segs, i, r, g, left);
          return 0;
        }
        UnderTake(segs, i, r, g, left);
        Split(block, total, i);
      } else {
        UnderTake(segs, i, r, g, left);
      }
      Claim(block, i);
      return block.vaddr;
    }

    method Claim(block: Node, ghost i: nat)
      requires Linked() && i < |nodes| && nodes[i] == block
      modifies this`segs, block`free
      ensures Linked() && segs == old(segs)[i := old(segs)[i].(free := false)]
    {
      block.free := false;
      segs := segs[i := segs[i].(free := false)];
    }
  }

  /** What an accepted array allocation comes to. */
  lemma ArrayOutcome(s: seq<Seg>, count: nat, elem: nat, align: nat, large: nat, budget: Budget, size: nat)
    returns (own: Seg)
    requires count > 0 && elem > 0 && large > 0 && IsPow2(align) && align <= SIZE_MAX && Tiles(s, 0, size)
    requires count * elem + align - 1 <= SIZE_MAX && Accepted(count, elem, large)
    ensures var r, g := Padded(count, elem, align), Geometry(0, large, 0);
      var (t, out) := Search(s, r, g, budget);
      && (out.Granted? <==> !out.NoNode? && Servable(s, r, g))
      && (out.Granted? ==>
            && NoStraddle(out.start, elem, count, large)
            && own.start == out.start && !own.free && own !in Live(s) && Live(t) == Live(s) + {own}
            && count * elem <= own.len < count * elem + align && own.len % align == 0
            && LowestPlace(s, own.start, own.len, elem, large) && KeepsRest(s, t, own))
    ensures var out := Search(s, Padded(count, elem, align), Geometry(0, large, 0), budget).1;
      !out.Granted? && budget == Unlimited ==>
        forall n: nat :: count * elem <= n < count * elem + align && n % align == 0 ==> NoPlace(s, n, elem, large)
  {
    hide Search, Servable, MustSkip, NoStraddle, Tiles, RoundUp, NoPlace, LowestPlace, KeepsRest, Live;
    own := Seg(0, 0, true);
    var r, g := Padded(count, elem, align), Geometry(0, large, 0);
    var out := Search(s, r, g, budget).1;
    GrantedNotSkipped(s, r, g, budget);
    BudgetOnlyStops(s, r, g, budget);
    NeverOutOfNodes(s, r, g);
    PaddedIsRegular(count, elem, align, large);
    GrantedIff(s, r, g);
    RoundUpBounds(count * elem, align);
    if out.Granted? {
      UnskippedNoStraddle(out.start, r, g, count);
      assert out.start + 0 == out.start;
      own := GrantTakes(s, r, large, budget, size);
    } else if budget == Unlimited {
      SearchIsLowest(s, r, g, 0, size);
      OneMultiple(count * elem, align, r.total);
    }
  }

  lemma GrantTakes(s: seq<Seg>, r: Request, large: nat, budget: Budget, size: nat) returns (own: Seg)
    requires r.Valid() && large > 0 && r.elem <= large && Tiles(s, 0, size)
    requires Search(s, r, Geometry(0, large, 0), budget).1.Granted?
    ensures var (t, out) := Search(s, r, Geometry(0, large, 0), budget);
      && own.start == out.start && own.len == r.total && !own.free && own !in Live(s) && Live(t) == Live(s) + {own}
      && LowestPlace(s, own.start, own.len, r.elem, large) && KeepsRest(s, t, own)
  {
    hide Search, Tiles, Live, LowestPlace, RangeFree;
    var g := Geometry(0, large, 0);
    own := GrantedSeg(s, r, g, budget, 0, size);
    BudgetOnlyStops(s, r, g, budget);
    SearchIsLowest(s, r, g, 0, size);
    var t := Search(s, r, g, budget).0;
    forall n: nat | n > 0 ensures RestKept(s, t, own, n) {
      RestStaysFree(s, r, large, budget, 0, size, n);
    }
  }

  lemma NoOverflow(count: nat, elem: nat)
    requires 0 < elem && count * elem <= SIZE_MAX
    ensures count <= SIZE_MAX / elem
  {
    DivMonotone(count * elem, SIZE_MAX, elem);
    assert elem * count == count * elem;
    Multiple(elem, count);
  }

  lemma FreshPages(size: nat, n: nat, page: nat, large: nat)
    requires page > 0 && large > 0
    ensures large % page == 0 && n <= size ==>
      var s := [Seg(0, size, true)];
      page <= large && !NoPlace(s, n, page, large) && forall a: nat :: LowestPlace(s, a, n, page, large) ==> a == 0
  {
    if large % page == 0 && n <= size {
      MultipleGap(0, large, page);
      DivModUnique(0, large, 0, 0);
      FreshPlace(size, n, 0, page, large);
    }
  }

  lemma SameUsedSameLive(s: seq<Seg>, t: seq<Seg>)
    ensures Used(s) == Used(t) ==> Live(s) == Live(t)
  {
    LiveIsUsed(s);
    LiveIsUsed(t);
  }

  /** Freeing what an allocation returned restores a coalesced list, skip splits included. */
  lemma AllocThenFree(s: seq<Seg>, r: Request, large: nat, budget: Budget, base: nat, size: nat)
    requires r.Valid() && large > 0 && Tiles(s, 0, size) && Coalesced(s)
    ensures var (t, out) := Search(s, r, Geometry(0, large, 0), budget);
      out.Granted? ==> Freed(t, base + out.start, base) == s
  {
    AllocThenRelease(s, r, Geometry(0, large, 0), budget, 0, size);
  }

  lemma MustSkipPlain(start: nat, r: Request, g: Geometry)
    requires r.Valid() && g.Valid() && g.header == 0
    ensures Misfit(start, r, g) == (g.large - start % g.large) % r.elem
    ensures MustSkip(start, r, g) <==> g.large - start % g.large < r.total && Misfit(start, r, g) != 0
  {
  }

  /** The request an array allocation searches for: rounded up to the alignment. */
  ghost function Padded(count: nat, elem: nat, align: nat): (r: Request)
    requires count > 0 && elem > 0 && IsPow2(align) && align <= SIZE_MAX
    requires count * elem + align - 1 <= SIZE_MAX
    ensures r.Valid() && r.elem == elem && count * elem <= r.total < count * elem + align
  {
    RoundUpBounds(count * elem, align);
    MulAtLeast(count, elem);
    Request(RoundUp(count * elem, align), elem)
  }

  /** Every accepted request is regular, whatever the alignment. */
  lemma PaddedIsRegular(count: nat, elem: nat, align: nat, large: nat)
    requires count > 0 && elem > 0 && large > 0 && IsPow2(align) && align <= SIZE_MAX
    requires count * elem + align - 1 <= SIZE_MAX && Accepted(count, elem, large)
    ensures Regular(Padded(count, elem, align), Geometry(0, large, 0))
  {
    hide RoundUp;
  }

  function Marked(x: Seg, ptr: nat, base: nat): Seg {
    if ptr >= base && x.start == ptr - base then x.(free := true) else x
  }

  /** An address outside the heap marks no block. */
  function MarkAt(s: seq<Seg>, ptr: nat, base: nat): seq<Seg> {
    if ptr < base then s else MarkFree(s, ptr - base)
  }

  /** The list a free leaves behind. */
  function Freed(s: seq<Seg>, ptr: nat, base: nat): seq<Seg> {
    Merge(MarkAt(s, ptr, base))
  }

  /** The block at that address, if there is one, and no other leaves the live set. */
  lemma FreedLive(s: seq<Seg>, ptr: nat, base: nat, size: nat)
    requires Tiles(s, 0, size)
    ensures Coalesced(Freed(s, ptr, base))
    ensures forall x :: x in Live(Freed(s, ptr, base)) <==> x in Live(s) && base + x.start != ptr
  {
    hide Tiles, Merge, MarkFree, Used, Live, Coalesced;
    if ptr < base {
      MergeSound(s, 0, size);
      LiveIsUsed(s);
      LiveIsUsed(Merge(s));
    } else {
      assert Freed(s, ptr, base) == Release(s, ptr - base);
      ReleaseSound(s, 0, size, ptr - base);
      forall x ensures x in Live(Freed(s, ptr, base)) <==> x in Live(s) && base + x.start != ptr {
        ReleaseAny(s, ptr - base, 0, size, x);
      }
    }
  }

  /** The pass resumed at block `i`, with the blocks already passed put back in front. */
  function FreedFrom(s: seq<Seg>, i: nat, ptr: nat, base: nat): seq<Seg>
    requires i <= |s|
  {
    s[..i] + Freed(s[i..], ptr, base)
  }

  lemma FreedFromStart(s: seq<Seg>, ptr: nat, base: nat)
    ensures FreedFrom(s, 0, ptr, base) == Freed(s, ptr, base)
  {
    assert s[0..] == s;
  }

  lemma StartsDiffer(s: seq<Seg>, i: nat, size: nat)
    requires Tiles(s, 0, size) && i + 1 < |s|
    ensures s[i].start < s[i + 1].start
  {
    TilesBounds(s, 0, size);
  }

  lemma MarkAtHead(x: Seg, rest: seq<Seg>, ptr: nat, base: nat)
    ensures MarkAt([x] + rest, ptr, base) == [Marked(x, ptr, base)] + MarkAt(rest, ptr, base)
  {
    assert ([x] + rest)[1..] == rest;
  }

  /** One iteration of the combined mark-and-merge pass, on the rest of the list. */
  lemma FreedPair(x: Seg, y: Seg, rest: seq<Seg>, ptr: nat, base: nat)
    ensures var b, n := Marked(x, ptr, base), Marked(y, ptr, base);
      var all := Freed([x] + ([y] + rest), ptr, base);
      if b.free && n.free then Freed([Seg(x.start, x.len + y.len, true)] + rest, ptr, base) == all
      else [b] + Freed([n] + rest, ptr, base) == all
  {
    var b, n := Marked(x, ptr, base), Marked(y, ptr, base);
    var joined := Seg(x.start, x.len + y.len, true);
    MarkAtHead(x, [y] + rest, ptr, base);
    MarkAtHead(y, rest, ptr, base);
    MarkAtHead(n, rest, ptr, base);
    MarkAtHead(joined, rest, ptr, base);
    MergePair(b, n, MarkAt(rest, ptr, base));
  }

  lemma FreedJoin(s: seq<Seg>, i: nat, ptr: nat, base: nat, size: nat)
    requires Tiles(s, 0, size) && i + 1 < |s|
    requires MarkTwo(s, i, ptr, base)[i].free && MarkTwo(s, i, ptr, base)[i + 1].free
    ensures var t := JoinAt(s, i);
      && Tiles(t, 0, size) && t == JoinAt(MarkTwo(s, i, ptr, base), i)
      && FreedFrom(t, i, ptr, base) == FreedFrom(s, i, ptr, base)
  {
    hide Tiles, Freed;
    var x, y, rest := s[i], s[i + 1], s[i + 2..];
    assert s[i..] == [x] + ([y] + rest);
    FreedPair(x, y, rest, ptr, base);
    JoinTiles(s, i, 0, size);
    assert JoinAt(s, i)[i..] == [Seg(x.start, x.len + y.len, true)] + rest;
    assert JoinAt(s, i)[..i] == s[..i];
  }

  lemma FreedKeep(s: seq<Seg>, i: nat, ptr: nat, base: nat, size: nat)
    requires Tiles(s, 0, size) && i + 1 < |s|
    requires !(MarkTwo(s, i, ptr, base)[i].free && MarkTwo(s, i, ptr, base)[i + 1].free)
    ensures var t := MarkTwo(s, i, ptr, base);
      && Tiles(t, 0, size)
      && FreedFrom(t, i + 1, ptr, base) == FreedFrom(s, i, ptr, base)
  {
    hide Tiles, Merge, MarkAt;
    var x, y, rest := s[i], s[i + 1], s[i + 2..];
    var b, n := Marked(x, ptr, base), Marked(y, ptr, base);
    assert s[i..] == [x] + ([y] + rest);
    FreedPair(x, y, rest, ptr, base);
    MarkTwoTiles(s, i, ptr, base, size);
    var t := MarkTwo(s, i, ptr, base);
    assert t[i + 1..] == [n] + rest;
    assert t[..i + 1] == s[..i] + [b];
    Associate(s[..i], [b], Freed([n] + rest, ptr, base));
  }

  lemma MarkTwoTiles(s: seq<Seg>, i: nat, ptr: nat, base: nat, size: nat)
    requires Tiles(s, 0, size) && i + 1 < |s|
    ensures Tiles(MarkTwo(s, i, ptr, base), 0, size)
  {
    SetFlagTiles(s, i, Marked(s[i], ptr, base).free, 0, size);
    SetFlagTiles(s[i := Marked(s[i], ptr, base)], i + 1, Marked(s[i + 1], ptr, base).free, 0, size);
  }

  function MarkTwo(s: seq<Seg>, i: nat, ptr: nat, base: nat): (t: seq<Seg>)
    requires i + 1 < |s|
    ensures |t| == |s| && t[i] == Marked(s[i], ptr, base) && t[i + 1] == Marked(s[i + 1], ptr, base)
    ensures forall k :: 0 <= k < |s| && k != i && k != i + 1 ==> t[k] == s[k]
  {
    s[i := Marked(s[i], ptr, base)][i + 1 := Marked(s[i + 1], ptr, base)]
  }

  lemma FreedLast(s: seq<Seg>, i: nat, ptr: nat, base: nat, size: nat)
    requires Tiles(s, 0, size) && i + 1 == |s|
    ensures var t := s[i := Marked(s[i], ptr, base)];
      Tiles(t, 0, size) && t == FreedFrom(s, i, ptr, base)
  {
    assert s == s[..i] + s[i..] && s[i..] == [s[i]] + [];
    var mid := TilesSplit(s[..i], s[i..], 0, size);
    var last := [Marked(s[i], ptr, base)];
    MarkAtHead(s[i], [], ptr, base);
    assert s[i..][1..] == [] && last[1..] == [];
    TilesAppend(s[..i], last, 0, mid, size);
    assert s[i := Marked(s[i], ptr, base)] == s[..i] + last;
  }
}
