/**
 * nvme_qpair_init as a whole: the queue pair's fields and the DMA memory behind them.
 */
module QPairInit {
  import opened Bits
  import opened Common
  import opened Segments
  import opened HostMemory
  import opened QueueMachine
  import opened PoolMachine
  import opened QueueMemory
  import Q = QPair

  /** sizeof(struct nvme_command) and sizeof(struct nvme_completion) */
  const COMMAND_BYTES: nat := 64
  const COMPLETION_BYTES: nat := 16

  /** Entry `i` of a queue lies inside the bytes allotted to the queue. */
  predicate SlotFits(i: nat, entry: nat) {
    (i + 1) * entry <= QUEUE_BYTES
  }

  /** The code allots 64 KiB whatever the depth: enough for the commands exactly up to depth 1024. */
  lemma SlotsFitIff(depth: nat)
    ensures (forall i: nat :: i < depth ==> SlotFits(i, COMMAND_BYTES)) <==> depth <= Q.MAX_DEPTH
    ensures depth <= Q.MAX_DEPTH ==> forall i: nat :: i < depth ==> SlotFits(i, COMPLETION_BYTES)
  {
    if depth > Q.MAX_DEPTH { assert !SlotFits(Q.MAX_DEPTH, COMMAND_BYTES); }
  }

  /** Every byte of entry `i` is payload of the queue's own block, zero at first, and where the controller
      looks for it: `i` entries past the queue's physical address. */
  ghost predicate SlotHeld(q: QueueMemory, queue: nat, own: Seg, i: nat, entry: nat)
    reads q, q.heap
  {
    forall d: nat :: i * entry <= d < (i + 1) * entry ==> ByteHeld(q, queue, own, d)
  }

  ghost predicate ByteHeld(q: QueueMemory, queue: nat, own: Seg, d: nat)
    reads q, q.heap
  {
    && PayloadOf(queue + d, own, q.heap.At()) && ZeroAt(q.heap.mem, queue + d)
    && ContigAt(q.view, queue, d)
  }

  lemma SlotIsHeld(q: QueueMemory, queue: nat, own: Seg, i: nat, entry: nat)
    requires q.heap.Owns(queue, own, QUEUE_BYTES) && Zeroed(q.heap.mem, queue)
    requires Contig(q.view, queue, QUEUE_BYTES) && SlotFits(i, entry)
    ensures SlotHeld(q, queue, own, i, entry)
  {
    hide ContigAt, ZeroAt;
    forall d: nat | i * entry <= d < (i + 1) * entry ensures ByteHeld(q, queue, own, d) {
      assert ZeroAt(q.heap.mem, queue + d) && ContigAt(q.view, queue, d);
    }
  }

  lemma FreshHeapIff(size: nat, page: nat, large: nat)
    requires HEADER_BYTES < page && large > 0 && large % page == 0 && QUEUE_BYTES % page == 0
    ensures 2 * (page + QUEUE_BYTES) <= large ==>
      (SetUpFits([Seg(0, size, true)], page, large) <==> 2 * QUEUE_BYTES + (POOL_LEN + 3) * page <= size)
  {
    if 2 * (page + QUEUE_BYTES) <= large { FreshSetUpIff(size, page, large); }
  }

  /** With 4 KiB pages and 2 MiB hugepages, three hugepages are enough and two are not. */
  lemma ThreeHugepages(n: nat)
    ensures SetUpFits([Seg(0, n * 0x20_0000, true)], 0x1000, 0x20_0000) <==> n >= 3
  {
    FreshSetUpIff(n * 0x20_0000, 0x1000, 0x20_0000);
  }

  /**
   * nvme_qpair_init: on success the queue pair is in its initial state, its identifiers are all free,
   * and every slot it will use is backed; on failure the heap's live blocks are as before.
   */
  method Init(mem: QueueMemory, depth: nat, callocOk: bool) returns (err: Errno, qp: Q.QPair?)
    requires mem.Usable() && 2 <= depth <= Q.MAX_DEPTH
    modifies mem, mem.heap, mem.prp, mem.prpAddr
    ensures mem.Usable() && (qp == null <==> err != Ok)
    ensures err in {Ok, ENOMEM}
    ensures err == Ok <==> callocOk && SetUpFits(old(mem.heap.segs), mem.heap.pagesize, mem.heap.hugepgsz)
    ensures callocOk && old(mem.heap.segs) == [Seg(0, mem.heap.size, true)]
            && 2 * (mem.heap.pagesize + QUEUE_BYTES) <= mem.heap.hugepgsz ==>
      (err == Ok <==> 2 * QUEUE_BYTES + (POOL_LEN + 3) * mem.heap.pagesize <= mem.heap.size)
    ensures err != Ok ==> Live(mem.heap.segs) == Live(old(mem.heap.segs))
    ensures err == Ok ==>
      && fresh(qp) && qp.Valid() && qp.depth == depth
      && qp.H() == Host(depth, 0, NEVER_WRITTEN, 0, 1, 0, 0) && qp.rpool.Valid() && qp.rpool.Stack() == FullStack()
      && mem.Ready()
      && (forall i: nat :: i < depth ==> SlotHeld(mem, mem.sq, mem.ownSq, i, COMMAND_BYTES))
      && (forall i: nat :: i < depth ==> SlotHeld(mem, mem.cq, mem.ownCq, i, COMPLETION_BYTES))
  {
    hide FullStack, SlotHeld, SetUpFits, Contig, Zeroed, Live, TableOf, Tiles, OnPages, Describes, Untouched, IsPow2;
    qp := null;
    FreshHeapIff(mem.heap.size, mem.heap.pagesize, mem.heap.hugepgsz);
    err := mem.Init(callocOk);
    if err != Ok { return; }
    qp := new Q.QPair(depth);
    forall i: nat | i < depth
      ensures SlotHeld(mem, mem.sq, mem.ownSq, i, COMMAND_BYTES)
      ensures SlotHeld(mem, mem.cq, mem.ownCq, i, COMPLETION_BYTES)
    {
      SlotIsHeld(mem, mem.sq, mem.ownSq, i, COMMAND_BYTES);
      SlotIsHeld(mem, mem.cq, mem.ownCq, i, COMPLETION_BYTES);
    }
  }
}
