/**
 * How nvme_io (tests/nvme_cuda_kernels.cu) divides I/Os over rounds, thread blocks and threads.
 */
module Kernel {
  import opened Arith

  const U32: nat := 0x1_0000_0000

  /** `gridDim.x * blockDim.x`, a product of 32-bit unsigned numbers. */
  function Stride(grid: nat, block: nat): nat {
    grid * block % U32
  }

  function Rounds(numIos: nat, stride: nat): nat
    requires stride > 0
  {
    DivMonotone(0, numIos + stride - 1, stride);
    (numIos + stride - 1) / stride
  }

  function BlockStart(r: nat, bid: nat, stride: nat, block: nat): nat {
    r * stride + bid * block
  }

  /** How many threads of the block submit in this round. */
  function BatchSize(start: nat, numIos: nat, block: nat): nat {
    var remaining := if start < numIos then numIos - start else 0;
    if remaining < block then remaining else block
  }

  function Gid(r: nat, bid: nat, tid: nat, stride: nat, block: nat): nat {
    BlockStart(r, bid, stride, block) + tid
  }

  /** One launch: the grid, the block and the number of I/Os, with a stride the kernel can divide by. */
  datatype Launch = Launch(grid: nat, block: nat, numIos: nat)

  ghost predicate Runs(l: Launch) {
    Stride(l.grid, l.block) > 0 && l.numIos < U32
  }

  /** The thread takes part in the round, and submits and writes I/O `i` in it. */
  ghost predicate Owns(l: Launch, r: nat, bid: nat, tid: nat, i: nat)
    requires Runs(l)
  {
    var stride := Stride(l.grid, l.block);
    && r < Rounds(l.numIos, stride) && bid < l.grid && tid < l.block
    && tid < BatchSize(BlockStart(r, bid, stride, l.block), l.numIos, l.block)
    && Gid(r, bid, tid, stride, l.block) == i
  }

  /** A thread is active exactly when its global index is that of an I/O. */
  lemma ActiveIff(r: nat, bid: nat, tid: nat, stride: nat, block: nat, numIos: nat)
    requires tid < block
    ensures tid < BatchSize(BlockStart(r, bid, stride, block), numIos, block)
            <==> Gid(r, bid, tid, stride, block) < numIos
  {
  }

  /** In numbers: round, block and thread of each I/O, with the stride in 32 bits. */
  lemma OwnsIff(l: Launch, r: nat, bid: nat, tid: nat, i: nat)
    requires Runs(l)
    ensures Owns(l, r, bid, tid, i) <==>
      bid < l.grid && tid < l.block && i < l.numIos && i == r * (l.grid * l.block % 0x1_0000_0000) + bid * l.block + tid
  {
    var stride := Stride(l.grid, l.block);
    if bid < l.grid && tid < l.block {
      ActiveIff(r, bid, tid, stride, l.block, l.numIos);
      MulMonotone(0, bid, l.block);
      if i < l.numIos && i == r * stride + bid * l.block + tid { RoundInRange(r, stride, l.numIos); }
    }
  }

  lemma RoundInRange(r: nat, stride: nat, numIos: nat)
    requires stride > 0 && r * stride < numIos
    ensures r < Rounds(numIos, stride)
  {
    assert stride * r == r * stride;
    AddMultiple(numIos + stride - 1 - stride * (r + 1), stride, r + 1);
    assert stride * (r + 1) == r * stride + stride;
    DivMonotone(0, numIos + stride - 1 - stride * (r + 1), stride);
  }

  /** The thread that an I/O belongs to. */
  datatype Owner = Owner(r: nat, bid: nat, tid: nat)

  function OwnerOf(l: Launch, i: nat): Owner
    requires Stride(l.grid, l.block) > 0
  {
    var stride := Stride(l.grid, l.block);
    FloorMultiple(i, stride);
    BlockPositive(l);
    Owner(i / stride, i % stride / l.block, i % stride % l.block)
  }

  lemma BlockPositive(l: Launch)
    requires Stride(l.grid, l.block) > 0
    ensures l.block > 0 && l.grid > 0 && Stride(l.grid, l.block) <= l.grid * l.block
  {
    MulAtLeast(l.grid, l.block);
  }

  /** Two index pairs with the same block-linear position are the same. */
  lemma SamePosition(block: nat, bid: nat, tid: nat, j: nat)
    requires tid < block && bid * block + tid == j
    ensures j / block == bid && j % block == tid
  {
    DivModUnique(j, block, bid, tid);
  }

  lemma PositionBound(block: nat, grid: nat, bid: nat, tid: nat)
    requires tid < block && bid < grid
    ensures bid * block + tid < grid * block
  {
    MulMonotone(bid + 1, grid, block);
    assert (bid + 1) * block == bid * block + block;
  }

  lemma BidBound(block: nat, grid: nat, j: nat)
    requires block > 0 && j < grid * block
    ensures j / block < grid
  {
    FloorMultiple(j, block);
    if j / block >= grid { MulMonotone(grid, j / block, block); }
  }

  lemma RoundBound(r: nat, stride: nat, i: nat, numIos: nat)
    requires stride > 0 && r * stride <= i < numIos
    ensures r < Rounds(numIos, stride)
  {
    assert stride * (r + 1) == r * stride + stride;
    DivMonotone(stride * (r + 1), numIos + stride - 1, stride);
    Multiple(stride, r + 1);
  }

  lemma OwnsIt(l: Launch, r: nat, bid: nat, tid: nat, i: nat)
    requires Runs(l) && bid < l.grid && tid < l.block && i < l.numIos
    requires i == r * Stride(l.grid, l.block) + bid * l.block + tid
    ensures Owns(l, r, bid, tid, i)
  {
    var stride := Stride(l.grid, l.block);
    RoundBound(r, stride, i, l.numIos);
    ActiveIff(r, bid, tid, stride, l.block, l.numIos);
  }

  lemma OwnerOwns(l: Launch, i: nat)
    requires Runs(l) && i < l.numIos
    ensures var o := OwnerOf(l, i); Owns(l, o.r, o.bid, o.tid, i)
  {
    var stride, o := Stride(l.grid, l.block), OwnerOf(l, i);
    FloorMultiple(i, stride);
    BlockPositive(l);
    var j := i % stride;
    FloorMultiple(j, l.block);
    BidBound(l.block, l.grid, j);
    hide Owns, Stride;
    OwnsIt(l, o.r, o.bid, o.tid, i);
  }

  /** The product does not wrap, or one round does it all. */
  ghost predicate NoOverlap(l: Launch) {
    l.grid * l.block < U32 || l.numIos <= Stride(l.grid, l.block)
  }

  lemma OwnerIsUnique(l: Launch, i: nat, r: nat, bid: nat, tid: nat)
    requires Runs(l) && NoOverlap(l) && Owns(l, r, bid, tid, i)
    ensures i < l.numIos && OwnerOf(l, i) == Owner(r, bid, tid)
  {
    var stride, j := Stride(l.grid, l.block), bid * l.block + tid;
    ActiveIff(r, bid, tid, stride, l.block, l.numIos);
    PositionInRound(l, i, r, bid, tid);
    hide Stride, Rounds, BatchSize;
    DivModUnique(i, stride, r, j);
    SamePosition(l.block, bid, tid, j);
  }

  /** Where nothing overlaps, a thread's position lies inside its round's stride. */
  lemma PositionInRound(l: Launch, i: nat, r: nat, bid: nat, tid: nat)
    requires Runs(l) && NoOverlap(l) && Owns(l, r, bid, tid, i) && i < l.numIos
    ensures bid * l.block + tid < Stride(l.grid, l.block)
  {
    PositionBound(l.block, l.grid, bid, tid);
    if l.grid * l.block < U32 {
      DivModUnique(l.grid * l.block, U32, 0, l.grid * l.block);
    } else {
      FirstRoundOnly(l, r, Stride(l.grid, l.block));
    }
  }

  lemma FirstRoundOnly(l: Launch, r: nat, stride: nat)
    requires stride > 0 && l.numIos <= stride && r < Rounds(l.numIos, stride)
    ensures r == 0 && r * stride == 0
  {
    DivMonotone(l.numIos + stride - 1, 2 * stride - 1, stride);
    DivModUnique(2 * stride - 1, stride, 1, stride - 1);
  }

  ghost predicate OneOwnerEach(l: Launch)
    requires Runs(l)
  {
    forall i: nat, r: nat, bid: nat, tid: nat, r': nat, bid': nat, tid': nat ::
      Owns(l, r, bid, tid, i) && Owns(l, r', bid', tid', i) ==> r == r' && bid == bid' && tid == tid'
  }

  /**
   * Every I/O is submitted, and its result written, by at least one round, block and thread; by
   * exactly one if and only if the 32-bit stride does not wrap or a single round covers everything.
   */
  lemma PartitionIff(l: Launch)
    requires Runs(l)
    ensures forall i: nat :: i < l.numIos ==> var o := OwnerOf(l, i); Owns(l, o.r, o.bid, o.tid, i)
    ensures OneOwnerEach(l) <==> NoOverlap(l)
  {
    forall i: nat | i < l.numIos ensures var o := OwnerOf(l, i); Owns(l, o.r, o.bid, o.tid, i) { OwnerOwns(l, i); }
    if NoOverlap(l) {
      forall i: nat, r: nat, bid: nat, tid: nat, r': nat, bid': nat, tid': nat
        | Owns(l, r, bid, tid, i) && Owns(l, r', bid', tid', i)
        ensures r == r' && bid == bid' && tid == tid'
      {
        OwnerIsUnique(l, i, r, bid, tid);
        OwnerIsUnique(l, i, r', bid', tid');
      }
    } else {
      var bid, tid := SecondOwner(l);
    }
  }

  /** After a wrap, the first I/O of round 1 also belongs to a later block or thread of round 0. */
  lemma SecondOwner(l: Launch) returns (bid: nat, tid: nat)
    requires Runs(l) && !NoOverlap(l)
    ensures var s := Stride(l.grid, l.block); Owns(l, 1, 0, 0, s) && Owns(l, 0, bid, tid, s)
  {
    var s := Stride(l.grid, l.block);
    BlockPositive(l);
    FloorMultiple(s, l.block);
    DivModUnique(l.grid * l.block, U32, l.grid * l.block / U32, s);
    BidBound(l.block, l.grid, s);
    hide Owns, Stride;
    OwnsIt(l, 1, 0, 0, s);
    bid, tid := s / l.block, s % l.block;
    OwnsIt(l, 0, bid, tid, s);
  }

  lemma GidGrows(r: nat, q: nat, bid: nat, tid: nat, stride: nat, block: nat)
    requires r < q && stride > 0
    ensures Gid(r, bid, tid, stride, block) < Gid(q, bid, tid, stride, block)
  {
    MulMonotone(r + 1, q, stride);
    assert (r + 1) * stride == r * stride + stride;
  }

  /**
   * One thread of the kernel. `io[r]` is what nvme_qpair_cuda_io returns to it in round `r`. It writes
   * the results of the I/Os it owns and no others.
   */
  method NvmeIo(l: Launch, bid: nat, tid: nat, io: seq<int>, results: array<int>)
    requires Runs(l) && bid < l.grid && tid < l.block
    requires results.Length == l.numIos && |io| == Rounds(l.numIos, Stride(l.grid, l.block))
    modifies results
    ensures forall r: nat, i: nat :: r < |io| && Owns(l, r, bid, tid, i) ==> i < l.numIos && results[i] == io[r]
    ensures forall i: nat :: i < l.numIos && (forall r: nat :: !Owns(l, r, bid, tid, i))
              ==> results[i] == old(results[i])
  {
    var stride := Stride(l.grid, l.block);
    var numRounds := Rounds(l.numIos, stride);
    for r := 0 to numRounds
      invariant forall q: nat, i: nat :: q < r && Owns(l, q, bid, tid, i) ==> i < l.numIos && results[i] == io[q]
      invariant forall i: nat :: i < l.numIos && (forall q: nat :: !Owns(l, q, bid, tid, i))
                  ==> results[i] == old(results[i])
    {
      var start := BlockStart(r, bid, stride, l.block);
      var gid := start + tid;
      ActiveIff(r, bid, tid, stride, l.block, l.numIos);
      if gid < l.numIos {
        assert Owns(l, r, bid, tid, gid);
        forall q: nat | q < r ensures !Owns(l, q, bid, tid, gid) { GidGrows(q, r, bid, tid, stride, l.block); }
        results[gid] := io[r];
      }
    }
  }
}
