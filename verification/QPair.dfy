/**
 * The host's queue pair and request pool as the driver implements them (nvme_qpair.h,
 * nvme_request.h), each method tied to the step of the state machine it performs.
 */
module QPair {
  import opened Bits
  import opened Common
  import opened QueueMachine
  import opened PoolMachine

  /** What nvme_qpair_init's 64 KiB hold: entries of 64 bytes (see QPairInit.SlotsFitIff). */
  const MAX_DEPTH: nat := 1024

  /** The 8-bit status code, above the phase bit; the status code type is not looked at. */
  const STATUS_MASK: nat := 0x1FE

  /** The two fields of a completion's status that say what happened; both are 0 on success. */
  function StatusCode(status: nat): nat { status / 2 % 256 }

  function StatusType(status: nat): nat { status / 512 % 8 }

  predicate Failed(status: nat) { StatusCode(status) != 0 || StatusType(status) != 0 }

  /** The driver's test for a failed command. */
  predicate Reported(status: nat) { And(status, STATUS_MASK) != 0 }

  lemma MaskedStatus(status: nat)
    ensures And(status, STATUS_MASK) == 2 * StatusCode(status)
  {
    assert Pow2(8) == 256 by { Pow2Product(4, 4); assert Pow2(4) == 16; }
    MaskIsRemainder(status / 2, 8);
    hide And;
    AndEven(status, 255);
  }

  /** In bits: the status code is zero exactly when none of bits 1 to 8 of the status is set. */
  lemma StatusBits(status: nat)
    ensures StatusCode(status) != 0 <==> exists k: nat :: 1 <= k <= 8 && BitSet(status, k)
  {
    hide BitSet, Pow2;
    LowByte(status / 2);
    forall k: nat ensures BitSet(status, k + 1) <==> BitSet(status / 2, k) { NextBit(status, k); }
    if k: nat :| k < 8 && BitSet(status / 2, k) { assert BitSet(status, k + 1); }
    if k: nat :| 1 <= k <= 8 && BitSet(status, k) { assert BitSet(status / 2, k - 1) by { NextBit(status, k - 1); } }
  }

  lemma LowByte(x: nat)
    ensures x % 256 != 0 <==> exists k: nat :: k < 8 && BitSet(x, k)
  {
    hide BitSet;
    assert Pow2(8) == 256 by { Pow2Product(4, 4); assert Pow2(4) == 16; }
    LowBits(x, 8);
  }

  /** The test raises no false alarm, and misses a failure exactly when only the type says so. */
  lemma FailureReportedIff(status: nat)
    ensures Reported(status) ==> Failed(status)
    ensures (Failed(status) ==> Reported(status)) <==> StatusCode(status) != 0 || StatusType(status) == 0
  {
    hide And;
    MaskedStatus(status);
  }

  /** Status code type 1, status code 0: "Completion Queue Invalid" passes for success. */
  lemma UnreportedFailure()
    ensures Failed(0x200) && !Reported(0x200)
  {
    hide And;
    MaskedStatus(0x200);
  }

  class RequestPool {
    const cids: array<nat>   // reqs[i].cid
    const stack: array<nat>
    var top: nat

    ghost predicate Valid()
      reads this, cids, stack
    {
      && stack.Length == POOL_LEN && cids.Length == POOL_LEN && cids != stack && top <= POOL_LEN
      && forall i :: 0 <= i < POOL_LEN ==> cids[i] == i
    }

    ghost function Stack(): seq<nat>
      reads this, stack
      requires top <= stack.Length
    {
      stack[..top]
    }

    /** nvme_request_pool_init. */
    constructor ()
      ensures Valid() && Stack() == FullStack() && fresh(cids) && fresh(stack)
      ensures |Stack()| == 1024 && forall k :: 0 <= k < 1024 ==> Stack()[k] == 1023 - k
    {
      cids := new nat[POOL_LEN];
      stack := new nat[POOL_LEN];
      top := POOL_LEN;
      new;
      for i := 0 to POOL_LEN
        invariant cids.Length == stack.Length == POOL_LEN && cids != stack && top == POOL_LEN
        invariant fresh(cids) && fresh(stack)
        invariant forall k :: 0 <= k < i ==> cids[k] == k
        invariant forall m :: POOL_LEN - i <= m < POOL_LEN ==> stack[m] == POOL_LEN - 1 - m
      {
        cids[i] := i;
        stack[POOL_LEN - 1 - i] := i;
      }
      assert stack[..] == FullStack();
    }

    /** nvme_request_alloc: None is the NULL return on an empty pool. */
    method Alloc() returns (cid: Option<nat>)
      requires Valid() && forall k :: 0 <= k < top ==> stack[k] < POOL_LEN
      modifies this`top
      ensures Valid()
      ensures old(top) == 0 ==> cid.None? && Stack() == old(Stack())
      ensures old(top) > 0 ==> cid == Some(old(Stack())[old(top) - 1]) && Stack() == old(Stack())[..old(top) - 1]
    {
      if top == 0 { return None; }
      top := top - 1;
      return Some(cids[stack[top]]);
    }

    /** nvme_request_free; the caller frees no more than it allocated. */
    method Free(cid: nat)
      requires Valid() && top < POOL_LEN
      modifies this`top, stack
      ensures Valid() && Stack() == old(Stack()) + [cid]
    {
      stack[top] := cid;
      top := top + 1;
    }
  }

  /** The first poll that sees a completion, or the number of polls. */
  ghost function FirstReady(views: seq<seq<Cpl>>, head: nat, phase: nat): (k: nat)
    requires forall i :: 0 <= i < |views| ==> head < |views[i]|
    ensures k <= |views| && (k < |views| ==> Ready(views[k][head], phase))
    ensures forall i :: 0 <= i < k ==> !Ready(views[i][head], phase)
  {
    if views == [] || Ready(views[0][head], phase) then 0 else 1 + FirstReady(views[1..], head, phase)
  }

  class QPair {
    const depth: nat
    const sq: array<Command>  // memory the controller reads
    const cq: array<Cpl>      // memory the controller writes
    const rpool: RequestPool
    var sqdb: nat
    var cqdb: nat
    var tail: nat
    var tailLastWritten: nat
    var head: nat
    var phase: nat

    ghost predicate Valid()
      reads this
    {
      && 2 <= depth <= MAX_DEPTH && sq.Length == depth && cq.Length == depth
      && tail < depth && head < depth && phase < 2
    }

    ghost function H(): Host
      reads this
    {
      Host(depth, tail, tailLastWritten, head, phase, sqdb, cqdb)
    }

    /** The fields as nvme_qpair_init leaves them, the queues cleared. */
    constructor (depth: nat)
      requires 2 <= depth <= MAX_DEPTH
      ensures Valid() && this.depth == depth
      ensures H() == Host(depth, 0, NEVER_WRITTEN, 0, 1, 0, 0) && cq[..] == seq(depth, i => Cpl(0, 0))
      ensures rpool.Valid() && rpool.Stack() == FullStack()
      ensures fresh(sq) && fresh(cq) && fresh(rpool)
    {
      this.depth := depth;
      sq := new Command[depth](_ => seq(16, i => 0));
      cq := new Cpl[depth](_ => Cpl(0, 0));
      rpool := new RequestPool();
      sqdb, cqdb, tail, tailLastWritten, head, phase := 0, 0, 0, NEVER_WRITTEN, 0, 1;
    }

    method Enqueue(cmd: Command)
      requires Valid()
      modifies this`tail, sq
      ensures Valid() && H() == EnqueueHost(old(H()))
      ensures sq[..] == old(sq[..])[old(tail) := cmd]
    {
      sq[tail] := cmd;
      tail := (tail + 1) % depth;
    }

    method SqdbUpdate()
      requires Valid()
      modifies this`sqdb, this`tailLastWritten
      ensures Valid() && H() == RingHost(old(H()))
    {
      if tail == tailLastWritten { return; }
      sqdb := tail;
      tailLastWritten := tail;
    }

    /**
     * Poll `timeoutMs` times; `views[i]` is the completion queue as the i-th poll finds it, the
     * controller writing to it in between.
     */
    method ReapCpl(timeoutMs: nat, views: seq<seq<Cpl>>) returns (err: int, cpl: Cpl)
      requires Valid() && |views| == timeoutMs && forall i :: 0 <= i < timeoutMs ==> |views[i]| == depth
      modifies this`head, this`phase, this`cqdb, cq
      ensures Valid()
      ensures var k := FirstReady(views, old(head), old(phase));
        if k < timeoutMs then
          err == 0 && cpl == views[k][old(head)] && H() == ReapHost(old(H())) && cq[..] == views[k]
        else err == -ERRNO_EAGAIN && H() == old(H())
    {
      cpl := Cpl(0, 0);
      for i := 0 to timeoutMs
        invariant Valid() && H() == old(H())
        invariant forall j :: 0 <= j < i ==> !Ready(views[j][head], phase)
      {
        forall s | 0 <= s < depth { cq[s] := views[i][s]; }
        assert cq[..] == views[i];
        var cqe := cq[head];
        if cqe.cid < NO_CID && cqe.status % 2 == phase {
          cpl := cqe;
          head := head + 1;
          if head == depth {
            head := 0;
            phase := 1 - phase;
          }
          cqdb := head;
          return 0, cpl;
        }
      }
      return -ERRNO_EAGAIN, cpl;
    }

    /**
     * Allocate an identifier, submit, wait, free it. A timeout returns a positive errno and keeps
     * the identifier; a failed command is reported, its identifier freed all the same.
     */
    method SubmitSync(cmd: Command, timeoutMs: nat, views: seq<seq<Cpl>>) returns (err: int, cpl: Cpl, sent: Command)
      requires Valid() && |views| == timeoutMs && forall i :: 0 <= i < timeoutMs ==> |views[i]| == depth
      requires rpool.Valid() && forall k :: 0 <= k < rpool.top ==> rpool.stack[k] < POOL_LEN
      modifies this`tail, this`sqdb, this`tailLastWritten, this`head, this`phase, this`cqdb, sq, cq,
        rpool`top, rpool.stack
      ensures Valid() && rpool.Valid()
      ensures old(rpool.top) == 0 ==> err == -ERRNO_ENOMEM && H() == old(H()) && sq[..] == old(sq[..])
      ensures old(rpool.top) > 0 ==>
        var own := old(rpool.Stack())[old(rpool.top) - 1];
        var k := FirstReady(views, old(head), old(phase));
        && sent == WithCid(cmd, own) && sq[..] == old(sq[..])[old(tail) := sent]
        && (k < timeoutMs ==>
              && cpl == views[k][old(head)] && H() == ReapHost(RingHost(EnqueueHost(old(H())))) && cq[..] == views[k]
              && rpool.Stack() == old(rpool.Stack())
              && err == (if StatusCode(cpl.status) != 0 then -ERRNO_EIO else 0)
              && (err != 0 <==> exists k: nat :: 1 <= k <= 8 && BitSet(cpl.status, k)))
        && (k == timeoutMs ==>
              && err == ERRNO_EAGAIN && H() == RingHost(EnqueueHost(old(H())))
              && rpool.Stack() == old(rpool.Stack())[..old(rpool.top) - 1])
    {
      hide And, StatusCode, BitSet;
      cpl, sent := Cpl(0, 0), cmd;
      ghost var before := rpool.Stack();
      var req := rpool.Alloc();
      if req.None? { return -ERRNO_ENOMEM, cpl, sent; }
      sent := WithCid(cmd, req.value);
      Enqueue(sent);
      SqdbUpdate();
      err, cpl := ReapCpl(timeoutMs, views);
      if err != 0 { return -err, cpl, sent; }
      rpool.Free(req.value);
      assert before == before[..|before| - 1] + [before[|before| - 1]];
      MaskedStatus(cpl.status);
      StatusBits(cpl.status);
      if And(cpl.status, STATUS_MASK) != 0 { err := -ERRNO_EIO; }
    }
  }
}
