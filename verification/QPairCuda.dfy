/**
 * The device-side queue pair (nvme_qpair_cuda.h): the four operations that a thread block runs
 * between its barriers, each tied to the step it takes in the batch machine.
 */
module QPairCuda {
  import opened Bits
  import opened Common
  import opened QueueMachine
  import opened BatchQueue
  import Q = QPair

  class QPairCuda {
    const depth: nat
    const sq: array<Command>
    var tail: nat
    var head: nat
    var phase: nat
    var sqdb: nat
    var cqdb: nat

    ghost predicate Valid()
      reads this
    {
      && 2 <= depth < U16 && sq.Length == depth
      && tail < depth && head < depth && phase < 2
    }

    /** The host fields; the last tail written is the doorbell. */
    ghost function H(): Host
      reads this
    {
      Host(depth, tail, sqdb, head, phase, sqdb, cqdb)
    }

    constructor (depth: nat)
      requires 2 <= depth < U16
      ensures Valid() && this.depth == depth && H() == Host(depth, 0, 0, 0, 1, 0, 0)
      ensures fresh(sq)
    {
      this.depth := depth;
      sq := new Command[depth](_ => seq(16, i => 0));
      tail, head, phase, sqdb, cqdb := 0, 0, 1, 0, 0;
    }

    /** nvme_qpair_cuda_enqueue_at_i: copy a command word by word, `offset` entries after the tail. */
    method EnqueueAtI(cmd: Command, offset: nat)
      requires Valid() && offset < U16
      modifies sq
      ensures Valid() && sq[..] == old(sq[..])[(tail + offset) % depth := cmd]
    {
      var index := (tail + offset) % depth;
      for i := 0 to WORDS
        invariant forall k :: 0 <= k < depth && k != index ==> sq[k] == old(sq[k])
        invariant sq[index][..i] == cmd[..i]
      {
        sq[index] := sq[index][i := cmd[i]];
      }
      assert sq[index] == sq[index][..WORDS] == cmd[..WORDS] == cmd;
    }

    /** nvme_qpair_cuda_sq_update. */
    method SqUpdate(increment: nat)
      requires Valid() && increment < U16
      modifies this`tail, this`sqdb
      ensures Valid() && H() == SqUpdateHost(old(H()), increment)
    {
      tail := (tail + increment) % depth;
      sqdb := tail;
    }

    /** nvme_qpair_cuda_reap_at_i; `views[i]` is the completion queue as the i-th poll finds it. The
        code polls at least once. */
    method ReapAtI(views: seq<seq<Cpl>>, offset: nat) returns (err: int, cpl: Cpl)
      requires Valid() && |views| > 0 && offset < U16
      requires forall i :: 0 <= i < |views| ==> |views[i]| == depth
      ensures var index, expected := (head + offset) % depth, ExpectedPhase(H(), offset);
        var k := Q.FirstReady(views, index, expected);
        if k < |views| then err == 0 && cpl == views[k][index] else err == -ERRNO_EAGAIN && cpl == Cpl(0, 0)
    {
      var index := (head + offset) % depth;
      var expected := if (head + offset) % U16 >= depth then 1 - phase else phase;
      for i := 0 to |views|
        invariant forall j :: 0 <= j < i ==> !Ready(views[j][index], expected)
      {
        var cqe := views[i][index];
        if cqe.cid < NO_CID && cqe.status % 2 == expected { return 0, cqe; }
      }
      return -ERRNO_EAGAIN, Cpl(0, 0);
    }

    /** nvme_qpair_cuda_cq_update, in 16 bits: the head stays in range when no more than the queue is
        consumed and the sum does not wrap. */
    method CqUpdate(increment: nat)
      requires Valid() && increment < U16
      modifies this`head, this`phase, this`cqdb
      ensures H() == CqUpdateHost(old(H()), increment)
      ensures increment <= depth && old(head) + increment < U16 ==> Valid()
    {
      var next := (head + increment) % U16;
      if next >= depth {
        next := next - depth;
        phase := 1 - phase;
      }
      head := next;
      cqdb := head;
    }

    /** What nvme_qpair_cuda_io returns to a thread: the error, or the 8-bit status code it reaped. The
        status code type, in the three bits above, is not part of it. */
    method Result(err: int, cpl: Cpl) returns (r: int)
      ensures r == if err != 0 then err else Q.StatusCode(cpl.status)
      ensures err == 0 ==> r == cpl.status / 2 % 256
                           && (r != 0 <==> exists k: nat :: 1 <= k <= 8 && BitSet(cpl.status, k))
    {
      hide BitSet, And;
      Q.StatusBits(cpl.status);
      if err != 0 { return err; }
      Q.MaskedStatus(cpl.status);
      assert Pow2(1) == 2;
      return Shr(And(cpl.status, Q.STATUS_MASK), 1);
    }
  }
}
