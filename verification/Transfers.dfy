/**
 * Commands with their data: PRP fields inside a command's words, and PRP list pages that belong to
 * identifiers.
 */
module Transfers {
  import opened Translate
  import opened QueueMachine
  import opened PoolMachine
  import opened QueueMemory
  import P = Prp

  const U32: nat := 0x1_0000_0000
  const U64: nat := U32 * U32

  // ---- PRP fields

  /** Words 6 to 9 of a command are PRP1 and PRP2, low half first. */
  function WithPrps(c: Command, prp1: nat, prp2: nat): (r: Command)
    requires prp1 < U64 && prp2 < U64
    ensures Prp1(r) == prp1 && Prp2(r) == prp2 && Cid(r) == Cid(c)
    ensures forall i :: 0 <= i < 16 && !(6 <= i < 10) ==> r[i] == c[i]
  {
    c[6 := prp1 % U32][7 := prp1 / U32][8 := prp2 % U32][9 := prp2 / U32]
  }

  function Prp1(c: Command): nat { c[6] + U32 * c[7] }

  function Prp2(c: Command): nat { c[8] + U32 * c[9] }

  /**
   * A command whose PRPs cover a buffer still covers it when the controller has fetched it, in any
   * run, and under any identifier.
   */
  lemma FetchedCommandCovers(s0: System, actions: seq<Action>, s: System, j: nat, c: Command, cid: nat,
                             prp1: nat, prp2: nat, lists: map<nat, seq<nat>>, v: View, dbuf: nat, nbytes: nat)
    requires Initial(s0) && Inv(s0) && Reaches(s0, actions, s) && j < |s.fetched| && j < |s.enqueued|
    requires prp1 < U64 && prp2 < U64 && P.Covers(prp1, prp2, lists, v, dbuf, nbytes)
    requires s.enqueued[j] == WithCid(WithPrps(c, prp1, prp2), cid)
    ensures Cid(s.fetched[j]) == cid
    ensures P.Covers(Prp1(s.fetched[j]), Prp2(s.fetched[j]), lists, v, dbuf, nbytes)
  {
    hide P.Covers, Inv, Reaches;
    RunIsFaithful(s0, actions, s);
    var sent, plain := s.fetched[j], WithPrps(c, prp1, prp2);
    assert sent == s.enqueued[j];
    assert sent[6] == plain[6] && sent[7] == plain[7] && sent[8] == plain[8] && sent[9] == plain[9] by {
      assert forall i :: 1 <= i < 16 ==> sent[i] == sent[1..][i - 1] && plain[i] == plain[1..][i - 1];
    }
  }

  // ---- PRP lists

  /** While an identifier is in flight, the list page of any other one that is prepared is elsewhere. */
  lemma InFlightListsApart(q: QueueMemory, d: Driver, x: nat, y: nat)
    requires q.Ready() && IdsInv(d) && InvCountsOk(d.q) && x in InFlight(d.q) && y in d.prepared
    ensures x < POOL_LEN && y < POOL_LEN && x != y
    ensures Apart(q.prp[x], q.heap.pagesize, q.prp[y], q.heap.pagesize)
  {
    IdsAreDistinct(x);
    IdsAreDistinct(y);
    hide Inv, InFlight, AllIds;
    NothingOverlaps(q, x, y);
  }

  /** After a synchronous call that returned another's completion, the next request to be handed out
      is given the list page of a command that is still in flight. */
  lemma MisreturnReusesList(d: Driver, cmd: Command) returns (sched: seq<Action>)
    requires CanSend(d) && |d.q.enqueued| != |d.q.reaped|
    ensures DeviceOnly(sched)
    ensures var (t, res) := SyncCall(d, cmd, sched);
      && res.Some? && InvCountsOk(t.q) && t.stack != [] && OwnId(t) == OwnId(d) && OwnId(t) in InFlight(t.q)
  {
    hide InFlight, SyncCall, Inv;
    sched := SyncMayReturnAnother(d, cmd);
    CallPolls(d, cmd, sched);
  }
}
