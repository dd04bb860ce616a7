/**
 * Synchronous submission, the two ways it is modelled: the host's method, which sees the completion
 * queue only as its polls find it, performs the state machine's call.
 */
module SyncRefines {
  import opened Common
  import opened QueueMachine
  import opened PoolMachine
  import B = BatchQueue
  import Q = QPair

  /** Poll `i` finds the completion queue as the controller has left it after its first `cuts[i]` steps. */
  ghost predicate ViewsOf(d: Driver, cmd: Command, sched: seq<Action>, cuts: seq<nat>, views: seq<seq<Cpl>>)
    requires CanSend(d) && DeviceOnly(sched)
  {
    |cuts| == |views| && forall i :: 0 <= i < |views| ==> ViewOf(d, cmd, sched, cuts[i], views[i])
  }

  ghost predicate ViewOf(d: Driver, cmd: Command, sched: seq<Action>, cut: nat, view: seq<Cpl>)
    requires CanSend(d) && DeviceOnly(sched)
  {
    cut <= |sched| && view == DeviceRun(SyncSend(d, cmd).q, sched[..cut]).cq
  }

  /** What a poll that sees `view` finds is what the call with that schedule ends with. */
  lemma PollIsCall(d: Driver, cmd: Command, sched: seq<Action>, cut: nat, view: seq<Cpl>)
    requires CanSend(d) && DeviceOnly(sched) && ViewOf(d, cmd, sched, cut, view)
    ensures d.q.h.head < |view| == d.q.h.depth && d.q.h.tail < |d.q.sq|
    ensures var (t, res) := SyncCall(d, cmd, sched[..cut]);
      && t.q.sq == d.q.sq[d.q.h.tail := WithCid(cmd, OwnId(d))] && t.q.cq == view
      && (if Ready(view[d.q.h.head], d.q.h.phase) then
            && res == Some(view[d.q.h.head]) && t.q.h == ReapHost(RingHost(EnqueueHost(d.q.h)))
            && t.stack == d.stack
          else
            && res == None && t.q.h == RingHost(EnqueueHost(d.q.h))
            && t.stack == d.stack[..|d.stack| - 1])
  {
    hide Inv, InFlight, DeviceRun, SyncSend, SyncFinish, ReapHost, RingHost, EnqueueHost, Ready, WithCid;
    var s := SyncSend(d, cmd);
    SendOnly(d, cmd);
    InvCounts(d.q);
    B.DeviceRunFrame(s.q, sched[..cut]);
    var q := DeviceRun(s.q, sched[..cut]);
    FinalPoll(s.(q := q), OwnId(d));
    assert d.stack[..|d.stack| - 1] + [OwnId(d)] == d.stack;
  }

  lemma FinalPoll(t: Driver, own: nat)
    requires Inv(t.q)
    ensures |t.q.cq| == t.q.h.depth && t.q.h.head < |t.q.cq|
    ensures var (u, res) := SyncFinish(t, own);
      if Ready(t.q.cq[t.q.h.head], t.q.h.phase) then
        && res == Some(t.q.cq[t.q.h.head]) && u.q.h == ReapHost(t.q.h) && u.stack == t.stack + [own]
        && u.q.sq == t.q.sq && u.q.cq == t.q.cq
      else res == None && u == t
  {
    InvCounts(t.q);
    hide Inv, ReapHost, Ready;
  }

  lemma ViewBound(d: Driver, cmd: Command, sched: seq<Action>, cuts: seq<nat>, views: seq<seq<Cpl>>, i: nat)
    requires CanSend(d) && DeviceOnly(sched) && ViewsOf(d, cmd, sched, cuts, views) && i < |views|
    ensures |cuts| == |views| && cuts[i] <= |sched| && |views[i]| == d.q.h.depth && d.q.h.head < |views[i]|
  {
    hide SyncCall, CanSend;
    assert ViewOf(d, cmd, sched, cuts[i], views[i]);
    PollIsCall(d, cmd, sched, cuts[i], views[i]);
  }

  /** Earlier polls see what a call that times out sees. */
  lemma EarlierPolls(d: Driver, cmd: Command, sched: seq<Action>, cuts: seq<nat>, views: seq<seq<Cpl>>, i: nat)
    requires CanSend(d) && DeviceOnly(sched) && ViewsOf(d, cmd, sched, cuts, views)
    requires forall j :: 0 <= j < |views| ==> d.q.h.head < |views[j]|
    requires i < Q.FirstReady(views, d.q.h.head, d.q.h.phase)
    ensures cuts[i] <= |sched| && SyncCall(d, cmd, sched[..cuts[i]]).1 == None
  {
    hide SyncCall, CanSend;
    assert ViewOf(d, cmd, sched, cuts[i], views[i]);
    PollIsCall(d, cmd, sched, cuts[i], views[i]);
  }

  /** The machine's call, up to poll `k` or, if no poll succeeds, up to the last; without a poll it
      stops after the doorbell. */
  ghost function CallTo(d: Driver, cmd: Command, sched: seq<Action>, cuts: seq<nat>, k: nat): (Driver, Option<Cpl>)
    requires CanSend(d) && DeviceOnly(sched) && k <= |cuts| && forall i :: 0 <= i < |cuts| ==> cuts[i] <= |sched|
  {
    if k < |cuts| then SyncCall(d, cmd, sched[..cuts[k]])
    else if k > 0 then SyncCall(d, cmd, sched[..cuts[k - 1]])
    else (SyncSend(d, cmd), None)
  }

  /**
   * The method on a queue pair whose fields, submission queue and stack are the driver's: the same
   * result, fields, submission queue and stack as the machine's call, whatever the controller does.
   */
  method SubmitSyncIsCall(qp: Q.QPair, cmd: Command, timeoutMs: nat, views: seq<seq<Cpl>>, ghost d: Driver,
                          ghost sched: seq<Action>, ghost cuts: seq<nat>)
    returns (err: int, cpl: Cpl)
    requires qp.Valid() && qp.rpool.Valid() && |views| == timeoutMs
    requires CanSend(d) && qp.H() == d.q.h && qp.sq[..] == d.q.sq && qp.rpool.Stack() == d.stack
    requires DeviceOnly(sched) && ViewsOf(d, cmd, sched, cuts, views)
    modifies qp`tail, qp`sqdb, qp`tailLastWritten, qp`head, qp`phase, qp`cqdb, qp.sq, qp.cq, qp.rpool`top,
      qp.rpool.stack
    ensures qp.Valid() && qp.rpool.Valid()
    ensures forall i :: 0 <= i < timeoutMs ==> d.q.h.head < |views[i]|
    ensures forall i :: 0 <= i < timeoutMs ==> cuts[i] <= |sched|
    ensures var (t, res) := CallTo(d, cmd, sched, cuts, Q.FirstReady(views, d.q.h.head, d.q.h.phase));
      && qp.H() == t.q.h && qp.sq[..] == t.q.sq && qp.rpool.Stack() == t.stack
      && (if res.Some? then
            && cpl == res.value && qp.cq[..] == t.q.cq
            && err == (if Q.StatusCode(cpl.status) != 0 then -ERRNO_EIO else 0)
          else err == ERRNO_EAGAIN)
  {
    hide SyncCall, CanSend, ViewsOf, CallTo, Q.StatusCode;
    forall i: nat | i < timeoutMs
      ensures |views[i]| == qp.depth && d.q.h.head < |views[i]| && |cuts| == timeoutMs && cuts[i] <= |sched|
    {
      ViewBound(d, cmd, sched, cuts, views, i);
    }
    StackIds(d);
    EndOfCall(d, cmd, sched, cuts, views);
    assert forall j :: 0 <= j < qp.rpool.top ==> qp.rpool.stack[j] == d.stack[j];
    var sent: Command;
    err, cpl, sent := qp.SubmitSync(cmd, timeoutMs, views);
  }

  lemma StackIds(d: Driver)
    requires CanSend(d)
    ensures d.stack != [] && forall k :: 0 <= k < |d.stack| ==> d.stack[k] < POOL_LEN
  {
    forall k | 0 <= k < |d.stack| ensures d.stack[k] < POOL_LEN { IdInStack(d, d.stack[k]); }
  }

  /** What the machine's call ends with, at the poll that ends the method's. */
  lemma EndOfCall(d: Driver, cmd: Command, sched: seq<Action>, cuts: seq<nat>, views: seq<seq<Cpl>>)
    requires CanSend(d) && DeviceOnly(sched) && ViewsOf(d, cmd, sched, cuts, views)
    requires forall i :: 0 <= i < |views| ==> d.q.h.head < |views[i]|
    ensures |cuts| == |views| && forall i :: 0 <= i < |cuts| ==> cuts[i] <= |sched|
    ensures d.stack != [] && d.q.h.tail < |d.q.sq|
    ensures var k := Q.FirstReady(views, d.q.h.head, d.q.h.phase);
      var (t, res) := CallTo(d, cmd, sched, cuts, k);
      && t.q.sq == d.q.sq[d.q.h.tail := WithCid(cmd, OwnId(d))]
      && (if k < |views| then
            && res == Some(views[k][d.q.h.head]) && t.q.cq == views[k]
            && t.q.h == ReapHost(RingHost(EnqueueHost(d.q.h))) && t.stack == d.stack
          else
            res == None && t.q.h == RingHost(EnqueueHost(d.q.h)) && t.stack == d.stack[..|d.stack| - 1])
  {
    hide SyncCall, CanSend, SyncSend, Q.FirstReady, ReapHost, RingHost, EnqueueHost, Ready, WithCid, DeviceRun, ViewOf;
    SendOnly(d, cmd);
    var k := Q.FirstReady(views, d.q.h.head, d.q.h.phase);
    forall i: nat | i < |views| ensures cuts[i] <= |sched| { ViewBound(d, cmd, sched, cuts, views, i); }
    if |views| > 0 {
      var i := if k < |views| then k else k - 1;
      assert ViewOf(d, cmd, sched, cuts[i], views[i]);
      PollIsCall(d, cmd, sched, cuts[i], views[i]);
    }
  }

  lemma SendOnly(d: Driver, cmd: Command)
    requires CanSend(d)
    ensures d.stack != [] && d.q.h.tail < |d.q.sq|
    ensures var t := SyncSend(d, cmd);
      && t.q.sq == d.q.sq[d.q.h.tail := WithCid(cmd, OwnId(d))] && t.q.h == RingHost(EnqueueHost(d.q.h))
      && t.stack == d.stack[..|d.stack| - 1]
      && t.q.h.head == d.q.h.head && t.q.h.phase == d.q.h.phase && t.q.h.depth == d.q.h.depth
  {
    InvCounts(d.q);
    hide Inv, InFlight;
  }

  // ---- The pool's methods and the whole call, as steps of the driver

  /** nvme_request_alloc is the step that takes the top identifier, and hands it to the caller. */
  method AllocIsStep(pool: Q.RequestPool, ghost d: Driver) returns (cid: Option<nat>, ghost e: Driver)
    requires pool.Valid() && IdsInv(d) && pool.Stack() == d.stack
    modifies pool`top
    ensures pool.Valid() && IdsInv(e) && e == StepDriver(d, AllocId) && pool.Stack() == e.stack
    ensures if d.stack == [] then cid == None && e == d
            else
              && cid == Some(d.stack[|d.stack| - 1]) && e.stack == d.stack[..|d.stack| - 1]
              && e.prepared == d.prepared + multiset{cid.value} && e.done == d.done && e.q == d.q
  {
    hide Inv, InFlight, AllIds;
    forall k: nat | k < |d.stack| ensures d.stack[k] < POOL_LEN { IdInStack(d, d.stack[k]); }
    assert forall k :: 0 <= k < pool.top ==> pool.stack[k] == d.stack[k];
    StepKeepsIds(d, AllocId);
    e := StepDriver(d, AllocId);
    cid := pool.Alloc();
  }

  /** nvme_request_free is the step that puts a completed identifier back. */
  method FreeIsStep(pool: Q.RequestPool, cid: nat, ghost d: Driver) returns (ghost e: Driver)
    requires pool.Valid() && IdsInv(d) && pool.Stack() == d.stack && cid in d.done
    modifies pool`top, pool.stack
    ensures pool.Valid() && IdsInv(e) && e == StepDriver(d, FreeId(cid)) && pool.Stack() == e.stack
    ensures e.stack == d.stack + [cid] && e.done == d.done - multiset{cid} && e.prepared == d.prepared && e.q == d.q
  {
    hide Inv, InFlight, AllIds;
    RoomInPool(d, cid);
    StepKeepsIds(d, FreeId(cid));
    e := StepDriver(d, FreeId(cid));
    pool.Free(cid);
  }

  lemma RoomInPool(d: Driver, cid: nat)
    requires IdsInv(d) && cid in d.done
    ensures |d.stack| < POOL_LEN
  {
    InvCounts(d.q);
    assert |AllIds()| == POOL_LEN;
    hide Inv, InFlight, FullStack;
    assert |multiset(d.stack)| == |d.stack|;
    assert |d.done| > 0;
  }

  lemma {:induction false} RunThenRun(d: Driver, first: seq<DriverAction>, mid: Driver, rest: seq<DriverAction>,
                                      t: Driver)
    requires IdsInv(d) && DriverReaches(d, first, mid)
    requires IdsInv(mid) && DriverReaches(mid, rest, t)
    ensures DriverReaches(d, first + rest, t)
    decreases |first|
  {
    hide Inv, InFlight, AllIds, Allowed, StepDriver;
    if first == [] {
      assert first + rest == rest;
    } else {
      StepKeepsIds(d, first[0]);
      RunThenRun(StepDriver(d, first[0]), first[1..], mid, rest, t);
      assert (first + rest)[1..] == first[1..] + rest;
    }
  }

  lemma OneStep(d: Driver, a: DriverAction)
    requires IdsInv(d) && Allowed(d, a)
    ensures DriverReaches(d, [a], StepDriver(d, a)) && IdsInv(StepDriver(d, a))
  {
    hide IdsInv, Allowed, StepDriver;
    StepKeepsIds(d, a);
    assert [a][1..] == [];
  }

  /** Up to its doorbell the call is three steps. */
  lemma SendIsSteps(d: Driver, cmd: Command)
    requires CanSend(d)
    ensures var c := WithCid(cmd, OwnId(d));
      DriverReaches(d, [AllocId] + [Send(c)] + [Doorbell], SyncSend(d, cmd)) && IdsInv(SyncSend(d, cmd))
  {
    hide Inv, InFlight, AllIds, DriverReaches;
    IdInStack(d, OwnId(d));
    var c := WithCid(cmd, OwnId(d));
    OneStep(d, AllocId);
    var d1 := StepDriver(d, AllocId);
    OneStep(d1, Send(c));
    var d2 := StepDriver(d1, Send(c));
    assert d2.prepared == d.prepared;
    OneStep(d2, Doorbell);
    RunThenRun(d, [AllocId], d1, [Send(c)], d2);
    RunThenRun(d, [AllocId] + [Send(c)], d2, [Doorbell], StepDriver(d2, Doorbell));
  }

  ghost function Devices(sched: seq<Action>): (s: seq<DriverAction>)
    ensures |s| == |sched|
  {
    seq(|sched|, i requires 0 <= i < |sched| => Device(sched[i]))
  }

  lemma {:induction false} DevicesAreSteps(d: Driver, sched: seq<Action>)
    requires IdsInv(d) && DeviceOnly(sched)
    ensures IdsInv(d.(q := DeviceRun(d.q, sched)))
    ensures DriverReaches(d, Devices(sched), d.(q := DeviceRun(d.q, sched)))
    decreases |sched|
  {
    hide Inv, InFlight, AllIds, Next;
    if sched != [] {
      var a := Device(sched[0]);
      assert Allowed(d, a) && StepDriver(d, a) == d.(q := Next(d.q, sched[0]));
      StepKeepsIds(d, a);
      DevicesAreSteps(StepDriver(d, a), sched[1..]);
      assert Devices(sched)[0] == a && Devices(sched)[1..] == Devices(sched[1..]);
    }
  }

  /** A call that gets its own completion ends with a poll and a free. */
  lemma FinishIsSteps(t: Driver, own: nat)
    requires IdsInv(t) && |t.q.reaped| < |t.q.posted| && t.q.posted[|t.q.reaped|].cid == own
    ensures DriverReaches(t, [Poll] + [FreeId(own)], SyncFinish(t, own).0) && IdsInv(SyncFinish(t, own).0)
  {
    hide Inv, InFlight, AllIds, DriverReaches, ReapHost;
    PollMoves(t.q);
    OneStep(t, Poll);
    var u := StepDriver(t, Poll);
    assert u.done == t.done + multiset{own};
    OneStep(u, FreeId(own));
    var w := StepDriver(u, FreeId(own));
    assert w.done == t.done;
    RunThenRun(t, [Poll], u, [FreeId(own)], w);
  }

  /** A whole call with nothing else in flight is a run of the driver's steps. */
  lemma SyncCallIsRun(d: Driver, cmd: Command, sched: seq<Action>)
    requires CanSend(d) && DeviceOnly(sched) && |d.q.enqueued| == |d.q.reaped|
    requires SyncCall(d, cmd, sched).1.Some?
    ensures var own := OwnId(d);
      DriverReaches(d, [AllocId] + [Send(WithCid(cmd, own))] + [Doorbell] + Devices(sched) + ([Poll] + [FreeId(own)]),
                    SyncCall(d, cmd, sched).0)
  {
    hide Inv, InFlight, AllIds, DriverReaches, SyncSend, SyncFinish, DeviceRun;
    var own, s := OwnId(d), SyncSend(d, cmd);
    var sends := [AllocId] + [Send(WithCid(cmd, own))] + [Doorbell];
    SyncReturnsOwn(d, cmd, sched);
    CallPolls(d, cmd, sched);
    SendIsSteps(d, cmd);
    DevicesAreSteps(s, sched);
    var u := s.(q := DeviceRun(s.q, sched));
    FinishIsSteps(u, own);
    RunThenRun(d, sends, s, Devices(sched), u);
    RunThenRun(d, sends + Devices(sched), u, [Poll] + [FreeId(own)], SyncFinish(u, own).0);
  }
}
