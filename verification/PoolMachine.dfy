/**
 * The queue pair together with its pool of command identifiers (nvme_request.h): where each of the
 * 1024 identifiers is at any moment, and what synchronous submission relies on.
 */
module PoolMachine {
  import opened Common
  import opened QueueMachine

  const POOL_LEN: nat := 1024

  /** The pool's stack as nvme_request_pool_init leaves it: identifier 0 on top. */
  function FullStack(): (s: seq<nat>)
    ensures |s| == POOL_LEN
  {
    seq(POOL_LEN, i requires 0 <= i < POOL_LEN => POOL_LEN - 1 - i)
  }

  ghost function AllIds(): multiset<nat> {
    multiset(FullStack())
  }

  /** `prepared` identifiers are allocated and not sent; `done` ones are reaped and not freed. */
  datatype Driver = Driver(q: System, stack: seq<nat>, prepared: multiset<nat>, done: multiset<nat>)

  datatype DriverAction =
    | AllocId
    | Send(c: Command)
    | Doorbell
    | Poll
    | FreeId(cid: nat)
    | ReuseId(cid: nat)  // submit again on completion, without a free
    | Device(a: Action)  // Fetch or Post

  function CidsOf(cs: seq<Command>): (s: seq<nat>)
    ensures |s| == |cs|
  {
    seq(|cs|, i requires 0 <= i < |cs| => Cid(cs[i]))
  }

  function CplCids(cs: seq<Cpl>): (s: seq<nat>)
    ensures |s| == |cs|
  {
    seq(|cs|, i requires 0 <= i < |cs| => cs[i].cid)
  }

  /** The identifiers of commands sent and not reaped: waiting, with the controller, or completed. */
  ghost function InFlight(q: System): multiset<nat>
    requires |q.fetched| <= |q.enqueued| && |q.reaped| <= |q.posted|
  {
    multiset(CidsOf(q.enqueued[|q.fetched|..])) + multiset(CidsOf(q.pending))
    + multiset(CplCids(q.posted[|q.reaped|..]))
  }

  ghost predicate Allowed(d: Driver, a: DriverAction)
    requires Inv(d.q)
  {
    match a
    case Send(c) => Cid(c) in d.prepared && Permitted(d.q, Enqueue(c))
    case FreeId(cid) => cid in d.done
    case ReuseId(cid) => cid in d.done
    case Device(b) => b.Fetch? || b.Post?
    case _ => true
  }

  ghost function StepDriver(d: Driver, a: DriverAction): Driver
    requires Inv(d.q) && Allowed(d, a)
  {
    match a
    case AllocId =>
      if d.stack == [] then d
      else
        var top := |d.stack| - 1;
        d.(stack := d.stack[..top], prepared := d.prepared + multiset{d.stack[top]})
    case Send(c) => d.(q := Next(d.q, Enqueue(c)), prepared := d.prepared - multiset{Cid(c)})
    case Doorbell => d.(q := Next(d.q, Ring))
    case Poll =>
      var q := Next(d.q, Reap);
      if |q.reaped| == |d.q.reaped| then d.(q := q)
      else d.(q := q, done := d.done + multiset{d.q.cq[d.q.h.head].cid})
    case FreeId(cid) => d.(stack := d.stack + [cid], done := d.done - multiset{cid})
    case ReuseId(cid) => d.(prepared := d.prepared + multiset{cid}, done := d.done - multiset{cid})
    case Device(b) => d.(q := Next(d.q, b))
  }

  /** Every identifier is in exactly one place. */
  ghost predicate IdsInv(d: Driver) {
    && Inv(d.q)
    && multiset(d.stack) + d.prepared + InFlight(d.q) + d.done == AllIds()
  }

  lemma {:induction false} CountInStack(n: nat, x: nat)
    ensures multiset(seq(n, i requires 0 <= i < n => n - 1 - i))[x] == if x < n then 1 else 0
  {
    var s := seq(n, i requires 0 <= i < n => n - 1 - i);
    if n > 0 {
      var rest := seq(n - 1, i requires 0 <= i < n - 1 => n - 2 - i);
      assert s == [n - 1] + rest;
      CountInStack(n - 1, x);
    }
  }

  /** AllIds is the set 0..1023, each once. */
  lemma IdsAreDistinct(x: nat)
    ensures AllIds()[x] == if x < POOL_LEN then 1 else 0
  {
    CountInStack(POOL_LEN, x);
    assert FullStack() == seq(POOL_LEN, i requires 0 <= i < POOL_LEN => POOL_LEN - 1 - i);
  }

  lemma CidsSplit(cs: seq<Command>, i: nat)
    requires i < |cs|
    ensures multiset(CidsOf(cs)) == multiset(CidsOf(RemoveAt(cs, i))) + multiset{Cid(cs[i])}
  {
    var s := CidsOf(cs);
    assert s == s[..i] + [s[i]] + s[i + 1..];
    assert CidsOf(RemoveAt(cs, i)) == s[..i] + s[i + 1..];
  }

  // ---- How each step moves identifiers

  lemma SendMoves(q: System, c: Command)
    requires Inv(q) && Permitted(q, Enqueue(c))
    ensures InFlight(Next(q, Enqueue(c))) == InFlight(q) + multiset{Cid(c)}
  {
    InvCounts(q);
    hide Inv;
    var t, f := EnqueueStep(q, c), |q.fetched|;
    assert t.enqueued[f..] == q.enqueued[f..] + [c];
    assert CidsOf(t.enqueued[f..]) == CidsOf(q.enqueued[f..]) + [Cid(c)];
  }

  lemma InvCounts(q: System)
    requires Inv(q)
    ensures |q.reaped| <= |q.posted| <= |q.fetched| <= q.published <= |q.enqueued| <= |q.reaped| + q.h.depth - 1
    ensures q.fetched <= q.enqueued && Shaped(q)
  {
  }

  lemma FetchMoves(q: System)
    requires Inv(q)
    ensures InFlight(Next(q, Fetch)) == InFlight(q)
  {
    InvCounts(q);
    FetchKeepsInv(q);
    hide Inv;
    var t, f := FetchStep(q), |q.fetched|;
    if f < q.published {
      assert t.fetched[f] == q.enqueued[f] && t.pending == q.pending + [t.fetched[f]];
      FetchedMoves(q, t);
    }
  }

  lemma FetchedMoves(q: System, t: System)
    requires |q.fetched| < |q.enqueued| && |q.reaped| <= |q.posted|
    requires t.enqueued == q.enqueued && t.posted == q.posted && t.reaped == q.reaped
    requires |t.fetched| == |q.fetched| + 1 && t.pending == q.pending + [q.enqueued[|q.fetched|]]
    ensures InFlight(t) == InFlight(q)
  {
    var f := |q.fetched|;
    var c, rest := q.enqueued[f], q.enqueued[f + 1..];
    assert q.enqueued[f..] == [c] + rest;
    CidsCons(c, rest);
    CidsSnoc(q.pending, c);
    hide CidsOf;
    var e, p := multiset(CidsOf(rest)), multiset(CidsOf(q.pending));
    assert (multiset{Cid(c)} + e) + p == e + (p + multiset{Cid(c)});
  }

  lemma CidsCons(c: Command, rest: seq<Command>)
    ensures multiset(CidsOf([c] + rest)) == multiset{Cid(c)} + multiset(CidsOf(rest))
  {
    assert CidsOf([c] + rest) == [Cid(c)] + CidsOf(rest);
  }

  lemma CidsSnoc(front: seq<Command>, c: Command)
    ensures multiset(CidsOf(front + [c])) == multiset(CidsOf(front)) + multiset{Cid(c)}
  {
    assert CidsOf(front + [c]) == CidsOf(front) + [Cid(c)];
  }

  lemma PostMoves(q: System, i: nat, status: nat)
    requires Inv(q)
    ensures InFlight(Next(q, Post(i, status))) == InFlight(q)
  {
    InvCounts(q);
    hide Inv;
    var t, r := PostStep(q, i, status), |q.reaped|;
    if |t.posted| > |q.posted| {
      CidsSplit(q.pending, i);
      assert t.posted[r..] == q.posted[r..] + [t.posted[|q.posted|]];
      assert CplCids(t.posted[r..]) == CplCids(q.posted[r..]) + [Cid(q.pending[i])];
    }
  }

  lemma DeviceMoves(q: System, a: Action)
    requires Inv(q) && (a.Fetch? || a.Post?)
    ensures InFlight(Next(q, a)) == InFlight(q)
  {
    hide InFlight, Inv;
    match a
    case Fetch => FetchMoves(q);
    case Post(i, status) => PostMoves(q, i, status);
  }

  /** A successful poll takes one identifier out of flight: the one in the completion. */
  lemma PollMoves(q: System)
    requires Inv(q)
    ensures var t := Next(q, Reap);
      if |q.reaped| < |q.posted| then
        && |t.reaped| == |q.reaped| + 1
        && q.h.head < |q.cq| && q.cq[q.h.head] == q.posted[|q.reaped|] == t.reaped[|q.reaped|]
        && q.cq[q.h.head].cid in InFlight(q)
        && InFlight(t) == InFlight(q) - multiset{q.cq[q.h.head].cid}
      else t == q
  {
    hide Inv, InFlight, ReapHost;
    InvCounts(q);
    PollIsExact(q);
    if |q.reaped| < |q.posted| { ReapedMoves(q, ReapStep(q)); }
  }

  lemma ReapedMoves(q: System, t: System)
    requires |q.reaped| < |q.posted| && |q.fetched| <= |q.enqueued|
    requires t.reaped == q.reaped + [q.posted[|q.reaped|]]
    requires t.enqueued == q.enqueued && t.fetched == q.fetched && t.pending == q.pending && t.posted == q.posted
    ensures q.posted[|q.reaped|].cid in InFlight(q)
    ensures InFlight(t) == InFlight(q) - multiset{q.posted[|q.reaped|].cid}
  {
    var r, x := |q.reaped|, q.posted[|q.reaped|];
    assert CplCids(q.posted[r..]) == [x.cid] + CplCids(q.posted[r + 1..]);
    assert multiset(CplCids(q.posted[r..])) == multiset{x.cid} + multiset(CplCids(q.posted[r + 1..]));
  }

  lemma RingMoves(q: System)
    requires Inv(q)
    ensures InFlight(Next(q, Ring)) == InFlight(q)
  {
  }

  /** In every run the stack, the identifiers in use and those in flight partition 0..1023. */
  lemma StepKeepsIds(d: Driver, a: DriverAction)
    requires IdsInv(d) && Allowed(d, a)
    ensures IdsInv(StepDriver(d, a))
  {
    hide Inv, InFlight, AllIds;
    InvCounts(d.q);
    match a
    case Send(c) => SendKeepsIds(d, c);
    case Doorbell => RingMoves(d.q);
    case Poll => PollKeepsIds(d);
    case Device(b) => DeviceMoves(d.q, b);
    case _ => StackKeepsIds(d, a);
  }

  /** Steps that do not touch the queue. */
  lemma StackKeepsIds(d: Driver, a: DriverAction)
    requires IdsInv(d) && Allowed(d, a) && (a.AllocId? || a.FreeId? || a.ReuseId?)
    ensures IdsInv(StepDriver(d, a))
  {
    hide Inv, InFlight, AllIds;
    InvCounts(d.q);
    match a
    case AllocId =>
      if d.stack != [] {
        var top := |d.stack| - 1;
        assert d.stack == d.stack[..top] + [d.stack[top]];
        MoveId(multiset(d.stack[..top]), d.prepared, InFlight(d.q), d.done, d.stack[top]);
      }
    case FreeId(cid) =>
      assert multiset(d.stack + [cid]) == multiset(d.stack) + multiset{cid};
      ReturnId(multiset(d.stack), d.prepared, InFlight(d.q), d.done, cid);
    case ReuseId(cid) => ReturnId(multiset(d.stack), d.prepared, InFlight(d.q), d.done, cid);
  }

  lemma MoveId(a: multiset<nat>, b: multiset<nat>, c: multiset<nat>, e: multiset<nat>, x: nat)
    ensures (a + multiset{x}) + b + c + e == a + (b + multiset{x}) + c + e
  {
  }

  lemma ReturnId(a: multiset<nat>, b: multiset<nat>, c: multiset<nat>, e: multiset<nat>, x: nat)
    requires x in e
    ensures (a + multiset{x}) + b + c + (e - multiset{x}) == a + b + c + e
    ensures a + (b + multiset{x}) + c + (e - multiset{x}) == a + b + c + e
  {
  }

  lemma SendKeepsIds(d: Driver, c: Command)
    requires IdsInv(d) && Allowed(d, Send(c))
    ensures IdsInv(StepDriver(d, Send(c)))
  {
    InvCounts(d.q);
    SendMoves(d.q, c);
    hide Inv, InFlight, AllIds;
    MoveOne(d.prepared, InFlight(d.q), Cid(c));
  }

  lemma PollKeepsIds(d: Driver)
    requires IdsInv(d)
    ensures IdsInv(StepDriver(d, Poll))
  {
    InvCounts(d.q);
    PollMoves(d.q);
    hide Inv, InFlight, AllIds;
    if |d.q.reaped| < |d.q.posted| { MoveOne(InFlight(d.q), d.done, d.q.cq[d.q.h.head].cid); }
  }

  lemma MoveOne(a: multiset<nat>, b: multiset<nat>, x: nat)
    requires x in a
    ensures (a - multiset{x}) + (b + multiset{x}) == a + b
  {
  }

  ghost predicate DriverReaches(d0: Driver, actions: seq<DriverAction>, d: Driver)
    requires IdsInv(d0)
    decreases |actions|
  {
    if actions == [] then d == d0
    else
      && Allowed(d0, actions[0])
      && (StepKeepsIds(d0, actions[0]); DriverReaches(StepDriver(d0, actions[0]), actions[1..], d))
  }

  lemma {:induction false} ReachableIds(d0: Driver, actions: seq<DriverAction>, d: Driver)
    requires IdsInv(d0) && DriverReaches(d0, actions, d)
    ensures IdsInv(d)
    decreases |actions|
  {
    if actions != [] {
      StepKeepsIds(d0, actions[0]);
      ReachableIds(StepDriver(d0, actions[0]), actions[1..], d);
    }
  }

  /** The state after nvme_qpair_init. */
  ghost predicate Fresh(d: Driver) {
    Initial(d.q) && d.stack == FullStack() && d.prepared == multiset{} && d.done == multiset{}
  }

  lemma FreshIds(d: Driver)
    requires Fresh(d)
    ensures IdsInv(d)
  {
    InitialInv(d.q);
    assert CidsOf([]) == [] && CplCids([]) == [];
  }

  /** Consequences for any reachable state: nothing is ever handed out twice. */
  lemma RunKeepsIdsApart(d0: Driver, actions: seq<DriverAction>, d: Driver, x: nat)
    requires Fresh(d0)
    ensures IdsInv(d0)
    ensures DriverReaches(d0, actions, d) ==>
      && Inv(d.q)
      && multiset(d.stack)[x] + d.prepared[x] + InFlight(d.q)[x] + d.done[x] == (if x < POOL_LEN then 1 else 0)
      && |d.stack| + |d.prepared| + |InFlight(d.q)| + |d.done| == POOL_LEN
  {
    FreshIds(d0);
    if DriverReaches(d0, actions, d) {
      ReachableIds(d0, actions, d);
      IdsAreDistinct(x);
      assert |AllIds()| == POOL_LEN;
      hide FullStack, Inv, InFlight;
      assert |multiset(d.stack)| == |d.stack|;
    }
  }

  // ---- Synchronous submission

  ghost predicate DeviceOnly(sched: seq<Action>) {
    forall k :: 0 <= k < |sched| ==> sched[k].Fetch? || sched[k].Post?
  }

  ghost function DeviceRun(q: System, sched: seq<Action>): (t: System)
    requires Inv(q) && DeviceOnly(sched)
    ensures Inv(t) && t.reaped == q.reaped && t.h == q.h
    ensures InFlight(t) == InFlight(q)
    decreases |sched|
  {
    if sched == [] then q
    else
      DeviceMoves(q, sched[0]);
      DeviceRun(Next(q, sched[0]), sched[1..])
  }

  ghost predicate CanSend(d: Driver) {
    IdsInv(d) && d.stack != [] && |d.q.enqueued| - |d.q.reaped| < d.q.h.depth - 1
  }

  /** The identifier that nvme_request_alloc would hand out. */
  ghost function OwnId(d: Driver): nat
    requires d.stack != []
  {
    d.stack[|d.stack| - 1]
  }

  /** Allocate, enqueue under the allocated identifier, ring: nvme_qpair_submit_sync up to its poll. */
  ghost function SyncSend(d: Driver, cmd: Command): (t: Driver)
    requires CanSend(d)
    ensures Inv(t.q)
  {
    IdInStack(d, OwnId(d));
    var c := WithCid(cmd, OwnId(d));
    d.(stack := d.stack[..|d.stack| - 1], q := Next(Next(d.q, Enqueue(c)), Ring))
  }

  lemma SyncSendFacts(d: Driver, cmd: Command)
    requires CanSend(d)
    ensures var t := SyncSend(d, cmd);
      && InvCountsOk(t.q) && InvCountsOk(d.q)
      && t.q.reaped == d.q.reaped && t.q.fetched == d.q.fetched && t.q.pending == d.q.pending
      && t.q.posted == d.q.posted && t.q.published == |t.q.enqueued|
      && t.q.enqueued == d.q.enqueued + [WithCid(cmd, OwnId(d))]
      && InFlight(t.q) == InFlight(d.q) + multiset{OwnId(d)} && t.q.h.depth == d.q.h.depth
  {
    IdInStack(d, OwnId(d));
    var c := WithCid(cmd, OwnId(d));
    SendMoves(d.q, c);
    RingMoves(Next(d.q, Enqueue(c)));
    InvCounts(d.q);
    InvCounts(SyncSend(d, cmd).q);
    hide Inv, InFlight;
  }

  ghost predicate InvCountsOk(q: System) {
    |q.fetched| <= |q.enqueued| && |q.reaped| <= |q.posted|
  }

  /** An identifier on the stack is a valid one and is not in flight. */
  lemma IdInStack(d: Driver, x: nat)
    requires IdsInv(d) && x in d.stack
    ensures x < POOL_LEN && x !in InFlight(d.q)
  {
    IdsAreDistinct(x);
    hide Inv, InFlight;
    assert x in multiset(d.stack);
  }

  /** Poll and, on success, free the call's own identifier. None is a timeout. */
  ghost function SyncFinish(d: Driver, own: nat): (Driver, Option<Cpl>)
    requires Inv(d.q)
  {
    var q := Next(d.q, Reap);
    if |q.reaped| <= |d.q.reaped| then (d, None)
    else (d.(q := q, stack := d.stack + [own]), Some(q.reaped[|d.q.reaped|]))
  }

  /** A whole call, the controller acting between the doorbell and the successful poll. */
  ghost function SyncCall(d: Driver, cmd: Command, sched: seq<Action>): (Driver, Option<Cpl>)
    requires CanSend(d) && DeviceOnly(sched)
  {
    var t := SyncSend(d, cmd);
    SyncFinish(t.(q := DeviceRun(t.q, sched)), OwnId(d))
  }

  lemma QuiescentIff(q: System)
    requires Inv(q)
    ensures InFlight(q) == multiset{} <==> |q.enqueued| == |q.reaped|
  {
    assert |multiset(q.postedFor) + multiset(q.pending)| == |q.posted| + |q.pending|;
    assert |multiset(q.fetched)| == |q.fetched|;
    hide Inv;
    assert |InFlight(q)| == |q.enqueued[|q.fetched|..]| + |q.pending| + |q.posted[|q.reaped|..]|;
  }

  /** What the poll at the end of a call sees. */
  lemma CallPolls(d: Driver, cmd: Command, sched: seq<Action>)
    requires CanSend(d) && DeviceOnly(sched)
    ensures var q := DeviceRun(SyncSend(d, cmd).q, sched);
      var (t, res) := SyncCall(d, cmd, sched);
      && InvCountsOk(q) && q.reaped == d.q.reaped && InvCountsOk(d.q) && q.h.depth == d.q.h.depth
      && InFlight(q) == InFlight(d.q) + multiset{OwnId(d)}
      && (res.Some? <==> |q.reaped| < |q.posted|)
      && (res.Some? ==>
            && res.value == q.posted[|q.reaped|] && res.value.cid in InFlight(q)
            && Inv(t.q) && InFlight(t.q) == InFlight(q) - multiset{res.value.cid}
            && t.q.h.depth == d.q.h.depth && t.prepared == d.prepared && t.done == d.done
            && t.stack == d.stack[..|d.stack| - 1] + [OwnId(d)])
  {
    var t := SyncSend(d, cmd);
    SyncSendFacts(d, cmd);
    var q := DeviceRun(t.q, sched);
    PollMoves(q);
    InvCounts(q);
    hide Inv, InFlight, IdsInv;
  }

  /** With nothing else in flight, a call returns its own completion and the pool is as before. */
  lemma SyncReturnsOwn(d: Driver, cmd: Command, sched: seq<Action>)
    requires CanSend(d) && DeviceOnly(sched) && |d.q.enqueued| == |d.q.reaped|
    ensures var (t, res) := SyncCall(d, cmd, sched);
      res.Some? ==>
        && res.value.cid == OwnId(d)
        && t.stack == d.stack && t.prepared == d.prepared && t.done == d.done
        && IdsInv(t) && |t.q.enqueued| == |t.q.reaped| && t.q.h.depth == d.q.h.depth
  {
    hide SyncCall, InFlight, Inv, DeviceRun, SyncSend;
    CallPolls(d, cmd, sched);
    QuiescentIff(d.q);
    var (t, res) := SyncCall(d, cmd, sched);
    if res.Some? {
      QuiescentIff(t.q);
      PoolRestored(d, t, res.value.cid);
    }
  }

  lemma PoolRestored(d: Driver, t: Driver, cid: nat)
    requires IdsInv(d) && d.stack != [] && InFlight(d.q) == multiset{}
    requires cid in InFlight(d.q) + multiset{OwnId(d)} && Inv(t.q)
    requires InFlight(t.q) == InFlight(d.q) + multiset{OwnId(d)} - multiset{cid}
    requires t.prepared == d.prepared && t.done == d.done && t.stack == d.stack[..|d.stack| - 1] + [OwnId(d)]
    ensures cid == OwnId(d) && t.stack == d.stack && IdsInv(t) && InFlight(t.q) == multiset{}
  {
    hide Inv, InFlight, AllIds;
    assert cid in multiset{OwnId(d)};
    assert multiset{cid} - multiset{cid} == multiset{};
    assert d.stack[..|d.stack| - 1] + [OwnId(d)] == d.stack;
  }

  /**
   * With something else in flight (left by a timeout, say), some schedule returns the other's
   * completion, and the call's own identifier is back on the stack while its command is in flight.
   */
  lemma SyncMayReturnAnother(d: Driver, cmd: Command) returns (sched: seq<Action>)
    requires CanSend(d) && |d.q.enqueued| != |d.q.reaped|
    ensures DeviceOnly(sched)
    ensures var (t, res) := SyncCall(d, cmd, sched);
      && res.Some? && res.value.cid != OwnId(d)
      && Inv(t.q) && InvCountsOk(t.q) && OwnId(d) in t.stack && OwnId(d) in InFlight(t.q)
  {
    hide Inv, InFlight, SyncCall, SyncSend, DeviceRun;
    ghost var x: nat;
    sched, x := OtherFirst(d, cmd);
    IdInStack(d, OwnId(d));
    CallPolls(d, cmd, sched);
    var (t, res) := SyncCall(d, cmd, sched);
    InvCounts(t.q);
    assert InFlight(t.q)[OwnId(d)] > 0;
  }

  /** A schedule after which the next completion is that of an older command, `x`. */
  lemma OtherFirst(d: Driver, cmd: Command) returns (sched: seq<Action>, x: nat)
    requires CanSend(d) && |d.q.enqueued| != |d.q.reaped|
    ensures DeviceOnly(sched) && InvCountsOk(d.q) && x in InFlight(d.q)
    ensures var q := DeviceRun(SyncSend(d, cmd).q, sched);
      |q.reaped| < |q.posted| && q.posted[|q.reaped|].cid == x
  {
    hide Inv, InFlight, DeviceRun, SyncSend, Next;
    var t := SyncSend(d, cmd).q;
    SyncSendFacts(d, cmd);
    InvCounts(d.q);
    PendingCount(d.q);
    if |d.q.reaped| < |d.q.posted| {
      sched, x := [], d.q.posted[|d.q.reaped|].cid;
      InFlightHas(d.q, x, 0);
      DeviceRunNone(t);
    } else if |d.q.pending| > 0 {
      sched, x := [Post(0, 0)], Cid(d.q.pending[0]);
      InFlightHas(d.q, x, 1);
      PostOne(t);
      DeviceRunOne(t, Post(0, 0));
    } else {
      sched, x := [Fetch, Post(0, 0)], Cid(d.q.enqueued[|d.q.fetched|]);
      InFlightHas(d.q, x, 2);
      FetchOne(t);
      PostOne(Next(t, Fetch));
      DeviceRunTwo(t, Fetch, Post(0, 0));
    }
  }

  lemma DeviceRunNone(q: System)
    requires Inv(q)
    ensures DeviceRun(q, []) == q
  {
  }

  lemma DeviceRunTwo(q: System, a: Action, b: Action)
    requires Inv(q) && (a.Fetch? || a.Post?) && (b.Fetch? || b.Post?)
    ensures DeviceRun(q, [a, b]) == Next(Next(q, a), b)
  {
    hide Inv, InFlight;
    assert [a, b][1..] == [b];
    DeviceRunOne(Next(q, a), b);
  }

  lemma DeviceRunOne(q: System, a: Action)
    requires Inv(q) && (a.Fetch? || a.Post?)
    ensures DeviceRun(q, [a]) == Next(q, a)
  {
    hide Inv, InFlight;
    assert [a][1..] == [];
  }

  lemma PostOne(q: System)
    requires Inv(q) && |q.pending| > 0
    ensures var t := Next(q, Post(0, 0));
      |t.posted| == |q.posted| + 1 && t.posted[..|q.posted|] == q.posted
      && t.posted[|q.posted|].cid == Cid(q.pending[0])
  {
    PostNeverBlocked(q);
  }

  lemma FetchOne(q: System)
    requires Inv(q) && |q.fetched| < q.published && q.pending == []
    ensures var t := Next(q, Fetch);
      t.pending == [q.enqueued[|q.fetched|]] && t.posted == q.posted && t.reaped == q.reaped
  {
    FetchKeepsInv(q);
    var t := FetchStep(q);
    assert t.fetched[|q.fetched|] == q.enqueued[|q.fetched|];
    assert t.pending == q.pending + [t.fetched[|q.fetched|]];
  }

  lemma PendingCount(q: System)
    requires Inv(q)
    ensures |q.posted| + |q.pending| == |q.fetched|
  {
    assert |multiset(q.postedFor) + multiset(q.pending)| == |q.posted| + |q.pending|;
    assert |multiset(q.fetched)| == |q.fetched|;
  }

  lemma InFlightHas(q: System, x: nat, place: nat)
    requires Inv(q)
    requires || (place == 0 && |q.reaped| < |q.posted| && x == q.posted[|q.reaped|].cid)
             || (place == 1 && |q.pending| > 0 && x == Cid(q.pending[0]))
             || (place == 2 && |q.fetched| < |q.enqueued| && x == Cid(q.enqueued[|q.fetched|]))
    ensures x in InFlight(q)
  {
    InvCounts(q);
    hide Inv;
    if place == 0 {
      assert CplCids(q.posted[|q.reaped|..])[0] == x;
    } else if place == 1 {
      assert CidsOf(q.pending)[0] == x;
    } else {
      assert CidsOf(q.enqueued[|q.fetched|..])[0] == x;
    }
  }

  /** A call returns its own completion under every schedule iff nothing else was in flight. */
  lemma SyncOwnIff(d: Driver, cmd: Command)
    requires CanSend(d)
    ensures |d.q.enqueued| == |d.q.reaped| <==>
      forall sched :: DeviceOnly(sched) ==>
        SyncCall(d, cmd, sched).1.Some? ==> SyncCall(d, cmd, sched).1.value.cid == OwnId(d)
  {
    if |d.q.enqueued| == |d.q.reaped| {
      forall sched | DeviceOnly(sched)
        ensures SyncCall(d, cmd, sched).1.Some? ==> SyncCall(d, cmd, sched).1.value.cid == OwnId(d)
      {
        SyncReturnsOwn(d, cmd, sched);
      }
    } else {
      var sched := SyncMayReturnAnother(d, cmd);
    }
  }

  /** `ds` are the driver's states around consecutive calls, none of which times out. */
  ghost predicate SyncChain(ds: seq<Driver>, cmds: seq<Command>, scheds: seq<seq<Action>>) {
    && |ds| == |cmds| + 1 && |scheds| == |cmds|
    && forall k :: 0 <= k < |cmds| ==> SyncLink(ds[k], cmds[k], scheds[k], ds[k + 1])
  }

  ghost predicate SyncLink(d: Driver, cmd: Command, sched: seq<Action>, t: Driver) {
    CanSend(d) && DeviceOnly(sched) && SyncCall(d, cmd, sched).1.Some? && SyncCall(d, cmd, sched).0 == t
  }

  /** Any number of timeout-free calls: each returns its own completion, and the pool is unchanged. */
  lemma {:induction false} SyncCallsKeepPool(ds: seq<Driver>, cmds: seq<Command>, scheds: seq<seq<Action>>, k: nat)
    requires SyncChain(ds, cmds, scheds) && IdsInv(ds[0]) && |ds[0].q.enqueued| == |ds[0].q.reaped| && k <= |cmds|
    ensures ds[k].stack == ds[0].stack && ds[k].prepared == ds[0].prepared && ds[k].done == ds[0].done
    ensures IdsInv(ds[k]) && |ds[k].q.enqueued| == |ds[k].q.reaped|
    ensures k < |cmds| ==>
      && SyncLink(ds[k], cmds[k], scheds[k], ds[k + 1])
      && SyncCall(ds[k], cmds[k], scheds[k]).1.value.cid == OwnId(ds[k])
  {
    hide SyncCall, IdsInv, DeviceOnly, OwnId;
    if k > 0 {
      SyncCallsKeepPool(ds, cmds, scheds, k - 1);
      assert SyncLink(ds[k - 1], cmds[k - 1], scheds[k - 1], ds[k - 1 + 1]);
      SyncReturnsOwn(ds[k - 1], cmds[k - 1], scheds[k - 1]);
    }
    if k < |cmds| {
      assert SyncLink(ds[k], cmds[k], scheds[k], ds[k + 1]);
      SyncReturnsOwn(ds[k], cmds[k], scheds[k]);
    }
  }
}
