/**
 * One NVMe queue pair as a state machine: the host side of nvme_qpair.h and a controller that
 * fetches commands in order, completes them in any order and posts completions with the phase tag
 * (sections 4.1 and 4.6 of the NVM Express Base Specification 1.4).
 */
module QueueMachine {
  import opened Arith
  import opened Common

  /** A command is 16 words of 32 bits; the identifier is the upper half of the first. */
  type Command = c: seq<nat> | |c| == 16 witness seq(16, i => 0)

  function Cid(c: Command): nat {
    c[0] / 0x1_0000
  }

  function WithCid(c: Command, cid: nat): (r: Command)
    ensures Cid(r) == cid && r[0] % 0x1_0000 == c[0] % 0x1_0000 && r[1..] == c[1..]
  {
    c[0 := c[0] % 0x1_0000 + 0x1_0000 * cid]
  }

  /** The lowest status bit is the phase tag. */
  datatype Cpl = Cpl(cid: nat, status: nat)

  /** The fields of struct nvme_qpair, and the two doorbell registers it writes. */
  datatype Host = Host(depth: nat, tail: nat, tailLastWritten: nat, head: nat, phase: nat, sqdb: nat, cqdb: nat)

  const NEVER_WRITTEN: nat := 0xFFFF
  const NO_CID: nat := 0xFFFF

  // ---- The host's steps

  function EnqueueHost(h: Host): Host
    requires h.depth > 0
  {
    h.(tail := (h.tail + 1) % h.depth)
  }

  function RingHost(h: Host): Host {
    if h.tail == h.tailLastWritten then h else h.(sqdb := h.tail, tailLastWritten := h.tail)
  }

  predicate Ready(cqe: Cpl, phase: nat) {
    cqe.cid < NO_CID && cqe.status % 2 == phase
  }

  /** One successful poll: take the entry, advance, flip the phase when wrapping, ring. */
  function ReapHost(h: Host): Host {
    var next := h.head + 1;
    if next == h.depth then h.(head := 0, phase := 1 - h.phase % 2, cqdb := 0)
    else h.(head := next, cqdb := next)
  }

  // ---- The whole system

  /**
   * `sq` and `cq` are shared memory. The controller's own state is `fetchHead`, `postTail`,
   * `ctrlPhase` and the commands it has fetched and not completed. The rest is history:
   * `published` counts commands announced by the doorbell, `postedFor[j]` is the command whose
   * completion is `posted[j]`.
   */
  datatype System = System(
    h: Host, sq: seq<Command>, cq: seq<Cpl>,
    fetchHead: nat, postTail: nat, ctrlPhase: nat, pending: seq<Command>,
    enqueued: seq<Command>, published: nat, fetched: seq<Command>,
    posted: seq<Cpl>, postedFor: seq<Command>, reaped: seq<Cpl>)

  datatype Action =
    | Enqueue(c: Command)
    | Ring
    | Reap
    | Fetch
    | Post(i: nat, status: nat)

  ghost predicate Shaped(s: System) {
    && 2 <= s.h.depth <= 0xFFFF && |s.sq| == s.h.depth && |s.cq| == s.h.depth
    && s.h.tail < s.h.depth && s.h.head < s.h.depth && s.fetchHead < s.h.depth && s.postTail < s.h.depth
  }

  function EnqueueStep(s: System, c: Command): System
    requires s.h.tail < |s.sq| && s.h.depth > 0
  {
    s.(h := EnqueueHost(s.h), sq := s.sq[s.h.tail := c], enqueued := s.enqueued + [c])
  }

  function RingStep(s: System): System {
    s.(h := RingHost(s.h), published := |s.enqueued|)
  }

  function ReapStep(s: System): System
    requires s.h.head < |s.cq|
  {
    var cqe := s.cq[s.h.head];
    if Ready(cqe, s.h.phase) then s.(h := ReapHost(s.h), reaped := s.reaped + [cqe]) else s
  }

  /** The controller fetches while its head differs from the doorbell. */
  function FetchStep(s: System): System
    requires s.fetchHead < |s.sq| && s.h.depth > 0
  {
    if s.fetchHead == s.h.sqdb then s
    else
      var c := s.sq[s.fetchHead];
      s.(fetchHead := (s.fetchHead + 1) % s.h.depth, pending := s.pending + [c], fetched := s.fetched + [c])
  }

  /** The controller completes any fetched command, if its completion queue is not full. */
  function PostStep(s: System, i: nat, status: nat): System
    requires s.postTail < |s.cq| && s.h.depth > 0
  {
    if i >= |s.pending| || (s.postTail + 1) % s.h.depth == s.h.cqdb then s
    else
      var cqe := Cpl(Cid(s.pending[i]), 2 * status + s.ctrlPhase % 2);
      var next := (s.postTail + 1) % s.h.depth;
      s.(cq := s.cq[s.postTail := cqe], postTail := next,
         ctrlPhase := if next == 0 then 1 - s.ctrlPhase % 2 else s.ctrlPhase,
         pending := RemoveAt(s.pending, i),
         posted := s.posted + [cqe], postedFor := s.postedFor + [s.pending[i]])
  }

  function Step(s: System, a: Action): System
    requires s.h.depth > 0 && s.h.tail < |s.sq| && s.h.head < |s.cq| && s.fetchHead < |s.sq| && s.postTail < |s.cq|
  {
    match a
    case Enqueue(c) => EnqueueStep(s, c)
    case Ring => RingStep(s)
    case Reap => ReapStep(s)
    case Fetch => FetchStep(s)
    case Post(i, status) => PostStep(s, i, status)
  }

  /** The caller's duty: at most `depth - 1` commands in flight, and a usable identifier. */
  ghost predicate Permitted(s: System, a: Action) {
    a.Enqueue? ==> Cid(a.c) < NO_CID && |s.enqueued| - |s.reaped| < s.h.depth - 1
  }

  ghost predicate Initial(s: System) {
    && 2 <= s.h.depth <= 0xFFFF && |s.sq| == s.h.depth
    && s.h == Host(s.h.depth, 0, NEVER_WRITTEN, 0, 1, 0, 0)
    && s.cq == seq(s.h.depth, i => Cpl(0, 0))
    && s.fetchHead == 0 && s.postTail == 0 && s.ctrlPhase == 1 && s.pending == []
    && s.enqueued == [] && s.published == 0 && s.fetched == [] && s.posted == [] && s.postedFor == [] && s.reaped == []
  }

  // ---- Ring arithmetic

  /** The slot and the phase of the `n`-th entry. */
  function Slot(n: nat, depth: nat): (r: nat)
    requires depth > 0
    ensures r < depth
  {
    n % depth
  }

  function PhaseOf(n: nat, depth: nat): (r: nat)
    requires depth > 0
    ensures r < 2
  {
    if (n / depth) % 2 == 0 then 1 else 0
  }

  lemma {:induction false} SlotNext(n: nat, depth: nat)
    requires depth > 1
    ensures Slot(n + 1, depth) == (Slot(n, depth) + 1) % depth
    ensures Slot(n + 1, depth) == (if Slot(n, depth) + 1 == depth then 0 else Slot(n, depth) + 1)
    ensures PhaseOf(n + 1, depth) == (if Slot(n, depth) + 1 == depth then 1 - PhaseOf(n, depth) else PhaseOf(n, depth))
  {
    var q, r := n / depth, n % depth;
    assert n == depth * q + r;
    if r + 1 == depth {
      assert depth * (q + 1) == depth * q + depth;
      DivModUnique(n + 1, depth, q + 1, 0);
      DivModUnique(depth, depth, 1, 0);
    } else {
      DivModUnique(n + 1, depth, q, r + 1);
      DivModUnique(r + 1, depth, 0, r + 1);
    }
  }

  lemma {:induction false} SlotsDiffer(a: nat, b: nat, depth: nat)
    requires depth > 0 && a < b < a + depth
    ensures Slot(a, depth) != Slot(b, depth)
  {
    var r := a % depth;
    if b % depth == r {
      MultiplesClosed(b - r, a - r, depth) by { FloorMultiple(b, depth); FloorMultiple(a, depth); }
      MultipleGap(0, b - a, depth);
      assert false;
    }
  }

  /** One lap later: same slot, opposite phase. */
  lemma {:induction false} SlotLap(n: nat, depth: nat)
    requires depth > 0
    ensures Slot(n + depth, depth) == Slot(n, depth)
    ensures PhaseOf(n + depth, depth) == 1 - PhaseOf(n, depth)
  {
    AddMultiple(n, depth, 1);
  }

  lemma SlotFirstLap(n: nat, depth: nat)
    requires n < depth
    ensures Slot(n, depth) == n && PhaseOf(n, depth) == 1
  {
    DivModUnique(n, depth, 0, n);
  }

  // ---- The invariant

  ghost predicate Counters(s: System) {
    var d := s.h.depth;
    && 2 <= d <= 0xFFFF && |s.sq| == d && |s.cq| == d
    && |s.reaped| <= |s.posted| <= |s.fetched| <= s.published <= |s.enqueued| <= |s.reaped| + d - 1
    && s.h.tail == Slot(|s.enqueued|, d) && s.h.head == Slot(|s.reaped|, d)
    && s.h.phase == PhaseOf(|s.reaped|, d)
    && s.h.sqdb == Slot(s.published, d) && s.h.cqdb == Slot(|s.reaped|, d)
    && (s.h.tailLastWritten == Slot(s.published, d) || (s.h.tailLastWritten == NEVER_WRITTEN && s.published == 0))
    && s.fetchHead == Slot(|s.fetched|, d)
    && s.postTail == Slot(|s.posted|, d) && s.ctrlPhase == PhaseOf(|s.posted|, d)
  }

  /** Commands not fetched yet are intact in their slots. */
  ghost predicate SqHolds(s: System, j: nat)
    requires s.h.depth > 0 && |s.sq| == s.h.depth
  {
    |s.fetched| <= j < |s.enqueued| ==> s.sq[Slot(j, s.h.depth)] == s.enqueued[j]
  }

  /** The last lap of posted completions is intact; slots never posted to hold phase 0. */
  ghost predicate CqHolds(s: System, j: nat)
    requires s.h.depth > 0 && |s.cq| == s.h.depth
  {
    && (j < |s.posted| <= j + s.h.depth ==> s.cq[Slot(j, s.h.depth)] == s.posted[j])
    && (|s.posted| <= j < s.h.depth ==> s.cq[j].status % 2 == 0)
  }

  ghost predicate PostedOk(s: System, j: nat)
    requires s.h.depth > 0 && j < |s.posted| == |s.postedFor|
  {
    && s.posted[j].status % 2 == PhaseOf(j, s.h.depth)
    && s.posted[j].cid == Cid(s.postedFor[j]) < NO_CID
  }

  ghost predicate History(s: System) {
    && s.fetched <= s.enqueued && s.reaped <= s.posted && |s.postedFor| == |s.posted|
    && multiset(s.postedFor) + multiset(s.pending) == multiset(s.fetched)
    && (forall j :: 0 <= j < |s.enqueued| ==> Cid(s.enqueued[j]) < NO_CID)
    && (forall c :: c in s.pending ==> Cid(c) < NO_CID)
  }

  ghost predicate Inv(s: System) {
    && Counters(s) && History(s)
    && (forall j: nat :: SqHolds(s, j))
    && (forall j: nat :: CqHolds(s, j))
    && (forall j: nat :: j < |s.posted| ==> PostedOk(s, j))
  }

  // ---- Every step keeps the invariant

  lemma InitialInv(s: System)
    requires Initial(s)
    ensures Inv(s)
  {
    SlotFirstLap(0, s.h.depth);
  }

  lemma EnqueueKeepsInv(s: System, c: Command)
    requires Inv(s) && Permitted(s, Enqueue(c))
    ensures Inv(EnqueueStep(s, c))
  {
    hide Slot, PhaseOf;
    var t, d, e := EnqueueStep(s, c), s.h.depth, |s.enqueued|;
    SlotNext(e, d);
    forall j: nat ensures SqHolds(t, j) {
      assert SqHolds(s, j);
      if |s.fetched| <= j < e { SlotsDiffer(j, e, d); }
    }
    forall j: nat ensures CqHolds(t, j) { assert CqHolds(s, j); }
    forall j: nat | j < |t.posted| ensures PostedOk(t, j) { assert PostedOk(s, j); }
  }

  lemma RingKeepsInv(s: System)
    requires Inv(s)
    ensures Inv(RingStep(s))
    ensures RingStep(s).h.sqdb == s.h.tail
  {
    hide PhaseOf;
    var t, d := RingStep(s), s.h.depth;
    // a skipped write announces nothing, because the tail has not moved since the last one
    if s.published < |s.enqueued| { SlotsDiffer(s.published, |s.enqueued|, d); }
    forall j: nat ensures SqHolds(t, j) { assert SqHolds(s, j); }
    forall j: nat ensures CqHolds(t, j) { assert CqHolds(s, j); }
    forall j: nat | j < |t.posted| ensures PostedOk(t, j) { assert PostedOk(s, j); }
  }

  lemma FetchKeepsInv(s: System)
    requires Inv(s)
    ensures Inv(FetchStep(s))
    ensures s.published > |s.fetched| <==> s.fetchHead != s.h.sqdb
    ensures s.published > |s.fetched| ==> FetchStep(s).fetched == s.fetched + [s.enqueued[|s.fetched|]]
  {
    hide Slot, PhaseOf;
    var t, d, f := FetchStep(s), s.h.depth, |s.fetched|;
    if f < s.published {
      SlotsDiffer(f, s.published, d);
      assert SqHolds(s, f);
      SlotNext(f, d);
      var c := s.enqueued[f];
      assert t.fetched == s.enqueued[..f + 1] by { assert s.fetched == s.enqueued[..f]; }
      forall j: nat ensures SqHolds(t, j) { assert SqHolds(s, j); }
      forall j: nat ensures CqHolds(t, j) { assert CqHolds(s, j); }
      forall j: nat | j < |t.posted| ensures PostedOk(t, j) { assert PostedOk(s, j); }
    }
  }

  /** The in-flight bound keeps the completion queue from ever being full. */
  lemma PostNeverBlocked(s: System)
    requires Inv(s) && |s.pending| > 0
    ensures (s.postTail + 1) % s.h.depth != s.h.cqdb
    ensures |s.posted| + |s.pending| == |s.fetched|
  {
    hide Slot, PhaseOf;
    assert |multiset(s.postedFor) + multiset(s.pending)| == |s.posted| + |s.pending|;
    assert |multiset(s.fetched)| == |s.fetched|;
    SlotNext(|s.posted|, s.h.depth);
    SlotsDiffer(|s.reaped|, |s.posted| + 1, s.h.depth);
  }

  lemma PostKeepsInv(s: System, i: nat, status: nat)
    requires Inv(s)
    ensures Inv(PostStep(s, i, status))
  {
    hide Slot, PhaseOf, RemoveAt;
    var t, d, p := PostStep(s, i, status), s.h.depth, |s.posted|;
    if i < |s.pending| {
      PostNeverBlocked(s);
      SlotNext(p, d);
      forall j: nat ensures SqHolds(t, j) { assert SqHolds(s, j); }
      forall j: nat ensures CqHolds(t, j) { PostKeepsCq(s, i, status, j); }
      forall j: nat | j < |t.posted| ensures PostedOk(t, j) { PostKeepsPosted(s, i, status, j); }
      PostHistory(s, i, status);
    }
  }

  lemma PostKeepsPosted(s: System, i: nat, status: nat, j: nat)
    requires Inv(s) && i < |s.pending| && (s.postTail + 1) % s.h.depth != s.h.cqdb && j <= |s.posted|
    ensures PostedOk(PostStep(s, i, status), j)
  {
    hide Slot, PhaseOf;
    if j < |s.posted| { assert PostedOk(s, j); }
    assert s.pending[i] in s.pending;
  }

  lemma PostHistory(s: System, i: nat, status: nat)
    requires Inv(s) && i < |s.pending| && (s.postTail + 1) % s.h.depth != s.h.cqdb
    ensures History(PostStep(s, i, status))
  {
    var t := PostStep(s, i, status);
    RemovedMultiset(s.pending, i);
    assert s.pending[i] in s.pending;
    forall c | c in t.pending ensures Cid(c) < NO_CID { assert c in multiset(t.pending); }
  }

  lemma RemovedMultiset<T>(s: seq<T>, i: nat)
    requires i < |s|
    ensures multiset(RemoveAt(s, i)) == multiset(s) - multiset{s[i]}
    ensures forall x :: x in RemoveAt(s, i) ==> x in s
  {
    assert s == s[..i] + [s[i]] + s[i + 1..];
  }

  lemma PostKeepsCq(s: System, i: nat, status: nat, j: nat)
    requires Inv(s) && i < |s.pending| && (s.postTail + 1) % s.h.depth != s.h.cqdb
    ensures CqHolds(PostStep(s, i, status), j)
  {
    hide Slot, PhaseOf;
    var d, p := s.h.depth, |s.posted|;
    assert CqHolds(s, j);
    if j < p < j + d { SlotsDiffer(j, p, d); }
    if p + 1 <= j < d {
      SlotFirstLap(j, d);
      SlotFirstLap(p, d);
    }
  }

  /** A poll succeeds exactly when a completion has been posted and not reaped: none is missed, and
      neither a stale entry nor a blank one is taken for a new one. */
  lemma PollIsExact(s: System)
    requires Inv(s)
    ensures Ready(s.cq[s.h.head], s.h.phase) <==> |s.reaped| < |s.posted|
    ensures |s.reaped| < |s.posted| ==> s.cq[s.h.head] == s.posted[|s.reaped|]
  {
    PeekIsExact(s, 0);
  }

  /** The same for the entry `off` places further on, which the batch form polls directly. */
  lemma PeekIsExact(s: System, off: nat)
    requires Inv(s) && off < s.h.depth
    ensures var n, d := |s.reaped| + off, s.h.depth;
      && (Ready(s.cq[Slot(n, d)], PhaseOf(n, d)) <==> n < |s.posted|)
      && (n < |s.posted| ==> s.cq[Slot(n, d)] == s.posted[n])
  {
    hide Slot, PhaseOf;
    var n, d, p := |s.reaped| + off, s.h.depth, |s.posted|;
    assert CqHolds(s, n);
    if n < p {
      assert PostedOk(s, n);
    } else if n < d {
      SlotFirstLap(n, d);
    } else {
      var before := n - d;
      SlotLap(before, d);
      assert CqHolds(s, before);
      assert PostedOk(s, before);
    }
  }

  lemma ReapKeepsInv(s: System)
    requires Inv(s)
    ensures Inv(ReapStep(s))
    ensures ReapStep(s).reaped == (if |s.reaped| < |s.posted| then s.posted[..|s.reaped| + 1] else s.reaped)
  {
    hide Slot, PhaseOf;
    var t, d, r := ReapStep(s), s.h.depth, |s.reaped|;
    PollIsExact(s);
    if r < |s.posted| {
      SlotNext(r, d);
      forall j: nat ensures SqHolds(t, j) { assert SqHolds(s, j); }
      forall j: nat ensures CqHolds(t, j) { assert CqHolds(s, j); }
      forall j: nat | j < |t.posted| ensures PostedOk(t, j) { assert PostedOk(s, j); }
    }
  }

  lemma StepKeepsInv(s: System, a: Action)
    requires Inv(s) && Permitted(s, a)
    ensures Inv(Step(s, a))
  {
    match a
    case Enqueue(c) => EnqueueKeepsInv(s, c);
    case Ring => RingKeepsInv(s);
    case Reap => ReapKeepsInv(s);
    case Fetch => FetchKeepsInv(s);
    case Post(i, status) => PostKeepsInv(s, i, status);
  }

  // ---- Whole runs

  /** A step with its guarantee, so that runs can be written down. */
  ghost function Next(s: System, a: Action): (t: System)
    requires Inv(s) && Permitted(s, a)
    ensures Inv(t) && t.h.depth == s.h.depth
  {
    StepKeepsInv(s, a);
    Step(s, a)
  }

  /** `s` can be reached from `s0` by the given actions, the caller keeping to its duty. */
  ghost predicate Reaches(s0: System, actions: seq<Action>, s: System)
    requires Inv(s0)
    decreases |actions|
  {
    if actions == [] then s == s0
    else Permitted(s0, actions[0]) && Reaches(Next(s0, actions[0]), actions[1..], s)
  }

  /** A run goes on with any step the caller may take. */
  lemma {:induction false} ReachesMore(s0: System, actions: seq<Action>, s: System, a: Action)
    requires Inv(s0) && Inv(s) && Reaches(s0, actions, s) && Permitted(s, a)
    ensures Reaches(s0, actions + [a], Next(s, a))
    decreases |actions|
  {
    hide Inv, Permitted, Next;
    if actions == [] {
      assert actions + [a] == [a] && [a][1..] == [];
    } else {
      ReachesMore(Next(s0, actions[0]), actions[1..], s, a);
      assert (actions + [a])[1..] == actions[1..] + [a];
    }
  }

  lemma {:induction false} ReachableInv(s0: System, actions: seq<Action>, s: System)
    requires Inv(s0) && Reaches(s0, actions, s)
    ensures Inv(s)
    decreases |actions|
  {
    hide Inv;
    if actions != [] { ReachableInv(Next(s0, actions[0]), actions[1..], s); }
  }

  /**
   * In every interleaving of host and controller: commands are fetched once each, unmodified and in
   * order; what the host has reaped is exactly a prefix of what was posted; every fetched command is
   * pending or has been completed exactly once; and the next poll sees the next completion.
   */
  lemma RunIsFaithful(s0: System, actions: seq<Action>, s: System)
    requires Initial(s0)
    ensures Inv(s0)
    ensures Reaches(s0, actions, s) ==>
      && s.fetched <= s.enqueued && s.reaped <= s.posted
      && multiset(s.postedFor) + multiset(s.pending) == multiset(s.fetched)
      && |s.postedFor| == |s.posted|
      && (forall j :: 0 <= j < |s.reaped| ==> s.reaped[j].cid == Cid(s.postedFor[j]))
      && s.h.head < |s.cq|
      && ReapStep(s).reaped == (if s.reaped == s.posted then s.reaped else s.posted[..|s.reaped| + 1])
  {
    hide PhaseOf, Slot;
    InitialInv(s0);
    if Reaches(s0, actions, s) {
      ReachableInv(s0, actions, s);
      ReapKeepsInv(s);
      forall j: nat | j < |s.reaped| ensures s.reaped[j].cid == Cid(s.postedFor[j]) { assert PostedOk(s, j); }
      assert s.reaped == s.posted <==> |s.reaped| == |s.posted|;
    }
  }

  /** While a published command is not reaped, some step other than enqueueing makes progress. */
  lemma NeverStuck(s: System)
    requires Inv(s) && |s.reaped| < s.published
    ensures || |ReapStep(s).reaped| > |s.reaped|
            || |PostStep(s, 0, 0).posted| > |s.posted|
            || |FetchStep(s).fetched| > |s.fetched|
  {
    PollIsExact(s);
    FetchKeepsInv(s);
    if |s.pending| > 0 { PostNeverBlocked(s); }
    assert |multiset(s.postedFor) + multiset(s.pending)| == |s.posted| + |s.pending|;
    assert |multiset(s.fetched)| == |s.fetched|;
  }
}
