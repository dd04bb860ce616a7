/**
 * The CUDA batch form (nvme_qpair_cuda.h): many threads write their commands word by word, one
 * rings the doorbell, each polls its own completion entry, one advances the head. Whatever the
 * schedule, the effect is that of the same commands enqueued and reaped one at a time.
 */
module BatchQueue {
  import opened Arith
  import opened Common
  import opened QueueMachine
  import opened PoolMachine

  const WORDS: nat := 16
  const U16: nat := 0x1_0000

  // ---- The batch form's steps on the host fields

  /** nvme_qpair_cuda_sq_update. The struct has no last-written tail: it rings every time. */
  function SqUpdateHost(h: Host, n: nat): Host
    requires h.depth > 0
  {
    var tail := (h.tail + n) % h.depth;
    h.(tail := tail, sqdb := tail, tailLastWritten := tail)
  }

  /** nvme_qpair_cuda_cq_update, in its 16-bit arithmetic. */
  function CqUpdateHost(h: Host, n: nat): Host
    requires h.phase < 2
  {
    var next := (h.head + n) % U16;
    if next >= h.depth then h.(head := next - h.depth, phase := 1 - h.phase, cqdb := next - h.depth)
    else h.(head := next, cqdb := next)
  }

  /** The phase nvme_qpair_cuda_reap_at_i expects `t` entries after the head. */
  function ExpectedPhase(h: Host, t: nat): nat
    requires h.phase < 2
  {
    if (h.head + t) % U16 >= h.depth then 1 - h.phase else h.phase
  }

  // ---- A batch in progress

  /** One turn: a thread writes its next word, thread 0 rings, a thread polls once, thread 0 advances
      the head, or the controller acts. */
  datatype Turn = Write(t: nat) | RingAll | PollAt(t: nat) | Finish | Controller(a: Action)

  /**
   * `pc[t]` counts the words thread `t` has written and `got[t]` is what it reaped. `rung` and
   * `ended` tell whether thread 0 has rung and has advanced the head. `pre` and `post` record what
   * the controller did before and after the doorbell.
   */
  datatype Batch = Batch(s: System, pc: seq<nat>, got: seq<Option<Cpl>>, rung: bool, ended: bool,
                         pre: seq<Action>, post: seq<Action>)

  ghost function Place(s: System, t: nat): nat
    requires s.h.depth > 0
  {
    (s.h.tail + t) % s.h.depth
  }

  ghost predicate AllWritten(b: Batch) {
    forall t :: 0 <= t < |b.pc| ==> b.pc[t] == WORDS
  }

  ghost predicate AllReaped(b: Batch) {
    forall t :: 0 <= t < |b.got| ==> b.got[t].Some?
  }

  ghost function Values(got: seq<Option<Cpl>>): (s: seq<Cpl>)
    requires forall t :: 0 <= t < |got| ==> got[t].Some?
    ensures |s| == |got|
  {
    seq(|got|, t requires 0 <= t < |got| => got[t].value)
  }

  /** The barriers: no doorbell or poll before every word is written, no advance before every thread
      has reaped. Thread 0 rings before it polls. */
  ghost predicate Enabled(b: Batch, turn: Turn) {
    !b.ended
    && match turn
       case Write(t) => t < |b.pc| && b.pc[t] < WORDS
       case RingAll => AllWritten(b) && !b.rung
       case PollAt(t) => AllWritten(b) && t < |b.got| && b.got[t].None? && (t == 0 ==> b.rung)
       case Finish => AllReaped(b) && b.rung
       case Controller(a) => a.Fetch? || a.Post?
  }

  ghost predicate Fits(b: Batch, n: nat) {
    Inv(b.s) && b.s.h.phase < 2 && |b.pc| == n == |b.got|
  }

  ghost function WriteWord(b: Batch, cmds: seq<Command>, t: nat): Batch
    requires Fits(b, |cmds|) && t < |cmds| && b.pc[t] < WORDS
  {
    var at, i := Place(b.s, t), b.pc[t];
    b.(s := b.s.(sq := b.s.sq[at := b.s.sq[at][i := cmds[t][i]]]), pc := b.pc[t := i + 1])
  }

  ghost function RingBatch(s: System, cmds: seq<Command>): System
    requires s.h.depth > 0
  {
    s.(h := SqUpdateHost(s.h, |cmds|), enqueued := s.enqueued + cmds, published := |s.enqueued + cmds|)
  }

  /** One poll by thread `t`, without touching head, phase or doorbell. */
  ghost function Peek(s: System, t: nat): Option<Cpl>
    requires s.h.depth > 0 && s.h.phase < 2 && |s.cq| == s.h.depth
  {
    var cqe := s.cq[(s.h.head + t) % s.h.depth];
    if Ready(cqe, ExpectedPhase(s.h, t)) then Some(cqe) else None
  }

  ghost function AdvanceBatch(s: System, cpls: seq<Cpl>): System
    requires s.h.phase < 2
  {
    s.(h := CqUpdateHost(s.h, |cpls|), reaped := s.reaped + cpls)
  }

  ghost function Take(b: Batch, cmds: seq<Command>, turn: Turn): Batch
    requires Fits(b, |cmds|)
  {
    if !Enabled(b, turn) then b
    else
      match turn
      case Write(t) => WriteWord(b, cmds, t)
      case RingAll => b.(s := if cmds == [] then b.s else RingBatch(b.s, cmds), rung := true)
      case PollAt(t) => b.(got := b.got[t := Peek(b.s, t)])
      case Finish => b.(s := if cmds == [] then b.s else AdvanceBatch(b.s, Values(b.got)), ended := true)
      case Controller(a) =>
        var s := Next(b.s, a);
        if b.rung then b.(s := s, post := b.post + [a]) else b.(s := s, pre := b.pre + [a])
  }

  // ---- The one-at-a-time form

  ghost predicate Room(s: System, n: nat) {
    Inv(s) && |s.enqueued| - |s.reaped| + n <= s.h.depth - 1
  }

  ghost predicate Usable(cmds: seq<Command>) {
    forall t :: 0 <= t < |cmds| ==> Cid(cmds[t]) < NO_CID
  }

  /** The commands enqueued one after another. */
  ghost function EnqueueMany(s: System, cmds: seq<Command>): (r: System)
    requires Room(s, |cmds|) && Usable(cmds)
    ensures Inv(r) && r.enqueued == s.enqueued + cmds && |r.sq| == s.h.depth
    ensures r == s.(h := s.h.(tail := r.h.tail), sq := r.sq, enqueued := r.enqueued)
    decreases |cmds|
  {
    if cmds == [] then
      assert s.enqueued + [] == s.enqueued;
      s
    else
      var k := |cmds| - 1;
      assert cmds == cmds[..k] + [cmds[k]];
      Next(EnqueueMany(s, cmds[..k]), Enqueue(cmds[k]))
  }

  /** `n` polls, one after another. */
  ghost function ReapMany(s: System, n: nat): (r: System)
    requires Inv(s) && |s.reaped| + n <= |s.posted|
    ensures Inv(r) && r.reaped == s.posted[..|s.reaped| + n]
    ensures r == s.(h := s.h.(head := r.h.head, phase := r.h.phase, cqdb := r.h.cqdb), reaped := r.reaped)
    decreases n
  {
    if n == 0 then
      assert s.reaped == s.posted[..|s.reaped|];
      s
    else
      var r := ReapMany(s, n - 1);
      ReapKeepsInv(r);
      ReapSome(r);
      Next(r, Reap)
  }

  lemma ReapSome(s: System)
    requires Inv(s) && |s.reaped| < |s.posted|
    ensures var r := ReapStep(s);
      r == s.(h := s.h.(head := r.h.head, phase := r.h.phase, cqdb := r.h.cqdb), reaped := r.reaped)
  {
    PollIsExact(s);
  }

  // ---- Ring arithmetic of a batch

  lemma SlotPhase(n: nat, depth: nat, q: nat, r: nat)
    requires r < depth && n == depth * q + r
    ensures Slot(n, depth) == r && PhaseOf(n, depth) == if q % 2 == 0 then 1 else 0
  {
    DivModUnique(n, depth, q, r);
  }

  lemma SlotAdd(n: nat, t: nat, depth: nat)
    requires depth > 0 && t < depth
    ensures Slot(n + t, depth) == (Slot(n, depth) + t) % depth
    ensures Slot(n + t, depth) == Slot(n, depth) + t - (if Slot(n, depth) + t >= depth then depth else 0)
    ensures PhaseOf(n + t, depth) == (if Slot(n, depth) + t >= depth then 1 - PhaseOf(n, depth) else PhaseOf(n, depth))
  {
    var q, r := n / depth, n % depth;
    SlotPhase(n, depth, q, r);
    var lap := if r + t >= depth then 1 else 0;
    var rest := r + t - depth * lap;
    assert depth * (q + lap) == depth * q + depth * lap;
    DivModUnique(r + t, depth, lap, rest);
    hide Slot, PhaseOf;
    SlotPhase(n + t, depth, q + lap, rest);
  }

  lemma PlaceIsSlot(s: System, t: nat)
    requires Inv(s) && t < s.h.depth
    ensures Place(s, t) == Slot(|s.enqueued| + t, s.h.depth) < s.h.depth
  {
    SlotAdd(|s.enqueued|, t, s.h.depth);
  }

  lemma PlacesDiffer(s: System, t: nat, u: nat)
    requires Inv(s) && t != u && t < s.h.depth && u < s.h.depth
    ensures Place(s, t) != Place(s, u)
  {
    PlaceIsSlot(s, t);
    PlaceIsSlot(s, u);
    hide Inv;
    var e := |s.enqueued|;
    if t < u { SlotsDiffer(e + t, e + u, s.h.depth); } else { SlotsDiffer(e + u, e + t, s.h.depth); }
  }

  /** A thread's poll sees the completion `t` places after the head, exactly when it is there. */
  lemma PeekSees(s: System, t: nat)
    requires Inv(s) && s.h.phase < 2 && t < s.h.depth && s.h.head + t < U16
    ensures Peek(s, t) == if |s.reaped| + t < |s.posted| then Some(s.posted[|s.reaped| + t]) else None
  {
    hide Inv, Slot, PhaseOf, ExpectedPhase;
    InvHost(s);
    PhaseIsBit(s);
    SlotAdd(|s.reaped|, t, s.h.depth);
    PeekIsExact(s, t);
    SmallPhase(s.h, t);
  }

  lemma SmallPhase(h: Host, t: nat)
    requires h.phase < 2 && h.head + t < U16
    ensures ExpectedPhase(h, t) == if h.head + t >= h.depth then 1 - h.phase else h.phase
  {
  }

  /** Advancing by `n` at once is `n` single reaps. */
  lemma AdvanceIsReaps(s: System, n: nat)
    requires Inv(s) && s.h.phase < 2 && n < s.h.depth && s.h.head + n < U16 && |s.reaped| + n <= |s.posted|
    ensures AdvanceBatch(s, s.posted[|s.reaped|..|s.reaped| + n]) == ReapMany(s, n)
  {
    hide Inv, Slot, PhaseOf, ReapMany;
    var r, cpls := ReapMany(s, n), s.posted[|s.reaped|..|s.reaped| + n];
    InvHost(s);
    InvHost(r);
    SlotAdd(|s.reaped|, n, s.h.depth);
    assert s.reaped + cpls == s.posted[..|s.reaped| + n];
    assert (s.h.head + n) % U16 == s.h.head + n;
  }

  /** And only then: if the sum wraps 16 bits, head and phase are not those of single reaps. */
  lemma AdvanceIsReapsIff(s: System, n: nat)
    requires Inv(s) && s.h.phase < 2 && 0 < n < s.h.depth && |s.reaped| + n <= |s.posted|
    ensures AdvanceBatch(s, s.posted[|s.reaped|..|s.reaped| + n]) == ReapMany(s, n) <==> s.h.head + n < U16
  {
    assert s.h.depth < U16;
    hide Inv, Slot, PhaseOf, ReapMany;
    var r, cpls := ReapMany(s, n), s.posted[|s.reaped|..|s.reaped| + n];
    InvHost(s);
    InvHost(r);
    SlotAdd(|s.reaped|, n, s.h.depth);
    if s.h.head + n < U16 {
      AdvanceIsReaps(s, n);
    } else {
      assert (s.h.head + n) % U16 == s.h.head + n - U16;
      assert CqUpdateHost(s.h, n).head == s.h.head + n - U16;
      assert r.h.head == s.h.head + n - s.h.depth;
    }
  }

  lemma InvHost(s: System)
    requires Inv(s)
    ensures s.h.head == s.h.cqdb == Slot(|s.reaped|, s.h.depth) && s.h.phase == PhaseOf(|s.reaped|, s.h.depth)
    ensures s.h.tail == Slot(|s.enqueued|, s.h.depth)
    ensures s.reaped <= s.posted && s.h.depth >= 2 && |s.reaped| <= |s.enqueued|
  {
  }

  // ---- What the submission queue holds while the threads write

  ghost predicate WordIs(s: System, sq: seq<Command>, cmds: seq<Command>, pc: seq<nat>, t: nat, i: nat)
    requires Inv(s) && t < |cmds| == |pc| && i < WORDS && |sq| == s.h.depth
  {
    sq[Place(s, t)][i] == (if i < pc[t] then cmds[t][i] else s.sq[Place(s, t)][i])
  }

  ghost predicate OutsideIs(s: System, sq: seq<Command>, n: nat, k: nat)
    requires Inv(s) && k < s.h.depth == |sq|
  {
    (forall t: nat :: t < n ==> Place(s, t) != k) ==> sq[k] == s.sq[k]
  }

  /** The words written so far, over what was there; every other slot untouched. */
  ghost predicate PartWritten(s: System, sq: seq<Command>, cmds: seq<Command>, pc: seq<nat>)
    requires Inv(s)
  {
    && |pc| == |cmds| && |sq| == s.h.depth
    && (forall t :: 0 <= t < |pc| ==> pc[t] <= WORDS)
    && (forall t: nat, i: nat :: t < |cmds| && i < WORDS ==> WordIs(s, sq, cmds, pc, t, i))
    && (forall k: nat :: k < s.h.depth ==> OutsideIs(s, sq, |cmds|, k))
  }

  lemma WriteKeepsParts(s: System, sq: seq<Command>, cmds: seq<Command>, pc: seq<nat>, t: nat)
    requires Inv(s) && PartWritten(s, sq, cmds, pc) && t < |cmds| < s.h.depth && pc[t] < WORDS
    ensures PartWritten(s, sq[Place(s, t) := sq[Place(s, t)][pc[t] := cmds[t][pc[t]]]], cmds, pc[t := pc[t] + 1])
  {
    hide Inv;
    var at, i := Place(s, t), pc[t];
    var sq', pc' := sq[at := sq[at][i := cmds[t][i]]], pc[t := i + 1];
    forall u: nat, j: nat | u < |cmds| && j < WORDS ensures WordIs(s, sq', cmds, pc', u, j) {
      assert WordIs(s, sq, cmds, pc, u, j);
      if u != t { PlacesDiffer(s, t, u); }
    }
    forall k: nat | k < s.h.depth ensures OutsideIs(s, sq', |cmds|, k) {
      assert OutsideIs(s, sq, |cmds|, k);
    }
  }

  lemma {:induction false} EnqueueManySlots(s: System, cmds: seq<Command>, k: nat)
    requires Room(s, |cmds|) && Usable(cmds) && k < s.h.depth
    ensures var r := EnqueueMany(s, cmds);
      && (forall t: nat :: t < |cmds| && Place(s, t) == k ==> r.sq[k] == cmds[t])
      && ((forall t: nat :: t < |cmds| ==> Place(s, t) != k) ==> r.sq[k] == s.sq[k])
    decreases |cmds|
  {
    if cmds != [] {
      var n := |cmds| - 1;
      EnqueueManySlots(s, cmds[..n], k);
      var r := EnqueueMany(s, cmds[..n]);
      PlaceIsSlot(s, n);
      InvHost(r);
      forall t: nat | t < n ensures Place(s, t) != Place(s, n) { PlacesDiffer(s, t, n); }
      hide Inv;
    }
  }

  /** When every word is written, memory is as if the commands had been enqueued one by one. */
  lemma WrittenIsEnqueued(s: System, sq: seq<Command>, cmds: seq<Command>, pc: seq<nat>)
    requires Room(s, |cmds|) && Usable(cmds) && PartWritten(s, sq, cmds, pc)
    requires forall t :: 0 <= t < |pc| ==> pc[t] == WORDS
    ensures sq == EnqueueMany(s, cmds).sq
  {
    var r := EnqueueMany(s, cmds);
    hide Inv, EnqueueMany;
    forall k: nat | k < s.h.depth ensures sq[k] == r.sq[k] {
      EnqueueManySlots(s, cmds, k);
      if t: nat :| t < |cmds| && Place(s, t) == k {
        forall i: nat | i < WORDS ensures sq[k][i] == cmds[t][i] { assert WordIs(s, sq, cmds, pc, t, i); }
        assert sq[k] == cmds[t];
      } else {
        assert OutsideIs(s, sq, |cmds|, k);
      }
    }
  }

  /** Ringing for `n` commands is `n` enqueues and one doorbell. */
  lemma RingIsEnqueues(s: System, sq: seq<Command>, cmds: seq<Command>)
    requires Room(s, |cmds|) && Usable(cmds) && sq == EnqueueMany(s, cmds).sq
    ensures RingBatch(s.(sq := sq), cmds) == Next(EnqueueMany(s, cmds), Ring)
  {
    hide Inv, EnqueueMany, Step, SqUpdateHost, RingHost;
    var r := EnqueueMany(s, cmds);
    ManyTail(s, cmds);
    RingKeepsInv(r);
    NextRing(r);
    RingIsUpdate(s.h, r.h, |cmds|);
  }

  lemma ManyTail(s: System, cmds: seq<Command>)
    requires Room(s, |cmds|) && Usable(cmds)
    ensures s.h.depth > 0 && EnqueueMany(s, cmds).h == s.h.(tail := Place(s, |cmds|))
  {
    hide Inv, EnqueueMany, Slot, Place;
    InvHost(s);
    InvHost(EnqueueMany(s, cmds));
    PlaceIsSlot(s, |cmds|);
  }

  lemma RingIsUpdate(h: Host, g: Host, n: nat)
    requires h.depth > 0 && g == h.(tail := (h.tail + n) % h.depth) && RingHost(g).sqdb == g.tail
    ensures RingHost(g) == SqUpdateHost(h, n)
  {
  }

  lemma NextRing(s: System)
    requires Inv(s)
    ensures Next(s, Ring) == RingStep(s)
  {
    hide Inv;
  }

  // ---- Every schedule

  ghost predicate Start(s0: System, cmds: seq<Command>) {
    Room(s0, |cmds|) && Usable(cmds) && s0.h.head + |cmds| < U16
  }

  /** What the controller's steps leave alone. */
  ghost predicate DeviceFrame(s: System, t: System) {
    && t.h == s.h && t.sq == s.sq && t.enqueued == s.enqueued && t.reaped == s.reaped && t.published == s.published
    && s.posted <= t.posted && s.postedFor <= t.postedFor
  }

  lemma DeviceStepFrame(s: System, a: Action)
    requires Inv(s) && (a.Fetch? || a.Post?)
    ensures DeviceFrame(s, Next(s, a))
  {
  }

  lemma {:induction false} DeviceRunFrame(s: System, sched: seq<Action>)
    requires Inv(s) && DeviceOnly(sched)
    ensures DeviceFrame(s, DeviceRun(s, sched))
    decreases |sched|
  {
    hide Inv, InFlight, Next;
    if sched != [] {
      DeviceStepFrame(s, sched[0]);
      DeviceRunFrame(Next(s, sched[0]), sched[1..]);
    }
  }

  lemma {:induction false} DeviceRunAppend(s: System, sched: seq<Action>, a: Action)
    requires Inv(s) && DeviceOnly(sched) && (a.Fetch? || a.Post?)
    ensures DeviceRun(s, sched + [a]) == Next(DeviceRun(s, sched), a)
    decreases |sched|
  {
    hide Inv, InFlight, Next;
    if sched == [] {
      assert ([] + [a])[0] == a && ([] + [a])[1..] == [];
    } else {
      assert (sched + [a])[0] == sched[0] && (sched + [a])[1..] == sched[1..] + [a];
      DeviceRunAppend(Next(s, sched[0]), sched[1..], a);
    }
  }

  /** The controller does not notice words written to free slots. */
  lemma OverlayDevice(s: System, sq: seq<Command>, a: Action)
    requires Inv(s) && Inv(s.(sq := sq)) && (a.Fetch? || a.Post?)
    ensures Next(s.(sq := sq), a) == Next(s, a).(sq := sq)
  {
    PhaseIsBit(s);
    FetchReads(s);
    FetchReads(s.(sq := sq));
    InvCounts(s);
    hide Inv;
    if a.Post? { PostOverlay(s, sq, a.i, a.status); }
  }

  lemma PostOverlay(s: System, sq: seq<Command>, i: nat, status: nat)
    requires s.h.depth > 0 && s.postTail < |s.cq|
    ensures PostStep(s.(sq := sq), i, status) == PostStep(s, i, status).(sq := sq)
  {
  }

  lemma FetchReads(s: System)
    requires Inv(s)
    ensures s.fetchHead != s.h.sqdb ==> s.fetchHead < |s.sq| && |s.fetched| < |s.enqueued|
                                        && s.sq[s.fetchHead] == s.enqueued[|s.fetched|]
  {
    FetchKeepsInv(s);
    assert SqHolds(s, |s.fetched|);
  }

  /** Words in the batch's slots do not disturb the commands waiting to be fetched. */
  lemma WriteKeepsInv(s: System, n: nat, t: nat, c: Command)
    requires Room(s, n) && t < n
    ensures Place(s, t) < |s.sq| && Inv(s.(sq := s.sq[Place(s, t) := c]))
  {
    hide Slot, PhaseOf, Place;
    PlaceIsSlot(s, t);
    var r, d := s.(sq := s.sq[Place(s, t) := c]), s.h.depth;
    forall j: nat ensures SqHolds(r, j) {
      assert SqHolds(s, j);
      if |s.fetched| <= j < |s.enqueued| { SlotsDiffer(j, |s.enqueued| + t, d); }
    }
    forall j: nat ensures CqHolds(r, j) { assert CqHolds(s, j); }
    forall j: nat | j < |r.posted| ensures PostedOk(r, j) { assert PostedOk(s, j); }
  }

  /** One command at a time, and one doorbell; an empty batch does not ring. */
  ghost function Announced(s: System, cmds: seq<Command>): (r: System)
    requires Room(s, |cmds|) && Usable(cmds)
    ensures Inv(r) && r.reaped == s.reaped && r.h.head == s.h.head && r.h.depth == s.h.depth
    ensures r.enqueued == s.enqueued + cmds && (cmds != [] ==> r.published == |r.enqueued|)
    ensures r.posted == s.posted && r.postedFor == s.postedFor && r.fetched == s.fetched && r.pending == s.pending
  {
    if cmds == [] then
      assert s.enqueued + [] == s.enqueued;
      s
    else
      Next(EnqueueMany(s, cmds), Ring)
  }

  /** One command at a time, with the controller's steps before and after the doorbell. */
  ghost function Submitted(s0: System, cmds: seq<Command>, pre: seq<Action>, post: seq<Action>): (s: System)
    requires Start(s0, cmds) && DeviceOnly(pre) && DeviceOnly(post)
    ensures Inv(s) && s.reaped == s0.reaped && s.h.head == s0.h.head && s.h.depth == s0.h.depth
    ensures s.enqueued == s0.enqueued + cmds && (cmds != [] ==> s.published == |s.enqueued|)
    ensures s0.posted <= s.posted && s0.postedFor <= s.postedFor
  {
    DeviceRunFrame(s0, pre);
    var r := Announced(DeviceRun(s0, pre), cmds);
    DeviceRunFrame(r, post);
    DeviceRun(r, post)
  }

  ghost predicate GotIs(s0: System, b: Batch, t: nat)
    requires t < |b.got|
  {
    var j := |s0.reaped| + t;
    b.got[t].Some? ==> j < |b.s.posted| && b.got[t].value == b.s.posted[j]
  }

  ghost predicate BatchInv(s0: System, cmds: seq<Command>, b: Batch)
    requires Start(s0, cmds)
  {
    && Fits(b, |cmds|) && DeviceOnly(b.pre) && DeviceOnly(b.post)
    && (forall t: nat :: t < |cmds| ==> GotIs(s0, b, t))
    && (if !b.rung then !b.ended && b.post == [] && Gathering(s0, cmds, b)
        else
          var mid := Submitted(s0, cmds, b.pre, b.post);
          && AllWritten(b)
          && (if b.ended then
                AllReaped(b) && |mid.reaped| + |cmds| <= |mid.posted| && b.s == ReapMany(mid, |cmds|)
              else b.s == mid))
  }

  /** Before the doorbell. */
  ghost predicate Gathering(s0: System, cmds: seq<Command>, b: Batch)
    requires Start(s0, cmds) && DeviceOnly(b.pre)
  {
    var base := DeviceRun(s0, b.pre);
    b.s == base.(sq := b.s.sq) && PartWritten(base, b.s.sq, cmds, b.pc)
  }

  ghost function Begin(s0: System, n: nat): Batch {
    Batch(s0, seq(n, t => 0), seq(n, t => None), false, false, [], [])
  }

  lemma PhaseIsBit(s: System)
    requires Inv(s)
    ensures s.h.phase < 2 && |s.cq| == s.h.depth == |s.sq| && s.h.depth >= 2
  {
  }

  lemma BeginInv(s0: System, cmds: seq<Command>)
    requires Start(s0, cmds)
    ensures BatchInv(s0, cmds, Begin(s0, |cmds|))
  {
    PhaseIsBit(s0);
    hide Inv;
    var b := Begin(s0, |cmds|);
    forall t: nat, i: nat | t < |cmds| && i < WORDS ensures WordIs(s0, s0.sq, cmds, b.pc, t, i) {}
    forall k: nat | k < s0.h.depth ensures OutsideIs(s0, s0.sq, |cmds|, k) {}
  }

  lemma GatheringFacts(s0: System, cmds: seq<Command>, b: Batch)
    requires Start(s0, cmds) && BatchInv(s0, cmds, b) && !b.rung
    ensures Room(b.s, |cmds|) && b.s.h == s0.h && b.s.reaped == s0.reaped && |b.s.sq| == s0.h.depth
    ensures var base := DeviceRun(s0, b.pre);
      base.h == s0.h && Room(base, |cmds|) && PartWritten(base, b.s.sq, cmds, b.pc) && b.s == base.(sq := b.s.sq)
  {
    DeviceRunFrame(s0, b.pre);
    PhaseIsBit(b.s);
    hide Inv, PartWritten, DeviceRun;
  }

  lemma WriteTurn(s0: System, cmds: seq<Command>, b: Batch, t: nat)
    requires Start(s0, cmds) && BatchInv(s0, cmds, b) && Enabled(b, Write(t))
    ensures BatchInv(s0, cmds, Take(b, cmds, Write(t)))
  {
    hide Inv, DeviceRun, PartWritten, Submitted, Place, GotIs;
    InvHost(s0);
    GatheringFacts(s0, cmds, b);
    SamePlace(DeviceRun(s0, b.pre), b.s, t);
    var base, r := DeviceRun(s0, b.pre), Take(b, cmds, Write(t));
    var c := b.s.sq[Place(base, t)][b.pc[t] := cmds[t][b.pc[t]]];
    assert r == b.(s := b.s.(sq := b.s.sq[Place(base, t) := c]), pc := b.pc[t := b.pc[t] + 1]);
    WriteKeepsParts(base, b.s.sq, cmds, b.pc, t);
    WriteKeepsInv(b.s, |cmds|, t, c);
    forall u: nat | u < |cmds| ensures GotIs(s0, r, u) { GotKept(s0, b, r, u); }
  }

  lemma SamePlace(s: System, s': System, t: nat)
    requires s.h == s'.h && s.h.depth > 0
    ensures Place(s, t) == Place(s', t) < s.h.depth
  {
  }

  lemma GotKept(s0: System, b: Batch, r: Batch, u: nat)
    requires u < |b.got| && r.got == b.got && b.s.posted <= r.s.posted && GotIs(s0, b, u)
    ensures GotIs(s0, r, u)
  {
  }

  lemma RingTurn(s0: System, cmds: seq<Command>, b: Batch)
    requires Start(s0, cmds) && BatchInv(s0, cmds, b) && Enabled(b, RingAll)
    ensures BatchInv(s0, cmds, Take(b, cmds, RingAll))
  {
    hide Inv, PartWritten;
    var base := DeviceRun(s0, b.pre);
    DeviceRunFrame(s0, b.pre);
    WrittenIsEnqueued(base, b.s.sq, cmds, b.pc);
    RingIsEnqueues(base, b.s.sq, cmds);
    var r := Take(b, cmds, RingAll);
    PhaseIsBit(r.s);
    forall u: nat | u < |cmds| ensures GotIs(s0, r, u) { assert GotIs(s0, b, u); }
  }

  lemma PollTurn(s0: System, cmds: seq<Command>, b: Batch, t: nat)
    requires Start(s0, cmds) && BatchInv(s0, cmds, b) && Enabled(b, PollAt(t))
    ensures BatchInv(s0, cmds, Take(b, cmds, PollAt(t)))
    ensures b.s.reaped == s0.reaped && b.s.posted <= Take(b, cmds, PollAt(t)).s.posted
    ensures Take(b, cmds, PollAt(t)).got[t]
      == if |s0.reaped| + t < |b.s.posted| then Some(b.s.posted[|s0.reaped| + t]) else None
  {
    hide Inv, PartWritten, Submitted, Peek, GotIs, DeviceRun;
    RunningFacts(s0, cmds, b);
    PeekSees(b.s, t);
    var r := Take(b, cmds, PollAt(t));
    assert r == b.(got := b.got[t := Peek(b.s, t)]);
    forall u: nat | u < |cmds| ensures GotIs(s0, r, u) {
      if u == t { GotPeeked(s0, b, t); } else { GotSame(s0, b, r, u); }
    }
  }

  lemma RunningFacts(s0: System, cmds: seq<Command>, b: Batch)
    requires Start(s0, cmds) && BatchInv(s0, cmds, b) && !b.ended
    ensures Inv(b.s) && b.s.h.phase < 2 && b.s.h.head == s0.h.head && b.s.h.depth == s0.h.depth
    ensures b.s.reaped == s0.reaped && |b.s.cq| == b.s.h.depth && |cmds| < s0.h.depth
  {
    DeviceRunFrame(s0, b.pre);
    InvHost(s0);
    PhaseIsBit(b.s);
    hide Inv, DeviceRun, PartWritten, Submitted;
  }

  lemma GotPeeked(s0: System, b: Batch, t: nat)
    requires t < |b.got| && b.s.h.depth > 0 && b.s.h.phase < 2 && |b.s.cq| == b.s.h.depth
    requires Peek(b.s, t) == if |s0.reaped| + t < |b.s.posted| then Some(b.s.posted[|s0.reaped| + t]) else None
    ensures GotIs(s0, b.(got := b.got[t := Peek(b.s, t)]), t)
  {
  }

  lemma GotSame(s0: System, b: Batch, r: Batch, u: nat)
    requires u < |b.got| == |r.got| && r.got[u] == b.got[u] && r.s == b.s && GotIs(s0, b, u)
    ensures GotIs(s0, r, u)
  {
  }

  lemma ValuesPosted(s0: System, b: Batch)
    requires |s0.reaped| <= |b.s.posted| && AllReaped(b)
    requires forall t: nat :: t < |b.got| ==> GotIs(s0, b, t)
    ensures var done := |s0.reaped|;
      done + |b.got| <= |b.s.posted| && Values(b.got) == b.s.posted[done..done + |b.got|]
  {
    var n := |b.got|;
    if n > 0 { assert GotIs(s0, b, n - 1); }
    forall t: nat | t < n ensures Values(b.got)[t] == b.s.posted[|s0.reaped| + t] { assert GotIs(s0, b, t); }
  }

  lemma ReapNone(s: System)
    requires Inv(s)
    ensures |s.reaped| <= |s.posted| && ReapMany(s, 0) == s
  {
  }

  lemma FinishTurn(s0: System, cmds: seq<Command>, b: Batch)
    requires Start(s0, cmds) && BatchInv(s0, cmds, b) && Enabled(b, Finish)
    ensures BatchInv(s0, cmds, Take(b, cmds, Finish))
  {
    hide Inv, Submitted, ReapMany, AdvanceBatch, GotIs;
    var r := Take(b, cmds, Finish);
    InvHost(s0);
    InvHost(b.s);
    ValuesPosted(s0, b);
    ReapNone(b.s);
    AdvanceIsReaps(b.s, |cmds|);
    PhaseIsBit(r.s);
    forall u: nat | u < |cmds| ensures GotIs(s0, r, u) { GotKept(s0, b, r, u); }
  }

  lemma ControllerTurn(s0: System, cmds: seq<Command>, b: Batch, a: Action)
    requires Start(s0, cmds) && BatchInv(s0, cmds, b) && Enabled(b, Controller(a))
    ensures BatchInv(s0, cmds, Take(b, cmds, Controller(a)))
  {
    hide Inv, InFlight, PartWritten, EnqueueMany;
    var r := Take(b, cmds, Controller(a));
    DeviceStepFrame(b.s, a);
    forall u: nat | u < |cmds| ensures GotIs(s0, r, u) { assert GotIs(s0, b, u); }
    DeviceRunFrame(s0, b.pre);
    if b.rung {
      DeviceRunAppend(Announced(DeviceRun(s0, b.pre), cmds), b.post, a);
    } else {
      DeviceRunAppend(s0, b.pre, a);
      var base := DeviceRun(s0, b.pre);
      OverlayDevice(base, b.s.sq, a);
      DeviceStepFrame(base, a);
      BasePart(base, Next(base, a), b.s.sq, cmds, b.pc);
    }
  }

  lemma BasePart(s: System, t: System, sq: seq<Command>, cmds: seq<Command>, pc: seq<nat>)
    requires Inv(s) && Inv(t) && t.h == s.h && t.sq == s.sq && PartWritten(s, sq, cmds, pc)
    ensures PartWritten(t, sq, cmds, pc)
  {
    PhaseIsBit(s);
    hide Inv;
    forall u: nat, i: nat | u < |cmds| && i < WORDS ensures WordIs(t, sq, cmds, pc, u, i) {
      assert WordIs(s, sq, cmds, pc, u, i);
    }
    assert forall u: nat :: Place(t, u) == Place(s, u);
    forall k: nat | k < t.h.depth ensures OutsideIs(t, sq, |cmds|, k) { assert OutsideIs(s, sq, |cmds|, k); }
  }

  lemma TurnKeepsInv(s0: System, cmds: seq<Command>, b: Batch, turn: Turn)
    requires Start(s0, cmds) && BatchInv(s0, cmds, b)
    ensures BatchInv(s0, cmds, Take(b, cmds, turn))
  {
    hide BatchInv, Inv;
    if Enabled(b, turn) {
      match turn
      case Write(t) => WriteTurn(s0, cmds, b, t);
      case RingAll => RingTurn(s0, cmds, b);
      case PollAt(t) => PollTurn(s0, cmds, b, t);
      case Finish => FinishTurn(s0, cmds, b);
      case Controller(a) => ControllerTurn(s0, cmds, b, a);
    }
  }

  /** The batch after a schedule; turns that are not enabled change nothing. */
  ghost function Run(s0: System, cmds: seq<Command>, turns: seq<Turn>): (b: Batch)
    requires Start(s0, cmds)
    ensures BatchInv(s0, cmds, b)
    decreases |turns|
  {
    if turns == [] then
      BeginInv(s0, cmds);
      Begin(s0, |cmds|)
    else
      var b := Run(s0, cmds, turns[..|turns| - 1]);
      TurnKeepsInv(s0, cmds, b, turns[|turns| - 1]);
      Take(b, cmds, turns[|turns| - 1])
  }

  ghost predicate Sequential(s0: System, cmds: seq<Command>, b: Batch)
    requires Start(s0, cmds) && DeviceOnly(b.pre) && DeviceOnly(b.post)
  {
    var mid := Submitted(s0, cmds, b.pre, b.post);
    && |mid.reaped| + |cmds| <= |mid.posted| && b.s == ReapMany(mid, |cmds|)
    && AllReaped(b) && b.s.reaped == s0.reaped + Values(b.got)
  }

  lemma EndedIsSequential(s0: System, cmds: seq<Command>, b: Batch)
    requires Start(s0, cmds) && BatchInv(s0, cmds, b) && b.ended
    ensures Sequential(s0, cmds, b)
  {
    hide Inv, Submitted, ReapMany, Gathering;
    var mid, done := Submitted(s0, cmds, b.pre, b.post), |s0.reaped|;
    InvHost(mid);
    ValuesPosted(s0, b);
    assert s0.reaped + mid.posted[done..done + |cmds|] == mid.posted[..done + |cmds|];
  }

  /**
   * Every finished batch, whatever the schedule, leaves the state that its commands leave when they
   * are enqueued, announced and reaped one at a time with the same controller steps; thread `t`
   * holds the `t`-th of the completions so reaped.
   */
  lemma BatchIsSequential(s0: System, cmds: seq<Command>, turns: seq<Turn>)
    requires Start(s0, cmds)
    ensures var b := Run(s0, cmds, turns);
      DeviceOnly(b.pre) && DeviceOnly(b.post) && (b.ended ==> Sequential(s0, cmds, b))
  {
    hide Run, Sequential, Start, Gathering, Submitted;
    var b := Run(s0, cmds, turns);
    if b.ended { EndedIsSequential(s0, cmds, b); }
  }

  /** The turn is possible and not in vain: a poll succeeds, the controller fetches or completes. */
  ghost predicate Progress(b: Batch, cmds: seq<Command>, turn: Turn)
    requires Fits(b, |cmds|)
  {
    var r := Take(b, cmds, turn);
    && Enabled(b, turn)
    && match turn
       case PollAt(t) => t < |r.got| && r.got[t].Some?
       case Controller(a) => |r.s.posted| > |b.s.posted| || |r.s.fetched| > |b.s.fetched|
       case _ => true
  }

  /** While a batch is unfinished, some turn makes progress. */
  lemma BatchNeverStuck(s0: System, cmds: seq<Command>, b: Batch) returns (turn: Turn)
    requires Start(s0, cmds) && BatchInv(s0, cmds, b) && !b.ended
    ensures Fits(b, |cmds|) && Progress(b, cmds, turn)
  {
    hide Inv, PartWritten, Submitted, WriteWord, DeviceRun, Peek, AdvanceBatch;
    if !b.rung { GatheringFacts(s0, cmds, b); }
    if t: nat :| t < |b.pc| && b.pc[t] != WORDS {
      PartBound(s0, cmds, b, t);
      return Write(t);
    }
    if !b.rung { return RingAll; }
    if AllReaped(b) { return Finish; }
    var t :| 0 <= t < |b.got| && b.got[t].None?;
    InvHost(s0);
    if |s0.reaped| + t < |b.s.posted| {
      PollTurn(s0, cmds, b, t);
      return PollAt(t);
    }
    var a := ControllerActs(b.s);
    turn := Controller(a);
  }

  lemma PartBound(s0: System, cmds: seq<Command>, b: Batch, t: nat)
    requires Start(s0, cmds) && BatchInv(s0, cmds, b) && t < |b.pc| && b.pc[t] != WORDS
    ensures b.pc[t] < WORDS
  {
    hide Inv, Submitted, WordIs, OutsideIs;
  }

  lemma ControllerActs(s: System) returns (a: Action)
    requires Inv(s) && |s.posted| < s.published
    ensures a.Fetch? || a.Post?
    ensures |Next(s, a).posted| > |s.posted| || |Next(s, a).fetched| > |s.fetched|
  {
    hide Inv;
    PendingCount(s);
    InvCounts(s);
    if |s.pending| > 0 {
      PostOne(s);
      return Post(0, 0);
    }
    FetchOne(s);
    FetchAppends(s);
    return Fetch;
  }

  /** From an idle queue, the completions a batch reaps are those of its own commands, each once. */
  lemma BatchCompletesItsCommands(s0: System, cmds: seq<Command>, turns: seq<Turn>)
    requires Start(s0, cmds) && |s0.enqueued| == |s0.reaped|
    ensures var b := Run(s0, cmds, turns); b.ended ==> CompletesOwn(s0, cmds, b)
  {
    hide Run, CompletesOwn, Start, Gathering, Submitted;
    var b := Run(s0, cmds, turns);
    if b.ended { EndedCompletesOwn(s0, cmds, b); }
  }

  ghost predicate CompletesOwn(s0: System, cmds: seq<Command>, b: Batch) {
    var done := |s0.reaped|;
    && AllReaped(b) && |b.got| == |cmds| && |b.s.postedFor| == done + |cmds|
    && multiset(b.s.postedFor[done..]) == multiset(cmds)
    && (forall t: nat :: t < |cmds| ==> b.got[t].value.cid == Cid(b.s.postedFor[done + t]))
  }

  lemma EndedCompletesOwn(s0: System, cmds: seq<Command>, b: Batch)
    requires Start(s0, cmds) && |s0.enqueued| == |s0.reaped| && BatchInv(s0, cmds, b) && b.ended
    ensures CompletesOwn(s0, cmds, b)
  {
    hide Inv, Submitted, ReapMany, Gathering;
    var done := |s0.reaped|;
    IdleHistory(s0);
    IdleHistory(b.s);
    forall t: nat | t < |cmds| ensures b.got[t].value.cid == Cid(b.s.postedFor[done + t]) {
      assert GotIs(s0, b, t);
      PostedCid(b.s, done + t);
    }
    MultisetSuffix(s0.postedFor, b.s.postedFor, s0.enqueued, cmds);
  }

  lemma MultisetSuffix(a: seq<Command>, whole: seq<Command>, e: seq<Command>, cmds: seq<Command>)
    requires a <= whole && multiset(a) == multiset(e) && multiset(whole) == multiset(e + cmds)
    ensures multiset(whole[|a|..]) == multiset(cmds)
  {
    var rest := whole[|a|..];
    assert whole == a + rest;
    assert multiset(a) + multiset(rest) == multiset(a) + multiset(cmds);
    assert multiset(rest) == multiset(a) + multiset(rest) - multiset(a);
    assert multiset(cmds) == multiset(a) + multiset(cmds) - multiset(a);
    assert multiset(e + cmds) == multiset(e) + multiset(cmds);
  }

  lemma PostedCid(s: System, j: nat)
    requires Inv(s) && j < |s.posted|
    ensures |s.postedFor| == |s.posted| && s.posted[j].cid == Cid(s.postedFor[j])
  {
    assert PostedOk(s, j);
  }

  lemma IdleHistory(s: System)
    requires Inv(s) && |s.enqueued| == |s.reaped|
    ensures |s.postedFor| == |s.enqueued| && multiset(s.postedFor) == multiset(s.enqueued)
  {
    PendingCount(s);
    assert s.fetched == s.enqueued;
    assert s.pending == [];
  }

  /** Once every thread of an idle queue's batch has reaped, the controller has fetched everything. */
  lemma AllReapedAllFetched(s0: System, cmds: seq<Command>, b: Batch)
    requires Start(s0, cmds) && |s0.enqueued| == |s0.reaped| && BatchInv(s0, cmds, b) && Enabled(b, Finish)
    ensures Fits(b, |cmds|) && |b.s.fetched| == |b.s.enqueued|
  {
    hide Inv, Submitted, Gathering;
    InvHost(s0);
    ValuesPosted(s0, b);
    InvCounts(b.s);
  }

  /**
   * There is no barrier between thread 0's advance and the next round. A thread that runs ahead may
   * already write words of its next command: the advance does not notice, and finds the same slots.
   */
  lemma EarlyWriteIsHarmless(s0: System, cmds: seq<Command>, b: Batch, cpls: seq<Cpl>, t: nat, c: Command)
    requires Start(s0, cmds) && |s0.enqueued| == |s0.reaped| && BatchInv(s0, cmds, b) && Enabled(b, Finish)
    requires t < b.s.h.depth
    ensures Harmless(b.s, cpls, t, c)
  {
    hide BatchInv, Inv, AllReaped, Start;
    AllReapedAllFetched(s0, cmds, b);
    PhaseIsBit(b.s);
    FreeSlotWrite(b.s, Place(b.s, t), c);
  }

  /** Writing to slot `t` after the tail and advancing the head can happen in either order. */
  ghost predicate Harmless(s: System, cpls: seq<Cpl>, t: nat, c: Command) {
    && s.h.depth > 0 && s.h.phase < 2 && Place(s, t) < |s.sq|
    && var early, late := s.(sq := s.sq[Place(s, t) := c]), AdvanceBatch(s, cpls);
    && Inv(early) && late.h.depth == s.h.depth && Place(late, t) == Place(s, t)
    && AdvanceBatch(early, cpls) == late.(sq := early.sq)
  }

  lemma FreeSlotWrite(s: System, k: nat, c: Command)
    requires Inv(s) && |s.fetched| == |s.enqueued| && k < |s.sq|
    ensures Inv(s.(sq := s.sq[k := c]))
  {
    hide Slot, PhaseOf;
    var r := s.(sq := s.sq[k := c]);
    forall j: nat ensures SqHolds(r, j) {}
    forall j: nat ensures CqHolds(r, j) { assert CqHolds(s, j); }
    forall j: nat | j < |r.posted| ensures PostedOk(r, j) { assert PostedOk(s, j); }
  }

  /**
   * A thread gets the completion in its place, not necessarily its own command's: from an idle
   * queue, every thread of every schedule gets its own if and only if the batch is at most one
   * command.
   */
  lemma OwnCompletionsIff(s0: System, cmds: seq<Command>)
    requires Start(s0, cmds) && |s0.enqueued| == |s0.reaped|
    requires forall t: nat :: t < |cmds| ==> Cid(cmds[t]) == t
    ensures (forall turns: seq<Turn>, t: nat :: GetsOwn(s0, cmds, turns, t)) <==> |cmds| <= 1
  {
    hide GetsOwn, Start;
    if |cmds| <= 1 {
      forall turns: seq<Turn>, t: nat ensures GetsOwn(s0, cmds, turns, t) { LoneGetsOwn(s0, cmds, turns, t); }
    } else {
      var turns := SomeGetsAnother(s0, cmds);
    }
  }

  lemma LoneGetsOwn(s0: System, cmds: seq<Command>, turns: seq<Turn>, t: nat)
    requires Start(s0, cmds) && |s0.enqueued| == |s0.reaped| && |cmds| <= 1
    requires forall u: nat :: u < |cmds| ==> Cid(cmds[u]) == u
    ensures GetsOwn(s0, cmds, turns, t)
  {
    hide Run, BatchInv, Start;
    if t < |cmds| { LoneCompletion(s0, cmds, Run(s0, cmds, turns)); }
  }

  lemma SomeGetsAnother(s0: System, cmds: seq<Command>) returns (turns: seq<Turn>)
    requires Start(s0, cmds) && |s0.enqueued| == |s0.reaped| && |cmds| >= 2
    requires forall u: nat :: u < |cmds| ==> Cid(cmds[u]) == u
    ensures !GetsOwn(s0, cmds, turns, 0)
  {
    hide Run, Start;
    turns := ThreadGetsAnother(s0, cmds);
  }

  /** What thread `t` has reaped after a schedule, if anything, is its own command's completion. */
  ghost predicate GetsOwn(s0: System, cmds: seq<Command>, turns: seq<Turn>, t: nat)
    requires Start(s0, cmds)
  {
    var got := Run(s0, cmds, turns).got;
    t < |cmds| && got[t].Some? ==> got[t].value.cid == t
  }

  /** With one command there is one completion to get. */
  lemma LoneCompletion(s0: System, cmds: seq<Command>, b: Batch)
    requires Start(s0, cmds) && |s0.enqueued| == |s0.reaped| && BatchInv(s0, cmds, b) && |cmds| == 1
    ensures b.got[0].Some? ==> b.got[0].value.cid == Cid(cmds[0])
  {
    hide Inv, BatchInv;
    BatchGets(s0, cmds, b);
    if b.got[0].Some? {
      assert GotIs(s0, b, 0);
      IdleHistory(s0);
      InvHost(s0);
      BatchFrame(s0, cmds, b);
      InvCounts(b.s);
      AllPosted(b.s);
      PostedCid(b.s, |s0.reaped|);
      OnlyElement(s0, cmds[0], b.s);
    }
  }

  lemma BatchGets(s0: System, cmds: seq<Command>, b: Batch)
    requires Start(s0, cmds) && BatchInv(s0, cmds, b)
    ensures Fits(b, |cmds|) && forall t: nat :: t < |cmds| ==> GotIs(s0, b, t)
  {
    hide Inv, Submitted, Gathering;
  }

  lemma OnlyElement(s0: System, c: Command, s: System)
    requires s0.postedFor <= s.postedFor && multiset(s0.postedFor) == multiset(s0.enqueued)
    requires multiset(s.postedFor) == multiset(s0.enqueued + [c])
    ensures |s0.postedFor| < |s.postedFor| && s.postedFor[|s0.postedFor|] == c
  {
    MultisetSuffix(s0.postedFor, s.postedFor, s0.enqueued, [c]);
    var rest := s.postedFor[|s0.postedFor|..];
    assert |multiset(rest)| == |multiset([c])| == 1;
    assert |rest| == |multiset(rest)|;
    assert rest[0] in multiset(rest);
    assert rest[0] in multiset([c]);
  }

  /** A batch adds nothing to the queue but its own commands. */
  lemma BatchFrame(s0: System, cmds: seq<Command>, b: Batch)
    requires Start(s0, cmds) && BatchInv(s0, cmds, b)
    ensures s0.postedFor <= b.s.postedFor && s0.posted <= b.s.posted
    ensures b.s.enqueued == if b.rung then s0.enqueued + cmds else s0.enqueued
  {
    DeviceRunFrame(s0, b.pre);
    hide Inv, ReapMany, DeviceRun, PartWritten, Submitted;
  }

  /** When as many completions are posted as commands are enqueued, they are for those commands. */
  lemma AllPosted(s: System)
    requires Inv(s) && |s.posted| >= |s.enqueued|
    ensures |s.postedFor| == |s.enqueued| && multiset(s.postedFor) == multiset(s.enqueued)
  {
    PendingCount(s);
    assert s.fetched == s.enqueued;
    assert s.pending == [];
  }

  /** With two commands or more, this schedule gives thread 0 the completion of thread 1. */
  lemma ThreadGetsAnother(s0: System, cmds: seq<Command>) returns (turns: seq<Turn>)
    requires Start(s0, cmds) && |s0.enqueued| == |s0.reaped| && |cmds| >= 2
    ensures var got := Run(s0, cmds, turns).got;
      |got| == |cmds| && got[0].Some? && got[0].value.cid == Cid(cmds[1])
  {
    hide Run, Inv, Submitted, Peek, Start;
    var all := WriteAll(s0, cmds, |cmds|);
    var b := Run(s0, cmds, all);
    var post := MayCompleteOutOfOrder(s0, cmds);
    var rung := all + [RingAll];
    RunMore(s0, cmds, all, RingAll);
    turns := Act(s0, cmds, rung, post);
    var c := Run(s0, cmds, turns);
    assert [] + post == post;
    assert c.s == Submitted(s0, cmds, [], post);
    PollTurn(s0, cmds, c, 0);
    RunMore(s0, cmds, turns, PollAt(0));
    turns := turns + [PollAt(0)];
  }

  lemma RunNone(s0: System, cmds: seq<Command>)
    requires Start(s0, cmds)
    ensures Run(s0, cmds, []) == Begin(s0, |cmds|)
  {
    hide BatchInv, Inv;
  }

  lemma RunMore(s0: System, cmds: seq<Command>, turns: seq<Turn>, turn: Turn)
    requires Start(s0, cmds)
    ensures Run(s0, cmds, turns + [turn]) == Take(Run(s0, cmds, turns), cmds, turn)
  {
    hide BatchInv, Take, Inv;
    assert (turns + [turn])[..|turns|] == turns;
  }

  /** Nothing has happened but writing. */
  ghost predicate OnlyWrites(b: Batch) {
    !b.rung && !b.ended && b.pre == [] && b.post == [] && forall t :: 0 <= t < |b.got| ==> b.got[t].None?
  }

  /** The first `n` threads write all their words. */
  lemma {:induction false} WriteAll(s0: System, cmds: seq<Command>, n: nat) returns (turns: seq<Turn>)
    requires Start(s0, cmds) && n <= |cmds|
    ensures var b := Run(s0, cmds, turns);
      OnlyWrites(b) && |b.pc| == |cmds| && forall t: nat :: t < n ==> b.pc[t] == WORDS
  {
    hide Run, Inv, Start, BatchInv;
    if n == 0 {
      turns := [];
      RunNone(s0, cmds);
    } else {
      turns := WriteAll(s0, cmds, n - 1);
      turns := WriteOne(s0, cmds, turns, n - 1);
    }
  }

  lemma {:induction false} WriteOne(s0: System, cmds: seq<Command>, from: seq<Turn>, t: nat)
    returns (turns: seq<Turn>)
    requires Start(s0, cmds) && t < |cmds| && OnlyWrites(Run(s0, cmds, from))
    ensures var a, b := Run(s0, cmds, from), Run(s0, cmds, turns);
      OnlyWrites(b) && |b.pc| == |cmds| == |a.pc| && b.pc == a.pc[t := WORDS]
    decreases WORDS - Run(s0, cmds, from).pc[t]
  {
    hide Run, Inv, Start, Submitted, Gathering;
    var a := Run(s0, cmds, from);
    if a.pc[t] == WORDS {
      turns := from;
    } else {
      PartBound(s0, cmds, a, t);
      RunMore(s0, cmds, from, Write(t));
      turns := WriteOne(s0, cmds, from + [Write(t)], t);
    }
  }

  /** The controller takes the given steps after the doorbell. */
  lemma {:induction false} Act(s0: System, cmds: seq<Command>, from: seq<Turn>, post: seq<Action>)
    returns (turns: seq<Turn>)
    requires Start(s0, cmds) && DeviceOnly(post)
    requires var a := Run(s0, cmds, from); a.rung && !a.ended
    ensures var a, b := Run(s0, cmds, from), Run(s0, cmds, turns);
      b.rung && !b.ended && b.pre == a.pre && b.post == a.post + post && b.got == a.got && b.pc == a.pc
    decreases |post|
  {
    hide Run, Inv, Start, Submitted, Gathering;
    var a := Run(s0, cmds, from);
    if post == [] {
      turns := from;
      assert a.post + [] == a.post;
    } else {
      RunMore(s0, cmds, from, Controller(post[0]));
      turns := Act(s0, cmds, from + [Controller(post[0])], post[1..]);
      assert a.post + post == a.post + [post[0]] + post[1..];
    }
  }

  /** From an idle queue, every thread got its own completion iff the batch was completed in order. */
  lemma OwnIffCompletedInOrder(s0: System, cmds: seq<Command>, turns: seq<Turn>)
    requires Start(s0, cmds) && |s0.enqueued| == |s0.reaped|
    requires forall t: nat :: t < |cmds| ==> Cid(cmds[t]) == t
    ensures var b := Run(s0, cmds, turns);
      b.ended ==>
        && AllReaped(b) && |b.got| == |cmds| && |s0.reaped| <= |b.s.postedFor|
        && ((forall t: nat :: t < |cmds| ==> b.got[t].value.cid == t) <==> b.s.postedFor[|s0.reaped|..] == cmds)
  {
    hide Run, CompletesOwn, Start;
    var b := Run(s0, cmds, turns);
    BatchCompletesItsCommands(s0, cmds, turns);
    if b.ended { OwnIffInOrder(s0, cmds, b); }
  }

  lemma OwnIffInOrder(s0: System, cmds: seq<Command>, b: Batch)
    requires CompletesOwn(s0, cmds, b)
    requires forall t: nat :: t < |cmds| ==> Cid(cmds[t]) == t
    ensures AllReaped(b) && |b.got| == |cmds| && |s0.reaped| <= |b.s.postedFor|
    ensures (forall t: nat :: t < |cmds| ==> b.got[t].value.cid == t) <==> b.s.postedFor[|s0.reaped|..] == cmds
  {
    var done, n := |s0.reaped|, |cmds|;
    var mine := b.s.postedFor[done..];
    if forall t: nat :: t < n ==> b.got[t].value.cid == t {
      forall t: nat | t < n ensures mine[t] == cmds[t] {
        assert mine[t] in multiset(mine);
        assert mine[t] in multiset(cmds);
        var u: nat :| u < n && cmds[u] == mine[t];
        assert b.got[t].value.cid == Cid(b.s.postedFor[done + t]);
      }
    } else {
      var t: nat :| t < n && b.got[t].value.cid != t;
      assert mine[t] == b.s.postedFor[done + t];
    }
  }

  /** With two commands or more, the controller may complete the second one first. */
  lemma MayCompleteOutOfOrder(s0: System, cmds: seq<Command>) returns (post: seq<Action>)
    requires Start(s0, cmds) && |s0.enqueued| == |s0.reaped| && |cmds| >= 2
    ensures DeviceOnly(post)
    ensures var mid := Submitted(s0, cmds, [], post);
      |s0.reaped| < |mid.posted| && mid.posted[|s0.reaped|].cid == Cid(cmds[1])
  {
    hide Inv, InFlight, Submitted;
    post := [Fetch, Fetch, Post(1, 0)];
    var s := Submitted(s0, cmds, [], []);
    SubmittedThen(s0, cmds, post);
    IdleFetched(s0);
    IdleStart(s0, cmds);
    FetchTwo(s);
    ThreeSteps(s, Fetch, Fetch, Post(1, 0));
  }

  lemma SubmittedThen(s0: System, cmds: seq<Command>, post: seq<Action>)
    requires Start(s0, cmds) && DeviceOnly(post)
    ensures Submitted(s0, cmds, [], post) == DeviceRun(Submitted(s0, cmds, [], []), post)
  {
    hide Inv, InFlight, EnqueueMany, Next;
  }

  lemma IdleFetched(s: System)
    requires Inv(s) && |s.enqueued| == |s.reaped|
    ensures s.pending == [] && |s.fetched| == |s.posted| == |s.enqueued|
  {
    PendingCount(s);
  }

  /** Submitting to an idle controller that does nothing yet. */
  lemma IdleStart(s0: System, cmds: seq<Command>)
    requires Start(s0, cmds)
    ensures var s := Submitted(s0, cmds, [], []);
      s.pending == s0.pending && s.fetched == s0.fetched && s.posted == s0.posted
  {
    hide Inv, InFlight, EnqueueMany;
  }

  lemma ThreeSteps(s: System, a: Action, b: Action, c: Action)
    requires Inv(s) && DeviceOnly([a, b, c])
    ensures (a.Fetch? || a.Post?) && (b.Fetch? || b.Post?) && (c.Fetch? || c.Post?)
    ensures DeviceRun(s, [a, b, c]) == Next(Next(Next(s, a), b), c)
  {
    hide Inv, InFlight, Next;
    assert [a, b, c] == [a, b] + [c] && [a, b] == [a] + [b] && [a] == [] + [a];
    assert [a, b, c][0] == a && [a, b, c][1] == b && [a, b, c][2] == c;
    DeviceRunAppend(s, [], a);
    DeviceRunAppend(s, [a], b);
    DeviceRunAppend(s, [a, b], c);
  }

  lemma FetchTwo(s: System)
    requires Inv(s) && |s.fetched| + 2 <= s.published && s.pending == []
    ensures var t := Next(Next(Next(s, Fetch), Fetch), Post(1, 0));
      |t.posted| == |s.posted| + 1 && |s.fetched| + 1 < |s.enqueued|
      && t.posted[|s.posted|].cid == Cid(s.enqueued[|s.fetched| + 1])
  {
    hide Inv;
    FetchAppends(s);
    var a := Next(s, Fetch);
    FetchAppends(a);
    var b := Next(a, Fetch);
    PostNeverBlocked(b);
    InvCounts(b);
  }

  lemma FetchAppends(s: System)
    requires Inv(s) && |s.fetched| < s.published
    ensures |s.fetched| < |s.enqueued|
    ensures var t := Next(s, Fetch);
      && t.pending == s.pending + [s.enqueued[|s.fetched|]] && |t.fetched| == |s.fetched| + 1
      && t.published == s.published && t.enqueued == s.enqueued && t.posted == s.posted
  {
    FetchKeepsInv(s);
    FetchReads(s);
    hide Inv;
  }

  // ---- The largest batch, and the first one

  /**
   * A batch of `depth - 1` commands is the largest: from an idle queue, a batch as large as the
   * queue moves the tail once around, and the controller sees nothing to do.
   */
  lemma FullBatchIsInvisible(s: System, cmds: seq<Command>)
    requires Inv(s) && |s.enqueued| == |s.reaped| && 0 < |cmds| <= s.h.depth
    ensures |s.sq| == s.h.depth == |s.cq| && s.postTail < s.h.depth && s.fetchHead < s.h.depth
    ensures FetchStep(RingBatch(s, cmds)) == RingBatch(s, cmds) <==> |cmds| == s.h.depth
    ensures PostStep(RingBatch(s, cmds), 0, 0) == RingBatch(s, cmds)
  {
    var e, d, n := |s.enqueued|, s.h.depth, |cmds|;
    IdleFetched(s);
    InvHost(s);
    hide Slot, PhaseOf;
    if n < d {
      SlotAdd(e, n, d);
      SlotsDiffer(e, e + n, d);
    } else {
      AddMultiple(s.h.tail, d, 1);
      SmallSlot(s.h.tail, d);
    }
  }

  lemma SmallSlot(n: nat, depth: nat)
    requires n < depth
    ensures n % depth == n
  {
    DivModUnique(n, depth, 0, n);
  }

  /** The device-side queue pair starts with a last-written tail of 0, and meets the invariant too. */
  lemma CudaStartInv(s: System)
    requires 2 <= s.h.depth <= 0xFFFF && Initial(s.(h := s.h.(tailLastWritten := NEVER_WRITTEN)))
    requires s.h == Host(s.h.depth, 0, 0, 0, 1, 0, 0)
    ensures Inv(s)
  {
    SlotFirstLap(0, s.h.depth);
  }
}
