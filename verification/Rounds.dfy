/**
 * All the rounds of one thread block (nvme_io): batch after batch on the same queue pair. No barrier
 * separates thread 0's head update from the next round, so the other threads may already be writing
 * their next commands. Whatever the schedule, the rounds run as if one after another.
 */
module Rounds {
  import opened Arith
  import opened Common
  import opened QueueMachine
  import opened PoolMachine
  import opened BatchQueue
  import K = Kernel
  import Q = QPair

  /** What remains of a finished round: the controller's steps, and what each thread got. */
  datatype Played = Played(pre: seq<Action>, post: seq<Action>, got: seq<Option<Cpl>>)

  /** A turn inside the current round, or a thread's next word of the next round's command. */
  datatype Move = InRound(turn: Turn) | Early(t: nat)

  /**
   * Round `k` is in progress; `early[t]` counts the words of round `k + 1` that thread `t` has written.
   * The rest is history: the round without those words, the state each round began in, and the rounds
   * already played.
   */
  datatype Block = Block(k: nat, b: Batch, early: seq<nat>, clean: Batch, states: seq<System>, log: seq<Played>)

  ghost predicate LastRound(m: Block, rounds: seq<seq<Command>>) {
    m.k + 1 >= |rounds|
  }

  /** Every thread is past its poll, and thread 0 is about to advance the head. */
  ghost predicate Overlap(b: Batch) {
    b.rung && !b.ended && AllReaped(b)
  }

  ghost predicate CanMove(m: Block, rounds: seq<seq<Command>>, move: Move) {
    match move
    case InRound(turn) => Enabled(m.b, turn)
    case Early(t) => !LastRound(m, rounds) && Overlap(m.b) && 0 < t < |m.early| && m.early[t] < WORDS
  }

  ghost function Zeros(n: nat): (s: seq<nat>)
    ensures |s| == n
  {
    seq(n, i => 0)
  }

  ghost function NextSize(k: nat, rounds: seq<seq<Command>>): nat {
    if k + 1 < |rounds| then |rounds[k + 1]| else 0
  }

  ghost predicate Shape(m: Block, rounds: seq<seq<Command>>) {
    && m.k < |rounds| && Fits(m.b, |rounds[m.k]|) && Fits(m.clean, |rounds[m.k]|)
    && |m.early| == NextSize(m.k, rounds)
  }

  /** One move of the block. After the head update of any round but the last, the next begins. */
  ghost function Step(m: Block, rounds: seq<seq<Command>>, move: Move): Block
    requires Shape(m, rounds)
  {
    if !CanMove(m, rounds, move) then m
    else
      match move
      case Early(t) => m.(b := WriteEarly(m.b, rounds[m.k + 1], m.early, t), early := m.early[t := m.early[t] + 1])
      case InRound(turn) =>
        var b, clean := Take(m.b, rounds[m.k], turn), Take(m.clean, rounds[m.k], turn);
        if turn == Finish && !LastRound(m, rounds) then Begun(m, rounds, b, clean)
        else m.(b := b, clean := clean)
  }

  ghost function WriteEarly(b: Batch, cmds: seq<Command>, early: seq<nat>, t: nat): Batch
    requires Inv(b.s) && t < |cmds| == |early| && early[t] < WORDS
  {
    var at, i := Place(b.s, t), early[t];
    b.(s := b.s.(sq := b.s.sq[at := b.s.sq[at][i := cmds[t][i]]]))
  }

  /** The next round starts with the words already written. */
  ghost function Begun(m: Block, rounds: seq<seq<Command>>, b: Batch, clean: Batch): Block
    requires m.k + 1 < |rounds|
  {
    var next := Batch(b.s, m.early, seq(NextSize(m.k, rounds), t => None), false, false, [], []);
    Block(m.k + 1, next, Zeros(NextSize(m.k + 1, rounds)), next, m.states + [clean.s],
          m.log + [Played(b.pre, b.post, b.got)])
  }

  // ---- The invariant

  /** The rounds are batches the queue can hold, on a queue whose head arithmetic fits 16 bits. */
  ghost predicate Playable(depth: nat, rounds: seq<seq<Command>>) {
    && |rounds| > 0 && 2 <= depth < U16
    && forall k :: 0 <= k < |rounds| ==>
         |rounds[k]| <= depth - 1 && depth + |rounds[k]| <= U16 && Usable(rounds[k])
  }

  ghost predicate Idle(s: System) {
    Inv(s) && |s.enqueued| == |s.reaped|
  }

  /** `t` is what the round leaves when its commands are enqueued, announced and reaped one at a time,
      and thread `i` got the `i`-th completion so reaped. */
  ghost predicate Linked(s: System, cmds: seq<Command>, p: Played, t: System) {
    && Start(s, cmds) && DeviceOnly(p.pre) && DeviceOnly(p.post)
    && (var mid := Submitted(s, cmds, p.pre, p.post);
        |mid.reaped| + |cmds| <= |mid.posted| && t == ReapMany(mid, |cmds|))
    && |p.got| == |cmds| && (forall i :: 0 <= i < |p.got| ==> p.got[i].Some?)
    && t.reaped == s.reaped + Values(p.got)
  }

  ghost predicate Past(m: Block, rounds: seq<seq<Command>>) {
    && |m.states| == m.k + 1 && |m.log| == m.k < |rounds|
    && forall j :: 0 <= j < m.k ==> Linked(m.states[j], rounds[j], m.log[j], m.states[j + 1])
  }

  ghost predicate Present(m: Block, rounds: seq<seq<Command>>, depth: nat) {
    && m.k < |rounds| && |m.states| == m.k + 1 && |m.early| == NextSize(m.k, rounds)
    && Idle(m.states[m.k]) && m.states[m.k].h.depth == depth && Start(m.states[m.k], rounds[m.k])
    && BatchInv(m.states[m.k], rounds[m.k], m.clean)
    && (m.b.ended ==> LastRound(m, rounds))
    && Inv(m.b.s) && m.b == m.clean.(s := m.clean.s.(sq := m.b.s.sq))
    && (if Overlap(m.clean) && !LastRound(m, rounds) then
          PartWritten(m.clean.s, m.b.s.sq, rounds[m.k + 1], m.early)
        else m.b == m.clean && m.early == Zeros(|m.early|))
  }

  ghost predicate BlockInv(s0: System, rounds: seq<seq<Command>>, m: Block) {
    Past(m, rounds) && Present(m, rounds, s0.h.depth) && m.states[0] == s0
  }

  ghost function First(s0: System, rounds: seq<seq<Command>>): Block
    requires |rounds| > 0
  {
    var b := Begin(s0, |rounds[0]|);
    Block(0, b, Zeros(NextSize(0, rounds)), b, [s0], [])
  }

  lemma StartOf(s: System, rounds: seq<seq<Command>>, k: nat)
    requires Playable(s.h.depth, rounds) && Idle(s) && k < |rounds|
    ensures Start(s, rounds[k])
  {
    InvHost(s);
    HeadBound(s);
    hide Inv;
  }

  lemma HeadBound(s: System)
    requires Inv(s)
    ensures s.h.head < s.h.depth
  {
  }

  lemma FirstInv(s0: System, rounds: seq<seq<Command>>)
    requires Playable(s0.h.depth, rounds) && Idle(s0)
    ensures BlockInv(s0, rounds, First(s0, rounds))
  {
    hide Inv, BatchInv, Start;
    StartOf(s0, rounds, 0);
    BeginInv(s0, rounds[0]);
    var m := First(s0, rounds);
    assert m.b.s.(sq := m.b.s.sq) == m.b.s;
  }

  lemma ShapeOf(s0: System, rounds: seq<seq<Command>>, m: Block)
    requires BlockInv(s0, rounds, m)
    ensures Shape(m, rounds)
  {
    hide Inv, Gathering, Submitted, Start, PartWritten;
  }

  // ---- Every move keeps it

  /** Before anything is written early, memory is as it was. */
  lemma NothingWritten(s: System, cmds: seq<Command>)
    requires Inv(s)
    ensures PartWritten(s, s.sq, cmds, Zeros(|cmds|))
  {
    PhaseIsBit(s);
    hide Inv;
    forall t: nat, i: nat | t < |cmds| && i < WORDS ensures WordIs(s, s.sq, cmds, Zeros(|cmds|), t, i) {
      assert Place(s, t) < s.h.depth;
    }
    forall k: nat | k < s.h.depth ensures OutsideIs(s, s.sq, |cmds|, k) {}
  }

  /** A turn before the overlap: the round is played as it is. */
  lemma PlainTurn(s0: System, rounds: seq<seq<Command>>, m: Block, turn: Turn)
    requires BlockInv(s0, rounds, m) && Shape(m, rounds) && CanMove(m, rounds, InRound(turn))
    requires m.b == m.clean && m.early == Zeros(|m.early|) && (turn == Finish ==> LastRound(m, rounds))
    ensures BlockInv(s0, rounds, Step(m, rounds, InRound(turn)))
  {
    hide Inv, BatchInv, Start, Take, Enabled, PartWritten, Linked;
    var r := Step(m, rounds, InRound(turn));
    TurnKeepsInv(m.states[m.k], rounds[m.k], m.clean, turn);
    FitsOf(m.states[m.k], rounds[m.k], r.clean);
    OnlyFinishEnds(m.b, rounds[m.k], turn);
    assert r.b.s.(sq := r.b.s.sq) == r.b.s;
    if !LastRound(m, rounds) { NothingWritten(r.clean.s, rounds[m.k + 1]); }
  }

  lemma OnlyFinishEnds(b: Batch, cmds: seq<Command>, turn: Turn)
    requires Fits(b, |cmds|)
    ensures Take(b, cmds, turn).ended ==> b.ended || turn == Finish
  {
    hide Inv, Peek, AdvanceBatch;
  }

  lemma FitsOf(s: System, cmds: seq<Command>, b: Batch)
    requires Start(s, cmds) && BatchInv(s, cmds, b)
    ensures Fits(b, |cmds|)
  {
    hide Inv, Gathering, Submitted;
  }

  /** During the overlap everything has been fetched and completed, so the controller rests. */
  lemma ControllerRests(s: System, cmds: seq<Command>, b: Batch, a: Action)
    requires Start(s, cmds) && Idle(s) && BatchInv(s, cmds, b) && Overlap(b) && (a.Fetch? || a.Post?)
    ensures b.s.pending == [] && b.s.fetchHead == b.s.h.sqdb && Next(b.s, a) == b.s
  {
    hide Start, BatchInv;
    AllReapedAllFetched(s, cmds, b);
    RestingState(s, cmds, b);
    FetchKeepsInv(b.s);
    hide Inv;
  }

  lemma RestingState(s: System, cmds: seq<Command>, b: Batch)
    requires Start(s, cmds) && Idle(s) && BatchInv(s, cmds, b) && Overlap(b)
    ensures Fits(b, |cmds|) && b.s.pending == [] && |b.s.fetched| == |b.s.enqueued|
    ensures |b.s.posted| == |b.s.enqueued| == |b.s.reaped| + |cmds| && b.s.reaped == s.reaped
    ensures |b.s.fetched| >= b.s.published && AllWritten(b)
  {
    hide Inv, Submitted, Gathering;
    InvHost(s);
    ValuesPosted(s, b);
    InvCounts(b.s);
    PendingCount(b.s);
  }

  lemma OverlapController(s0: System, rounds: seq<seq<Command>>, m: Block, a: Action)
    requires BlockInv(s0, rounds, m) && Shape(m, rounds) && !LastRound(m, rounds) && Overlap(m.clean)
    requires CanMove(m, rounds, InRound(Controller(a)))
    ensures BlockInv(s0, rounds, Step(m, rounds, InRound(Controller(a))))
  {
    hide Inv, BatchInv, Start, PartWritten, Linked;
    var s, cmds := m.states[m.k], rounds[m.k];
    ControllerRests(s, cmds, m.clean, a);
    OverlayDevice(m.clean.s, m.b.s.sq, a);
    TurnKeepsInv(s, cmds, m.clean, Controller(a));
  }

  lemma EarlyMove(s0: System, rounds: seq<seq<Command>>, m: Block, t: nat)
    requires Playable(s0.h.depth, rounds) && BlockInv(s0, rounds, m) && Shape(m, rounds)
    requires CanMove(m, rounds, Early(t))
    ensures BlockInv(s0, rounds, Step(m, rounds, Early(t)))
  {
    hide Inv, BatchInv, Start, PartWritten, Linked, Place;
    var s, cmds, next := m.states[m.k], rounds[m.k], rounds[m.k + 1];
    RestingState(s, cmds, m.clean);
    PhaseIsBit(m.clean.s);
    SamePlace(m.clean.s, m.b.s, t);
    SameDepth(s, cmds, m.clean);
    WriteKeepsParts(m.clean.s, m.b.s.sq, next, m.early, t);
    var at := Place(m.clean.s, t);
    PhaseIsBit(m.b.s);
    FreeSlotWrite(m.b.s, at, m.b.s.sq[at][m.early[t] := next[t][m.early[t]]]);
  }

  lemma SameDepth(s: System, cmds: seq<Command>, b: Batch)
    requires Start(s, cmds) && BatchInv(s, cmds, b) && b.rung
    ensures b.s.h.depth == s.h.depth
  {
    hide Inv;
  }

  /** The head update, and the next round begins. */
  lemma FinishMove(s0: System, rounds: seq<seq<Command>>, m: Block)
    requires Playable(s0.h.depth, rounds) && BlockInv(s0, rounds, m) && Shape(m, rounds)
    requires CanMove(m, rounds, InRound(Finish)) && !LastRound(m, rounds)
    ensures BlockInv(s0, rounds, Step(m, rounds, InRound(Finish)))
  {
    hide Inv, BatchInv, Start, PartWritten, Linked, AdvanceBatch, Values;
    var s, cmds := m.states[m.k], rounds[m.k];
    var r := Step(m, rounds, InRound(Finish));
    var c := Take(m.clean, cmds, Finish);
    TurnKeepsInv(s, cmds, m.clean, Finish);
    RoundEnds(s, cmds, c);
    RestingState(s, cmds, m.clean);
    AdvanceOverlay(s, cmds, m.clean, m.b.s.sq);
    PastGrows(m, rounds, r, c);
    NextRoundInv(m, rounds, c, r, s0.h.depth);
  }

  /** What a finished round leaves: an idle queue, linked to the round's beginning. */
  lemma RoundEnds(s: System, cmds: seq<Command>, c: Batch)
    requires Start(s, cmds) && Idle(s) && BatchInv(s, cmds, c) && c.ended && c.rung
    ensures Linked(s, cmds, Played(c.pre, c.post, c.got), c.s)
    ensures Idle(c.s) && c.s.h.depth == s.h.depth
  {
    hide Inv, Submitted, ReapMany, Gathering, Values;
    EndedIsSequential(s, cmds, c);
  }

  /** The head update of a batch on top of which words have been written early. */
  lemma AdvanceOverlay(s: System, cmds: seq<Command>, clean: Batch, sq: seq<Command>)
    requires Start(s, cmds) && Idle(s) && BatchInv(s, cmds, clean) && Overlap(clean) && Inv(clean.s.(sq := sq))
    requires Fits(clean, |cmds|)
    ensures var b, c := clean.(s := clean.s.(sq := sq)), Take(clean, cmds, Finish);
      && Fits(b, |cmds|) && Take(b, cmds, Finish) == c.(s := c.s.(sq := sq)) && Inv(c.s.(sq := sq))
      && c.s.sq == clean.s.sq && c.s.h.tail == clean.s.h.tail && c.s.h.depth == clean.s.h.depth
      && c.ended && c.rung && c.got == clean.got && c.pre == clean.pre && c.post == clean.post
  {
    hide Inv, BatchInv, ReapMany;
    var b := clean.(s := clean.s.(sq := sq));
    RestingState(s, cmds, clean);
    BatchGot(s, cmds, clean);
    StartBounds(s, cmds, clean);
    AdvanceIsReaps(b.s, |cmds|);
  }

  lemma BatchGot(s: System, cmds: seq<Command>, b: Batch)
    requires Start(s, cmds) && Idle(s) && BatchInv(s, cmds, b) && Overlap(b)
    ensures |s.reaped| + |cmds| <= |b.s.posted|
    ensures Values(b.got) == b.s.posted[|s.reaped|..|s.reaped| + |cmds|]
  {
    hide Inv, Submitted, Gathering;
    InvHost(s);
    ValuesPosted(s, b);
    InvCounts(b.s);
  }

  lemma StartBounds(s: System, cmds: seq<Command>, b: Batch)
    requires Start(s, cmds) && BatchInv(s, cmds, b) && b.rung && !b.ended
    ensures b.s.h.head == s.h.head && b.s.h.depth == s.h.depth && |cmds| < s.h.depth && s.h.head + |cmds| < U16
  {
    InvHost(s);
    hide Inv;
  }

  lemma PastGrows(m: Block, rounds: seq<seq<Command>>, r: Block, c: Batch)
    requires Past(m, rounds) && m.k + 1 < |rounds| && r.k == m.k + 1
    requires r.states == m.states + [c.s] && r.log == m.log + [Played(c.pre, c.post, c.got)]
    requires Linked(m.states[m.k], rounds[m.k], Played(c.pre, c.post, c.got), c.s)
    ensures Past(r, rounds)
  {
    hide Linked;
    forall j | 0 <= j < r.k ensures Linked(r.states[j], rounds[j], r.log[j], r.states[j + 1]) {
      if j < m.k { assert Linked(m.states[j], rounds[j], m.log[j], m.states[j + 1]); }
    }
  }

  lemma NextRoundInv(m: Block, rounds: seq<seq<Command>>, c: Batch, r: Block, depth: nat)
    requires Playable(depth, rounds) && m.k + 1 < |rounds| && |m.early| == NextSize(m.k, rounds)
    requires |m.states| == m.k + 1 && Idle(c.s) && c.s.h.depth == depth && Inv(c.s.(sq := m.b.s.sq))
    requires Inv(m.clean.s) && PartWritten(m.clean.s, m.b.s.sq, rounds[m.k + 1], m.early)
    requires c.s.sq == m.clean.s.sq && c.s.h.tail == m.clean.s.h.tail && c.s.h.depth == m.clean.s.h.depth
    requires var b := c.(s := c.s.(sq := m.b.s.sq)); r == Begun(m, rounds, b, c)
    ensures Present(r, rounds, depth)
  {
    hide Inv, PartWritten, Start, Place;
    var next := rounds[m.k + 1];
    StartOf(c.s, rounds, m.k + 1);
    SameSlots(m.clean.s, c.s, m.b.s.sq, next, m.early);
    assert r.states[r.k] == c.s;
    JoinsMidway(c.s, next, r.clean);
    assert r.b.s.(sq := r.b.s.sq) == r.b.s;
  }

  lemma SameSlots(s: System, t: System, sq: seq<Command>, cmds: seq<Command>, pc: seq<nat>)
    requires Inv(s) && Inv(t) && t.h.tail == s.h.tail && t.h.depth == s.h.depth && t.sq == s.sq
    requires PartWritten(s, sq, cmds, pc)
    ensures PartWritten(t, sq, cmds, pc)
  {
    PhaseIsBit(s);
    hide Inv;
    assert forall u: nat :: Place(t, u) == Place(s, u);
    forall u: nat, i: nat | u < |cmds| && i < WORDS ensures WordIs(t, sq, cmds, pc, u, i) {
      assert WordIs(s, sq, cmds, pc, u, i);
    }
    forall k: nat | k < t.h.depth ensures OutsideIs(t, sq, |cmds|, k) { assert OutsideIs(s, sq, |cmds|, k); }
  }

  /** A batch may begin with some of its words already in place. */
  lemma JoinsMidway(s: System, cmds: seq<Command>, b: Batch)
    requires Start(s, cmds) && Inv(b.s) && b.s == s.(sq := b.s.sq) && |b.pc| == |cmds|
    requires PartWritten(s, b.s.sq, cmds, b.pc)
    requires b == Batch(b.s, b.pc, seq(|cmds|, t => None), false, false, [], [])
    ensures BatchInv(s, cmds, b)
  {
    PhaseIsBit(b.s);
    hide Inv, PartWritten;
    forall t: nat | t < |cmds| ensures GotIs(s, b, t) {}
  }

  lemma MoveKeepsInv(s0: System, rounds: seq<seq<Command>>, m: Block, move: Move)
    requires Playable(s0.h.depth, rounds) && BlockInv(s0, rounds, m)
    ensures Shape(m, rounds) && BlockInv(s0, rounds, Step(m, rounds, move))
  {
    hide Inv, BatchInv, Start, PartWritten, Past, Take;
    ShapeOf(s0, rounds, m);
    if CanMove(m, rounds, move) {
      match move
      case Early(t) => EarlyMove(s0, rounds, m, t);
      case InRound(turn) =>
        if !LastRound(m, rounds) && Overlap(m.clean) {
          RestingState(m.states[m.k], rounds[m.k], m.clean);
          OverlapTurns(m.b, turn);
          if turn == Finish { FinishMove(s0, rounds, m); } else { OverlapController(s0, rounds, m, turn.a); }
        } else {
          PlainTurn(s0, rounds, m, turn);
        }
    }
  }

  lemma OverlapTurns(b: Batch, turn: Turn)
    requires Overlap(b) && Enabled(b, turn) && AllWritten(b)
    ensures turn == Finish || turn.Controller?
  {
  }

  // ---- Every schedule of all the rounds

  ghost function Run(s0: System, rounds: seq<seq<Command>>, moves: seq<Move>): (m: Block)
    requires Playable(s0.h.depth, rounds) && Idle(s0)
    ensures BlockInv(s0, rounds, m)
    decreases |moves|
  {
    if moves == [] then
      FirstInv(s0, rounds);
      First(s0, rounds)
    else
      var m := Run(s0, rounds, moves[..|moves| - 1]);
      MoveKeepsInv(s0, rounds, m, moves[|moves| - 1]);
      Step(m, rounds, moves[|moves| - 1])
  }

  lemma RunMore(s0: System, rounds: seq<seq<Command>>, moves: seq<Move>, move: Move)
    requires Playable(s0.h.depth, rounds) && Idle(s0)
    ensures Run(s0, rounds, moves + [move]) == Step(Run(s0, rounds, moves), rounds, move)
  {
    hide BlockInv, Step, Playable, Idle;
    assert (moves + [move])[..|moves|] == moves;
  }

  /** The block has played its last round. */
  ghost predicate Done(m: Block, rounds: seq<seq<Command>>) {
    LastRound(m, rounds) && m.b.ended
  }

  /** The states between rounds, from `s0` to the end, each linked to the next by a sequential round. */
  ghost predicate PlayedInOrder(s0: System, rounds: seq<seq<Command>>, states: seq<System>, log: seq<Played>) {
    && |states| == |rounds| + 1 && |log| == |rounds| && states[0] == s0
    && forall j :: 0 <= j < |rounds| ==> Linked(states[j], rounds[j], log[j], states[j + 1])
  }

  /**
   * For every schedule of threads and controller over all the rounds, early writes included: when the
   * block is done its queue is as the rounds leave it one after another, each as its commands enqueued,
   * announced and reaped one at a time; and in every round thread `t` got the round's `t`-th completion.
   */
  lemma RoundsAreSequential(s0: System, rounds: seq<seq<Command>>, moves: seq<Move>)
    requires Playable(s0.h.depth, rounds) && Idle(s0)
    ensures var m := Run(s0, rounds, moves);
      Done(m, rounds) ==> PlayedInOrder(s0, rounds, m.states + [m.b.s], FullLog(m))
  {
    hide Run, Inv, Idle, Linked, BatchInv, Start;
    var m := Run(s0, rounds, moves);
    if Done(m, rounds) {
      var k := m.k;
      assert m.b == m.clean;
      LastEnds(m.states[k], rounds[k], m.b);
      var states, log := m.states + [m.b.s], FullLog(m);
      forall j | 0 <= j < |rounds| ensures Linked(states[j], rounds[j], log[j], states[j + 1]) {
        if j < k { assert Linked(m.states[j], rounds[j], m.log[j], m.states[j + 1]); }
      }
    }
  }

  /** Until the block is done, some move makes progress. */
  lemma BlockNeverStuck(s0: System, rounds: seq<seq<Command>>, m: Block) returns (turn: Turn)
    requires Playable(s0.h.depth, rounds) && BlockInv(s0, rounds, m) && !Done(m, rounds)
    ensures Shape(m, rounds) && CanMove(m, rounds, InRound(turn)) && Progress(m.b, rounds[m.k], turn)
  {
    hide Inv, BatchInv, Start, Take, PartWritten, Past;
    ShapeOf(s0, rounds, m);
    if Overlap(m.clean) { return Finish; }
    turn := BatchNeverStuck(m.states[m.k], rounds[m.k], m.clean);
  }

  ghost function FullLog(m: Block): seq<Played> {
    m.log + [Played(m.b.pre, m.b.post, m.b.got)]
  }

  lemma LastEnds(s: System, cmds: seq<Command>, b: Batch)
    requires Start(s, cmds) && Idle(s) && BatchInv(s, cmds, b) && b.ended
    ensures Linked(s, cmds, Played(b.pre, b.post, b.got), b.s)
  {
    hide Inv, Submitted, ReapMany, Gathering, Linked;
    RoundEnds(s, cmds, b);
  }

  // ---- The results of the kernel

  /** The rounds of one block are the batches nvme_io cuts for it. */
  ghost predicate RoundsOf(l: K.Launch, bid: nat, rounds: seq<seq<Command>>)
    requires K.Runs(l)
  {
    var stride := K.Stride(l.grid, l.block);
    && |rounds| == K.Rounds(l.numIos, stride)
    && forall r: nat :: r < |rounds| ==>
         |rounds[r]| == K.BatchSize(K.BlockStart(r, bid, stride, l.block), l.numIos, l.block)
  }

  /** What nvme_qpair_cuda_io returns to a thread in a round: 0 if it takes no part. */
  ghost function ResultOf(p: Played, t: nat): int {
    if t < |p.got| && p.got[t].Some? then Q.StatusCode(p.got[t].value.status) else 0
  }

  /**
   * One thread of nvme_io, its block's rounds having been played as RoundsAreSequential says: the
   * result of each of its I/Os is the status code of the completion in the thread's place in that round.
   */
  method NvmeIoResults(l: K.Launch, bid: nat, tid: nat, ghost rounds: seq<seq<Command>>, ghost s0: System,
                       ghost states: seq<System>, ghost log: seq<Played>, io: seq<int>, results: array<int>)
    requires K.Runs(l) && bid < l.grid && tid < l.block && results.Length == l.numIos
    requires RoundsOf(l, bid, rounds) && PlayedInOrder(s0, rounds, states, log)
    requires |io| == |rounds| && forall r :: 0 <= r < |io| ==> io[r] == ResultOf(log[r], tid)
    modifies results
    ensures forall r: nat, i: nat :: K.Owns(l, r, bid, tid, i) ==>
      i < l.numIos && IsResult(states, r, tid, results[i])
    ensures forall i: nat :: i < l.numIos && (forall r: nat :: !K.Owns(l, r, bid, tid, i))
              ==> results[i] == old(results[i])
  {
    hide Linked, K.Owns, IsResult, ResultOf;
    K.NvmeIo(l, bid, tid, io, results);
    forall r: nat, i: nat | K.Owns(l, r, bid, tid, i)
      ensures i < l.numIos && IsResult(states, r, tid, results[i])
    {
      OwnerTakesPart(l, r, bid, tid, i);
      PlaceInRound(states, rounds, log, r, tid);
    }
  }

  /** `x` is the status code of the `t`-th completion reaped in round `r`. */
  ghost predicate IsResult(states: seq<System>, r: nat, t: nat, x: int) {
    && r + 1 < |states| && |states[r].reaped| + t < |states[r + 1].reaped|
    && x == Q.StatusCode(states[r + 1].reaped[|states[r].reaped| + t].status)
  }

  lemma OwnerTakesPart(l: K.Launch, r: nat, bid: nat, tid: nat, i: nat)
    requires K.Runs(l) && K.Owns(l, r, bid, tid, i)
    ensures var stride := K.Stride(l.grid, l.block);
      i < l.numIos && r < K.Rounds(l.numIos, stride)
      && tid < K.BatchSize(K.BlockStart(r, bid, stride, l.block), l.numIos, l.block)
  {
  }

  lemma PlaceInRound(states: seq<System>, rounds: seq<seq<Command>>, log: seq<Played>, r: nat, t: nat)
    requires |states| == |rounds| + 1 && |log| == |rounds| && r < |rounds| && t < |rounds[r]|
    requires Linked(states[r], rounds[r], log[r], states[r + 1])
    ensures IsResult(states, r, t, ResultOf(log[r], t))
  {
    hide Start, Submitted, ReapMany;
  }
}
