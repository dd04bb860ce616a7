/**
 * Commands and their data, over whole runs: identifiers, PRP lists and queues together. Requests are
 * prepared and reused while other commands are in flight; the controller must find each command's
 * list page as it was when the command was prepared.
 */
module Delivery {
  import opened Arith
  import opened Bits
  import opened Common
  import opened Segments
  import HostMemory
  import opened QueueMemory
  import opened Translate
  import opened QueueMachine
  import opened PoolMachine
  import opened Transfers
  import opened PrpVectors
  import P = Prp

  /** The data of one command. */
  datatype Data = Contiguous(dbuf: nat, nbytes: nat) | Segments(dvec: seq<Iov>)

  /** The PRP fields built for some data, under the translation and page size of the builder. */
  datatype Transfer = Transfer(prp1: nat, prp2: nat, data: Data, tr: Translation, page: nat)

  /** The controller, reading PRP lists from `lists`, reaches every byte of the transfer's data. */
  ghost predicate Covered(x: Transfer, lists: map<nat, seq<nat>>) {
    && x.page > 0
    && match x.data
       case Contiguous(dbuf, nbytes) => CoversBuffer(x.tr, dbuf, nbytes, x.prp1, x.prp2, lists, x.page)
       case Segments(dvec) => CoversVector(x.tr, dvec, x.prp1, x.prp2, lists, x.page)
  }

  /**
   * `pages[cid]` is what the list page of request `cid` holds now; `transfers` records what each
   * request was prepared for since it was last allocated.
   */
  datatype Work = Work(d: Driver, pages: seq<seq<nat>>, transfers: map<nat, Transfer>)

  datatype WorkAction = Prepare(cid: nat, x: Transfer, list: seq<nat>) | Drive(a: DriverAction)

  /** `addr[cid]` is the address of the list page of request `cid`; no two are the same. */
  ghost predicate Addresses(addr: seq<nat>) {
    |addr| == POOL_LEN && forall i, j :: 0 <= i < j < POOL_LEN ==> addr[i] != addr[j]
  }

  /** All list pages, as the controller may read them. */
  ghost function Lists(addr: seq<nat>, pages: seq<seq<nat>>): map<nat, seq<nat>>
    requires Addresses(addr) && |pages| == POOL_LEN
  {
    map i | 0 <= i < POOL_LEN :: addr[i] := pages[i]
  }

  ghost predicate Carries(c: Command, x: Transfer) {
    Prp1(c) == x.prp1 && Prp2(c) == x.prp2
  }

  /** A builder runs on an allocated request that is not sent yet; a command is sent with what was built for it. */
  ghost predicate Possible(addr: seq<nat>, w: Work, a: WorkAction)
    requires Inv(w.d.q) && |addr| == POOL_LEN
  {
    match a
    case Prepare(cid, x, list) =>
      cid in w.d.prepared && cid < POOL_LEN && Covered(x, P.OneList(addr[cid], list))
    case Drive(b) =>
      Allowed(w.d, b) && (b.Send? && Cid(b.c) in w.transfers ==> Carries(b.c, w.transfers[Cid(b.c)]))
  }

  ghost function Cleared(w: Work): map<nat, Transfer> {
    if w.d.stack == [] then w.transfers else w.transfers - {OwnId(w.d)}
  }

  /** An allocated request starts without data. */
  ghost function Act(addr: seq<nat>, w: Work, a: WorkAction): Work
    requires Inv(w.d.q) && |addr| == POOL_LEN == |w.pages| && Possible(addr, w, a)
  {
    match a
    case Prepare(cid, x, list) => w.(pages := w.pages[cid := list], transfers := w.transfers[cid := x])
    case Drive(b) =>
      w.(d := StepDriver(w.d, b), transfers := if b.AllocId? then Cleared(w) else w.transfers)
  }

  /** Sent and not reaped: waiting, with the controller, or completed. */
  ghost predicate Outstanding(q: System, c: Command)
    requires |q.fetched| <= |q.enqueued| && |q.reaped| <= |q.postedFor|
  {
    c in q.enqueued[|q.fetched|..] || c in q.pending || c in q.postedFor[|q.reaped|..]
  }

  ghost predicate Counted(q: System) {
    |q.fetched| <= |q.enqueued| && |q.reaped| <= |q.posted| == |q.postedFor|
  }

  ghost predicate Right(addr: seq<nat>, w: Work, cid: nat)
    requires |addr| == POOL_LEN == |w.pages|
  {
    cid in w.transfers ==> cid < POOL_LEN && Covered(w.transfers[cid], P.OneList(addr[cid], w.pages[cid]))
  }

  ghost predicate Sent(w: Work, c: Command)
    requires Counted(w.d.q)
  {
    Outstanding(w.d.q, c) && Cid(c) in w.transfers ==> Carries(c, w.transfers[Cid(c)])
  }

  ghost predicate WorkInv(addr: seq<nat>, w: Work) {
    && IdsInv(w.d) && Counted(w.d.q) && |addr| == POOL_LEN == |w.pages|
    && (forall cid: nat :: Right(addr, w, cid))
    && (forall c: Command :: Sent(w, c))
  }

  // ---- Identifiers of outstanding commands

  lemma OutstandingInFlight(q: System, c: Command)
    requires Inv(q) && Counted(q) && Outstanding(q, c)
    ensures Cid(c) in InFlight(q)
  {
    if i :| 0 <= i < |q.enqueued[|q.fetched|..]| && q.enqueued[|q.fetched|..][i] == c {
      assert CidsOf(q.enqueued[|q.fetched|..])[i] == Cid(c);
    } else if i :| 0 <= i < |q.pending| && q.pending[i] == c {
      assert CidsOf(q.pending)[i] == Cid(c);
    } else {
      var i :| 0 <= i < |q.postedFor[|q.reaped|..]| && q.postedFor[|q.reaped|..][i] == c;
      assert PostedOk(q, |q.reaped| + i);
      assert CplCids(q.posted[|q.reaped|..])[i] == Cid(c);
    }
  }

  /** What is prepared, or free, is not in flight. */
  lemma PreparedNotSent(w: Work, cid: nat, c: Command)
    requires IdsInv(w.d) && Counted(w.d.q) && (cid in w.d.prepared || cid in w.d.stack) && Outstanding(w.d.q, c)
    ensures Cid(c) != cid
  {
    OutstandingInFlight(w.d.q, c);
    IdsAreDistinct(cid);
    hide Inv, InFlight, AllIds;
    assert cid in w.d.stack ==> cid in multiset(w.d.stack);
  }

  lemma InvCounted(q: System)
    requires Inv(q)
    ensures Counted(q)
  {
  }

  // ---- Every step keeps the invariant

  lemma PrepareKeeps(addr: seq<nat>, w: Work, cid: nat, x: Transfer, list: seq<nat>)
    requires WorkInv(addr, w) && Possible(addr, w, Prepare(cid, x, list))
    ensures WorkInv(addr, Act(addr, w, Prepare(cid, x, list)))
  {
    hide Inv, InFlight, Covered, Carries, Outstanding, AllIds;
    var t := Act(addr, w, Prepare(cid, x, list));
    forall k: nat ensures Right(addr, t, k) { assert Right(addr, w, k); }
    forall c: Command ensures Sent(t, c) {
      assert Sent(w, c);
      if Outstanding(w.d.q, c) { PreparedNotSent(w, cid, c); }
    }
  }

  /** A driver step sends at most the command it names, and makes nothing else outstanding. */
  lemma NewlyOutstanding(d: Driver, a: DriverAction, c: Command)
    requires Inv(d.q) && Allowed(d, a) && Counted(d.q) && Counted(StepDriver(d, a).q)
    requires Outstanding(StepDriver(d, a).q, c)
    ensures Outstanding(d.q, c) || a == Send(c)
  {
    match a
    case Send(b) => SentCommand(d.q, b, c);
    case Poll => PollShrinks(d.q, c);
    case Device(b) => DeviceMovesCommand(d.q, b, c);
    case _ =>
  }

  lemma SentCommand(q: System, b: Command, c: Command)
    requires Inv(q) && Permitted(q, Enqueue(b)) && Counted(q) && Counted(Next(q, Enqueue(b)))
    requires Outstanding(Next(q, Enqueue(b)), c)
    ensures Outstanding(q, c) || c == b
  {
    InvCounts(q);
    hide Inv;
    assert EnqueueStep(q, b).enqueued[|q.fetched|..] == q.enqueued[|q.fetched|..] + [b];
  }

  lemma PollShrinks(q: System, c: Command)
    requires Inv(q) && Counted(q) && Counted(Next(q, Reap)) && Outstanding(Next(q, Reap), c)
    ensures Outstanding(q, c)
  {
    var t := Next(q, Reap);
    if c in t.postedFor[|t.reaped|..] {
      var i :| 0 <= i < |t.postedFor[|t.reaped|..]| && t.postedFor[|t.reaped|..][i] == c;
      assert q.postedFor[|q.reaped|..][|t.reaped| - |q.reaped| + i] == c;
    }
  }

  lemma DeviceMovesCommand(q: System, a: Action, c: Command)
    requires Inv(q) && (a.Fetch? || a.Post?) && Counted(q) && Counted(Next(q, a)) && Outstanding(Next(q, a), c)
    ensures Outstanding(q, c)
  {
    var t := Next(q, a);
    match a
    case Fetch => if |t.fetched| > |q.fetched| { FetchMovesCommand(q, c); }
    case Post(i, status) => if |t.posted| > |q.posted| { PostMovesCommand(q, i, status, c); }
  }

  lemma FetchMovesCommand(q: System, c: Command)
    requires Inv(q) && Counted(q) && Counted(Next(q, Fetch)) && |Next(q, Fetch).fetched| > |q.fetched|
    requires Outstanding(Next(q, Fetch), c)
    ensures Outstanding(q, c)
  {
    InvCounts(q);
    FetchKeepsInv(q);
    hide Inv;
    var t, f := FetchStep(q), |q.fetched|;
    assert t.fetched[f] == q.enqueued[f] && t.pending == q.pending + [t.fetched[f]];
    FetchedFrom(q, t, c);
  }

  lemma FetchedFrom(q: System, t: System, c: Command)
    requires Counted(q) && Counted(t) && |q.fetched| < |q.enqueued| && |t.fetched| == |q.fetched| + 1
    requires t.enqueued == q.enqueued && t.postedFor == q.postedFor && t.reaped == q.reaped
    requires t.pending == q.pending + [q.enqueued[|q.fetched|]] && Outstanding(t, c)
    ensures Outstanding(q, c)
  {
    var f := |q.fetched|;
    assert q.enqueued[f..] == [q.enqueued[f]] + q.enqueued[f + 1..];
  }

  lemma PostMovesCommand(q: System, i: nat, status: nat, c: Command)
    requires Inv(q) && Counted(q)
    requires var t := Next(q, Post(i, status)); Counted(t) && |t.posted| > |q.posted| && Outstanding(t, c)
    ensures Outstanding(q, c)
  {
    InvCounts(q);
    hide Inv;
    PostedFrom(q, PostStep(q, i, status), i, c);
  }

  lemma PostedFrom(q: System, t: System, i: nat, c: Command)
    requires Counted(q) && Counted(t) && i < |q.pending| && t.pending == RemoveAt(q.pending, i)
    requires t.enqueued == q.enqueued && t.fetched == q.fetched && t.reaped == q.reaped
    requires t.postedFor == q.postedFor + [q.pending[i]] && Outstanding(t, c)
    ensures Outstanding(q, c)
  {
    RemovedMultiset(q.pending, i);
    assert t.postedFor[|q.reaped|..] == q.postedFor[|q.reaped|..] + [q.pending[i]];
  }

  lemma DriveKeeps(addr: seq<nat>, w: Work, a: DriverAction)
    requires WorkInv(addr, w) && Possible(addr, w, Drive(a))
    ensures WorkInv(addr, Act(addr, w, Drive(a)))
  {
    StepKeepsIds(w.d, a);
    var t := Act(addr, w, Drive(a));
    InvCounted(t.d.q);
    hide Inv, IdsInv, StepDriver, InFlight, Covered, Carries, Outstanding, Allowed;
    forall k: nat ensures Right(addr, t, k) { assert Right(addr, w, k); }
    forall c: Command ensures Sent(t, c) { DriveSent(addr, w, a, t, c); }
  }

  lemma DriveSent(addr: seq<nat>, w: Work, a: DriverAction, t: Work, c: Command)
    requires Inv(w.d.q) && Counted(w.d.q) && Sent(w, c) && |addr| == POOL_LEN && Possible(addr, w, Drive(a))
    requires t.d == StepDriver(w.d, a) && Counted(t.d.q)
    requires forall k :: k in t.transfers ==> k in w.transfers && t.transfers[k] == w.transfers[k]
    ensures Sent(t, c)
  {
    hide Inv, StepDriver, InFlight, Carries, Outstanding;
    if Outstanding(t.d.q, c) { NewlyOutstanding(w.d, a, c); }
  }

  lemma ActKeepsInv(addr: seq<nat>, w: Work, a: WorkAction)
    requires WorkInv(addr, w) && Possible(addr, w, a)
    ensures WorkInv(addr, Act(addr, w, a))
  {
    hide WorkInv, Possible, Act;
    match a
    case Prepare(cid, x, list) => PrepareKeeps(addr, w, cid, x, list);
    case Drive(b) => DriveKeeps(addr, w, b);
  }

  // ---- Whole runs

  lemma WorkShape(addr: seq<nat>, w: Work)
    requires WorkInv(addr, w)
    ensures Inv(w.d.q) && |addr| == POOL_LEN == |w.pages|
  {
  }

  ghost predicate WorkReaches(addr: seq<nat>, w0: Work, actions: seq<WorkAction>, w: Work)
    requires WorkInv(addr, w0)
    decreases |actions|
  {
    if actions == [] then w == w0
    else
      && Possible(addr, w0, actions[0])
      && (ActKeepsInv(addr, w0, actions[0]); WorkReaches(addr, Act(addr, w0, actions[0]), actions[1..], w))
  }

  lemma {:induction false} ReachableWork(addr: seq<nat>, w0: Work, actions: seq<WorkAction>, w: Work)
    requires WorkInv(addr, w0) && WorkReaches(addr, w0, actions, w)
    ensures WorkInv(addr, w)
    decreases |actions|
  {
    hide WorkInv, Possible, Act;
    if actions != [] {
      WorkShape(addr, w0);
      ActKeepsInv(addr, w0, actions[0]);
      ReachableWork(addr, Act(addr, w0, actions[0]), actions[1..], w);
    }
  }

  /** A run goes on with any possible step. */
  lemma {:induction false} WorkReachesMore(addr: seq<nat>, w0: Work, actions: seq<WorkAction>, w: Work, a: WorkAction)
    requires WorkInv(addr, w0) && WorkInv(addr, w) && WorkReaches(addr, w0, actions, w) && Possible(addr, w, a)
    ensures WorkReaches(addr, w0, actions + [a], Act(addr, w, a))
    decreases |actions|
  {
    hide WorkInv, Possible, Act;
    WorkShape(addr, w0);
    WorkShape(addr, w);
    ActKeepsInv(addr, w, a);
    if actions == [] {
      assert actions + [a] == [a] && [a][1..] == [];
    } else {
      ActKeepsInv(addr, w0, actions[0]);
      WorkShape(addr, Act(addr, w0, actions[0]));
      WorkReachesMore(addr, Act(addr, w0, actions[0]), actions[1..], w, a);
      assert (actions + [a])[1..] == actions[1..] + [a];
    }
  }

  /** What was built for an allocated request can be sent, and is then in flight with those PRP fields. */
  lemma PreparedGoesOut(addr: seq<nat>, w: Work, cid: nat, x: Transfer, list: seq<nat>, cmd: Command)
    requires WorkInv(addr, w) && Possible(addr, w, Prepare(cid, x, list)) && x.prp1 < U64 && x.prp2 < U64
    requires |w.d.q.enqueued| - |w.d.q.reaped| < w.d.q.h.depth - 1
    ensures var c, w1 := WithCid(WithPrps(cmd, x.prp1, x.prp2), cid), Act(addr, w, Prepare(cid, x, list));
      && Inv(w1.d.q) && |w1.pages| == POOL_LEN && Possible(addr, w1, Drive(Send(c)))
      && var w2 := Act(addr, w1, Drive(Send(c)));
      && w2.transfers == w.transfers[cid := x] && w2.pages == w.pages[cid := list]
      && Counted(w2.d.q) && Outstanding(w2.d.q, c) && Carries(c, x)
  {
    var plain := WithPrps(cmd, x.prp1, x.prp2);
    var c, w1 := WithCid(plain, cid), Act(addr, w, Prepare(cid, x, list));
    assert c[6] == plain[6] && c[7] == plain[7] && c[8] == plain[8] && c[9] == plain[9] by {
      assert forall i :: 1 <= i < 16 ==> c[i] == c[1..][i - 1] && plain[i] == plain[1..][i - 1];
    }
    InvCounts(w.d.q);
    hide Inv, InFlight, Covered, WithPrps, WithCid;
    var t := EnqueueStep(w.d.q, c);
    assert t.enqueued[|t.fetched|..][|w.d.q.enqueued| - |t.fetched|] == c;
  }

  /** After nvme_qpair_init; the list pages hold anything. */
  ghost predicate Started(w: Work) {
    Fresh(w.d) && |w.pages| == POOL_LEN && w.transfers == map[]
  }

  lemma ReadyInv(addr: seq<nat>, w: Work)
    requires |addr| == POOL_LEN && Started(w)
    ensures WorkInv(addr, w)
  {
    FreshIds(w.d);
    InvCounted(w.d.q);
    hide Inv, InFlight;
  }

  /** Reading more lists changes nothing that one list sufficed for. */
  lemma DecodeMore(prp1: nat, prp2: nat, listAddr: nat, list: seq<nat>, lists: map<nat, seq<nat>>, nbytes: nat,
                   page: nat, b: nat)
    requires page > 0 && listAddr in lists && lists[listAddr] == list
    requires P.Decode(prp1, prp2, P.OneList(listAddr, list), nbytes, page, b).Some?
    ensures P.Decode(prp1, prp2, lists, nbytes, page, b)
         == P.Decode(prp1, prp2, P.OneList(listAddr, list), nbytes, page, b)
  {
    hide P.PagesSpanned;
  }

  lemma CoveredMore(x: Transfer, listAddr: nat, list: seq<nat>, lists: map<nat, seq<nat>>)
    requires Covered(x, P.OneList(listAddr, list)) && listAddr in lists && lists[listAddr] == list
    ensures Covered(x, lists)
  {
    hide P.Decode, TotalBytes;
    var one := P.OneList(listAddr, list);
    match x.data
    case Contiguous(dbuf, nbytes) =>
      forall b: nat | b < nbytes ensures BufferByteOk(x.tr, dbuf, nbytes, x.prp1, x.prp2, lists, x.page, b) {
        assert BufferByteOk(x.tr, dbuf, nbytes, x.prp1, x.prp2, one, x.page, b);
        DecodeMore(x.prp1, x.prp2, listAddr, list, lists, nbytes, x.page, b);
      }
    case Segments(dvec) =>
      forall j: nat, d: nat | j < |dvec| && d < dvec[j].len
        ensures ByteOk(x.tr, dvec, x.prp1, x.prp2, lists, x.page, j, d)
      {
        assert ByteOk(x.tr, dvec, x.prp1, x.prp2, one, x.page, j, d);
        DecodeMore(x.prp1, x.prp2, listAddr, list, lists, TotalBytes(dvec), x.page, TotalBytes(dvec[..j]) + d);
      }
  }

  /**
   * In every run of allocating, preparing, sending, ringing, fetching, completing, polling and freeing:
   * each command in flight, decoded against what all list pages hold now, reaches every byte of the
   * data it was prepared for.
   */
  lemma InFlightIsCovered(addr: seq<nat>, w0: Work, actions: seq<WorkAction>, w: Work, c: Command)
    requires Addresses(addr) && Started(w0)
    ensures WorkInv(addr, w0)
    ensures WorkReaches(addr, w0, actions, w) && Counted(w.d.q) && Outstanding(w.d.q, c) && Cid(c) in w.transfers ==>
      && |w.pages| == POOL_LEN
      && Covered(w.transfers[Cid(c)].(prp1 := Prp1(c), prp2 := Prp2(c)), Lists(addr, w.pages))
  {
    ReadyInv(addr, w0);
    if WorkReaches(addr, w0, actions, w) && Counted(w.d.q) && Outstanding(w.d.q, c) && Cid(c) in w.transfers {
      ReachableWork(addr, w0, actions, w);
      hide IdsInv, Covered, Outstanding, WorkReaches;
      var cid := Cid(c);
      assert Right(addr, w, cid) && Sent(w, c);
      var x := w.transfers[cid];
      assert addr[cid] in Lists(addr, w.pages) && Lists(addr, w.pages)[addr[cid]] == w.pages[cid];
      CoveredMore(x, addr[cid], w.pages[cid], Lists(addr, w.pages));
      assert x.(prp1 := Prp1(c), prp2 := Prp2(c)) == x;
    }
  }

  // ---- The set-up gives every request its own list page

  /** No two large pages of the heap are the same physical memory. */
  ghost predicate LargePagesApart(v: View) {
    forall i, j :: 0 <= i < j < |v.lut| ==> Apart(v.lut[i], v.Large(), v.lut[j], v.Large())
  }

  lemma PhysicallyApart(v: View, a: nat, b: nat)
    requires LargePagesApart(v) && v.Holds(a) && v.Holds(b) && a < b
    ensures V2p(v, a) != V2p(v, b)
  {
    InTable(v, a);
    InTable(v, b);
    ShiftMaskAgrees(v, a);
    ShiftMaskAgrees(v, b);
    hide V2p, Pow2;
    var m, x, y := v.Large(), a - v.base, b - v.base;
    PagesDiffer(m, x, y);
    assert x / m == y / m || x / m < y / m || y / m < x / m;
  }

  lemma PagesDiffer(m: nat, x: nat, y: nat)
    requires m > 0 && x < y
    ensures x / m != y / m || x % m != y % m
  {
    assert x == m * (x / m) + x % m && y == m * (y / m) + y % m;
  }

  lemma ListAddressesDiffer(v: View, prps: nat, page: nat, i: nat, j: nat, a: nat, b: nat, x: nat, y: nat)
    requires LargePagesApart(v) && page > 0 && i < j && PageOk(v, prps, page, i, a, x) && PageOk(v, prps, page, j, b, y)
    ensures x != y
  {
    hide LargePagesApart, Contig, V2p;
    MulMonotone(i + 1, j, page);
    assert (i + 1) * page == i * page + page;
    PhysicallyApart(v, a, b);
  }

  lemma AddressesDiffer(q: QueueMemory)
    requires q.Ready() && LargePagesApart(q.view)
    ensures Addresses(q.prpAddr[..])
  {
    assert q.heap.pagesize > 0;
    forall i: nat, j: nat | i < j < POOL_LEN ensures q.prpAddr[i] != q.prpAddr[j] {
      assert q.ListPage(i) && q.ListPage(j);
      hide LargePagesApart, PageOk, TableOf, Contig;
      ListAddressesDiffer(q.view, q.prps, q.heap.pagesize, i, j, q.prp[i], q.prp[j], q.prpAddr[i], q.prpAddr[j]);
    }
  }

  // ---- The builders are such steps

  lemma HeapCovers(prp1: nat, prp2: nat, lists: map<nat, seq<nat>>, v: View, dbuf: nat, nbytes: nat)
    requires v.Valid() && P.Covers(prp1, prp2, lists, v, dbuf, nbytes)
    ensures Covered(Transfer(prp1, prp2, Contiguous(dbuf, nbytes), HeapTranslation(v), v.Page()), lists)
  {
    hide P.Decode, V2p;
    forall b: nat | b < nbytes
      ensures BufferByteOk(HeapTranslation(v), dbuf, nbytes, prp1, prp2, lists, v.Page(), b)
    {
      assert P.DecodesTo(prp1, prp2, lists, v, dbuf, nbytes, b);
    }
  }

  /** Preparing a contiguous buffer on an allocated request is a step of the run. */
  method PrepareContig(req: P.Request, v: View, dbuf: nat, nbytes: nat, cmd: P.DataPointer, ghost addr: seq<nat>,
                       ghost w: Work)
    returns (ghost a: WorkAction)
    requires WorkInv(addr, w) && req.cid in w.d.prepared && req.cid < POOL_LEN && req.prpAddr == addr[req.cid]
    requires P.Buffer(v, dbuf, nbytes) && P.NumPages(v, dbuf, nbytes) <= 1 + 512
    requires 512 * P.ENTRY_BYTES <= v.Page() && req.prp.Length == v.Page() / P.ENTRY_BYTES
    modifies cmd`prp1, cmd`prp2, req.prp
    ensures Possible(addr, w, a) && a.Prepare? && a.cid == req.cid && a.list == req.prp[..]
    ensures a.x == Transfer(cmd.prp1, cmd.prp2, Contiguous(dbuf, nbytes), HeapTranslation(v), v.Page())
  {
    hide P.Covers, P.NumPages, Covered;
    P.PrepContig(req, v, dbuf, nbytes, cmd);
    HeapCovers(cmd.prp1, cmd.prp2, P.OneList(req.prpAddr, req.prp[..]), v, dbuf, nbytes);
    a := Prepare(req.cid, Transfer(cmd.prp1, cmd.prp2, Contiguous(dbuf, nbytes), HeapTranslation(v), v.Page()),
                 req.prp[..]);
  }
}
