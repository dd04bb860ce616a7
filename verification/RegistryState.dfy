/**
 * The mapping registry as a state machine on values: reference-counted chunks, their physical
 * bases and dma-buf attachments, and the list of registrations (cudamem_mapping.h).
 */
module RegistryState {
  import opened Arith
  import opened Bits
  import opened Common
  import opened Translate
  import opened Dmabuf

  datatype Reg = Reg(va: nat, size: nat)

  /** What the driver answers when asked for the dma-buf of one chunk. */
  datatype Answer = NoMemory | NoHandle | AttachFails | Attached(es: seq<Extent>)

  /** The driver's answers during one call, by chunk index. */
  type Driver = nat -> Answer

  /** Chunks of `2^shift` bytes, pages of `2^pageShift` bytes, `cap` table slots. */
  datatype Geo = Geo(shift: nat, pageShift: nat, cap: nat) {
    function Gran(): (p: nat)
      ensures p > 0
    { Pow2(shift) }

    function Page(): (p: nat)
      ensures p > 0
    { Pow2(pageShift) }

    function First(r: Reg): nat { Shr(r.va, shift) }

    function Count(r: Reg): nat { Shr(And(r.va, Gran() - 1) + r.size + (Gran() - 1), shift) }

    ghost predicate Covers(r: Reg, i: nat) { First(r) <= i < First(r) + Count(r) }
  }

  /** `attach` holds the handle of the dma-buf attached for each chunk; `issued` counts attaches. */
  datatype State = State(rc: seq<nat>, phys: seq<nat>, attach: seq<Option<nat>>, list: seq<Reg>, issued: nat)

  /** The handles that the tables still own. */
  ghost function Held(attach: seq<Option<nat>>): set<nat> {
    set i | 0 <= i < |attach| && attach[i].Some? :: attach[i].value
  }

  /** The base a chunk gets: the whole chunk must be there, and physically contiguous. */
  ghost function Base(ans: Answer, geo: Geo): Option<nat> {
    if ans.Attached? && |Flatten(ans.es, geo.Page())| == Shr(geo.Gran(), geo.pageShift) > 0
       && Contiguous(Flatten(ans.es, geo.Page()), geo.Page())
    then Some(Flatten(ans.es, geo.Page())[0]) else None
  }

  // ---- Which chunks a registration touches

  ghost predicate ByteIn(r: Reg, b: nat, i: nat, gran: nat)
    requires gran > 0
  {
    r.va <= b < r.va + r.size && b / gran == i
  }

  ghost predicate Touches(r: Reg, i: nat, gran: nat)
    requires gran > 0
  {
    exists b: nat :: ByteIn(r, b, i, gran)
  }

  /** The computed chunk range is exactly the set of chunks holding a byte of the range. */
  lemma {:induction false} RangeIsTouched(r: Reg, geo: Geo, i: nat)
    requires r.size > 0
    ensures geo.Covers(r, i) <==> Touches(r, i, geo.Gran())
  {
    var g, last := geo.Gran(), r.va + r.size - 1;
    MaskIsRemainder(r.va, geo.shift);
    LastChunk(r.va, r.size, g);
    if geo.Covers(r, i) {
      var b := if r.va >= i * g then r.va else i * g;
      ChunkByte(r.va, last, i, g);
      assert ByteIn(r, b, i, g);
    }
    if Touches(r, i, g) {
      var b: nat :| ByteIn(r, b, i, g);
      DivMonotone(r.va, b, g);
      DivMonotone(b, last, g);
    }
  }

  lemma {:induction false} LastChunk(va: nat, size: nat, g: nat)
    requires g > 0 && size > 0
    ensures va / g + (va % g + size + (g - 1)) / g == (va + size - 1) / g + 1
  {
    assert va == va % g + g * (va / g);
    AddMultiple(va % g + size - 1, g, va / g);
    AddMultiple(va % g + size - 1, g, 1);
  }

  lemma {:induction false} ChunkByte(va: nat, last: nat, i: nat, g: nat)
    requires g > 0 && va <= last && va / g <= i <= last / g
    ensures var b := if va >= i * g then va else i * g; va <= b <= last && b / g == i
  {
    assert i * g == g * i;
    Multiple(g, i);
    assert last == g * (last / g) + last % g && (last / g) * g == g * (last / g);
    MulMonotone(i, last / g, g);
    if va >= i * g { DivMonotone(i * g, va, g); }
  }

  /** How many listed registrations touch chunk `i`. */
  ghost function Refs(list: seq<Reg>, i: nat, gran: nat): nat
    requires gran > 0
  {
    if list == [] then 0 else (if Touches(list[0], i, gran) then 1 else 0) + Refs(list[1..], i, gran)
  }

  lemma {:induction false} RefsAppend(a: seq<Reg>, b: seq<Reg>, i: nat, gran: nat)
    requires gran > 0
    ensures Refs(a + b, i, gran) == Refs(a, i, gran) + Refs(b, i, gran)
  {
    if a == [] {
      assert a + b == b;
    } else {
      RefsAppend(a[1..], b, i, gran);
      assert (a + b)[1..] == a[1..] + b;
    }
  }

  lemma RefsRemoveAt(list: seq<Reg>, k: nat, i: nat, gran: nat)
    requires gran > 0 && k < |list|
    ensures Refs(list, i, gran) == Refs(RemoveAt(list, k), i, gran) + (if Touches(list[k], i, gran) then 1 else 0)
  {
    assert list == list[..k] + list[k..] && list[k..][1..] == list[k + 1..];
    RefsAppend(list[..k], list[k..], i, gran);
    RefsAppend(list[..k], list[k + 1..], i, gran);
  }

  /** Reference counts cannot exceed the number of registrations, so 32 bits suffice. */
  lemma {:induction false} RefsBounded(list: seq<Reg>, i: nat, gran: nat)
    requires gran > 0
    ensures Refs(list, i, gran) <= |list|
  {
    if list != [] { RefsBounded(list[1..], i, gran); }
  }

  // ---- The invariant

  ghost predicate Sized(s: State, geo: Geo) {
    |s.rc| == |s.phys| == |s.attach| == geo.cap
  }

  /** A chunk has a base and its own attachment exactly while it is referenced. */
  ghost predicate Wired(s: State, geo: Geo) {
    && Sized(s, geo)
    && (forall i :: 0 <= i < geo.cap ==> (s.phys[i] != 0 <==> s.rc[i] > 0))
    && (forall i :: 0 <= i < geo.cap ==> (s.attach[i].Some? <==> s.rc[i] > 0))
    && (forall i :: 0 <= i < geo.cap && s.attach[i].Some? ==> s.attach[i].value < s.issued)
    && (forall i, j :: 0 <= i < j < geo.cap && s.attach[i].Some? ==> s.attach[i] != s.attach[j])
  }

  ghost predicate Fits(r: Reg, geo: Geo) {
    r.size > 0 && geo.First(r) + geo.Count(r) <= geo.cap
  }

  ghost predicate Inv(s: State, geo: Geo) {
    && Wired(s, geo)
    && (forall k :: 0 <= k < |s.list| ==> Fits(s.list[k], geo))
    && (forall i: nat :: i < geo.cap ==> s.rc[i] == Refs(s.list, i, geo.Gran()))
  }

  // ---- The steps

  ghost function BumpOne(s: State, idx: nat, base: nat): State
    requires idx < |s.rc| && idx < |s.phys| && idx < |s.attach|
  {
    if s.rc[idx] == 0 then
      s.(rc := s.rc[idx := 1], phys := s.phys[idx := base], attach := s.attach[idx := Some(s.issued)],
         issued := s.issued + 1)
    else s.(rc := s.rc[idx := s.rc[idx] + 1])
  }

  ghost function BaseOr0(ans: Answer, geo: Geo): nat {
    if Base(ans, geo).Some? then Base(ans, geo).value else 0
  }

  /** After `k` iterations of the adding loop. */
  ghost function BumpTo(s: State, first: nat, k: nat, drv: Driver, geo: Geo): (t: State)
    requires Sized(s, geo) && first + k <= geo.cap
    ensures Sized(t, geo) && t.list == s.list
  {
    if k == 0 then s
    else BumpOne(BumpTo(s, first, k - 1, drv, geo), first + k - 1, BaseOr0(drv(first + k - 1), geo))
  }

  ghost function DerefOne(s: State, idx: nat): State
    requires idx < |s.rc| && idx < |s.phys| && idx < |s.attach|
  {
    if s.rc[idx] == 0 then s
    else if s.rc[idx] == 1 then
      s.(rc := s.rc[idx := 0], phys := s.phys[idx := 0], attach := s.attach[idx := None])
    else s.(rc := s.rc[idx := s.rc[idx] - 1])
  }

  /** After `k` iterations of the dereferencing loop. */
  ghost function DerefTo(s: State, first: nat, k: nat, geo: Geo): (t: State)
    requires Sized(s, geo) && first + k <= geo.cap
    ensures Sized(t, geo) && t.list == s.list && t.issued == s.issued
  {
    if k == 0 then s else DerefOne(DerefTo(s, first, k - 1, geo), first + k - 1)
  }

  ghost predicate Good(s: State, idx: nat, drv: Driver, geo: Geo)
    requires idx < |s.rc|
  {
    s.rc[idx] > 0 || Base(drv(idx), geo).Some?
  }

  ghost predicate AllGood(s: State, first: nat, k: nat, drv: Driver, geo: Geo)
    requires Sized(s, geo) && first + k <= geo.cap
  {
    forall i: nat :: first <= i < first + k ==> Good(s, i, drv, geo)
  }

  lemma {:induction false} BumpPointwise(s: State, first: nat, k: nat, drv: Driver, geo: Geo, i: nat)
    requires Sized(s, geo) && first + k <= geo.cap && i < geo.cap
    ensures var t := BumpTo(s, first, k, drv, geo);
      t.issued >= s.issued && Bumped(s, t, i, first <= i < first + k, drv, geo)
  {
    if k > 0 { BumpPointwise(s, first, k - 1, drv, geo, i); }
  }

  ghost predicate Bumped(s: State, t: State, i: nat, hit: bool, drv: Driver, geo: Geo)
    requires Sized(s, geo) && Sized(t, geo) && i < geo.cap
  {
    if !hit then t.rc[i] == s.rc[i] && t.phys[i] == s.phys[i] && t.attach[i] == s.attach[i]
    else
      && t.rc[i] == s.rc[i] + 1
      && (s.rc[i] > 0 ==> t.phys[i] == s.phys[i] && t.attach[i] == s.attach[i])
      && (s.rc[i] == 0 ==> t.phys[i] == BaseOr0(drv(i), geo) && t.attach[i].Some?
                           && s.issued <= t.attach[i].value < t.issued)
  }

  lemma {:induction false} DerefPointwise(s: State, first: nat, k: nat, geo: Geo, i: nat)
    requires Sized(s, geo) && first + k <= geo.cap && i < geo.cap
    ensures Dereffed(s, DerefTo(s, first, k, geo), i, first <= i < first + k, geo)
  {
    if k > 0 { DerefPointwise(s, first, k - 1, geo, i); }
  }

  ghost predicate Dereffed(s: State, t: State, i: nat, hit: bool, geo: Geo)
    requires Sized(s, geo) && Sized(t, geo) && i < geo.cap
  {
    if !hit || s.rc[i] == 0 then t.rc[i] == s.rc[i] && t.phys[i] == s.phys[i] && t.attach[i] == s.attach[i]
    else
      && t.rc[i] == s.rc[i] - 1
      && t.phys[i] == (if s.rc[i] == 1 then 0 else s.phys[i])
      && t.attach[i] == (if s.rc[i] == 1 then None else s.attach[i])
  }

  /** Fresh attachments keep the wiring, provided every new base is nonzero. */
  lemma {:induction false} BumpKeepsWired(s: State, first: nat, k: nat, drv: Driver, geo: Geo)
    requires Wired(s, geo) && first + k <= geo.cap
    requires forall i: nat :: first <= i < first + k && s.rc[i] == 0 ==> BaseOr0(drv(i), geo) != 0
    ensures Wired(BumpTo(s, first, k, drv, geo), geo)
  {
    hide BumpOne, BaseOr0, Wired;
    if k > 0 {
      LastBump(s, first, k, drv, geo);
      BumpKeepsWired(s, first, k - 1, drv, geo);
      BumpOneKeepsWired(BumpTo(s, first, k - 1, drv, geo), first + k - 1, BaseOr0(drv(first + k - 1), geo), geo);
    }
  }

  lemma LastBump(s: State, first: nat, k: nat, drv: Driver, geo: Geo)
    requires Wired(s, geo) && 0 < k && first + k <= geo.cap
    ensures Sized(s, geo)
    ensures var t, idx := BumpTo(s, first, k - 1, drv, geo), first + k - 1;
      t.rc[idx] == s.rc[idx] && BumpTo(s, first, k, drv, geo) == BumpOne(t, idx, BaseOr0(drv(idx), geo))
  {
    BumpPointwise(s, first, k - 1, drv, geo, first + k - 1);
    hide BumpOne, BaseOr0;
  }

  lemma BumpOneKeepsWired(s: State, idx: nat, base: nat, geo: Geo)
    requires Wired(s, geo) && idx < geo.cap && (s.rc[idx] == 0 ==> base != 0)
    ensures Wired(BumpOne(s, idx, base), geo)
  {
  }

  lemma {:induction false} DerefKeepsWired(s: State, first: nat, k: nat, geo: Geo)
    requires Wired(s, geo) && first + k <= geo.cap
    ensures Wired(DerefTo(s, first, k, geo), geo)
  {
    if k > 0 { DerefKeepsWired(s, first, k - 1, geo); }
  }

  /** Unwinding a partial add restores the tables, whatever had been shared. */
  lemma {:induction false} DerefUndoesBump(s: State, first: nat, k: nat, drv: Driver, geo: Geo)
    requires Wired(s, geo) && first + k <= geo.cap
    ensures DerefTo(BumpTo(s, first, k, drv, geo), first, k, geo)
            == s.(issued := BumpTo(s, first, k, drv, geo).issued)
  {
    var t := BumpTo(s, first, k, drv, geo);
    var u := DerefTo(t, first, k, geo);
    forall i: nat | i < geo.cap ensures u.rc[i] == s.rc[i] && u.phys[i] == s.phys[i] && u.attach[i] == s.attach[i] {
      BumpPointwise(s, first, k, drv, geo, i);
      DerefPointwise(t, first, k, geo, i);
    }
    assert u.rc == s.rc && u.phys == s.phys && u.attach == s.attach;
  }

  // ---- The operations

  datatype Op = Add(r: Reg, drv: Driver, calloc: bool) | Remove(va: nat) | Clear

  ghost predicate Malformed(r: Reg, geo: Geo) {
    r.va == 0 || r.size == 0 || geo.First(r) + geo.Count(r) > geo.cap
  }

  /** Index of the first registration at `va`, or the length of the list. */
  function Find(list: seq<Reg>, va: nat): (k: nat)
    ensures k <= |list| && (k < |list| ==> list[k].va == va)
    ensures forall j :: 0 <= j < k ==> list[j].va != va
  {
    if list == [] || list[0].va == va then 0 else 1 + Find(list[1..], va)
  }

  ghost predicate AddSucceeds(s: State, op: Op, geo: Geo)
    requires Sized(s, geo) && op.Add?
  {
    !Malformed(op.r, geo) && op.calloc && AllGood(s, geo.First(op.r), geo.Count(op.r), op.drv, geo)
  }

  ghost function ClearTables(s: State, geo: Geo): (t: State)
    requires Sized(s, geo) && forall k :: 0 <= k < |s.list| ==> Fits(s.list[k], geo)
    ensures Sized(t, geo) && t.list == []
    decreases |s.list|
  {
    if s.list == [] then s
    else
      var m := s.list[0];
      assert Fits(s.list[0], geo);
      ClearTables(DerefTo(s, geo.First(m), geo.Count(m), geo).(list := s.list[1..]), geo)
  }

  /** The state after an operation, up to the number of attaches ever made. */
  ghost function Apply(s: State, op: Op, geo: Geo): State
    requires Inv(s, geo)
  {
    match op
    case Add(r, drv, calloc) =>
      if AddSucceeds(s, op, geo) then
        BumpTo(s, geo.First(r), geo.Count(r), drv, geo).(list := [r] + s.list)
      else s
    case Remove(va) =>
      var k := Find(s.list, va);
      if k == |s.list| then s
      else
        var m := s.list[k];
        DerefTo(s, geo.First(m), geo.Count(m), geo).(list := RemoveAt(s.list, k))
    case Clear => ClearTables(s, geo)
  }

  /** No chunk is ever placed at physical address 0. */
  ghost predicate NonZero(op: Op, geo: Geo) {
    op.Add? ==> forall i: nat :: Base(op.drv(i), geo) != Some(0)
  }

  lemma {:induction false} AddKeepsInv(s: State, op: Op, geo: Geo)
    requires Inv(s, geo) && op.Add? && NonZero(op, geo) && AddSucceeds(s, op, geo)
    ensures Inv(Apply(s, op, geo), geo)
  {
    var r, first, k := op.r, geo.First(op.r), geo.Count(op.r);
    var t := Apply(s, op, geo);
    forall i: nat | first <= i < first + k && s.rc[i] == 0 ensures BaseOr0(op.drv(i), geo) != 0 {
      assert Good(s, i, op.drv, geo);
    }
    BumpKeepsWired(s, first, k, op.drv, geo);
    assert Wired(t, geo) by { assert Wired(BumpTo(s, first, k, op.drv, geo), geo); }
    forall i: nat | i < geo.cap ensures t.rc[i] == Refs(t.list, i, geo.Gran()) {
      BumpPointwise(s, first, k, op.drv, geo, i);
      RangeIsTouched(r, geo, i);
      assert t.list[1..] == s.list;
    }
  }

  lemma {:induction false} RemoveKeepsInv(s: State, k: nat, geo: Geo)
    requires Inv(s, geo) && k < |s.list|
    ensures var m := s.list[k];
      Inv(DerefTo(s, geo.First(m), geo.Count(m), geo).(list := RemoveAt(s.list, k)), geo)
  {
    var m := s.list[k];
    var t := DerefTo(s, geo.First(m), geo.Count(m), geo).(list := RemoveAt(s.list, k));
    DerefKeepsWired(s, geo.First(m), geo.Count(m), geo);
    assert Wired(t, geo) by { assert Wired(DerefTo(s, geo.First(m), geo.Count(m), geo), geo); }
    forall i: nat | i < geo.cap ensures t.rc[i] == Refs(t.list, i, geo.Gran()) {
      DerefPointwise(s, geo.First(m), geo.Count(m), geo, i);
      RangeIsTouched(m, geo, i);
      RefsRemoveAt(s.list, k, i, geo.Gran());
    }
  }

  /** Clearing leaves no reference, no base and no attachment anywhere. */
  lemma {:induction false} ClearEmpties(s: State, geo: Geo)
    requires Inv(s, geo)
    ensures var t := ClearTables(s, geo);
      && Inv(t, geo) && t.list == [] && Held(t.attach) == {}
      && forall i :: 0 <= i < geo.cap ==> t.rc[i] == 0 && t.phys[i] == 0
    decreases |s.list|
  {
    if s.list != [] {
      RemoveKeepsInv(s, 0, geo);
      assert RemoveAt(s.list, 0) == s.list[1..];
      var m := s.list[0];
      ClearEmpties(DerefTo(s, geo.First(m), geo.Count(m), geo).(list := s.list[1..]), geo);
    }
  }

  lemma {:induction false} ApplyKeepsInv(s: State, op: Op, geo: Geo)
    requires Inv(s, geo) && NonZero(op, geo)
    ensures Inv(Apply(s, op, geo), geo)
  {
    match op
    case Add(r, drv, calloc) => if AddSucceeds(s, op, geo) { AddKeepsInv(s, op, geo); }
    case Remove(va) =>
      var k := Find(s.list, va);
      if k < |s.list| { RemoveKeepsInv(s, k, geo); }
    case Clear => ClearEmpties(s, geo);
  }

  // ---- What an operation does to each chunk, in numbers

  /** Chunk `i` after `r` was registered: one more reference if a byte of `r` lies in it, and a base of
      its own if it had none. */
  ghost predicate AddedAt(s: State, t: State, r: Reg, drv: Driver, geo: Geo, i: nat)
    requires Sized(s, geo) && Sized(t, geo) && i < geo.cap
  {
    if Touches(r, i, geo.Gran()) then
      && t.rc[i] == s.rc[i] + 1
      && (s.rc[i] > 0 ==> t.phys[i] == s.phys[i] && t.attach[i] == s.attach[i])
      && (s.rc[i] == 0 ==> Base(drv(i), geo) == Some(t.phys[i]) && t.attach[i].Some?
                           && t.attach[i].value >= s.issued)
    else t.rc[i] == s.rc[i] && t.phys[i] == s.phys[i] && t.attach[i] == s.attach[i]
  }

  /** Chunk `i` after `m` was removed: one reference less if a byte of `m` lies in it; base and dma-buf
      go exactly when none is left. */
  ghost predicate DroppedAt(s: State, t: State, m: Reg, geo: Geo, i: nat)
    requires Sized(s, geo) && Sized(t, geo) && i < geo.cap
  {
    && t.rc[i] + (if Touches(m, i, geo.Gran()) then 1 else 0) == s.rc[i]
    && (if t.rc[i] == 0 then t.phys[i] == 0 && t.attach[i] == None
        else t.phys[i] == s.phys[i] && t.attach[i] == s.attach[i])
  }

  ghost predicate Added(s: State, t: State, r: Reg, drv: Driver, geo: Geo) {
    && Sized(s, geo) && Sized(t, geo) && t.list == [r] + s.list
    && forall i: nat :: i < geo.cap ==> AddedAt(s, t, r, drv, geo, i)
  }

  /** The first registration at `va`, and no other, is gone. */
  ghost predicate Removed(s: State, t: State, va: nat, geo: Geo) {
    exists k: nat :: RemovedAt(s, t, va, geo, k)
  }

  ghost predicate RemovedAt(s: State, t: State, va: nat, geo: Geo, k: nat) {
    && Sized(s, geo) && Sized(t, geo)
    && k < |s.list| && s.list[k].va == va && (forall j :: 0 <= j < k ==> s.list[j].va != va)
    && t.list == s.list[..k] + s.list[k + 1..]
    && forall i: nat :: i < geo.cap ==> DroppedAt(s, t, s.list[k], geo, i)
  }

  /** In numbers: the range is not empty, not at NULL and ends inside the address space; the registration can
      be allocated; and every chunk holding a byte of it is in use already or gets a base. */
  ghost predicate Addable(s: State, op: Op, geo: Geo)
    requires Sized(s, geo) && op.Add?
  {
    && op.r.va > 0 && op.r.size > 0 && (op.r.va + op.r.size - 1) / geo.Gran() < geo.cap && op.calloc
    && forall i: nat :: i < geo.cap && Touches(op.r, i, geo.Gran()) ==> s.rc[i] > 0 || Base(op.drv(i), geo).Some?
  }

  /** Exactly when an add succeeds. */
  lemma AddSucceedsIff(s: State, op: Op, geo: Geo)
    requires Inv(s, geo) && op.Add?
    ensures AddSucceeds(s, op, geo) <==> Addable(s, op, geo)
  {
    hide Base, Refs, Touches;
    var r := op.r;
    if r.size > 0 {
      MaskIsRemainder(r.va, geo.shift);
      LastChunk(r.va, r.size, geo.Gran());
      forall i: nat ensures geo.Covers(r, i) <==> Touches(r, i, geo.Gran()) { RangeIsTouched(r, geo, i); }
      if AddSucceeds(s, op, geo) {
        forall i: nat | i < geo.cap && Touches(r, i, geo.Gran())
          ensures s.rc[i] > 0 || Base(op.drv(i), geo).Some?
        {
          assert geo.Covers(r, i) && Good(s, i, op.drv, geo);
        }
      }
      if Addable(s, op, geo) {
        forall i: nat | geo.First(r) <= i < geo.First(r) + geo.Count(r) ensures Good(s, i, op.drv, geo) {
          assert geo.Covers(r, i);
        }
      }
    }
  }

  /** A well-formed add over chunks that the driver answers in the ordinary way succeeds. */
  lemma OrdinaryAdd(s: State, op: Op, geo: Geo)
    requires Inv(s, geo) && op.Add? && geo.pageShift <= geo.shift && op.calloc
    requires op.r.va > 0 && op.r.size > 0 && (op.r.va + op.r.size - 1) / geo.Gran() < geo.cap
    requires forall i: nat :: i < geo.cap ==> Ordinary(op.drv(i), geo)
    ensures AddSucceeds(s, op, geo)
  {
    hide Base, Ordinary, Touches, Inv, Pow2;
    forall i: nat | i < geo.cap ensures Base(op.drv(i), geo).Some? { OrdinaryBase(op.drv(i), geo); }
    AddSucceedsIff(s, op, geo);
  }

  /** A successful add, chunk by chunk. */
  lemma AddInNumbers(s: State, op: Op, geo: Geo)
    requires Inv(s, geo) && op.Add? && AddSucceeds(s, op, geo)
    ensures Added(s, Apply(s, op, geo), op.r, op.drv, geo)
  {
    hide Base, Touches, Refs;
    var r, t := op.r, Apply(s, op, geo);
    forall i: nat | i < geo.cap ensures AddedAt(s, t, r, op.drv, geo, i) {
      BumpPointwise(s, geo.First(r), geo.Count(r), op.drv, geo, i);
      RangeIsTouched(r, geo, i);
      if geo.Covers(r, i) { assert Good(s, i, op.drv, geo); }
    }
  }

  /** A remove of the first registration at its address, chunk by chunk. */
  lemma RemoveInNumbers(s: State, va: nat, geo: Geo)
    requires Inv(s, geo) && Find(s.list, va) < |s.list|
    ensures Removed(s, Apply(s, Op.Remove(va), geo), va, geo)
  {
    hide Touches, Refs, BumpOne;
    var k, t := Find(s.list, va), Apply(s, Op.Remove(va), geo);
    var m := s.list[k];
    forall i: nat | i < geo.cap ensures DroppedAt(s, t, m, geo, i) {
      DerefPointwise(s, geo.First(m), geo.Count(m), geo, i);
      RangeIsTouched(m, geo, i);
      RefsRemoveAt(s.list, k, i, geo.Gran());
    }
    assert RemovedAt(s, t, va, geo, k);
  }

  // ---- What the registry promises

  /** A successful add followed by a remove of the same address restores tables and list. */
  lemma AddThenRemove(s: State, op: Op, geo: Geo)
    requires Inv(s, geo) && op.Add? && NonZero(op, geo) && AddSucceeds(s, op, geo)
    ensures Inv(Apply(s, op, geo), geo)
    ensures var t := Apply(s, op, geo);
      Apply(t, Remove(op.r.va), geo) == s.(issued := t.issued)
  {
    AddKeepsInv(s, op, geo);
    var r, first, k := op.r, geo.First(op.r), geo.Count(op.r);
    var b := BumpTo(s, first, k, op.drv, geo);
    var t := Apply(s, op, geo);
    DerefUndoesBump(s, first, k, op.drv, geo);
    DerefIgnoresList(b, first, k, t.list, geo);
    assert Find(t.list, r.va) == 0;
    assert RemoveAt(t.list, 0) == s.list;
  }

  lemma {:induction false} DerefIgnoresList(s: State, first: nat, k: nat, list: seq<Reg>, geo: Geo)
    requires Sized(s, geo) && first + k <= geo.cap
    ensures DerefTo(s.(list := list), first, k, geo) == DerefTo(s, first, k, geo).(list := list)
  {
    if k > 0 { DerefIgnoresList(s, first, k - 1, list, geo); }
  }

  /** While a chunk stays referenced across an operation, its base and attachment do not change. */
  lemma {:induction false} BaseIsStable(s: State, op: Op, geo: Geo, i: nat)
    requires Inv(s, geo) && NonZero(op, geo) && i < geo.cap
    requires s.rc[i] > 0 && Sized(Apply(s, op, geo), geo) && Apply(s, op, geo).rc[i] > 0
    ensures Apply(s, op, geo).phys[i] == s.phys[i] && Apply(s, op, geo).attach[i] == s.attach[i]
  {
    match op
    case Add(r, drv, calloc) =>
      if AddSucceeds(s, op, geo) {
        var first, k := geo.First(r), geo.Count(r);
        BumpPointwise(s, first, k, drv, geo, i);
      }
    case Remove(va) =>
      var k := Find(s.list, va);
      if k < |s.list| {
        var m := s.list[k];
        DerefPointwise(s, geo.First(m), geo.Count(m), geo, i);
      }
    case Clear => ClearEmpties(s, geo);
  }

  ghost function Run(s: State, ops: seq<Op>, geo: Geo): (t: State)
    requires Inv(s, geo) && forall k :: 0 <= k < |ops| ==> NonZero(ops[k], geo)
    ensures Inv(t, geo)
    decreases |ops|
  {
    if ops == [] then s
    else
      ApplyKeepsInv(s, ops[0], geo);
      assert forall k :: 0 <= k < |ops[1..]| ==> ops[1..][k] == ops[k + 1];
      Run(Apply(s, ops[0], geo), ops[1..], geo)
  }

  /** A run does its operations one after another. */
  lemma {:induction false} RunMore(s: State, ops: seq<Op>, op: Op, geo: Geo)
    requires Inv(s, geo) && NonZero(op, geo) && forall k :: 0 <= k < |ops| ==> NonZero(ops[k], geo)
    ensures forall k :: 0 <= k < |ops + [op]| ==> NonZero((ops + [op])[k], geo)
    ensures Run(s, ops + [op], geo) == Apply(Run(s, ops, geo), op, geo)
    decreases |ops|
  {
    hide Inv, Apply, NonZero;
    if ops == [] {
      assert ops + [op] == [op] && [op][1..] == [];
      ApplyKeepsInv(s, op, geo);
    } else {
      ApplyKeepsInv(s, ops[0], geo);
      assert forall k :: 0 <= k < |ops[1..]| ==> ops[1..][k] == ops[k + 1];
      RunMore(Apply(s, ops[0], geo), ops[1..], op, geo);
      assert (ops + [op])[1..] == ops[1..] + [op];
    }
  }

  ghost function Empty(geo: Geo): State {
    State(seq(geo.cap, i => 0), seq(geo.cap, i => 0), seq(geo.cap, i => None), [], 0)
  }

  lemma EmptyIsInv(geo: Geo)
    ensures Inv(Empty(geo), geo)
  {
  }

  /**
   * After any run of adds, removes and clears from an empty registry: each chunk's count is the
   * number of listed registrations that touch it, and it has a base exactly when that is positive.
   */
  lemma RunCounts(ops: seq<Op>, geo: Geo, i: nat)
    requires forall k :: 0 <= k < |ops| ==> NonZero(ops[k], geo)
    requires i < geo.cap
    ensures Inv(Empty(geo), geo)
    ensures var t := Run(Empty(geo), ops, geo);
      && t.rc[i] == Refs(t.list, i, geo.Gran())
      && (t.phys[i] != 0 <==> exists k :: 0 <= k < |t.list| && Touches(t.list[k], i, geo.Gran()))
  {
    EmptyIsInv(geo);
    var t := Run(Empty(geo), ops, geo);
    RefsPositive(t.list, i, geo.Gran());
  }

  lemma {:induction false} RefsPositive(list: seq<Reg>, i: nat, gran: nat)
    requires gran > 0
    ensures Refs(list, i, gran) > 0 <==> exists k :: 0 <= k < |list| && Touches(list[k], i, gran)
  {
    if list != [] {
      RefsPositive(list[1..], i, gran);
      if exists k :: 0 <= k < |list| && Touches(list[k], i, gran) {
        var k :| 0 <= k < |list| && Touches(list[k], i, gran);
        if k > 0 { assert Touches(list[1..][k - 1], i, gran); }
      }
      if exists k :: 0 <= k < |list[1..]| && Touches(list[1..][k], i, gran) {
        var k :| 0 <= k < |list[1..]| && Touches(list[1..][k], i, gran);
        assert Touches(list[k + 1], i, gran);
      }
    }
  }

  /** Every byte of a listed registration resolves through the table. */
  lemma RegisteredResolves(s: State, geo: Geo, k: nat, b: nat)
    requires Inv(s, geo) && k < |s.list| && s.list[k].va <= b < s.list[k].va + s.list[k].size && b > 0
    ensures ChunkLookup(s.phys, geo.shift, b).Some?
  {
    var i := Shr(b, geo.shift);
    assert ByteIn(s.list[k], b, i, geo.Gran());
    RangeIsTouched(s.list[k], geo, i);
    assert Fits(s.list[k], geo);
    RefsPositive(s.list, i, geo.Gran());
  }

  /** A chunk's base holds for as long as some registration keeps the chunk referenced. */
  lemma {:induction false} BaseStableOverRun(s: State, ops: seq<Op>, geo: Geo, i: nat)
    requires Inv(s, geo) && i < geo.cap && forall k :: 0 <= k < |ops| ==> NonZero(ops[k], geo)
    requires forall k :: 0 <= k <= |ops| ==> ReferencedAfter(s, ops, k, geo, i)
    ensures Run(s, ops, geo).phys[i] == s.phys[i]
    decreases |ops|
  {
    assert ReferencedAfter(s, ops, 0, geo, i) && ops[..0] == [];
    if ops != [] {
      ApplyKeepsInv(s, ops[0], geo);
      var t, rest := Apply(s, ops[0], geo), ops[1..];
      forall k | 0 <= k <= |rest| ensures ReferencedAfter(t, rest, k, geo, i) {
        assert ReferencedAfter(s, ops, k + 1, geo, i);
        assert ops[..k + 1][0] == ops[0] && ops[..k + 1][1..] == rest[..k];
      }
      assert ReferencedAfter(t, rest, 0, geo, i) && rest[..0] == [];
      BaseIsStable(s, ops[0], geo, i);
      BaseStableOverRun(t, rest, geo, i);
    }
  }

  ghost predicate ReferencedAfter(s: State, ops: seq<Op>, k: nat, geo: Geo, i: nat)
    requires Inv(s, geo) && i < geo.cap && k <= |ops| && forall j :: 0 <= j < |ops| ==> NonZero(ops[j], geo)
  {
    Run(s, ops[..k], geo).rc[i] > 0
  }

  /** The single base is the dma-buf's own translation of every byte of the chunk. */
  lemma BaseTranslates(ans: Answer, geo: Geo, b: nat)
    requires Base(ans, geo).Some? && geo.pageShift <= geo.shift && WholePages(ans.es, geo.Page()) && b < geo.Gran()
    ensures Bytes(ans.es) == geo.Gran() && ByteAddr(ans.es, b) == Base(ans, geo).value + b
  {
    hide Flatten, Bytes, ByteAddr, Contiguous, Dmabuf.WholePages, Pow2;
    FlattenTranslates(ans.es, geo.Page());
    Pow2Divides(geo.pageShift, geo.shift);
    WholeCount(geo.Gran(), geo.Page());
    BaseReplacesTable(ans.es, geo.Page(), b);
  }

  /** In numbers: a chunk gets base `x` exactly when its dma-buf is attached and holds the whole chunk,
      byte after byte, from address `x` on. */
  lemma BaseIff(ans: Answer, geo: Geo, x: nat)
    requires geo.pageShift <= geo.shift && (ans.Attached? ==> WholePages(ans.es, geo.Page()))
    ensures Base(ans, geo) == Some(x) <==>
      ans.Attached? && Bytes(ans.es) == geo.Gran() && forall b: nat :: b < geo.Gran() ==> ByteIs(ans.es, x, b)
  {
    hide Flatten, Bytes, ByteAddr, Dmabuf.WholePages, Pow2, Contiguous;
    if Base(ans, geo) == Some(x) {
      BaseTranslates(ans, geo, 0);
      forall b: nat | b < geo.Gran() ensures ByteIs(ans.es, x, b) { BaseTranslates(ans, geo, b); }
    }
    if ans.Attached? && Bytes(ans.es) == geo.Gran() && forall b: nat :: b < geo.Gran() ==> ByteIs(ans.es, x, b) {
      Pow2Divides(geo.pageShift, geo.shift);
      BytesGivePages(ans.es, geo.Page(), geo.Gran(), x);
    }
  }

  /** Byte `b` of the segments is at `x + b`. */
  ghost predicate ByteIs(es: seq<Extent>, x: nat, b: nat) {
    b < Bytes(es) && ByteAddr(es, b) == x + b
  }

  lemma BytesGivePages(es: seq<Extent>, page: nat, gran: nat, x: nat)
    requires page > 0 && gran > 0 && WholePages(es, page) && Bytes(es) == gran
    requires forall b: nat :: b < gran ==> ByteIs(es, x, b)
    ensures |Flatten(es, page)| == gran / page > 0 && Flatten(es, page)[0] == x && Contiguous(Flatten(es, page), page)
  {
    hide Flatten, Bytes, ByteAddr, Dmabuf.WholePages;
    FlattenTranslates(es, page);
    var pages := Flatten(es, page);
    PagesOfChunk(gran, page, |pages|);
    forall i: nat | i < |pages| ensures pages[i] == x + i * page { PageAddr(es, page, gran, x, i); }
    assert 0 * page == 0;
  }

  lemma PageAddr(es: seq<Extent>, page: nat, gran: nat, x: nat, i: nat)
    requires page > 0 && WholePages(es, page) && i < |Flatten(es, page)|
    requires page * |Flatten(es, page)| == Bytes(es) == gran && forall b: nat :: b < gran ==> ByteIs(es, x, b)
    ensures Flatten(es, page)[i] == x + i * page
  {
    hide Flatten, Bytes, ByteAddr, Dmabuf.WholePages;
    PageStart(i, |Flatten(es, page)|, page);
    FlattenTranslates(es, page);
    assert ByteIs(es, x, i * page);
    assert EntryTranslates(es, page, i * page);
  }

  lemma PageStart(i: nat, n: nat, page: nat)
    requires page > 0 && i < n
    ensures 0 <= i * page < page * n && (i * page) / page == i && (i * page) % page == 0
  {
    Multiple(page, i);
    MulMonotone(0, i, page);
    MulMonotone(i + 1, n, page);
    assert page * i == i * page && (i + 1) * page == i * page + page && page * n == n * page;
  }

  lemma PagesOfChunk(gran: nat, page: nat, n: nat)
    requires page > 0 && gran > 0 && page * n == gran
    ensures n == gran / page && n > 0
  {
    Multiple(page, n);
  }

  /** An ordinary answer: one segment, the whole chunk. */
  ghost predicate Ordinary(ans: Answer, geo: Geo) {
    ans.Attached? && |ans.es| == 1 && ans.es[0].len == geo.Gran()
  }

  lemma OrdinaryBase(ans: Answer, geo: Geo)
    requires geo.pageShift <= geo.shift && Ordinary(ans, geo)
    ensures Base(ans, geo) == Some(ans.es[0].addr)
  {
    hide Base, Pow2;
    var x := ans.es[0].addr;
    OneSegment(ans.es, geo.Gran());
    Pow2Divides(geo.pageShift, geo.shift);
    forall b: nat | b < geo.Gran() ensures ByteIs(ans.es, x, b) { SegmentAddr(ans.es, 0, b); }
    BaseIff(ans, geo, x);
  }

  lemma OneSegment(es: seq<Extent>, len: nat)
    requires |es| == 1 && es[0].len == len
    ensures Bytes(es) == len && Bytes(es[..0]) == 0
  {
    assert es[..0] == [] && es[..|es| - 1] == [];
  }

  /** From the driver's answer to the lookup: byte `b` of a chunk that an add brings in resolves to the
      address its dma-buf gives for byte `b`. */
  lemma AddedChunkTranslates(s: State, op: Op, geo: Geo, i: nat, b: nat)
    requires Inv(s, geo) && op.Add? && NonZero(op, geo) && AddSucceeds(s, op, geo) && geo.pageShift <= geo.shift
    requires i < geo.cap && s.rc[i] == 0 && Touches(op.r, i, geo.Gran()) && b < geo.Gran() && i * geo.Gran() + b > 0
    requires op.drv(i).Attached? ==> WholePages(op.drv(i).es, geo.Page())
    ensures op.drv(i).Attached? && b < Bytes(op.drv(i).es)
    ensures ChunkLookup(Apply(s, op, geo).phys, geo.shift, i * geo.Gran() + b) == Some(ByteAddr(op.drv(i).es, b))
  {
    hide Apply, AddSucceeds, Base, Flatten, Bytes, ByteAddr, Dmabuf.WholePages, Touches, ChunkLookup, Inv, Pow2;
    AddInNumbers(s, op, geo);
    var t, g := Apply(s, op, geo), geo.Gran();
    assert AddedAt(s, t, op.r, op.drv, geo, i);
    BaseAttached(op.drv(i), geo);
    BaseTranslates(op.drv(i), geo, b);
    LookupIs(t.phys, geo.shift, i * g + b);
    assert i * g == g * i;
    DivModUnique(i * g + b, g, i, b);
  }

  lemma BaseAttached(ans: Answer, geo: Geo)
    ensures Base(ans, geo).Some? ==> ans.Attached?
  {
  }

  lemma WholeCount(gran: nat, page: nat)
    requires page > 0 && gran % page == 0
    ensures page * (gran / page) == gran
  {
  }

  // ---- Page-aligned dma-bufs keep every base page-aligned

  /** The segments of every dma-buf the driver hands out start on page boundaries. */
  ghost predicate AlignedOp(op: Op, geo: Geo) {
    op.Add? ==> forall i: nat :: AlignedAnswer(op.drv(i), geo)
  }

  ghost predicate AlignedAnswer(ans: Answer, geo: Geo) {
    ans.Attached? ==> forall k :: 0 <= k < |ans.es| ==> ans.es[k].addr % geo.Page() == 0
  }

  ghost predicate AlignedBases(phys: seq<nat>, geo: Geo) {
    forall i :: 0 <= i < |phys| ==> phys[i] % geo.Page() == 0
  }

  lemma EmptyAligned(geo: Geo)
    ensures AlignedBases(Empty(geo).phys, geo)
  {
    Multiple(geo.Page(), 0);
  }

  lemma BaseAligned(ans: Answer, geo: Geo)
    requires AlignedAnswer(ans, geo)
    ensures BaseOr0(ans, geo) % geo.Page() == 0
  {
    hide Pow2, Flatten;
    Multiple(geo.Page(), 0);
    if Base(ans, geo).Some? { FlattenAligned(ans.es, geo.Page(), 0); }
  }

  lemma ApplyAligned(s: State, op: Op, geo: Geo)
    requires Inv(s, geo) && NonZero(op, geo) && AlignedOp(op, geo) && AlignedBases(s.phys, geo)
    ensures AlignedBases(Apply(s, op, geo).phys, geo)
  {
    ApplyKeepsInv(s, op, geo);
    hide Wired, BumpOne, BaseOr0, Base, Pow2;
    Multiple(geo.Page(), 0);
    match op
    case Add(r, drv, calloc) =>
      if AddSucceeds(s, op, geo) {
        forall i: nat | i < geo.cap ensures Apply(s, op, geo).phys[i] % geo.Page() == 0 {
          BumpPointwise(s, geo.First(r), geo.Count(r), drv, geo, i);
          BaseAligned(drv(i), geo);
        }
      }
    case Remove(va) =>
      var k := Find(s.list, va);
      if k < |s.list| {
        var m := s.list[k];
        forall i: nat | i < geo.cap ensures Apply(s, op, geo).phys[i] % geo.Page() == 0 {
          DerefPointwise(s, geo.First(m), geo.Count(m), geo, i);
        }
      }
    case Clear => ClearEmpties(s, geo);
  }

  lemma StaysAligned(s: State, op: Op, geo: Geo)
    requires Inv(s, geo) && NonZero(op, geo)
    ensures AlignedBases(s.phys, geo) && AlignedOp(op, geo) ==> AlignedBases(Apply(s, op, geo).phys, geo)
  {
    hide Inv, Apply, AlignedOp, AlignedBases, NonZero;
    if AlignedBases(s.phys, geo) && AlignedOp(op, geo) { ApplyAligned(s, op, geo); }
  }

  lemma {:induction false} RunAligned(s: State, ops: seq<Op>, geo: Geo)
    requires Inv(s, geo) && AlignedBases(s.phys, geo)
    requires forall k :: 0 <= k < |ops| ==> NonZero(ops[k], geo) && AlignedOp(ops[k], geo)
    ensures AlignedBases(Run(s, ops, geo).phys, geo)
    decreases |ops|
  {
    hide AlignedOp, AlignedBases, NonZero, Inv;
    if ops != [] {
      ApplyAligned(s, ops[0], geo);
      ApplyKeepsInv(s, ops[0], geo);
      assert forall k :: 0 <= k < |ops[1..]| ==> ops[1..][k] == ops[k + 1];
      RunAligned(Apply(s, ops[0], geo), ops[1..], geo);
    }
  }

  /** After any run from an empty registry the table translates page by page. */
  lemma RunIsPageLinear(ops: seq<Op>, geo: Geo)
    requires geo.pageShift <= geo.shift
    requires forall k :: 0 <= k < |ops| ==> NonZero(ops[k], geo) && AlignedOp(ops[k], geo)
    ensures Inv(Empty(geo), geo)
    ensures PageLinear(ChunkTranslation(Run(Empty(geo), ops, geo).phys, geo.shift), geo.Page())
  {
    hide NonZero, AlignedOp, Pow2;
    EmptyIsInv(geo);
    Multiple(geo.Page(), 0);
    RunAligned(Empty(geo), ops, geo);
    ChunksArePageLinear(Run(Empty(geo), ops, geo).phys, geo.shift, geo.pageShift);
  }
}
