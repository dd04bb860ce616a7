/**
 * The registry of externally allocated CUDA buffers (cudamem_mapping.h): two parallel tables
 * updated in place, and the list of registrations.
 */
module Registry {
  import opened Bits
  import opened Common
  import opened Translate
  import opened Dmabuf
  import opened RegistryState

  datatype Meta = Meta(rc: nat, attach: Option<nat>)

  class Registry {
    const geo: Geo
    const lutPhys: array<nat>
    const lutMeta: array<Meta>
    var list: seq<Reg>
    var issued: nat                 // handles the driver has given out
    ghost var outstanding: set<nat> // attached and not yet detached

    ghost function Now(): State
      reads this, lutPhys, lutMeta
    {
      State(Rcs(lutMeta[..]), lutPhys[..], Attaches(lutMeta[..]), list, issued)
    }

    ghost predicate Sane()
      reads this, lutPhys, lutMeta
    {
      && lutPhys.Length == lutMeta.Length == geo.cap
      && Wired(Now(), geo) && outstanding == Held(Now().attach)
      && geo.pageShift <= geo.shift && geo.Gran() <= SIZE_MAX
    }

    ghost predicate Valid()
      reads this, lutPhys, lutMeta
    {
      Sane() && Inv(Now(), geo)
    }

    /** cudamem_mapping_registry_init: empty tables over the `vaBits`-bit address space. */
    constructor (shift: nat, pageShift: nat, vaBits: nat)
      requires pageShift <= shift && Pow2(shift) <= SIZE_MAX
      ensures Valid() && Now() == Empty(geo) && outstanding == {} && AlignedBases(lutPhys[..], geo)
      ensures geo == Geo(shift, pageShift, Shr(Pow2(vaBits), shift))
      ensures fresh(lutPhys) && fresh(lutMeta)
    {
      var cap := Shr(Pow2(vaBits), shift);
      geo := Geo(shift, pageShift, cap);
      lutPhys := new nat[cap](_ => 0);
      lutMeta := new Meta[cap](_ => Meta(0, None));
      list, issued, outstanding := [], 0, {};
      new;
      hide Pow2;
      assert Now() == Empty(geo);
      EmptyIsInv(geo);
      EmptyAligned(geo);
    }

    /** Each attached dma-buf may be detached once only: the caller must still own it. */
    ghost method Detach(handle: nat)
      requires handle in outstanding
      modifies this`outstanding
      ensures outstanding == old(outstanding) - {handle}
    {
      outstanding := outstanding - {handle};
    }

    method ChunkDeref(chunkFirst: nat, chunkCnt: nat)
      requires Sane() && chunkFirst + chunkCnt <= geo.cap
      modifies this`outstanding, lutPhys, lutMeta
      ensures Sane() && Now() == DerefTo(old(Now()), chunkFirst, chunkCnt, geo)
    {
      hide DerefOne, Held, Attaches;
      for k := 0 to chunkCnt
        invariant Sane() && Now() == DerefTo(old(Now()), chunkFirst, k, geo)
      {
        DerefOneChunk(chunkFirst + k);
      }
    }

    method DerefOneChunk(idx: nat)
      requires Sane() && idx < geo.cap
      modifies this`outstanding, lutPhys, lutMeta
      ensures Sane() && Now() == DerefOne(old(Now()), idx)
    {
      ghost var s := Now();
      DerefOneKeepsWired(s, idx, geo);
      var cm := lutMeta[idx];
      if cm.rc == 0 { return; }
      lutMeta[idx] := cm.(rc := cm.rc - 1);
      if cm.rc - 1 == 0 {
        HeldWithout(s.attach, idx);
        Detach(s.attach[idx].value);
        lutMeta[idx] := Meta(0, None);
        lutPhys[idx] := 0;
      }
      assert Now() == DerefOne(s, idx);
    }

    /**
     * Ask the driver for one chunk. On success the new attachment is the caller's; on any failure
     * nothing stays attached.
     */
    method ChunkPopulate(ans: Answer) returns (err: Errno, base: nat, handle: nat)
      requires Sane()
      modifies this`issued, this`outstanding
      ensures err == Ok <==> Base(ans, geo).Some?
      ensures err == Ok ==> base == Base(ans, geo).value && handle == old(issued) && issued == old(issued) + 1
                            && outstanding == old(outstanding) + {handle}
      ensures err != Ok ==> outstanding == old(outstanding) && issued >= old(issued)
      ensures err == EOPNOTSUPP ==> ans.Attached? && !Contiguous(Flatten(ans.es, geo.Page()), geo.Page())
    {
      base, handle := 0, 0;
      var pagesize: nat := geo.Page();
      var nphys := Shr(geo.Gran(), geo.pageShift);
      match ans
      case NoMemory => return ENOMEM, base, handle;
      case NoHandle => return EIO, base, handle;
      case AttachFails => return EATTACH, base, handle;
      case Attached(es) =>
        handle := issued;
        issued, outstanding := issued + 1, outstanding + {handle};
        AttachIsFresh(Now().attach, old(issued));
        var tmp := new nat[nphys];
        var ok := GetLut(es, nphys, tmp, pagesize);
        if !ok {
          Detach(handle);
          return EINVAL, base, handle;
        }
        ghost var pages := Flatten(es, pagesize);
        assert tmp[..nphys] == tmp[..] == pages;
        GranHasPages(geo);
        for i := 1 to nphys
          invariant forall j: nat :: 1 <= j < i ==> pages[j] == pages[0] + j * pagesize
          invariant tmp[..] == pages
        {
          assert tmp[i] == pages[i] && tmp[0] == pages[0];
          if tmp[i] != tmp[0] + i * pagesize {
            Detach(handle);
            return EOPNOTSUPP, base, handle;
          }
        }
        assert tmp[0] == pages[0];
        return Ok, tmp[0], handle;
    }

    /**
     * Register `[vaddr, vaddr + nbytes)`. A failure part-way is unwound: tables, list and owned
     * dma-bufs are as before.
     */
    method Add(vaddr: nat, nbytes: nat, drv: Driver, calloc: bool) returns (err: Errno)
      requires Valid() && NonZero(Op.Add(Reg(vaddr, nbytes), drv, calloc), geo)
      requires And(vaddr, geo.Gran() - 1) + nbytes + (geo.Gran() - 1) <= SIZE_MAX
      requires |list| < 0xFFFF_FFFF
      modifies this, lutPhys, lutMeta
      ensures Valid()
      ensures var op := Op.Add(Reg(vaddr, nbytes), drv, calloc);
        && (err == Ok <==> AddSucceeds(old(Now()), op, geo))
        && Now() == Apply(old(Now()), op, geo).(issued := issued)
        && (err == Ok ==> Now() == Apply(old(Now()), op, geo))
      ensures err == Ok <==> Addable(old(Now()), Op.Add(Reg(vaddr, nbytes), drv, calloc), geo)
      ensures err == Ok ==> Added(old(Now()), Now(), Reg(vaddr, nbytes), drv, geo)
      ensures Malformed(Reg(vaddr, nbytes), geo) ==> err == EINVAL
      ensures err != Ok ==> outstanding == old(outstanding)
      ensures old(AlignedBases(lutPhys[..], geo)) && AlignedOp(Op.Add(Reg(vaddr, nbytes), drv, calloc), geo) ==>
        AlignedBases(lutPhys[..], geo)
    {
      hide Refs, Held, And, Shr, Wired, Rcs, Attaches, Base, BumpOne, DerefTo, AlignedBases, AlignedOp, Added,
        Addable, Apply, AddSucceeds, BumpTo, Good, AllGood;
      ghost var s, r := Now(), Reg(vaddr, nbytes);
      ghost var op := Op.Add(r, drv, calloc);
      AddSucceedsIff(s, op, geo);
      AddRefused(s, op, geo);
      if vaddr == 0 || nbytes == 0 { return EINVAL; }
      var chunkFirst, chunkCnt := geo.First(Reg(vaddr, nbytes)), geo.Count(Reg(vaddr, nbytes));
      if chunkFirst + chunkCnt > geo.cap { return EINVAL; }
      if !calloc { return ENOMEM; }
      var bumped := 0;
      NoneYet(s, chunkFirst, drv, geo);
      while bumped < chunkCnt
        invariant bumped <= chunkCnt && Sane()
        invariant Now() == BumpTo(s, chunkFirst, bumped, drv, geo)
        invariant AllGood(s, chunkFirst, bumped, drv, geo)
      {
        var idx := chunkFirst + bumped;
        NextCount(s, chunkFirst, bumped, drv, geo);
        err := BumpChunk(idx, drv(idx));
        if err != Ok {
          Unwind(s, chunkFirst, bumped, drv, geo, issued);
          BadChunk(s, op, geo, idx);
          ChunkDeref(chunkFirst, bumped);
          return;
        }
        bumped := bumped + 1;
      }
      list := [Reg(vaddr, nbytes)] + list;
      AddDone(s, op, geo);
      return Ok;
    }

    /** One iteration of the adding loop: share the chunk, or populate it. */
    method BumpChunk(idx: nat, ans: Answer) returns (err: Errno)
      requires Sane() && idx < geo.cap && Base(ans, geo) != Some(0) && Now().rc[idx] < 0xFFFF_FFFF
      modifies this`issued, this`outstanding, lutPhys, lutMeta
      ensures Sane() && issued >= old(issued)
      ensures err == Ok <==> old(Now()).rc[idx] > 0 || Base(ans, geo).Some?
      ensures err == Ok ==> Now() == BumpOne(old(Now()), idx, BaseOr0(ans, geo))
      ensures err != Ok ==> Now() == old(Now()).(issued := issued)
    {
      ghost var s := Now();
      ghost var owned := outstanding;
      var cm := lutMeta[idx];
      if cm.rc == 0 {
        var base: nat;
        var handle: nat;
        err, base, handle := ChunkPopulate(ans);
        if err != Ok {
          assert Now() == s.(issued := issued);
          return;
        }
        cm := cm.(attach := Some(handle));
        lutPhys[idx] := base;
      }
      lutMeta[idx] := cm.(rc := (cm.rc + 1) % 0x1_0000_0000);
      err := Ok;
      BumpOneKeepsWired(s, idx, BaseOr0(ans, geo), geo);
      HeldWith(s.attach, idx, s.issued);
      assert Now() == BumpOne(s, idx, BaseOr0(ans, geo));
    }

    /** Remove the first registration at `vaddr`. */
    method Remove(vaddr: nat) returns (err: Errno)
      requires Valid()
      modifies this, lutPhys, lutMeta
      ensures Valid() && Now() == Apply(old(Now()), Op.Remove(vaddr), geo)
      ensures err == (if exists k :: 0 <= k < |old(list)| && old(list)[k].va == vaddr then Ok else EINVAL)
      ensures err == Ok ==> Removed(old(Now()), Now(), vaddr, geo)
      ensures err != Ok ==> Now() == old(Now())
      ensures old(AlignedBases(lutPhys[..], geo)) ==> AlignedBases(lutPhys[..], geo)
    {
      hide Refs, Held, And, Shr, Wired, Rcs, Attaches, DerefTo, ClearTables, AlignedBases,
        Removed;
      ghost var s := Now();
      for k := 0 to |list|
        invariant Valid() && Now() == s && forall j :: 0 <= j < k ==> list[j].va != vaddr
      {
        var m := list[k];
        if m.va == vaddr {
          FindFirst(list, vaddr, k);
          assert Fits(list[k], geo);
          RemoveKeepsInv(s, k, geo);
          ChunkDeref(geo.First(m), geo.Count(m));
          list := list[..k] + list[k + 1..];
          StaysAligned(s, Op.Remove(vaddr), geo);
          RemoveInNumbers(s, vaddr, geo);
          return Ok;
        }
      }
      return EINVAL;
    }

    /** Drop every registration, detaching whatever is still attached. */
    method Clear()
      requires Valid()
      modifies this, lutPhys, lutMeta
      ensures Valid() && Now() == Apply(old(Now()), Op.Clear, geo)
      ensures outstanding == {} && list == []
      ensures old(AlignedBases(lutPhys[..], geo)) ==> AlignedBases(lutPhys[..], geo)
    {
      hide AlignedBases;
      ghost var s := Now();
      for k := 0 to |list|
        invariant Sane() && list == s.list
        invariant Inv(Now().(list := list[k..]), geo)
        invariant ClearTables(Now().(list := list[k..]), geo) == ClearTables(s, geo)
      {
        var m := list[k];
        ghost var t := Now().(list := list[k..]);
        assert t.list[0] == m && t.list[1..] == list[k + 1..];
        assert Fits(t.list[0], geo);
        RemoveKeepsInv(t, 0, geo);
        assert RemoveAt(t.list, 0) == list[k + 1..];
        DerefIgnoresList(Now(), geo.First(m), geo.Count(m), t.list, geo);
        DerefIgnoresList(Now(), geo.First(m), geo.Count(m), list[k + 1..], geo);
        ChunkDeref(geo.First(m), geo.Count(m));
      }
      assert list[|list|..] == [];
      list := [];
      ClearEmpties(s, geo);
      StaysAligned(s, Op.Clear, geo);
    }

    /** cudamem_mapping_virt_to_phys. */
    function VirtToPhys(virt: nat): Option<nat>
      reads this, lutPhys
    {
      ChunkLookup(lutPhys[..], geo.shift, virt)
    }
  }

  /** What the checks before the loop refuse. */
  lemma AddRefused(s: State, op: Op, geo: Geo)
    requires Inv(s, geo) && op.Add?
    ensures Malformed(op.r, geo) || !op.calloc ==> !AddSucceeds(s, op, geo)
    ensures !AddSucceeds(s, op, geo) ==> Apply(s, op, geo) == s
  {
  }

  lemma BadChunk(s: State, op: Op, geo: Geo, idx: nat)
    requires Inv(s, geo) && op.Add? && !Malformed(op.r, geo) && geo.Covers(op.r, idx)
    requires idx < |s.rc| && !Good(s, idx, op.drv, geo)
    ensures !AddSucceeds(s, op, geo)
  {
  }

  /** When every chunk has been referenced. */
  lemma AddDone(s: State, op: Op, geo: Geo)
    requires Inv(s, geo) && op.Add? && NonZero(op, geo) && !Malformed(op.r, geo) && op.calloc
    requires AllGood(s, geo.First(op.r), geo.Count(op.r), op.drv, geo)
    ensures AddSucceeds(s, op, geo)
    ensures var t := Apply(s, op, geo);
      && t == BumpTo(s, geo.First(op.r), geo.Count(op.r), op.drv, geo).(list := [op.r] + s.list)
      && Inv(t, geo) && Added(s, t, op.r, op.drv, geo)
      && (AlignedBases(s.phys, geo) && AlignedOp(op, geo) ==> AlignedBases(t.phys, geo))
  {
    AddKeepsInv(s, op, geo);
    StaysAligned(s, op, geo);
    AddInNumbers(s, op, geo);
    hide Inv, Added, AlignedBases, AlignedOp;
  }

  /** The next chunk's count is untouched so far and has room for one more. */
  lemma NextCount(s: State, first: nat, k: nat, drv: Driver, geo: Geo)
    requires Inv(s, geo) && first + k < geo.cap && |s.list| < 0xFFFF_FFFF
    ensures BumpTo(s, first, k, drv, geo).rc[first + k] == s.rc[first + k] < 0xFFFF_FFFF
    ensures BumpTo(s, first, k + 1, drv, geo)
         == BumpOne(BumpTo(s, first, k, drv, geo), first + k, BaseOr0(drv(first + k), geo))
    ensures Good(s, first + k, drv, geo) <==> s.rc[first + k] > 0 || Base(drv(first + k), geo).Some?
    ensures AllGood(s, first, k, drv, geo) && Good(s, first + k, drv, geo) ==> AllGood(s, first, k + 1, drv, geo)
  {
    BumpPointwise(s, first, k, drv, geo, first + k);
    RefsBounded(s.list, first + k, geo.Gran());
  }

  lemma NoneYet(s: State, first: nat, drv: Driver, geo: Geo)
    requires Sized(s, geo) && first <= geo.cap
    ensures BumpTo(s, first, 0, drv, geo) == s && AllGood(s, first, 0, drv, geo)
  {
  }

  lemma Unwind(s: State, first: nat, k: nat, drv: Driver, geo: Geo, issued: nat)
    requires Inv(s, geo) && first + k <= geo.cap
    ensures DerefTo(BumpTo(s, first, k, drv, geo).(issued := issued), first, k, geo) == s.(issued := issued)
  {
    DerefUndoesBump(s, first, k, drv, geo);
    DerefIgnoresIssued(BumpTo(s, first, k, drv, geo), issued, first, k, geo);
  }

  lemma FindFirst(list: seq<Reg>, va: nat, k: nat)
    requires k < |list| && list[k].va == va && forall j :: 0 <= j < k ==> list[j].va != va
    ensures Find(list, va) == k
  {
  }

  /** Attaching to a free slot adds exactly the new handle. */
  lemma HeldWith(attach: seq<Option<nat>>, idx: nat, h: nat)
    requires idx < |attach|
    ensures attach[idx].None? ==> Held(attach[idx := Some(h)]) == Held(attach) + {h}
  {
    var t := attach[idx := Some(h)];
    if attach[idx].None? {
      forall x ensures x in Held(t) <==> x in Held(attach) || x == h {
        if x in Held(attach) {
          var i :| 0 <= i < |attach| && attach[i].Some? && attach[i].value == x;
          assert t[i] == attach[i];
        }
        if x in Held(t) && x != h {
          var i :| 0 <= i < |t| && t[i].Some? && t[i].value == x;
          assert attach[i] == t[i];
        }
        assert t[idx] == Some(h);
      }
    }
  }

  lemma {:induction false} DerefIgnoresIssued(s: State, n: nat, first: nat, k: nat, geo: Geo)
    requires Sized(s, geo) && first + k <= geo.cap
    ensures DerefTo(s.(issued := n), first, k, geo) == DerefTo(s, first, k, geo).(issued := n)
  {
    if k > 0 { DerefIgnoresIssued(s, n, first, k - 1, geo); }
  }

  ghost function Rcs(ms: seq<Meta>): (s: seq<nat>)
    ensures |s| == |ms| && forall i :: 0 <= i < |ms| ==> s[i] == ms[i].rc
  {
    seq(|ms|, i requires 0 <= i < |ms| => ms[i].rc)
  }

  ghost function Attaches(ms: seq<Meta>): (s: seq<Option<nat>>)
    ensures |s| == |ms| && forall i :: 0 <= i < |ms| ==> s[i] == ms[i].attach
  {
    seq(|ms|, i requires 0 <= i < |ms| => ms[i].attach)
  }

  lemma DerefOneKeepsWired(s: State, idx: nat, geo: Geo)
    requires Wired(s, geo) && idx < geo.cap
    ensures Wired(DerefOne(s, idx), geo)
  {
  }

  /** Detaching one chunk's dma-buf gives up exactly that handle. */
  lemma HeldWithout(attach: seq<Option<nat>>, idx: nat)
    requires idx < |attach| && attach[idx].Some?
    requires forall i, j :: 0 <= i < j < |attach| && attach[i].Some? ==> attach[i] != attach[j]
    ensures attach[idx].value in Held(attach)
    ensures Held(attach[idx := None]) == Held(attach) - {attach[idx].value}
  {
    var t := attach[idx := None];
    forall h ensures h in Held(t) <==> h in Held(attach) && h != attach[idx].value {
      if h in Held(attach) && h != attach[idx].value {
        var i :| 0 <= i < |attach| && attach[i].Some? && attach[i].value == h;
        assert t[i] == attach[i];
      }
      if h in Held(t) {
        var i :| 0 <= i < |t| && t[i].Some? && t[i].value == h;
        assert attach[i] == t[i];
      }
    }
  }

  /** A new handle is not one the tables own. */
  lemma AttachIsFresh(attach: seq<Option<nat>>, issued: nat)
    requires forall i :: 0 <= i < |attach| && attach[i].Some? ==> attach[i].value < issued
    ensures issued !in Held(attach)
  {
  }

  lemma GranHasPages(geo: Geo)
    requires geo.pageShift <= geo.shift
    ensures Shr(geo.Gran(), geo.pageShift) > 0
  {
    Pow2Divides(geo.pageShift, geo.shift);
  }
}
