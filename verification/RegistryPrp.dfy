/**
 * Where the registry meets the mapped PRP builders: a buffer whose bytes are all registered resolves
 * page by page, so a builder can only refuse it for its length, and what it accepts is covered.
 */
module RegistryPrp {
  import opened Arith
  import opened Bits
  import opened Common
  import opened Translate
  import opened Prp
  import opened PrpVectors
  import R = RegistryState

  /** Byte `b` lies inside some registration. */
  ghost predicate Registered(list: seq<R.Reg>, b: nat) {
    exists k: nat :: k < |list| && InReg(list[k], b)
  }

  ghost predicate InReg(r: R.Reg, b: nat) {
    r.va <= b < r.va + r.size
  }

  ghost predicate RangeRegistered(list: seq<R.Reg>, va: nat, size: nat) {
    forall b: nat :: va <= b < va + size ==> Registered(list, b)
  }

  /** The hypothesis of PrepContigMapped's success, but for the number of pages. */
  lemma RegisteredBufferIsMapped(s: R.State, geo: R.Geo, dbuf: nat, nbytes: nat)
    requires R.Inv(s, geo) && 0 < dbuf && 0 < nbytes
    requires RangeRegistered(s.list, dbuf, nbytes)
    ensures dbuf % geo.Page() <= dbuf
    ensures var tr, page := ChunkTranslation(s.phys, geo.shift), geo.Page();
      tr(dbuf).Some? && Mapped(tr, dbuf - dbuf % page, PagesSpanned(dbuf % page, nbytes, page), page)
  {
    hide R.Inv, ChunkLookup, PagesSpanned, Pow2;
    var tr, page := ChunkTranslation(s.phys, geo.shift), geo.Page();
    var n := PagesSpanned(dbuf % page, nbytes, page);
    FloorMultiple(dbuf, page);
    ByteResolves(s, geo, dbuf);
    forall k: nat | 1 <= k < n ensures tr(dbuf - dbuf % page + k * page).Some? {
      PageStartInBuffer(dbuf, nbytes, page, k);
      ByteResolves(s, geo, dbuf - dbuf % page + k * page);
    }
  }

  lemma ByteResolves(s: R.State, geo: R.Geo, b: nat)
    requires R.Inv(s, geo) && 0 < b && Registered(s.list, b)
    ensures ChunkLookup(s.phys, geo.shift, b).Some?
  {
    hide R.Inv, ChunkLookup;
    var k: nat :| k < |s.list| && InReg(s.list[k], b);
    R.RegisteredResolves(s, geo, k, b);
  }

  /** Every page after the first starts inside the buffer. */
  lemma PageStartInBuffer(dbuf: nat, nbytes: nat, page: nat, k: nat)
    requires page > 0 && dbuf % page <= dbuf && 1 <= k < PagesSpanned(dbuf % page, nbytes, page)
    ensures dbuf < dbuf - dbuf % page + k * page < dbuf + nbytes
  {
    var top := dbuf % page + nbytes + page - 1;
    var n := top / page;
    assert top == page * n + top % page;
    MulMonotone(1, k, page);
    MulMonotone(k + 1, n, page);
    assert (k + 1) * page == k * page + page && page * n == n * page;
  }

  /** Every segment is registered; of an empty first one, the byte it starts at. */
  ghost predicate VectorRegistered(list: seq<R.Reg>, dvec: seq<Iov>) {
    forall i :: 0 <= i < |dvec| ==> 0 < dvec[i].base && RangeRegistered(list, dvec[i].base, dvec[i].len)
  }

  /** The hypothesis of PrepIovMapped's success, but for the number of pages. */
  lemma RegisteredVectorIsResolved(s: R.State, geo: R.Geo, dvec: seq<Iov>)
    requires R.Inv(s, geo) && VectorRegistered(s.list, dvec)
    ensures Resolved(ChunkTranslation(s.phys, geo.shift), AllPages(dvec, geo.Page()))
  {
    hide R.Inv, ChunkLookup, AllPages, PageCount, Pow2;
    var tr, page := ChunkTranslation(s.phys, geo.shift), geo.Page();
    var pages := AllPages(dvec, page);
    forall k: nat | k < |pages| ensures tr(pages[k]).Some? {
      var j, i := PageOrigin(dvec, page, k);
      CountIff(dvec[j].len, page, i);
      MulMonotone(0, i, page);
      PageIndex(dvec, page, j, i);
      assert RangeRegistered(s.list, dvec[j].base, dvec[j].len);
      ByteResolves(s, geo, dvec[j].base + i * page);
    }
  }

  // ---- The builders over a registry

  /** What the driver is assumed to answer in a run of registry operations. */
  ghost predicate GoodAnswers(ops: seq<R.Op>, geo: R.Geo) {
    forall k :: 0 <= k < |ops| ==> R.NonZero(ops[k], geo) && R.AlignedOp(ops[k], geo)
  }

  /** The registry after a run of operations, from empty. */
  ghost function After(ops: seq<R.Op>, geo: R.Geo): (s: R.State)
    requires GoodAnswers(ops, geo)
    ensures R.Inv(s, geo) && R.AlignedBases(s.phys, geo)
  {
    R.EmptyIsInv(geo);
    R.EmptyAligned(geo);
    R.RunAligned(R.Empty(geo), ops, geo);
    R.Run(R.Empty(geo), ops, geo)
  }

  lemma TableIsPageLinear(phys: seq<nat>, geo: R.Geo)
    requires R.AlignedBases(phys, geo) && geo.pageShift <= geo.shift
    ensures PageLinear(ChunkTranslation(phys, geo.shift), Pow2(geo.pageShift))
  {
    hide Pow2, PageLinear, ChunkTranslation;
    ChunksArePageLinear(phys, geo.shift, geo.pageShift);
  }

  /**
   * A registered buffer, in a registry kept as Registry.Registry keeps it: the builder refuses it
   * for its length only, and otherwise every byte of the transfer is at its registry translation.
   */
  method PrepContigRegistered(req: Request, lut: array<nat>, geo: R.Geo, ghost s: R.State, dbuf: nat, nbytes: nat,
                              cmd: DataPointer)
    returns (err: Errno)
    requires R.Inv(s, geo) && R.AlignedBases(s.phys, geo) && geo.pageShift <= geo.shift && lut[..] == s.phys
    requires req.prp != lut && req.prp.Length == Pow2(geo.pageShift) / ENTRY_BYTES
    requires 0 < dbuf && 0 < nbytes && RangeRegistered(s.list, dbuf, nbytes)
    modifies cmd`prp1, cmd`prp2, req.prp
    ensures lut[..] == s.phys
    ensures err == Ok <==> PagesSpanned(dbuf % geo.Page(), nbytes, geo.Page()) <= 1 + geo.Page() / ENTRY_BYTES
    ensures err == Ok ==>
      CoversBuffer(ChunkTranslation(s.phys, geo.shift), dbuf, nbytes, cmd.prp1, cmd.prp2,
                   OneList(req.prpAddr, req.prp[..]), geo.Page())
  {
    hide R.Inv, R.AlignedBases, RangeRegistered, PageLinear, CoversBuffer, Mapped, PagesSpanned, ChunkTranslation, Pow2;
    RegisteredBufferIsMapped(s, geo, dbuf, nbytes);
    TableIsPageLinear(s.phys, geo);
    err := PrepContigMapped(req, lut, geo.shift, geo.pageShift, dbuf, nbytes, cmd);
  }

  /** After any run of adds, removes and clears, whatever the driver refused on the way. */
  method PrepContigAfterRun(req: Request, lut: array<nat>, geo: R.Geo, ghost ops: seq<R.Op>, dbuf: nat, nbytes: nat,
                            cmd: DataPointer)
    returns (err: Errno)
    requires GoodAnswers(ops, geo) && geo.pageShift <= geo.shift && lut[..] == After(ops, geo).phys
    requires req.prp != lut && req.prp.Length == Pow2(geo.pageShift) / ENTRY_BYTES
    requires 0 < dbuf && 0 < nbytes && RangeRegistered(After(ops, geo).list, dbuf, nbytes)
    modifies cmd`prp1, cmd`prp2, req.prp
    ensures lut[..] == After(ops, geo).phys
    ensures err == Ok <==> PagesSpanned(dbuf % geo.Page(), nbytes, geo.Page()) <= 1 + geo.Page() / ENTRY_BYTES
    ensures err == Ok ==>
      CoversBuffer(ChunkTranslation(lut[..], geo.shift), dbuf, nbytes, cmd.prp1, cmd.prp2,
                   OneList(req.prpAddr, req.prp[..]), geo.Page())
  {
    hide After, R.Inv, R.AlignedBases, RangeRegistered, CoversBuffer, PagesSpanned, ChunkTranslation, Pow2;
    err := PrepContigRegistered(req, lut, geo, After(ops, geo), dbuf, nbytes, cmd);
  }

  /** The same for a registered vector: refused for its length only, and covered exactly when Describable. */
  method PrepIovRegistered(req: Request, lut: array<nat>, geo: R.Geo, ghost s: R.State, dvec: seq<Iov>,
                           cmd: DataPointer)
    returns (err: Errno)
    requires R.Inv(s, geo) && R.AlignedBases(s.phys, geo) && geo.pageShift <= geo.shift && lut[..] == s.phys
    requires req.prp != lut && req.prp.Length == Pow2(geo.pageShift) / ENTRY_BYTES
    requires Vector(dvec, Pow2(geo.pageShift)) && VectorRegistered(s.list, Effective(dvec))
    modifies cmd`prp1, cmd`prp2, req.prp
    ensures lut[..] == s.phys
    ensures err == Ok <==> |AllPages(Effective(dvec), geo.Page())| <= 1 + geo.Page() / ENTRY_BYTES
    ensures err == Ok ==>
      (CoversVector(ChunkTranslation(s.phys, geo.shift), dvec, cmd.prp1, cmd.prp2, OneList(req.prpAddr, req.prp[..]),
                    geo.Page())
       <==> Describable(ChunkTranslation(s.phys, geo.shift), dvec, req.prpAddr, geo.Page()))
  {
    hide R.Inv, R.AlignedBases, VectorRegistered, PageLinear, CoversVector, Describable, AllPages, Resolved, Built,
      ChunkTranslation, Pow2;
    RegisteredVectorIsResolved(s, geo, Effective(dvec));
    TableIsPageLinear(s.phys, geo);
    err := PrepIovMapped(req, lut, geo.shift, geo.pageShift, dvec, cmd);
  }

  method PrepIovAfterRun(req: Request, lut: array<nat>, geo: R.Geo, ghost ops: seq<R.Op>, dvec: seq<Iov>,
                         cmd: DataPointer)
    returns (err: Errno)
    requires GoodAnswers(ops, geo) && geo.pageShift <= geo.shift && lut[..] == After(ops, geo).phys
    requires req.prp != lut && req.prp.Length == Pow2(geo.pageShift) / ENTRY_BYTES
    requires Vector(dvec, Pow2(geo.pageShift)) && VectorRegistered(After(ops, geo).list, Effective(dvec))
    modifies cmd`prp1, cmd`prp2, req.prp
    ensures lut[..] == After(ops, geo).phys
    ensures err == Ok <==> |AllPages(Effective(dvec), geo.Page())| <= 1 + geo.Page() / ENTRY_BYTES
    ensures err == Ok ==>
      (CoversVector(ChunkTranslation(lut[..], geo.shift), dvec, cmd.prp1, cmd.prp2, OneList(req.prpAddr, req.prp[..]),
                    geo.Page())
       <==> Describable(ChunkTranslation(lut[..], geo.shift), dvec, req.prpAddr, geo.Page()))
  {
    hide After, R.Inv, R.AlignedBases, VectorRegistered, CoversVector, Describable, AllPages, ChunkTranslation, Pow2;
    err := PrepIovRegistered(req, lut, geo, After(ops, geo), dvec, cmd);
  }
}
