/**
 * The host heap's memory: block headers and user data share one address range, so a header write
 * destroys the data beneath it and a data write destroys the header beneath it (hostmem_heap.h).
 */
module HostMemory {
  import opened Arith
  import opened Segments

  /** sizeof(struct hostmem_heap_block) */
  const HEADER_BYTES: nat := 24

  /** `next` is an address, 0 being NULL. */
  datatype Header = Header(size: nat, free: bool, next: nat)

  /** Intact headers by address, and the data bytes that no header has overwritten. */
  datatype Memory = Memory(headers: map<nat, Header>, bytes: map<nat, int>)

  function PutHeader(m: Memory, a: nat, h: Header): Memory {
    Memory((map x | x in m.headers && (x + HEADER_BYTES <= a || a + HEADER_BYTES <= x) :: m.headers[x])[a := h],
           map x | x in m.bytes && !(a <= x < a + HEADER_BYTES) :: m.bytes[x])
  }

  function PutByte(m: Memory, x: nat, v: int): Memory {
    Memory(map a | a in m.headers && !(a <= x < a + HEADER_BYTES) :: m.headers[a], m.bytes[x := v])
  }

  /** Where the heap starts and how large a header's page is. */
  datatype Place = Place(virt: nat, page: nat) {
    ghost predicate Valid() { virt > 0 && page > HEADER_BYTES }
  }

  ghost function Next(s: seq<Seg>, i: nat, at: Place): nat
    requires i < |s|
  {
    if i + 1 < |s| then at.virt + s[i + 1].start else 0
  }

  /** Block `i`'s header is intact and says what the segment list says. */
  ghost predicate HeaderOk(m: Memory, s: seq<Seg>, i: nat, at: Place)
    requires i < |s|
  {
    var a: nat := at.virt + s[i].start;
    && a in m.headers
    && m.headers[a].free == s[i].free
    && m.headers[a].next == Next(s, i, at)
    && m.headers[a].size + (if i + 1 < |s| then at.page else 0) == s[i].len
  }

  ghost predicate Describes(m: Memory, s: seq<Seg>, at: Place) {
    forall i: nat :: i < |s| ==> HeaderOk(m, s, i, at)
  }

  /** Blocks start and end on page boundaries of the heap. */
  ghost predicate OnPages(s: seq<Seg>, page: nat)
    requires page > 0
  {
    forall i :: 0 <= i < |s| ==> s[i].start % page == 0 && s[i].len % page == 0
  }

  /** `x` is a payload byte of one of the blocks `used`. */
  ghost predicate InPayload(x: nat, used: seq<Seg>, at: Place) {
    exists b :: b in used && PayloadOf(x, b, at)
  }

  ghost predicate PayloadOf(x: nat, b: Seg, at: Place) {
    at.virt + b.start + at.page <= x < at.virt + b.start + b.len
  }

  /** Every payload byte of the blocks `used` is as it was. */
  ghost predicate Untouched(m: Memory, m': Memory, used: seq<Seg>, at: Place) {
    forall x: nat :: InPayload(x, used, at) ==> SameByte(m, m', x)
  }

  ghost predicate SameByte(m: Memory, m': Memory, x: nat) {
    (x in m.bytes <==> x in m'.bytes) && (x in m.bytes ==> m.bytes[x] == m'.bytes[x])
  }

  lemma UntouchedTransitive(a: Memory, b: Memory, c: Memory, used: seq<Seg>, at: Place)
    requires Untouched(a, b, used, at) && Untouched(b, c, used, at)
    ensures Untouched(a, c, used, at)
  {
    forall x: nat | InPayload(x, used, at) ensures SameByte(a, c, x) {
      assert SameByte(a, b, x) && SameByte(b, c, x);
    }
  }

  /** A header write at the start of a block lands in no payload, not even that block's own. */
  lemma HeaderWriteIsHarmless(m: Memory, a: nat, h: Header, s: seq<Seg>, i: nat, at: Place, size: nat)
    requires at.Valid() && Tiles(s, 0, size) && i < |s| && a == at.virt + s[i].start
    ensures Untouched(m, PutHeader(m, a, h), Used(s), at)
  {
    TilesBounds(s, 0, size);
    UsedMembers(s);
    forall x: nat | InPayload(x, Used(s), at) ensures SameByte(m, PutHeader(m, a, h), x) {
      var b :| b in Used(s) && PayloadOf(x, b, at);
      var j :| 0 <= j < |s| && s[j] == b;
      assert j < i ==> s[j].start + s[j].len <= s[i].start;
      assert i < j ==> s[i].start + s[i].len <= s[j].start;
      assert !(a <= x < a + HEADER_BYTES);
    }
  }

  /** Storing into a live payload destroys no header. */
  lemma PayloadStoreIsHarmless(m: Memory, x: nat, v: int, s: seq<Seg>, at: Place, size: nat)
    requires at.Valid() && Tiles(s, 0, size) && Describes(m, s, at) && OnPages(s, at.page)
    requires InPayload(x, Used(s), at)
    ensures Describes(PutByte(m, x, v), s, at)
  {
    hide Tiles;
    UsedMembers(s);
    var b :| b in Used(s) && PayloadOf(x, b, at);
    TilesBounds(s, 0, size);
    var j :| 0 <= j < |s| && s[j] == b;
    forall i: nat | i < |s| ensures HeaderOk(PutByte(m, x, v), s, i, at) {
      assert HeaderOk(m, s, i, at);
      MultipleGap(0, s[i].len, at.page);
      PayloadMissesHeader(s, j, i, x, at, size);
    }
  }

  lemma PayloadMissesHeader(s: seq<Seg>, j: nat, i: nat, x: nat, at: Place, size: nat)
    requires at.Valid() && Tiles(s, 0, size) && i < |s| && j < |s| && PayloadOf(x, s[j], at)
    requires s[i].len >= at.page
    ensures var a := at.virt + s[i].start; !(a <= x < a + HEADER_BYTES)
  {
    TilesBounds(s, 0, size);
    assert j < i ==> s[j].start + s[j].len <= s[i].start;
    assert i < j ==> s[i].start + s[i].len <= s[j].start;
  }

  /** Other blocks' headers survive a header write at the start of block `i`. */
  lemma OtherHeaders(m: Memory, s: seq<Seg>, i: nat, k: nat, h: Header, at: Place, size: nat)
    requires at.Valid() && Tiles(s, 0, size) && OnPages(s, at.page) && i < |s| && k < |s| && k != i
    requires HeaderOk(m, s, k, at)
    ensures HeaderOk(PutHeader(m, at.virt + s[i].start, h), s, k, at)
  {
    TilesBounds(s, 0, size);
    MultipleGap(0, s[i].len, at.page);
    MultipleGap(0, s[k].len, at.page);
    assert k < i ==> s[k].start + s[k].len <= s[i].start;
    assert i < k ==> s[i].start + s[i].len <= s[k].start;
  }

  /** Changing a block's `free` field. */
  lemma FlagHeader(m: Memory, s: seq<Seg>, i: nat, free: bool, at: Place, size: nat)
    requires at.Valid() && Tiles(s, 0, size) && OnPages(s, at.page) && i < |s| && Describes(m, s, at)
    ensures HeaderOk(m, s, i, at)
    ensures var a := at.virt + s[i].start;
      var s' := s[i := s[i].(free := free)];
      && Describes(PutHeader(m, a, m.headers[a].(free := free)), s', at)
      && Tiles(s', 0, size) && OnPages(s', at.page)
  {
    assert HeaderOk(m, s, i, at);
    var a: nat := at.virt + s[i].start;
    var s' := s[i := s[i].(free := free)];
    var m' := PutHeader(m, a, m.headers[a].(free := free));
    SetFlagTiles(s, i, free, 0, size);
    forall k: nat | k < |s'| ensures HeaderOk(m', s', k, at) {
      assert HeaderOk(m, s, k, at);
      assert Next(s', k, at) == Next(s, k, at);
      if k != i {
        OtherHeaders(m, s, i, k, m.headers[a].(free := free), at, size);
      }
    }
  }

  /** A split: the header of the new block is written first, then the old block's. */
  lemma SplitHeaders(m: Memory, s: seq<Seg>, i: nat, cut: nat, at: Place, size: nat)
    requires at.Valid() && Tiles(s, 0, size) && OnPages(s, at.page) && i < |s| && Describes(m, s, at)
    requires at.page <= cut && cut % at.page == 0 && cut < s[i].len
    ensures HeaderOk(m, s, i, at) && cut <= m.headers[at.virt + s[i].start].size
    ensures var s' := SplitAt(s, i, cut);
      Describes(Split(m, s, i, cut, at), s', at) && Tiles(s', 0, size) && OnPages(s', at.page)
  {
    assert HeaderOk(m, s, i, at);
    SplitTiles(s, i, cut, 0, size);
    SplitOnPages(s, i, cut, at.page);
    MultipleGap(cut, s[i].len, at.page);
    var m2, s' := Split(m, s, i, cut, at), SplitAt(s, i, cut);
    forall k: nat | k < |s'| ensures HeaderOk(m2, s', k, at) {
      SplitHeader(m, s, i, cut, k, at, size);
    }
  }

  /** The two header writes of a split. */
  function Split(m: Memory, s: seq<Seg>, i: nat, cut: nat, at: Place): Memory
    requires i < |s| && at.virt + s[i].start in m.headers
    requires at.page <= cut <= m.headers[at.virt + s[i].start].size
  {
    var a: nat := at.virt + s[i].start;
    var h := m.headers[a];
    var m1 := PutHeader(m, a + cut, Header(h.size - cut, true, h.next));
    PutHeader(m1, a, Header(cut - at.page, h.free, a + cut))
  }

  lemma SplitHeader(m: Memory, s: seq<Seg>, i: nat, cut: nat, k: nat, at: Place, size: nat)
    requires at.Valid() && i < |s| && k <= |s| && Describes(m, s, at)
    requires HeaderOk(m, s, i, at) && at.page <= cut <= s[i].len - at.page
    requires Tiles(SplitAt(s, i, cut), 0, size) && OnPages(SplitAt(s, i, cut), at.page)
    ensures HeaderOk(Split(m, s, i, cut, at), SplitAt(s, i, cut), k, at)
  {
    hide Tiles, OnPages, PutHeader;
    if k != i && k != i + 1 {
      var a: nat := at.virt + s[i].start;
      var h := m.headers[a];
      var k0 := if k < i then k else k - 1;
      assert HeaderOk(m, s, k0, at);
      var s' := SplitAt(s, i, cut);
      SameHeader(m, s, k0, s', k, at);
      TwoWrites(m, s', i, k, Header(h.size - cut, true, h.next), Header(cut - at.page, h.free, a + cut), at, size);
    } else {
      SplitOwnHeaders(m, s, i, cut, at);
    }
  }

  lemma TwoWrites(m: Memory, s: seq<Seg>, i: nat, k: nat, h1: Header, h2: Header, at: Place, size: nat)
    requires at.Valid() && Tiles(s, 0, size) && OnPages(s, at.page) && i + 1 < |s| && k < |s|
    requires k != i && k != i + 1 && HeaderOk(m, s, k, at)
    ensures HeaderOk(PutHeader(PutHeader(m, at.virt + s[i + 1].start, h1), at.virt + s[i].start, h2), s, k, at)
  {
    hide Tiles, OnPages, HeaderOk, PutHeader;
    OtherHeaders(m, s, i + 1, k, h1, at, size);
    OtherHeaders(PutHeader(m, at.virt + s[i + 1].start, h1), s, i, k, h2, at, size);
  }

  lemma SplitOwnHeaders(m: Memory, s: seq<Seg>, i: nat, cut: nat, at: Place)
    requires at.Valid() && i < |s| && HeaderOk(m, s, i, at) && at.page <= cut <= s[i].len - at.page
    ensures HeaderOk(Split(m, s, i, cut, at), SplitAt(s, i, cut), i, at)
    ensures HeaderOk(Split(m, s, i, cut, at), SplitAt(s, i, cut), i + 1, at)
  {
  }

  lemma SameHeader(m: Memory, s: seq<Seg>, i: nat, s': seq<Seg>, j: nat, at: Place)
    requires i < |s| && j < |s'| && HeaderOk(m, s, i, at)
    requires s[i] == s'[j] && (i + 1 < |s| <==> j + 1 < |s'|)
    requires i + 1 < |s| ==> s[i + 1].start == s'[j + 1].start
    ensures HeaderOk(m, s', j, at)
  {
  }

  lemma SplitOnPages(s: seq<Seg>, i: nat, cut: nat, page: nat)
    requires page > 0 && OnPages(s, page) && i < |s| && cut % page == 0 && cut < s[i].len
    ensures OnPages(SplitAt(s, i, cut), page)
  {
    MultiplesClosed(s[i].start, cut, page);
    MultiplesClosed(s[i].len, cut, page);
  }

  /** A merge: `size += pagesize + next->size; next = next->next`. */
  lemma JoinHeaders(m: Memory, s: seq<Seg>, i: nat, at: Place, size: nat)
    requires at.Valid() && Tiles(s, 0, size) && OnPages(s, at.page) && Describes(m, s, at)
    requires i + 1 < |s| && s[i].free
    ensures HeaderOk(m, s, i, at) && HeaderOk(m, s, i + 1, at)
    ensures var a := at.virt + s[i].start;
      var h := m.headers[a];
      var n := m.headers[h.next];
      var m' := PutHeader(m, a, Header(h.size + at.page + n.size, h.free, n.next));
      var s' := JoinAt(s, i);
      && Describes(m', s', at) && Tiles(s', 0, size) && OnPages(s', at.page)
  {
    hide Tiles, HeaderOk, JoinAt, PutHeader;
    assert HeaderOk(m, s, i, at) && HeaderOk(m, s, i + 1, at);
    LinkedTo(m, s, i, at);
    var s' := JoinAt(s, i);
    JoinTiles(s, i, 0, size);
    MultiplesClosed(s[i].len, s[i + 1].len, at.page);
    var m' := Joined(m, s, i, at);
    forall k: nat | k < |s'| ensures HeaderOk(m', s', k, at) { JoinHeaderAt(m, s, i, at, size, k); }
  }

  lemma LinkedTo(m: Memory, s: seq<Seg>, i: nat, at: Place)
    requires i + 1 < |s| && HeaderOk(m, s, i, at) && HeaderOk(m, s, i + 1, at)
    ensures var a := at.virt + s[i].start; a in m.headers && m.headers[a].next in m.headers
    ensures m.headers[at.virt + s[i].start].next == at.virt + s[i + 1].start
  {
  }

  /** Memory after the merge's one header write. */
  ghost function Joined(m: Memory, s: seq<Seg>, i: nat, at: Place): Memory
    requires i + 1 < |s|
    requires var a := at.virt + s[i].start; a in m.headers && m.headers[a].next in m.headers
  {
    var a := at.virt + s[i].start;
    var h := m.headers[a];
    var n := m.headers[h.next];
    PutHeader(m, a, Header(h.size + at.page + n.size, h.free, n.next))
  }

  lemma JoinHeaderAt(m: Memory, s: seq<Seg>, i: nat, at: Place, size: nat, k: nat)
    requires at.Valid() && Tiles(s, 0, size) && OnPages(s, at.page) && Describes(m, s, at)
    requires i + 1 < |s| && s[i].free && HeaderOk(m, s, i, at) && HeaderOk(m, s, i + 1, at)
    requires var a := at.virt + s[i].start; a in m.headers && m.headers[a].next in m.headers
    requires k < |JoinAt(s, i)| && Tiles(JoinAt(s, i), 0, size) && OnPages(JoinAt(s, i), at.page)
    ensures HeaderOk(Joined(m, s, i, at), JoinAt(s, i), k, at)
  {
    hide Tiles, JoinAt;
    var s' := JoinAt(s, i);
    var h := m.headers[at.virt + s[i].start];
    var n := m.headers[h.next];
    if k == i {
      assert Next(s', i, at) == Next(s, i + 1, at);
    } else {
      var k0 := if k < i then k else k + 1;
      assert HeaderOk(m, s, k0, at);
      assert s'[k] == s[k0] && Next(s', k, at) == Next(s, k0, at);
      assert HeaderOk(m, s', k, at);
      OtherHeaders(m, s', i, k, Header(h.size + at.page + n.size, h.free, n.next), at, size);
    }
  }
}
