/**
 * The queue-identifier bitmap (nvme_qid.h): 1023 words of 64 bits that stand for a set of ids.
 */
module Qid {
  import Arith
  import opened Bits
  import opened Common

  const WORD_BITS: nat := 64
  const QID_MAX: nat := 0xFFFF
  const BITMAP_WORDS: nat := QID_MAX / WORD_BITS
  /** The ids the words have room for: 65472, fewer than QID_MAX. */
  const CAPACITY: nat := BITMAP_WORDS * WORD_BITS

  ghost predicate Words(w: seq<nat>) {
    |w| == BITMAP_WORDS && forall k :: 0 <= k < |w| ==> w[k] <= SIZE_MAX
  }

  ghost predicate Taken(w: seq<nat>, id: nat)
    requires |w| == BITMAP_WORDS && id < CAPACITY
  {
    Bit(w[id / WORD_BITS], id % WORD_BITS)
  }

  /** The set a bitmap stands for. */
  ghost function Ids(w: seq<nat>): set<nat>
    requires |w| == BITMAP_WORDS
  {
    set id: nat | id < CAPACITY && Taken(w, id)
  }

  // ---- Single bits by shift and mask

  lemma {:induction false} ShiftedBit(w: nat, n: nat)
    ensures And(Shr(w, n), 1) == if Bit(w, n) then 1 else 0
  {
    if n == 0 {
      assert Shr(w, 0) == w;
      LowBit(w);
    } else {
      ShiftedBit(w / 2, n - 1);
      HalfShift(w, n);
    }
  }

  lemma LowBit(x: nat)
    ensures And(x, 1) == x % 2
  {
    MaskIsRemainder(x, 1);
  }

  lemma HalfShift(w: nat, n: nat)
    requires n > 0
    ensures Shr(w, n) == Shr(w / 2, n - 1)
  {
    HalfQuotient(w, Pow2(n - 1));
  }

  lemma HalfQuotient(w: nat, p: nat)
    requires p > 0
    ensures w / (2 * p) == w / 2 / p
  {
    var q, r := w / 2 / p, w % 2 + 2 * (w / 2 % p);
    assert w / 2 == p * q + w / 2 % p;
    assert 2 * p * q == 2 * (p * q);
    Arith.DivModUnique(w, 2 * p, q, r);
  }

  lemma {:induction false} MaskedBit(w: nat, n: nat)
    ensures And(w, Pow2(n)) == if Bit(w, n) then Pow2(n) else 0
  {
    if w == 0 {
      BitOfZero(n);
    } else if n > 0 {
      MaskedBit(w / 2, n - 1);
      assert Pow2(n) % 2 == 0 && Pow2(n) / 2 == Pow2(n - 1);
    } else {
      assert And(w / 2, 0) == 0;
    }
  }

  lemma SetBit(w: nat, n: nat, i: nat)
    requires w <= SIZE_MAX && n < WORD_BITS
    ensures Or(w, Shl(1, n)) <= SIZE_MAX
    ensures Bit(Or(w, Shl(1, n)), i) <==> Bit(w, i) || i == n
  {
    Pow2Of64();
    Pow2Monotone(n, 64);
    OrBound(64, w, Pow2(n));
    BitOfOr(w, Pow2(n), i);
    BitOfPow2(n, i);
  }

  lemma MaskWord(n: nat)
    requires n < WORD_BITS
    ensures Shl(1, n) <= SIZE_MAX
  {
    Pow2Of64();
    Pow2Monotone(n, 64);
  }

  lemma ClearOneBit(w: nat, n: nat, i: nat)
    requires w <= SIZE_MAX && n < WORD_BITS && i < WORD_BITS
    ensures Shl(1, n) <= SIZE_MAX && And(w, Not64(Shl(1, n))) <= SIZE_MAX
    ensures Bit(And(w, Not64(Shl(1, n))), i) <==> Bit(w, i) && i != n
  {
    MaskWord(n);
    Pow2Of64();
    AndBound(w, Not64(Pow2(n)));
    BitOfAnd(w, Not64(Pow2(n)), i);
    BitOfComplement(64, Pow2(n), i);
    BitOfPow2(n, i);
  }

  // ---- The operations

  /** What a call does: return a value, or reach for a word past the last one, which C leaves undefined. */
  datatype Access = Value(r: int) | Beyond

  /** The guard tests against QID_MAX, so it admits ids that no word holds: 65472 to 65534. */
  lemma GuardAdmits(qid: nat)
    requires qid < QID_MAX
    ensures qid / WORD_BITS < BITMAP_WORDS <==> qid < CAPACITY
    ensures qid >= CAPACITY ==> qid / WORD_BITS == BITMAP_WORDS
  {
    assert CAPACITY == WORD_BITS * BITMAP_WORDS;
  }

  /** nvme_qid_is_allocated. */
  method IsAllocated(bitmap: array<nat>, qid: nat) returns (res: Access)
    requires Words(bitmap[..])
    ensures res.Beyond? <==> CAPACITY <= qid < QID_MAX
    ensures qid >= QID_MAX ==> res == Value(-ERRNO_EINVAL)
    ensures qid < CAPACITY ==> res == Value(if qid in Ids(bitmap[..]) then 1 else 0)
  {
    if qid >= QID_MAX { return Value(-ERRNO_EINVAL); }
    GuardAdmits(qid);
    if qid / WORD_BITS >= bitmap.Length { return Beyond; }
    ShiftedBit(bitmap[qid / WORD_BITS], qid % WORD_BITS);
    return Value(And(Shr(bitmap[qid / WORD_BITS], qid % WORD_BITS), 1));
  }

  method Alloc(bitmap: array<nat>, qid: nat) returns (res: Access)
    requires Words(bitmap[..])
    modifies bitmap
    ensures Words(bitmap[..])
    ensures res.Beyond? <==> CAPACITY <= qid < QID_MAX
    ensures qid >= CAPACITY ==> bitmap[..] == old(bitmap[..])
    ensures qid >= QID_MAX ==> res == Value(-ERRNO_EINVAL)
    ensures qid < CAPACITY ==> res == Value(0) && Ids(bitmap[..]) == old(Ids(bitmap[..])) + {qid}
  {
    if qid >= QID_MAX { return Value(-ERRNO_EINVAL); }
    GuardAdmits(qid);
    if qid / WORD_BITS >= bitmap.Length { return Beyond; }
    hide Bit, Or, Shl;
    var k, bit := qid / WORD_BITS, qid % WORD_BITS;
    ghost var w := bitmap[..];
    SetBit(w[k], bit, 0);
    bitmap[k] := Or(bitmap[k], Shl(1, bit));
    forall id: nat | id < CAPACITY ensures Taken(bitmap[..], id) <==> Taken(w, id) || id == qid {
      if id / WORD_BITS == k { SetBit(w[k], bit, id % WORD_BITS); }
    }
    return Value(0);
  }

  method Free(bitmap: array<nat>, qid: nat) returns (res: Access)
    requires Words(bitmap[..])
    modifies bitmap
    ensures Words(bitmap[..])
    ensures res.Beyond? <==> CAPACITY <= qid < QID_MAX
    ensures qid >= CAPACITY ==> bitmap[..] == old(bitmap[..])
    ensures qid >= QID_MAX ==> res == Value(-ERRNO_EINVAL)
    ensures qid < CAPACITY ==> res == Value(0) && Ids(bitmap[..]) == old(Ids(bitmap[..])) - {qid}
  {
    if qid >= QID_MAX { return Value(-ERRNO_EINVAL); }
    GuardAdmits(qid);
    if qid / WORD_BITS >= bitmap.Length { return Beyond; }
    hide Bit, And, Shl;
    var k, bit := qid / WORD_BITS, qid % WORD_BITS;
    ghost var w := bitmap[..];
    ClearOneBit(w[k], bit, 0);
    bitmap[k] := And(bitmap[k], Not64(Shl(1, bit)));
    forall id: nat | id < CAPACITY ensures Taken(bitmap[..], id) <==> Taken(w, id) && id != qid {
      if id / WORD_BITS == k { ClearOneBit(w[k], bit, id % WORD_BITS); }
    }
    return Value(0);
  }

  /** Whatever the words held, only the admin queue's id is taken afterwards. */
  method Init(bitmap: array<nat>) returns (res: Access)
    requires bitmap.Length == BITMAP_WORDS
    modifies bitmap
    ensures res == Value(0) && Words(bitmap[..]) && Ids(bitmap[..]) == {0}
  {
    for k := 0 to BITMAP_WORDS
      invariant forall j :: 0 <= j < k ==> bitmap[j] == 0
    {
      bitmap[k] := 0;
    }
    forall id: nat | id < CAPACITY ensures !Taken(bitmap[..], id) { BitOfZero(id % WORD_BITS); }
    res := Alloc(bitmap, 0);
  }

  lemma TakenAt(w: seq<nat>, word: nat, bit: nat)
    requires |w| == BITMAP_WORDS && word < BITMAP_WORDS && bit < WORD_BITS
    ensures Taken(w, word * WORD_BITS + bit) <==> And(w[word], Shl(1, bit)) != 0
  {
    MaskedBit(w[word], bit);
  }

  lemma FullWord(w: seq<nat>, word: nat)
    requires |w| == BITMAP_WORDS && word < BITMAP_WORDS && w[word] == SIZE_MAX
    ensures forall id: nat :: word * WORD_BITS <= id < (word + 1) * WORD_BITS ==> Taken(w, id)
  {
    Pow2Of64();
    forall id: nat | word * WORD_BITS <= id < (word + 1) * WORD_BITS ensures Taken(w, id) {
      AllOnesBit(64, id % WORD_BITS);
    }
  }

  /** nvme_qid_find_free: the least id not taken, or -ENOMEM exactly when all are taken. */
  method FindFree(bitmap: array<nat>) returns (r: int)
    requires Words(bitmap[..])
    ensures r == LeastFree(Ids(bitmap[..]))
  {
    ghost var w := bitmap[..];
    hide Bit, And, LeastFree, Taken;
    for word := 0 to BITMAP_WORDS
      invariant forall id: nat :: id < word * WORD_BITS ==> Taken(w, id)
    {
      if bitmap[word] != SIZE_MAX {
        for bit := 0 to WORD_BITS
          invariant forall id: nat :: id < word * WORD_BITS + bit ==> Taken(w, id)
        {
          TakenAt(w, word, bit);
          if And(bitmap[word], Shl(1, bit)) == 0 {
            FirstMissing(Ids(w), word * WORD_BITS + bit);
            return word * WORD_BITS + bit;
          }
        }
      } else {
        FullWord(w, word);
      }
    }
    FirstMissing(Ids(w), CAPACITY);
    return -ERRNO_ENOMEM;
  }

  // ---- The set it refines

  ghost function LeastFrom(ids: set<nat>, from: nat): int
    decreases CAPACITY - from
  {
    if from >= CAPACITY then -ERRNO_ENOMEM else if from !in ids then from else LeastFrom(ids, from + 1)
  }

  /** The specification of find_free on sets of ids. */
  ghost function LeastFree(ids: set<nat>): (r: int)
  {
    LeastFrom(ids, 0)
  }

  lemma {:induction false} LeastFromFacts(ids: set<nat>, from: nat)
    requires from <= CAPACITY
    ensures var r := LeastFrom(ids, from);
      && (r >= 0 ==> from <= r < CAPACITY && r !in ids && forall id: nat :: from <= id < r ==> id in ids)
      && (r < 0 ==> r == -ERRNO_ENOMEM && forall id: nat :: from <= id < CAPACITY ==> id in ids)
    decreases CAPACITY - from
  {
    if from < CAPACITY && from in ids { LeastFromFacts(ids, from + 1); }
  }

  lemma FirstMissing(ids: set<nat>, n: nat)
    requires n <= CAPACITY && (forall id: nat :: id < n ==> id in ids) && (n < CAPACITY ==> n !in ids)
    ensures LeastFree(ids) == if n < CAPACITY then n else -ERRNO_ENOMEM
  {
    LeastFromFacts(ids, 0);
  }

  datatype Op = Take(id: nat) | Give(id: nat)

  ghost function Apply(ids: set<nat>, ops: seq<Op>): set<nat>
    decreases |ops|
  {
    if ops == [] then ids
    else
      var rest := Apply(ids, ops[..|ops| - 1]);
      match ops[|ops| - 1]
      case Take(id) => rest + {id}
      case Give(id) => rest - {id}
  }

  /** In any run that never frees the admin queue's id, find_free returns the least id not taken: never
      0, and failing exactly when every id is taken. */
  lemma {:induction false} NeverTheAdminQueue(ops: seq<Op>)
    requires forall k :: 0 <= k < |ops| ==> ops[k] != Give(0)
    ensures var ids, r := Apply({0}, ops), LeastFree(Apply({0}, ops));
      && 0 in ids && r != 0
      && (r > 0 ==> r < CAPACITY && r !in ids && forall id: nat :: id < r ==> id in ids)
      && (r < 0 <==> forall id: nat :: id < CAPACITY ==> id in ids)
    decreases |ops|
  {
    if ops != [] { NeverTheAdminQueue(ops[..|ops| - 1]); }
    LeastFromFacts(Apply({0}, ops), 0);
  }

  /** The ids found and taken one after another from a fresh bitmap. */
  ghost function TakeMany(n: nat): set<nat> {
    if n == 0 then {0}
    else
      var ids := TakeMany(n - 1);
      if LeastFree(ids) >= 0 then ids + {LeastFree(ids)} else ids
  }

  /** They are 1, 2, 3 and so on; 65471 queues can be created, and the next request fails. */
  lemma {:induction false} TakenInOrder(n: nat)
    requires n < CAPACITY
    ensures forall id: nat :: id in TakeMany(n) <==> id <= n
    ensures LeastFree(TakeMany(n)) == if n < 65471 then n + 1 else -ERRNO_ENOMEM
  {
    if n > 0 { TakenInOrder(n - 1); }
    FirstMissing(TakeMany(n), n + 1);
  }
}
