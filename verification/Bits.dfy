/**
 * Machine words as natural numbers: powers of two, single bits, and the bitwise operators the
 * driver uses for shift/mask address arithmetic and for its queue-id bitmap.
 */
module Bits {
  import opened Arith

  const SIZE_MAX: nat := 0xFFFF_FFFF_FFFF_FFFF

  function Pow2(n: nat): (r: nat)
    ensures r > 0
    ensures n <= r
  {
    if n == 0 then 1 else 2 * Pow2(n - 1)
  }

  /** C's `x >> n` on an unsigned word. */
  function Shr(x: nat, n: nat): nat {
    DivMonotone(0, x, Pow2(n));
    x / Pow2(n)
  }

  /** C's `x << n`, where no bit is lost. */
  function Shl(x: nat, n: nat): nat {
    x * Pow2(n)
  }

  /** C's `a & b` on unsigned words, bit by bit from the lowest. */
  function And(a: nat, b: nat): nat {
    if a == 0 || b == 0 then 0
    else (a % 2) * (b % 2) + 2 * And(a / 2, b / 2)
  }

  /** C's `a | b` on unsigned words. */
  function Or(a: nat, b: nat): nat
    decreases a + b
  {
    if a == 0 then b else if b == 0 then a
    else (if a % 2 == 1 || b % 2 == 1 then 1 else 0) + 2 * Or(a / 2, b / 2)
  }

  /** C's `~a` on a 64-bit word. */
  function Not64(a: nat): nat
    requires a <= SIZE_MAX
  {
    SIZE_MAX - a
  }

  predicate Bit(w: nat, i: nat) {
    if i == 0 then w % 2 == 1 else Bit(w / 2, i - 1)
  }

  ghost predicate IsPow2(x: nat) {
    exists n: nat :: x == Pow2(n)
  }

  lemma {:induction false} Pow2Unfold(n: nat)
    ensures Pow2(n + 1) == 2 * Pow2(n)
  {
  }

  /** Masking with `2^n - 1` is the remainder: justifies every `x & (size - 1)` in the driver. */
  lemma {:induction false} MaskIsRemainder(x: nat, n: nat)
    ensures And(x, Pow2(n) - 1) == x % Pow2(n)
  {
    hide And;
    if n == 0 {
      AndZero(x);
    } else {
      var p := Pow2(n - 1);
      MaskIsRemainder(x / 2, n - 1);
      HalfRemainder(x, p);
      AndOdd(x, p - 1);
    }
  }

  lemma AndZero(x: nat)
    ensures And(x, 0) == 0 && And(0, x) == 0
  {
  }

  lemma AndOdd(x: nat, k: nat)
    ensures And(x, 2 * k + 1) == x % 2 + 2 * And(x / 2, k)
  {
    var m := 2 * k + 1;
    assert m % 2 == 1 && m / 2 == k;
  }

  lemma {:induction false} HalfRemainder(x: nat, p: nat)
    requires p > 0
    ensures x % (2 * p) == x % 2 + 2 * ((x / 2) % p)
  {
    var q, r := (x / 2) / p, (x / 2) % p;
    assert x == (2 * p) * q + (x % 2 + 2 * r) by {
      assert x / 2 == p * q + r;
      assert 2 * (p * q) == (2 * p) * q;
    }
    DivModUnique(x, 2 * p, q, x % 2 + 2 * r);
  }

  /** `x & (x - 1) == 0` with `x != 0` recognises exactly the powers of two. */
  lemma {:induction false} PowerTest(x: nat)
    requires x > 0
    ensures And(x, x - 1) == 0 <==> IsPow2(x)
  {
    if x == 1 {
      assert x == Pow2(0);
    } else if x % 2 == 0 {
      PowerTest(x / 2);
      assert (x - 1) / 2 == x / 2 - 1 && (x - 1) % 2 == 1;
      if IsPow2(x / 2) {
        var n: nat :| x / 2 == Pow2(n);
        assert x == Pow2(n + 1);
      }
      if IsPow2(x) {
        var n: nat :| x == Pow2(n);
        assert n > 0 && x / 2 == Pow2(n - 1);
      }
    } else {
      assert (x - 1) / 2 == x / 2 && (x - 1) % 2 == 0;
      AndSelf(x / 2);
      forall n: nat ensures x != Pow2(n) {
        if n > 0 { assert Pow2(n) == 2 * Pow2(n - 1); }
      }
    }
  }

  lemma {:induction false} AndSelf(x: nat)
    ensures And(x, x) == x
  {
    if x > 0 {
      AndSelf(x / 2);
      BitSquare(x % 2);
    }
  }

  lemma BitSquare(b: nat)
    requires b < 2
    ensures b * b == b
  {
  }

  lemma {:induction false} Pow2Monotone(a: nat, b: nat)
    requires a < b
    ensures Pow2(a) < Pow2(b)
  {
    if a + 1 < b { Pow2Monotone(a, b - 1); }
  }

  lemma {:induction false} Pow2Product(a: nat, c: nat)
    ensures Pow2(a + c) == Pow2(a) * Pow2(c)
  {
    if c > 0 {
      Pow2Product(a, c - 1);
      Pow2Unfold(a + c - 1);
      Pow2Unfold(c - 1);
      TwiceProduct(Pow2(a), Pow2(c - 1));
    }
  }

  lemma TwiceProduct(p: int, q: int)
    ensures p * (2 * q) == 2 * (p * q)
  {
  }

  lemma Pow2Divides(a: nat, b: nat)
    requires a <= b
    ensures Pow2(b) % Pow2(a) == 0
    ensures Pow2(b) == Pow2(a) * Pow2(b - a)
  {
    Pow2Product(a, b - a);
    Multiple(Pow2(a), Pow2(b - a));
  }

  /** debug.h: the smallest shift that reaches `pageSize`; exact for a power of two. */
  method ShiftFromSize(pageSize: nat) returns (shift: nat)
    requires pageSize != 0 && And(pageSize, pageSize - 1) == 0
    ensures Pow2(shift) == pageSize
    ensures forall x: nat :: Shr(x, shift) == x / pageSize && And(x, pageSize - 1) == x % pageSize
  {
    PowerTest(pageSize);
    ghost var n: nat :| pageSize == Pow2(n);
    shift := 0;
    while Pow2(shift) < pageSize
      invariant shift <= n
      decreases n - shift
    {
      shift := shift + 1;
      if shift > n { Pow2Monotone(n, shift); }
    }
    if shift < n { Pow2Monotone(shift, n); }
    forall x: nat ensures And(x, pageSize - 1) == x % pageSize { MaskIsRemainder(x, shift); }
  }

  lemma {:induction false} BitOfOr(a: nat, b: nat, i: nat)
    ensures Bit(Or(a, b), i) <==> Bit(a, i) || Bit(b, i)
  {
    if a == 0 {
      BitOfZero(i);
    } else if b == 0 {
      BitOfZero(i);
    } else if i > 0 {
      BitOfOr(a / 2, b / 2, i - 1);
    }
  }

  lemma {:induction false} BitOfAnd(a: nat, b: nat, i: nat)
    ensures Bit(And(a, b), i) <==> Bit(a, i) && Bit(b, i)
  {
    if a == 0 || b == 0 {
      BitOfZero(i);
    } else if i > 0 {
      BitOfAnd(a / 2, b / 2, i - 1);
      assert (a % 2) * (b % 2) <= 1;
    } else {
      assert (a % 2) * (b % 2) == (if a % 2 == 1 && b % 2 == 1 then 1 else 0);
    }
  }

  lemma {:induction false} BitOfZero(i: nat)
    ensures !Bit(0, i)
  {
    if i > 0 { BitOfZero(i - 1); }
  }

  lemma {:induction false} BitOfPow2(n: nat, i: nat)
    ensures Bit(Pow2(n), i) <==> i == n
  {
    if n == 0 {
      if i > 0 { BitOfZero(i - 1); }
    } else if i > 0 {
      BitOfPow2(n - 1, i - 1);
    }
  }

  /** Complementing an n-bit word flips each of its bits. */
  lemma {:induction false} BitOfComplement(n: nat, a: nat, i: nat)
    requires a < Pow2(n) && i < n
    ensures Bit(Pow2(n) - 1 - a, i) <==> !Bit(a, i)
  {
    var c := Pow2(n) - 1 - a;
    assert c % 2 == 1 - a % 2 && c / 2 == Pow2(n - 1) - 1 - a / 2;
    if i > 0 { BitOfComplement(n - 1, a / 2, i - 1); }
  }

  /** The all-ones word has every bit set ... */
  lemma {:induction false} AllOnesBit(n: nat, i: nat)
    requires i < n
    ensures Bit(Pow2(n) - 1, i)
  {
    assert (Pow2(n) - 1) / 2 == Pow2(n - 1) - 1;
    if i > 0 { AllOnesBit(n - 1, i - 1); }
  }

  /** ... and every other word has a clear one. */
  lemma {:induction false} ClearBit(n: nat, a: nat) returns (i: nat)
    requires a < Pow2(n) - 1
    ensures i < n && !Bit(a, i)
  {
    if a % 2 == 0 {
      i := 0;
    } else {
      i := ClearBit(n - 1, a / 2);
      i := i + 1;
    }
  }

  lemma {:induction false} OrBound(n: nat, a: nat, b: nat)
    requires a < Pow2(n) && b < Pow2(n)
    ensures Or(a, b) < Pow2(n)
  {
    if a != 0 && b != 0 { OrBound(n - 1, a / 2, b / 2); }
  }

  lemma {:induction false} AndBound(a: nat, b: nat)
    ensures And(a, b) <= a
  {
    if a != 0 && b != 0 {
      AndBound(a / 2, b / 2);
      assert (a % 2) * (b % 2) <= a % 2;
    }
  }

  lemma Pow2Of64()
    ensures Pow2(64) == SIZE_MAX + 1
  {
    assert Pow2(4) == 16;
    Pow2Divides(4, 8);
    Pow2Divides(8, 16);
    Pow2Divides(16, 32);
    Pow2Divides(32, 64);
  }

  /** The driver's rounding `(x + p - 1) & ~(p - 1)` is the least multiple of `p` not below `x`. */
  lemma {:induction false} RoundUpMask(x: nat, n: nat)
    requires n < 64 && x + Pow2(n) - 1 <= SIZE_MAX && Pow2(n) <= SIZE_MAX
    ensures var r := And(x + Pow2(n) - 1, Not64(Pow2(n) - 1));
            r % Pow2(n) == 0 && x <= r < x + Pow2(n)
  {
    hide And, Pow2;
    var p, y := Pow2(n), x + Pow2(n) - 1;
    Pow2Of64();
    ClearLow(y, n, 64);
    FloorMultiple(y, p);
    RemainderBelow(y, p);
  }

  lemma RemainderBelow(y: nat, p: nat)
    requires p > 0
    ensures y % p < p
  {
  }

  /** `(x + align - 1) & ~(align - 1)`: `x` rounded up to the alignment. */
  function RoundUp(x: nat, align: nat): nat
    requires 0 < align <= SIZE_MAX
  {
    And(x + align - 1, Not64(align - 1))
  }

  lemma RoundUpBounds(x: nat, align: nat)
    requires IsPow2(align) && align <= SIZE_MAX && x + align - 1 <= SIZE_MAX
    ensures x <= RoundUp(x, align) < x + align && RoundUp(x, align) % align == 0
  {
    var n: nat :| align == Pow2(n);
    Pow2Of64();
    if n >= 64 {
      if n > 64 { Pow2Monotone(64, n); }
    }
    RoundUpMask(x, n);
  }

  lemma {:induction false} ClearLow(y: nat, n: nat, w: nat)
    requires n <= w && y < Pow2(w)
    ensures Pow2(n) <= Pow2(w) && And(y, Pow2(w) - Pow2(n)) == y - y % Pow2(n)
  {
    if n < w { Pow2Monotone(n, w); }
    if n == 0 {
      AndAllOnes(y, w);
    } else {
      ClearLow(y / 2, n - 1, w - 1);
      ClearHalf(y, Pow2(n - 1), Pow2(w - 1) - Pow2(n - 1));
    }
  }

  lemma ClearHalf(y: nat, p: nat, k: nat)
    requires p > 0 && And(y / 2, k) == y / 2 - y / 2 % p
    ensures And(y, 2 * k) == y - y % (2 * p)
  {
    HalfRemainder(y, p);
    AndEven(y, k);
  }

  lemma AndEven(x: nat, k: nat)
    ensures And(x, 2 * k) == 2 * And(x / 2, k)
  {
    var m := 2 * k;
    assert m % 2 == 0 && m / 2 == k;
  }

  lemma {:induction false} AndAllOnes(y: nat, w: nat)
    requires y < Pow2(w)
    ensures And(y, Pow2(w) - 1) == y
  {
    MaskIsRemainder(y, w);
    DivModUnique(y, Pow2(w), 0, y);
  }

  lemma PageCountFits(count: nat, page: nat, total: nat)
    requires page > 0 && count * page == total <= SIZE_MAX && total > 0
    ensures 0 < count <= SIZE_MAX / page
  {
    DivMonotone(total, SIZE_MAX, page);
    assert page * count == count * page;
    Multiple(page, count);
  }

  /** Bit `k` of a word. */
  predicate BitSet(x: nat, k: nat) {
    x / Pow2(k) % 2 == 1
  }

  /** A remainder of `2^n` is zero exactly when none of the low `n` bits is set. */
  lemma {:induction false} LowBits(x: nat, n: nat)
    ensures x % Pow2(n) == 0 <==> forall k: nat :: k < n ==> !BitSet(x, k)
  {
    if n == 0 {
      DivModUnique(x, 1, x, 0);
    } else {
      LowBits(x / 2, n - 1);
      HalfRemainder(x, Pow2(n - 1));
      assert Pow2(n) == 2 * Pow2(n - 1);
      assert BitSet(x, 0) <==> x % 2 == 1 by { assert Pow2(0) == 1; }
      forall k: nat ensures BitSet(x, k + 1) <==> BitSet(x / 2, k) { NextBit(x, k); }
      if forall k: nat :: k < n ==> !BitSet(x, k) {
        forall k: nat | k < n - 1 ensures !BitSet(x / 2, k) { assert !BitSet(x, k + 1); }
      }
      if x % Pow2(n) == 0 {
        forall k: nat | k < n ensures !BitSet(x, k) {
          if k > 0 { assert BitSet(x, k - 1 + 1) <==> BitSet(x / 2, k - 1); }
        }
      }
    }
  }

  lemma NextBit(x: nat, k: nat)
    ensures BitSet(x, k + 1) <==> BitSet(x / 2, k)
  {
    Pow2Unfold(k);
    HalfQuotient(x, Pow2(k));
  }

  lemma HalfQuotient(x: nat, p: nat)
    requires p > 0
    ensures x / (2 * p) == (x / 2) / p
  {
    var q, r := (x / 2) / p, (x / 2) % p;
    assert x == 2 * (x / 2) + x % 2 && x / 2 == p * q + r;
    assert 2 * (p * q) == (2 * p) * q;
    DivModUnique(x, 2 * p, q, 2 * r + x % 2);
  }
}
