/** The few facts about division and remainder that address arithmetic needs. */
module Arith {

  lemma MulAtLeast(k: int, d: nat)
    requires k >= 1
    ensures k * d >= d
  {
  }

  lemma MulMonotone(a: int, b: int, d: nat)
    requires a <= b
    ensures a * d <= b * d
  {
    assert (b - a) * d >= 0;
    assert (b - a) * d == b * d - a * d;
  }

  lemma {:induction false} DivModUnique(x: int, d: nat, q: int, r: int)
    requires d > 0 && 0 <= r < d && x == d * q + r
    ensures x / d == q && x % d == r
  {
    var q', r' := x / d, x % d;
    assert d * q' + r' == d * q + r;
    assert (q - q') * d == d * q - d * q' && (q' - q) * d == d * q' - d * q;
    if q > q' { MulAtLeast(q - q', d); }
    if q < q' { MulAtLeast(q' - q, d); }
  }

  lemma {:induction false} AddMultiple(x: int, d: nat, k: int)
    requires d > 0
    ensures (x + d * k) / d == x / d + k && (x + d * k) % d == x % d
  {
    var q, r := x / d, x % d;
    assert x == d * q + r;
    assert x + d * k == d * (q + k) + r by { assert d * (q + k) == d * q + d * k; }
    DivModUnique(x + d * k, d, q + k, r);
  }

  lemma {:induction false} Multiple(d: nat, k: int)
    requires d > 0
    ensures (d * k) / d == k && (d * k) % d == 0
  {
    DivModUnique(d * k, d, k, 0);
  }

  /** A sum or difference of multiples of `d` is a multiple of `d`. */
  lemma {:induction false} MultiplesClosed(a: int, b: int, d: nat)
    requires d > 0 && a % d == 0 && b % d == 0
    ensures (a + b) % d == 0 && (a - b) % d == 0
  {
    assert b == d * (b / d);
    AddMultiple(a, d, b / d);
    AddMultiple(a, d, -(b / d));
    assert d * -(b / d) == -b by { assert d * -(b / d) == -(d * (b / d)); }
  }

  /** Divisibility is transitive. */
  lemma {:induction false} MultipleOfMultiple(a: int, b: nat, c: nat)
    requires b > 0 && c > 0 && a % b == 0 && b % c == 0
    ensures a % c == 0
  {
    var q, r := a / b, b / c;
    assert a == b * q && b == c * r;
    assert a == c * (r * q) by { assert c * (r * q) == (c * r) * q; }
    Multiple(c, r * q);
  }

  /** The remainder by a multiple of `d` keeps the remainder by `d`. */
  lemma {:induction false} RemainderOfRemainder(x: int, b: nat, d: nat)
    requires b > 0 && d > 0 && b % d == 0
    ensures (x % b) % d == x % d
  {
    var q, r := x / b, b / d;
    assert x == b * q + x % b && b == d * r;
    assert x == x % b + d * (r * q) by { assert d * (r * q) == (d * r) * q; }
    AddMultiple(x % b, d, r * q);
  }

  lemma {:induction false} MultipleGap(a: int, b: int, d: nat)
    requires d > 0 && a % d == 0 && b % d == 0 && a < b
    ensures a + d <= b
  {
    MultiplesClosed(b, a, d);
    var k := (b - a) / d;
    assert b - a == d * k;
    assert k * d == d * k && -k * d == -(d * k);
    if k >= 1 { MulAtLeast(k, d); }
    if -k >= 1 { MulAtLeast(-k, d); }
  }

  lemma {:induction false} DivMonotone(a: int, b: int, d: nat)
    requires d > 0 && a <= b
    ensures a / d <= b / d
  {
    var q, p := a / d, b / d;
    assert a == d * q + a % d && b == d * p + b % d;
    assert (q - p) * d == d * q - d * p;
    if p < q { MulAtLeast(q - p, d); }
  }

  lemma {:induction false} FloorMultiple(x: nat, d: nat)
    requires d > 0
    ensures x % d <= x && (x - x % d) % d == 0
  {
    assert x == d * (x / d) + x % d;
    Multiple(d, x / d);
    DivMonotone(0, x, d);
  }

  /** There is one multiple of `align` in a range of that length. */
  lemma OneMultiple(x: nat, align: nat, m: nat)
    requires align > 0 && x <= m < x + align && m % align == 0
    ensures forall n: nat :: x <= n < x + align && n % align == 0 ==> n == m
  {
    forall n: nat | x <= n < x + align && n % align == 0 ensures n == m {
      if n < m { MultipleGap(n, m, align); }
      if m < n { MultipleGap(m, n, align); }
    }
  }
}
