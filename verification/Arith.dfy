/** Quotients and remainders with a variable divisor. */
module Arith {

  lemma MulMono(x: nat, y: nat, d: nat)
    ensures x <= y ==> x * d <= y * d
  {
  }

  lemma DivBound(a: nat, n: nat, d: nat)
    requires d >= 1 && a < n * d
    ensures a / d < n
  {
    MulMono(n, a / d, d);
  }

  lemma DivIs(a: nat, q: nat, d: nat)
    requires d >= 1
    ensures a / d == q <==> q * d <= a < q * d + d
  {
    var k := a / d;
    assert a == k * d + a % d;
    MulMono(q + 1, k, d);
    MulMono(k + 1, q, d);
  }

  lemma DivRange(a: nat, b: nat, d: nat)
    requires d >= 1
    ensures a / d == b / d <==> b - b % d <= a < b - b % d + d
    ensures a / d == b / d ==> a % d == a - (b - b % d)
  {
    assert b == (b / d) * d + b % d && a == (a / d) * d + a % d;
    DivIs(a, b / d, d);
  }

  lemma DivUnique(a: nat, q: nat, r: nat, d: nat)
    requires d >= 1 && r < d && a == q * d + r
    ensures a / d == q && a % d == r
  {
    MulMono(q + 1, a / d, d);
    MulMono(a / d + 1, q, d);
  }

  lemma SumOfMultiples(x: nat, y: nat, d: nat)
    requires d >= 1 && x % d == 0 && y % d == 0
    ensures (x + y) % d == 0 && (x + y) / d == x / d + y / d
  {
    assert x + y == (x / d + y / d) * d;
    DivUnique(x + y, x / d + y / d, 0, d);
  }

  lemma NextMultiple(x: nat, y: nat, d: nat)
    requires d >= 1 && x % d == 0 && y % d == 0 && x < y
    ensures x + d <= y
  {
    assert x == (x / d) * d && y == (y / d) * d;
    MulMono(y / d, x / d, d);
    MulMono(x / d + 1, y / d, d);
  }

  lemma MultipleOfProduct(p: nat, n: nat, d: nat)
    requires n >= 1 && d >= 1 && n * d >= 1 && p % (n * d) == 0
    ensures p % d == 0
  {
    var k := p / (n * d);
    assert p == (n * d) * k == (n * k) * d;
    DivUnique(p, n * k, 0, d);
  }

  /** Masking out the upper bits before or after dividing is the same. */
  lemma MaskIndex(a: nat, n: nat, d: nat)
    requires n >= 1 && d >= 1 && n * d >= 1
    ensures (a % (n * d)) / d == (a / d) % n
    ensures (a % (n * d)) % d == a % d
  {
    var c := n * d;
    var q, r := a / c, a % c;
    var r1, r2 := r / d, r % d;
    DivBound(r, n, d);
    Regroup(q, n, d, r1, r2);
    DivUnique(a, q * n + r1, r2, d);
    DivUnique(q * n + r1, q, r1, n);
  }

  lemma Regroup(q: nat, n: nat, d: nat, r1: nat, r2: nat)
    ensures q * (n * d) + (r1 * d + r2) == (q * n + r1) * d + r2
  {
  }

  lemma ModShift(q: nat, r: nat, n: nat)
    requires n > 0
    ensures (q * n + r) % n == r % n
  {
    Regroup(q, 1, n, r / n, r % n);
    DivUnique(q * n + r, q + r / n, r % n, n);
  }

  lemma QuotientAndRest(a: nat, n: nat) returns (q: nat, r: nat)
    requires n > 0
    ensures a == q * n + r && r < n && r == a % n
  {
    q, r := a / n, a % n;
  }

  /** What is left of a budget of two for each piece and unit covers one more unit. */
  lemma Budget(done: nat, n: nat, b: nat)
    requires n >= 1
    ensures 2 * (done + n) * b - 2 * done * b >= b
  {
    Distribute(2 * done, 2 * n, b);
    MulMono(1, 2 * n, b);
  }

  lemma Spent(done: nat, ps: nat, b: nat)
    requires ps >= 1
    ensures 2 * done * b + (1 + ps) * b <= 2 * (done + ps) * b
  {
    Distribute(2 * done, 2 * ps, b);
    MulMono(1 + ps, 2 * ps, b);
  }

  lemma Distribute(x: int, y: int, n: int)
    ensures x * n + y * n == (x + y) * n
  {
  }
}
