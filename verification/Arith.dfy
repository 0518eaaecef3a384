/** Non-linear facts about products, quotients and remainders. */
module Arith {
  lemma MulMono(a: int, b: int, d: int)
    requires a <= b && 0 <= d
    ensures a * d <= b * d
  {}

  lemma MulDistributes(a: int, b: int, d: int)
    ensures (a + b) * d == a * d + b * d
    ensures (a - b) * d == a * d - b * d
  {}

  lemma MulAssociates(a: int, b: int, c: int)
    ensures a * b * c == a * (b * c)
  {}

  /** Quotient and remainder are determined by the division equation. */
  lemma DivModUnique(x: int, q: int, r: int, d: int)
    requires 0 <= r < d && x == q * d + r
    ensures x / d == q && x % d == r
  {
    var q', r' := x / d, x % d;
    assert x == q' * d + r';
    if q < q' {
      MulMono(q + 1, q', d);
      MulDistributes(q, 1, d);
    } else if q' < q {
      MulMono(q' + 1, q, d);
      MulDistributes(q', 1, d);
    }
  }

  lemma ModStep(i: nat, d: nat)
    requires 0 < d <= i
    ensures (i - d) % d == i % d
    ensures i / d == (i - d) / d + 1
  {
    var q, r := (i - d) / d, (i - d) % d;
    MulDistributes(q, 1, d);
    DivModUnique(i, q + 1, r, d);
  }

  lemma DivLe(a: nat, b: nat)
    requires b > 0
    ensures a / b <= a
  {
    assert a == a / b * b + a % b;
    MulMono(1, b, a / b);
  }

  lemma DivMono(a: nat, b: nat, d: nat)
    requires a <= b && d > 0
    ensures a / d <= b / d
  {
    assert a == a / d * d + a % d && b == b / d * d + b % d;
    if b / d < a / d {
      MulMono(b / d + 1, a / d, d);
      MulDistributes(b / d, 1, d);
    }
  }

  lemma DivModSucc(n: nat, d: nat)
    requires d > 0
    ensures n % d == d - 1 ==> (n + 1) / d == n / d + 1 && (n + 1) % d == 0
    ensures n % d < d - 1 ==> (n + 1) / d == n / d && (n + 1) % d == n % d + 1
  {
    var q, r := n / d, n % d;
    assert n == q * d + r;
    if r == d - 1 {
      MulDistributes(q, 1, d);
      DivModUnique(n + 1, q + 1, 0, d);
    } else {
      DivModUnique(n + 1, q, r + 1, d);
    }
  }

  /** Quotients are below `q` exactly for numbers below `q * d`. */
  lemma DivBelow(n: nat, q: nat, d: nat)
    requires d > 0
    ensures n / d < q <==> n < q * d
  {
    assert n == n / d * d + n % d;
    if n / d < q {
      MulMono(n / d + 1, q, d);
      MulDistributes(n / d, 1, d);
    } else {
      MulMono(q, n / d, d);
    }
  }
}
