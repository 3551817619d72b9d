/// Powers and the few facts about non-linear integer arithmetic that the
/// other modules need.
module Arith {

  function Pow(b: nat, e: nat): nat
  {
    if e == 0 then 1 else b * Pow(b, e - 1)
  }

  lemma {:induction false} PowPositive(b: nat, e: nat)
    requires b > 0
    ensures Pow(b, e) > 0
  {
    if e > 0 {
      PowPositive(b, e - 1);
    }
  }

  lemma {:induction false} PowAdd(b: nat, e1: nat, e2: nat)
    ensures Pow(b, e1 + e2) == Pow(b, e1) * Pow(b, e2)
  {
    if e1 > 0 {
      PowAdd(b, e1 - 1, e2);
      assert e1 + e2 - 1 == (e1 - 1) + e2;
      MulAssoc(b, Pow(b, e1 - 1), Pow(b, e2));
    }
  }

  lemma DivModDecompose(n: nat, d: nat)
    requires d > 0
    ensures n == (n / d) * d + n % d && n % d < d
  {
  }

  lemma DivShrinks(n: nat, d: nat)
    requires 2 <= d <= n
    ensures n / d < n && n % d < d
  {
  }

  lemma MulDistribAssoc(a: nat, b: nat, c: nat, d: nat)
    ensures (a * b + c) * d == a * (d * b) + c * d
  {
  }

  lemma MulAssoc(a: nat, x: nat, y: nat)
    ensures a * (x * y) == (a * x) * y
  {
  }

  lemma MulDistrib(k: nat, x: nat, y: nat)
    ensures k * (x + y) == k * x + k * y
  {
  }

  lemma MulMonotone(a: nat, b: nat, c: nat)
    requires a <= b
    ensures a * c <= b * c
  {
  }

  /** Division by a positive number, stated as a comparison. */
  lemma DivLessIff(n: nat, d: nat, m: nat)
    requires d > 0
    ensures n / d < m <==> n < d * m
  {
    var q, r := n / d, n % d;
    assert n == d * q + r && 0 <= r < d;
    if q < m {
      MulMonotone(q, m - 1, d);
      assert d * q <= d * (m - 1);
    } else {
      MulMonotone(m, q, d);
      assert d * m <= d * q;
    }
  }

  /** `(x * m + r) / m == x` and `(x * m + r) % m == r` for `0 <= r < m`. */
  lemma DivModUnique(x: nat, m: nat, r: nat)
    requires 0 <= r < m
    ensures (x * m + r) / m == x && (x * m + r) % m == r
  {
    var n := x * m + r;
    var q, s := n / m, n % m;
    assert n == m * q + s && 0 <= s < m;
    if q < x {
      MulMonotone(q + 1, x, m);
    } else if q > x {
      MulMonotone(x + 1, q, m);
    }
  }

  /** Splitting a modulus `a * b` into a low part modulo `a` and a high part modulo `b`. */
  lemma ModProduct(v: nat, a: nat, b: nat)
    requires a > 0 && b > 0
    ensures v % (a * b) == v % a + a * ((v / a) % b)
  {
    var q, r := v / a, v % a;
    var q2, r2 := q / b, q % b;
    DivModDecompose(v, a);
    DivModDecompose(q, b);
    MulDistribAssoc(q2, b, r2, a);
    assert v == q2 * (a * b) + (r2 * a + r);
    MulMonotone(r2, b - 1, a);
    assert (b - 1) * a == b * a - a;
    DivModUnique(q2, a * b, r2 * a + r);
  }
}
