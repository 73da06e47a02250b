/** Remainders by a variable divisor. */
module Arithmetic {
  lemma MulMono(a: nat, b: nat, n: nat)
    requires a <= b
    ensures a * n <= b * n
  {
  }

  lemma MulGap(a: int, b: int, n: nat)
    ensures a < b ==> b * n >= a * n + n
  {
    if a < b {
      assert b * n == a * n + (b - a) * n;
      assert (b - a) * n == n + (b - a - 1) * n;
    }
  }

  lemma DivModUnique(k: nat, q: nat, r: nat, n: nat)
    requires n > 0 && k == q * n + r && r < n
    ensures k % n == r && k / n == q
  {
    var q', r' := k / n, k % n;
    assert k == q' * n + r';
    MulGap(q', q, n);
    MulGap(q, q', n);
  }

  lemma SmallModulo(a: nat, n: nat)
    requires a < n
    ensures a % n == a && a / n == 0
  {
  }

  lemma ModuloShift(a: nat, q: nat, n: nat)
    requires n > 0
    ensures (a + q * n) % n == a % n
  {
    assert a + q * n == (q + a / n) * n + a % n;
    DivModUnique(a + q * n, q + a / n, a % n, n);
  }

  lemma AddModulo(a: nat, b: nat, n: nat)
    requires n > 0
    ensures (a % n + b) % n == (a + b) % n
  {
    assert a + b == a % n + b + (a / n) * n;
    ModuloShift(a % n + b, a / n, n);
  }

  lemma MulDifference(a: nat, b: nat, n: nat)
    ensures b * n - a * n == (b - a) * n
  {
  }

  lemma SameRemainderGap(a: nat, b: nat, n: nat)
    requires n > 0 && a <= b
    ensures a % n == b % n <==> (b - a) % n == 0
  {
    var g := b - a;
    if g % n == 0 {
      assert b == a + (g / n) * n;
      ModuloShift(a, g / n, n);
    } else if a % n == b % n {
      var qa, qb, r := a / n, b / n, a % n;
      assert a == qa * n + r && b == qb * n + r;
      MulGap(qb, qa, n);
      MulDifference(qa, qb, n);
      DivModUnique(g, qb - qa, 0, n);
    }
  }
}
