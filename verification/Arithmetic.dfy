/** Remainders of natural numbers. */
module Arithmetic {
  lemma {:induction false} MulAtLeast(n: nat, d: nat)
    requires d >= 1
    ensures d * n >= n
  {
    if d > 1 {
      MulAtLeast(n, d - 1);
      assert d * n == (d - 1) * n + n;
    }
  }

  lemma MulGap(n: nat, a: nat, b: nat)
    requires a > b
    ensures a * n >= b * n + n
  {
    MulAtLeast(n, a - b);
    assert a * n == b * n + (a - b) * n;
  }

  lemma ModOf(x: nat, q: nat, r: nat, n: nat)
    requires r < n && x == q * n + r
    ensures x % n == r
  {
    var q', r' := x / n, x % n;
    assert x == q' * n + r';
    if q' > q { MulGap(n, q', q); }
    if q > q' { MulGap(n, q, q'); }
  }

  lemma ModNext(x: nat, n: nat)
    requires n > 0
    ensures (x + 1) % n == if x % n + 1 < n then x % n + 1 else 0
  {
    var q, r := x / n, x % n;
    assert x == q * n + r;
    if r + 1 < n {
      ModOf(x + 1, q, r + 1, n);
    } else {
      assert x + 1 == (q + 1) * n + 0;
      ModOf(x + 1, q + 1, 0, n);
    }
  }
}
