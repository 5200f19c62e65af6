/** Facts about quotients and remainders. */
module Arithmetic {

  lemma {:induction false} ModOfSum(j: nat, n: nat, q: nat)
    requires j < n
    ensures (j + n * q) % n == j
  {
    if q > 0 {
      ModOfSum(j, n, q - 1);
      var x := j + n * (q - 1);
      assert n * q == n * (q - 1) + n;
      assert j + n * q == x + n;
      ModShift(x, n);
    } else {
      assert n * q == 0;
    }
  }

  lemma ModShift(x: nat, n: nat)
    requires n > 0
    ensures (x + n) % n == x % n
  {
    var q, r := x / n, x % n;
    assert x + n == n * (q + 1) + r;
    DivModUnique(x + n, n, q + 1, r);
  }

  lemma DivModUnique(x: nat, n: nat, q: nat, r: nat)
    requires n > 0 && r < n && x == n * q + r
    ensures x % n == r && x / n == q
  {
    var q' := x / n;
    assert x == n * q' + x % n;
    if q' < q {
      MulStep(n, q', q);
    } else if q < q' {
      MulStep(n, q, q');
    }
  }

  lemma {:induction false} MulStep(n: nat, a: nat, b: nat)
    requires a < b
    ensures n * a + n <= n * b
  {
    assert n * (b - 1) + n == n * b;
    if a < b - 1 {
      MulStep(n, a, b - 1);
    }
  }

  lemma SameRemainder(k: nat, m: nat, n: nat, a: nat, b: nat)
    requires n > 0 && k % n == m % n && a == k / n && b == m / n
    requires k - m < n && m - k < n
    ensures k == m
  {
    assert k == n * a + k % n && m == n * b + m % n;
    if a < b {
      MulStep(n, a, b);
    } else if b < a {
      MulStep(n, b, a);
    }
  }

  /** `k` summands `b`. */
  function Times(b: nat, k: nat): nat {
    if k == 0 then 0 else Times(b, k - 1) + b
  }

  lemma {:induction false} TimesBound(b: nat, k: nat, w: nat)
    requires b > 0 && Times(b, k) <= w
    ensures k <= w / b
  {
    if k > 0 {
      TimesBound(b, k - 1, w - b);
      var q, r := (w - b) / b, (w - b) % b;
      assert w == b * (q + 1) + r;
      DivModUnique(w, b, q + 1, r);
    }
  }
}
