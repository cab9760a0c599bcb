/** Remainders and quotients by a variable divisor. */
module Modular {

  lemma MultipleIsFar(x: int, n: nat)
    requires 0 < n
    ensures x >= 1 ==> x * n >= n
    ensures x <= -1 ==> x * n + n <= 0
  {
    if x >= 1 {
      assert x * n == (x - 1) * n + n;
    } else if x <= -1 {
      assert x * n == (x + 1) * n - n;
    }
  }

  lemma DivMod(a: int, n: nat, q: int, r: nat)
    requires 0 < n && r < n && a == q * n + r
    ensures a / n == q && a % n == r
  {
    var p, s := a / n, a % n;
    assert a == p * n + s;
    assert (q - p) * n == s - r;
    MultipleIsFar(q - p, n);
  }

  /** Less than `n` more. */
  lemma AddSmall(x: int, k: nat, n: nat)
    requires 0 < n && k <= n
    ensures (x + k) % n == if x % n + k < n then x % n + k else x % n + k - n
    ensures (x + k) / n == if x % n + k < n then x / n else x / n + 1
  {
    var q, r := x / n, x % n;
    assert x == q * n + r;
    if r + k < n {
      DivMod(x + k, n, q, r + k);
    } else {
      assert (q + 1) * n == q * n + n;
      DivMod(x + k, n, q + 1, r + k - n);
    }
  }

  /** Less than `n` below a multiple. */
  lemma SubSmall(x: int, k: nat, n: nat)
    requires 0 < n && k <= n
    ensures (x - k) % n == if x % n >= k then x % n - k else x % n - k + n
  {
    AddSmall(x - k, k, n);
  }

  lemma {:induction false} AddMultiple(x: int, q: nat, n: nat)
    requires 0 < n
    ensures (x + q * n) % n == x % n && (x + q * n) / n == x / n + q
  {
    if q > 0 {
      AddMultiple(x, q - 1, n);
      assert q * n == (q - 1) * n + n;
      AddSmall(x + (q - 1) * n, n, n);
    }
  }

  /** A remainder by a multiple of `n` does not show in the remainder by `n`. */
  lemma ModMod(x: nat, big: nat, n: nat)
    requires 0 < n && 0 < big && big % n == 0
    ensures x % big % n == x % n
  {
    var q, id, d := x / big, x % big, big / n;
    assert x == q * big + id;
    assert big == d * n;
    Regroup(q, d, n, big);
    AddMultiple(id, q * d, n);
  }

  lemma Regroup(q: nat, d: nat, n: nat, big: nat)
    requires big == d * n
    ensures q * big == (q * d) * n
  {
  }
}
