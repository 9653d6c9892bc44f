/** Facts about remainders that the cyclic navigation needs. The component
    computes no remainders; these facts connect its `index === 0` and
    `index === count` branches to the remainder form of the contracts. */
module Modular {

  lemma ModSmall(a: int, n: int)
    requires 0 <= a < n
    ensures a % n == a
  {
  }

  lemma ModWrap(a: int, n: int)
    requires n <= a < 2 * n
    ensures a % n == a - n
  {
  }

  lemma MulAtLeast(x: int, n: int)
    requires x >= 1 && n > 0
    ensures x * n >= n
  {
  }

  /** The remainder is determined by any quotient/remainder decomposition. */
  lemma ModUnique(a: int, n: int, q: int, r: int)
    requires n > 0 && 0 <= r < n && a == q * n + r
    ensures a % n == r
  {
    var q', r' := a / n, a % n;
    assert a == q' * n + r';
    assert (q - q') * n == r' - r;
    if q > q' {
      MulAtLeast(q - q', n);
    } else if q < q' {
      MulAtLeast(q' - q, n);
    }
  }

  lemma ModSub(a: int, n: int)
    requires n > 0 && a >= n
    ensures a % n == (a - n) % n
  {
    var q, r := (a - n) / n, (a - n) % n;
    assert a == (q + 1) * n + r;
    ModUnique(a, n, q + 1, r);
  }

  /** One step forward around a cycle of length `n`. */
  lemma SuccMod(i: int, n: int)
    ensures 0 <= i < n ==> (i + 1) % n == (if i == n - 1 then 0 else i + 1)
  {
    if 0 <= i < n {
      if i == n - 1 { ModWrap(i + 1, n); } else { ModSmall(i + 1, n); }
    }
  }

  /** One step backward around a cycle of length `n`. */
  lemma PredMod(i: int, n: int)
    ensures 0 <= i < n ==> (i + n - 1) % n == (if i == 0 then n - 1 else i - 1)
  {
    if 0 <= i < n {
      if i == 0 { ModSmall(n - 1, n); } else { ModWrap(i + n - 1, n); }
    }
  }

  /** Taking the remainder before adding one changes nothing. */
  lemma {:induction false} ModSucc(m: int, n: int)
    requires m >= 0 && n > 0
    ensures ((m % n) + 1) % n == (m + 1) % n
    decreases m
  {
    if m < n {
      ModSmall(m, n);
      if m + 1 < n { ModSmall(m + 1, n); } else { ModWrap(m + 1, n); }
    } else {
      ModSub(m, n);
      ModSub(m + 1, n);
      ModSucc(m - n, n);
    }
  }
}
