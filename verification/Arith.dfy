/** Division facts the solver does not find by itself. */
module Arith {
  const U64: nat := 0x1_0000_0000_0000_0000

  lemma SmallMultiple(k: int, d: nat)
    requires 0 - d < k * d < d
    ensures k == 0
  {
    assert k >= 1 ==> k * d >= d;
    assert k <= -1 ==> k * d <= 0 - d;
  }

  lemma Quotient(a: nat, d: nat)
    requires d > 0
    ensures a == (a / d) * d + a % d && a % d < d
  {
  }

  lemma DivModUnique(a: nat, d: nat, q: nat, r: nat)
    requires r < d && a == q * d + r
    ensures a / d == q && a % d == r
  {
    var q', r' := a / d, a % d;
    Quotient(a, d);
    assert (q' - q) * d == r - r';
    SmallMultiple(q' - q, d);
  }

  /** An offset in a block of `n * m` is a position among the `n` blocks of `m` and an offset in one. */
  lemma SplitAt(a: nat, m: nat, n: nat)
    requires m > 0 && n > 0
    ensures n * m > 0
    ensures a % (n * m) == a / m % n * m + a % m
    ensures a / (n * m) == a / m / n
  {
    var q, i, r := a / m / n, a / m % n, a % m;
    Quotient(a, m);
    Quotient(a / m, n);
    Regroup(q, i, r, n, m);
    assert i * m <= (n - 1) * m by { MulMono(i, n - 1, m); }
    assert i * m + r < n * m;
    DivModUnique(a, n * m, q, i * m + r);
  }

  lemma MulMono(x: nat, y: nat, m: nat)
    requires x <= y
    ensures x * m <= y * m
  {
  }

  lemma Regroup(q: nat, i: nat, r: nat, n: nat, m: nat)
    ensures (q * n + i) * m + r == q * (n * m) + (i * m + r)
  {
  }

  function Pow2(k: nat): (r: nat)
    ensures r >= 1
  {
    if k == 0 then 1 else 2 * Pow2(k - 1)
  }

  lemma {:induction false} Pow2Divides(k: nat, m: nat)
    requires k <= m
    ensures Pow2(m) == Pow2(m - k) * Pow2(k)
  {
    if k < m {
      Pow2Divides(k, m - 1);
    }
  }

  ghost predicate NoDup(q: seq<nat>) {
    forall i, j :: 0 <= i < j < |q| ==> q[i] != q[j]
  }

  /** Different numbers below `n` are at most `n`. */
  lemma {:induction false} NoDupBound(q: seq<nat>, n: nat)
    requires NoDup(q) && forall i :: 0 <= i < |q| ==> q[i] < n
    ensures |q| <= n
    decreases n
  {
    if q != [] {
      assert q[0] < n;
      if i :| 0 <= i < |q| && q[i] == n - 1 {
        NoDupBound(q[..i] + q[i + 1..], n - 1);
      } else {
        NoDupBound(q[1..], n - 1);
      }
    }
  }
}
