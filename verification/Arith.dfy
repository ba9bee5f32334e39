/** Division by a variable divisor, in the few steps the solver needs spelled out. */
module Arith {
  lemma Multiple(d: int, n: int)
    requires n > 0
    ensures d >= 1 ==> d * n >= n
    ensures d <= -1 ==> d * n <= -n
  {
  }

  lemma Distribute(a: int, b: int, n: int)
    ensures (a - b) * n == a * n - b * n
  {
  }

  /** Quotient and remainder are determined by a == q * n + r. */
  lemma DivMod(a: nat, n: nat, q: int, r: int)
    requires n > 0 && a == q * n + r && 0 <= r < n
    ensures a / n == q && a % n == r
  {
    var q', r' := a / n, a % n;
    Euclid(a, n);
    Distribute(q, q', n);
    Multiple(q - q', n);
  }

  lemma Euclid(a: nat, n: nat)
    requires n > 0
    ensures a == (a / n) * n + a % n && 0 <= a % n < n
  {
  }

  lemma Natural(a: nat, n: nat)
    requires n > 0
    ensures a / n >= 0
  {
  }

  lemma AddOne(a: nat, n: nat)
    requires n > 0
    ensures (a + n) / n == a / n + 1 && (a + n) % n == a % n
  {
    Euclid(a, n);
    Distribute(a / n + 1, 1, n);
    DivMod(a + n, n, a / n + 1, a % n);
  }

  /** Where offset + i falls, counted from the part of offset below n. */
  lemma Split(offset: nat, i: nat, n: nat)
    requires n > 0
    ensures var r, j, w := offset % n, i / n, i % n;
      && (r + w < n ==> (offset + i) / n == offset / n + j && (offset + i) % n == r + w)
      && (r + w >= n ==> (offset + i) / n == offset / n + j + 1 && (offset + i) % n == r + w - n)
  {
    var r, j, w := offset % n, i / n, i % n;
    Euclid(offset, n);
    Euclid(i, n);
    Distribute(offset / n + j, j, n);
    Distribute(offset / n + j + 1, 1, n);
    if r + w < n {
      DivMod(offset + i, n, offset / n + j, r + w);
    } else {
      DivMod(offset + i, n, offset / n + j + 1, r + w - n);
    }
  }

  lemma Below(i: nat, n: nat)
    requires n > 0 && i < n
    ensures i / n == 0 && i % n == i
  {
    DivMod(i, n, 0, i);
  }
}
