/** How evenly consecutive numbers spread over remainders. */
module RoundRobin {

  /** How many of start, ..., start + m - 1 leave the remainder r. */
  function Hits(start: nat, m: nat, n: nat, r: nat): nat
    requires n > 0
    decreases m
  {
    if m == 0 then 0 else Hits(start, m - 1, n, r) + if (start + m - 1) % n == r then 1 else 0
  }

  lemma {:induction false} FirstRound(j: nat, n: nat, r: nat)
    requires j <= n && r < n
    ensures Hits(0, j, n, r) == if r < j then 1 else 0
    decreases j
  {
    if j > 0 {
      FirstRound(j - 1, n, r);
      SmallRemainder(j - 1, n);
    }
  }

  lemma SmallRemainder(x: nat, n: nat)
    requires x < n
    ensures x % n == x
  {
  }

  lemma NaturalProduct(a: int, n: int)
    requires a >= 0 && n >= 0
    ensures a * n >= 0
  {
  }

  lemma ProductGap(a: int, b: int, n: nat)
    ensures a < b ==> a * n + n <= b * n
  {
    if a < b {
      NaturalProduct(b - a - 1, n);
    }
  }

  /** Quotient and remainder are what the division theorem says. */
  lemma DivisionUnique(x: nat, n: nat, q: nat, r: nat)
    requires n > 0 && r < n && x == q * n + r
    ensures x / n == q && x % n == r
  {
    assert x == (x / n) * n + x % n;
    ProductGap(x / n, q, n);
    ProductGap(q, x / n, n);
  }

  lemma OneMore(x: nat, n: nat)
    requires n > 0
    ensures (x + n) % n == x % n && (x + n) / n == x / n + 1
  {
    var q := x / n;
    assert x == q * n + x % n;
    assert (q + 1) * n == q * n + n;
    DivisionUnique(x + n, n, q + 1, x % n);
  }

  lemma {:induction false} HitsSplit(start: nat, a: nat, b: nat, n: nat, r: nat)
    requires n > 0
    ensures Hits(start, a + b, n, r) == Hits(start, a, n, r) + Hits(start + a, b, n, r)
    decreases b
  {
    if b > 0 {
      HitsSplit(start, a, b - 1, n, r);
    }
  }

  /** Any n consecutive numbers leave each remainder once. */
  lemma {:induction false} OneRound(start: nat, n: nat, r: nat)
    requires r < n
    ensures Hits(start, n, n, r) == 1
    decreases start
  {
    if start == 0 {
      FirstRound(n, n, r);
    } else {
      OneRound(start - 1, n, r);
      HitsSplit(start - 1, 1, n - 1, n, r);
      HitsSplit(start - 1, 1, n, n, r);
      HitsSplit(start - 1, n, 1, n, r);
      OneMore(start - 1, n);
      assert Hits(start - 1, 1, n, r) == Hits(start - 1 + n, 1, n, r) by {
        assert Hits(start - 1, 0, n, r) == 0 && Hits(start - 1 + n, 0, n, r) == 0;
      }
    }
  }

  lemma {:induction false} HitsMonotone(start: nat, a: nat, b: nat, n: nat, r: nat)
    requires n > 0 && a <= b
    ensures Hits(start, a, n, r) <= Hits(start, b, n, r)
    decreases b
  {
    if a < b {
      HitsMonotone(start, a, b - 1, n, r);
    }
  }

  lemma LessThanOneRound(m: nat, n: nat)
    requires m < n
    ensures m / n == 0 && (m + n - 1) / n == if m == 0 then 0 else 1
  {
    DivisionUnique(m, n, 0, m);
    if m == 0 {
      DivisionUnique(n - 1, n, 0, n - 1);
    } else {
      DivisionUnique(m + n - 1, n, 1, m - 1);
    }
  }

  /** Every remainder is hit floor(m / n) or ceil(m / n) times. */
  lemma {:induction false} EvenlySpread(start: nat, m: nat, n: nat, r: nat)
    requires r < n
    ensures m / n <= Hits(start, m, n, r) <= (m + n - 1) / n
    decreases m
  {
    OneRound(start, n, r);
    if m < n {
      LessThanOneRound(m, n);
      HitsMonotone(start, m, n, n, r);
    } else {
      HitsSplit(start, n, m - n, n, r);
      EvenlySpread(start + n, m - n, n, r);
      OneMore(m - n, n);
      OneMore(m - n + n - 1, n);
    }
  }
}
