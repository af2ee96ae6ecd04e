/** The lottery against exact arithmetic: tails are what the probabilities leave of 1, the win count is
    decided by their sums, and polynomials, probabilities and sums stay within a few units in the last
    place of the exact ones. */
module SortitionSums {
  import opened Sortition

  // ----- tails and sums -----

  /** The probability of at most `k` wins. */
  function PmfSum(q: Tables, lam: int, k: nat): int
    requires Fits(q) && 0 <= lam
  {
    if k == 0 then Pmf(q, lam, 0) else PmfSum(q, lam, k - 1) + Pmf(q, lam, k)
  }

  /** Every tail is what the sum leaves of 1. */
  lemma {:induction false} TailIsRest(q: Tables, lam: int, k: nat)
    requires Fits(q) && 0 <= lam
    ensures Icdf(q, lam, k) + PmfSum(q, lam, k) == q.one
  {
    if k > 0 {
      TailIsRest(q, lam, k - 1);
    }
  }

  /** The number of wins: the least count whose sum with the hash reaches 1, or 26. */
  lemma {:induction false} WinCountBySums(q: Tables, hash: int, lam: int)
    requires Fits(q) && 0 <= lam
    ensures var r := WinCount(q, hash, lam, 0);
            && (forall i :: 0 <= i < r ==> hash + PmfSum(q, lam, i) < q.one)
            && (r < 26 ==> hash + PmfSum(q, lam, r) >= q.one)
            && r <= 26
  {
    WinCountLeast(q, hash, lam, 0);
    var r := WinCount(q, hash, lam, 0);
    forall i | 0 <= i <= r
      ensures Icdf(q, lam, i) + PmfSum(q, lam, i) == q.one
    {
      TailIsRest(q, lam, i);
    }
  }

  // ----- sums against exact Poisson sums -----

  /** The exact sum of `Pmf(0) * lam^i / i!` for `i` up to `k`, in units of one over `k!` and the
      precision to the power `k`. */
  function ExactSum(q: Tables, lam: int, k: nat): int
    requires Fits(q) && 0 <= lam
  {
    if k == 0 then Pmf(q, lam, 0)
    else ExactSum(q, lam, k - 1) * (k * q.one) + Pmf(q, lam, 0) * Pow(lam, k)
  }

  function SlackSum(k: nat): int {
    if k == 0 then 0 else SlackSum(k - 1) + Slack(k)
  }

  lemma {:induction false} SlackSumBound(k: nat)
    ensures 0 <= SlackSum(k) <= 64 * k
  {
    if k > 0 {
      SlackSumBound(k - 1);
    }
  }

  lemma WithinScale(a: int, p: int, slack: int, u: int, c: int)
    requires Within(a, p, slack, u) && 0 <= c
    ensures Within(a * c, p, slack, c * u)
  {
    MulMono(p * u, a, c);
    MulMono(a, (p + slack) * u, c);
    assert (p * u) * c == p * (c * u) && ((p + slack) * u) * c == (p + slack) * (c * u);
  }

  lemma WithinAdd(a: int, p: int, s: int, b: int, r: int, t: int, u: int)
    requires Within(a, p, s, u) && Within(b, r, t, u)
    ensures Within(a + b, p + r, s + t, u)
  {
    assert (p + r) * u == p * u + r * u;
    assert (p + r + (s + t)) * u == (p + s) * u + (r + t) * u;
  }

  /** The computed sum is below the exact one by at most 64 units for each term. */
  lemma {:induction false} SumAccuracy(q: Tables, lam: int, k: nat)
    requires Fits(q) && 0 <= lam <= 5 * q.one
    ensures Within(ExactSum(q, lam, k), PmfSum(q, lam, k), SlackSum(k), Fact(k) * Pow(q.one, k))
  {
    if k > 0 {
      SumAccuracy(q, lam, k - 1);
      MulMono(0, k, q.one);
      WithinScale(ExactSum(q, lam, k - 1), PmfSum(q, lam, k - 1), SlackSum(k - 1), Fact(k - 1) * Pow(q.one, k - 1), k * q.one);
      UnitStep(q.one, k);
      PmfAccuracy(q, lam, k);
      WithinAdd(ExactSum(q, lam, k - 1) * (k * q.one), PmfSum(q, lam, k - 1), SlackSum(k - 1),
                Pmf(q, lam, 0) * Pow(lam, k), Pmf(q, lam, k), Slack(k), Fact(k) * Pow(q.one, k));
    }
  }

  /** The tail, as one minus itself, against the exact partial sum. */
  lemma {:induction false} TailAccuracy(q: Tables, lam: int, k: nat)
    requires Fits(q) && 0 <= lam <= 5 * q.one
    ensures Within(ExactSum(q, lam, k), q.one - Icdf(q, lam, k), SlackSum(k), Fact(k) * Pow(q.one, k))
    ensures SlackSum(k) <= 64 * k
  {
    TailIsRest(q, lam, k);
    SumAccuracy(q, lam, k);
    SlackSumBound(k);
  }

  // ----- polynomials and quotients against exact ones -----

  /** The exact value of the first `n` coefficients at `x / one`, in units of one over the precision to
      the power `n - 1`. */
  function ExactHorner(one: int, p: seq<int>, x: int, n: nat): int
    requires 0 < n <= |p|
  {
    if n == 1 then p[0] else ExactHorner(one, p, x, n - 1) * x + p[n - 1] * Pow(one, n - 1)
  }

  /** The error bound after `n` coefficients. */
  function HornerError(n: nat): nat {
    if n <= 1 then 0 else 5 * HornerError(n - 1) + 1
  }

  /** One Horner step, in units of size `u`: the floor costs one unit, the old error grows fivefold. */
  lemma {:induction false} HornerStepError(one: int, exact: int, h: int, e: nat, u: int, x: int, c: int)
    requires one > 0 && 0 <= x <= 5 * one && 0 <= u && Within(exact, h, e, u)
    ensures Within(exact * x + c * (one * u), HornerStep(one, h, x, c), 5 * e + 1, one * u)
  {
    var f := (h * x) / one;
    DivBounds(h * x, one);
    HornerBelow(one, exact, h, u, x, f);
    HornerAbove(one, exact, h, e, u, x, f);
    assert (f + c) * (one * u) == f * (one * u) + c * (one * u);
    assert (f + c + (5 * e + 1)) * (one * u) == (f + (5 * e + 1)) * (one * u) + c * (one * u);
  }

  lemma HornerBelow(one: int, exact: int, h: int, u: int, x: int, f: int)
    requires 0 <= x && 0 <= u && h * u <= exact && f * one <= h * x
    ensures f * (one * u) <= exact * x
  {
    MulMono(f * one, h * x, u);
    assert (f * one) * u == f * (one * u);
    MulMono(h * u, exact, x);
    assert (h * u) * x == (h * x) * u;
  }

  lemma ErrorGrows(one: int, e: nat, x: int, f: int, hx: int)
    requires 0 <= x <= 5 * one && hx <= f * one + one
    ensures hx + x * e <= (f + (5 * e + 1)) * one
  {
    MulMono(x, 5 * one, e);
    assert (5 * one) * e == (5 * e) * one;
    assert (f + (5 * e + 1)) * one == f * one + (5 * e) * one + one;
  }

  lemma HornerAbove(one: int, exact: int, h: int, e: nat, u: int, x: int, f: int)
    requires 0 <= x <= 5 * one && 0 <= u && exact <= (h + e) * u && h * x <= f * one + one
    ensures exact * x <= (f + (5 * e + 1)) * (one * u)
  {
    MulMono(exact, (h + e) * u, x);
    Regroup(h, e, u, x);
    ErrorGrows(one, e, x, f, h * x);
    MulMono(h * x + x * e, (f + (5 * e + 1)) * one, u);
    Reassociate(f + (5 * e + 1), one, u);
  }

  lemma Regroup(h: int, e: int, u: int, x: int)
    ensures ((h + e) * u) * x == (h * x + x * e) * u
  {
    assert ((h + e) * u) * x == ((h + e) * x) * u;
    assert (h + e) * x == h * x + x * e;
  }

  lemma Reassociate(a: int, b: int, c: int)
    ensures (a * b) * c == a * (b * c)
  {
  }

  lemma {:induction false} PowNonNegative(b: int, k: nat)
    requires 0 <= b
    ensures 0 <= Pow(b, k)
  {
    if k > 0 {
      PowNonNegative(b, k - 1);
      MulMono(0, b, Pow(b, k - 1));
    }
  }

  /** Every accumulator of a polynomial on [0, 5] is below the exact one by at most the error bound. */
  lemma {:induction false} HornerAccuracy(one: int, p: seq<int>, x: int, n: nat)
    requires one > 0 && 0 < n <= |p| && 0 <= x <= 5 * one
    ensures Within(ExactHorner(one, p, x, n), Horner(one, p, x, n), HornerError(n), Pow(one, n - 1))
  {
    if n > 1 {
      HornerAccuracy(one, p, x, n - 1);
      PowNonNegative(one, n - 2);
      HornerStepError(one, ExactHorner(one, p, x, n - 1), Horner(one, p, x, n - 1), HornerError(n - 1), Pow(one, n - 2), x, p[n - 1]);
    }
  }

  /** Both polynomials of the exponential, and the quotient that is taken of them. */
  lemma {:induction false} ExpNegAccuracy(q: Tables, x: int)
    requires Fits(q) && 0 <= x <= 5 * q.one
    ensures Within(ExactHorner(q.one, q.num, x, 8), Polyval(q.one, q.num, x), 19531, Pow(q.one, 7))
    ensures Within(ExactHorner(q.one, q.den, x, 14), Polyval(q.one, q.den, x), 305175781, Pow(q.one, 13))
    ensures var d := Polyval(q.one, q.den, x);
            ExpNeg(q, x) * d <= Polyval(q.one, q.num, x) * q.one < (ExpNeg(q, x) + 1) * d
  {
    HornerAccuracy(q.one, q.num, x, 8);
    HornerAccuracy(q.one, q.den, x, 14);
    HornerErrors();
    DenominatorBound(q, x);
    QuotientBounds(Polyval(q.one, q.num, x) * q.one, Polyval(q.one, q.den, x));
  }

  lemma HornerErrors()
    ensures HornerError(8) == 19531 && HornerError(14) == 305175781
  {
    assert HornerError(4) == 31;
    assert HornerError(8) == 19531;
    assert HornerError(11) == 2441406;
  }

  lemma QuotientBounds(a: int, d: int)
    requires d > 0
    ensures (a / d) * d <= a < (a / d + 1) * d
  {
    DivBounds(a, d);
    assert (a / d + 1) * d == (a / d) * d + d;
  }

  /** The expected number of wins is five times the share of the weight, rounded down. */
  lemma LambdaExactly(q: Tables, weight: int, total: int)
    requires 0 < total
    ensures Lambda(q, weight, total) * total <= 5 * weight * q.one < (Lambda(q, weight, total) + 1) * total
  {
    assert weight * BLOCKS_PER_EPOCH * q.one == 5 * weight * q.one;
    QuotientBounds(5 * weight * q.one, total);
  }
}
