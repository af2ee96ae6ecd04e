/** Poisson sortition in fixed point: the exponential by a quotient of polynomials, the recurrence
    for the probabilities, and the search for the number of wins.

    Everything is stated for any tables of coefficients that satisfy the inequalities of `Fits`;
    the source's tables, in Q.256, do: `SourceFits`. */
module Sortition {

  const BLOCKS_PER_EPOCH: int := 5
  const MAX_WIN_COUNT: nat := 26

  // ----- the tables -----

  /** The number 1 in fixed point, and the coefficients of numerator and denominator, the highest
      power first. */
  datatype Table = Table(one: int, num: seq<int>, den: seq<int>)

  type Tables = q: Table | q.one > 0 && |q.num| == 8 && |q.den| == 14
    witness Table(1, seq(8, _ => 0), seq(14, _ => 0))

  /** The number 1 in Q.128. */
  const ONE_Q128: int := 340282366920938463463374607431768211456

  const NUM_Q128: seq<int> :=
    [-648770010757830093818553637600,
     67469480939593786226847644286976,
     -3197587544499098424029388939001856,
     89244641121992890118377641805348864,
     -1579656163641440567800982336819953664,
     17685496037279256458459817590917169152,
     -115682590513835356866803355398940131328,
     340282366920938463463374607431768211456]

  const DEN_Q128: seq<int> :=
    [1225524182432722209606361,
     114095592300906098243859450,
     5665570424063336070530214243,
     194450132448609991765137938448,
     5068267641632683791026134915072,
     104716890604972796896895427629056,
     1748338658439454459487681798864896,
     23704654329841312470660182937960448,
     259380097567996910282699886670381056,
     2250336698853390384720606936038375424,
     14978272436876548034486263159246028800,
     72144088983913131323343765784380833792,
     224599776407103106596571252037123047424,
     340282366920938463463374607431768211456]

  /** From Q.128 to Q.256. */
  function Shifted(coefs: seq<int>): (r: seq<int>)
    ensures |r| == |coefs| && forall i :: 0 <= i < |r| ==> r[i] == coefs[i] * ONE_Q128
  {
    seq(|coefs|, i requires 0 <= i < |coefs| => coefs[i] * ONE_Q128)
  }

  /** The tables that initialisation builds. */
  function Source(): Tables {
    Table(ONE_Q128 * ONE_Q128, Shifted(NUM_Q128), Shifted(DEN_Q128))
  }

  /** Each of the first coefficients outweighs five times its predecessor, with the other sign. */
  ghost predicate SignsFit(q: Tables) {
    var n := q.num;
    && n[0] <= 0 && n[1] + 5 * n[0] >= 1
    && n[2] + 5 * n[1] <= 0 && n[3] + 5 * n[2] >= 1
    && n[4] + 5 * n[3] <= 0
    && n[5] >= 0 && n[6] + 5 * n[5] <= 0
    && n[7] == q.one
  }

  /** The last four coefficients keep their cubic non-negative between `a` and `b` sixteenths. */
  ghost predicate PieceFits(q: Tables, a: nat, b: nat) {
    var quad := b * q.num[4] - 16 + 16 * q.num[5];
    && quad >= 0
    && b * (a * quad - 256 + 256 * q.num[6]) + 4096 * q.num[7] - 4096 >= 0
  }

  ghost predicate Fits(q: Tables) {
    && SignsFit(q)
    && PieceFits(q, 0, 47) && PieceFits(q, 47, 65) && PieceFits(q, 65, 74)
    && PieceFits(q, 74, 78) && PieceFits(q, 78, 80)
    && (forall i :: 0 <= i < 14 ==> q.den[i] >= 0) && q.den[13] == q.one
  }

  lemma SourceFits()
    ensures Fits(Source())
  {
    var q := Source();
    var n := NUM_Q128;
    assert forall i :: 0 <= i < 8 ==> q.num[i] == n[i] * ONE_Q128;
    assert SignsFit(q);
    assert PieceFits(q, 0, 47) && PieceFits(q, 47, 65) && PieceFits(q, 65, 74);
    assert PieceFits(q, 74, 78) && PieceFits(q, 78, 80);
    assert forall i :: 0 <= i < 14 ==> q.den[i] == DEN_Q128[i] * ONE_Q128;
  }

  // ----- polynomials -----

  /** One Horner step: multiply, shift right by the precision rounding down, add the coefficient. */
  function HornerStep(one: int, res: int, x: int, c: int): int
    requires one > 0
  {
    (res * x) / one + c
  }

  /** `polyval` after the first `n` coefficients. */
  function Horner(one: int, p: seq<int>, x: int, n: nat): int
    requires one > 0 && 0 < n <= |p|
  {
    if n == 1 then p[0] else HornerStep(one, Horner(one, p, x, n - 1), x, p[n - 1])
  }

  function Polyval(one: int, p: seq<int>, x: int): int
    requires one > 0 && p != []
  {
    Horner(one, p, x, |p|)
  }

  // ----- bounds on one Horner step -----

  lemma MulMono(a: int, b: int, c: int)
    requires a <= b && 0 <= c
    ensures a * c <= b * c
  {
    assert (b - a) * c >= 0;
  }

  lemma DivBounds(a: int, d: int)
    requires d > 0
    ensures (a / d) * d <= a < (a / d) * d + d
  {
  }

  lemma DivMono(a: int, b: int, d: int)
    requires a <= b && d > 0
    ensures a / d <= b / d
  {
    var p, q := a / d, b / d;
    DivBounds(a, d);
    DivBounds(b, d);
    assert (q + 1) * d == q * d + d;
    if p > q {
      MulMono(q + 1, p, d);
    }
  }

  /** A larger accumulator gives a larger result. */
  lemma StepMono(one: int, a: int, b: int, x: int, c: int)
    requires one > 0 && a <= b && 0 <= x
    ensures HornerStep(one, a, x, c) <= HornerStep(one, b, x, c)
  {
    MulMono(a, b, x);
    DivMono(a * x, b * x, one);
  }

  /** The sign of the accumulator says on which side of the coefficient the result lies. */
  lemma StepSign(one: int, a: int, x: int, c: int)
    requires one > 0 && 0 <= x
    ensures a >= 0 ==> HornerStep(one, a, x, c) >= c
    ensures a <= 0 ==> HornerStep(one, a, x, c) <= c
  {
    assert (0 * x) / one == 0;
    if a >= 0 {
      StepMono(one, 0, a, x, c);
    } else {
      StepMono(one, a, 0, x, c);
    }
  }

  /** With `x` at most `n` sixteenths, the accumulator is scaled by at most that. */
  lemma StepScale(one: int, a: int, x: int, c: int, n: nat)
    requires one > 0 && 0 <= x && 16 * x <= n * one
    ensures a <= 0 ==> 16 * (HornerStep(one, a, x, c) - c) >= n * a - 16
    ensures a >= 0 ==> 16 * (HornerStep(one, a, x, c) - c) <= n * a
  {
    var q := (a * x) / one;
    DivBounds(a * x, one);
    if a >= 0 {
      MulMono(16 * x, n * one, a);
      assert (16 * x) * a == 16 * (a * x) && (n * one) * a == (n * a) * one;
      ScaledDown(16 * q, n * a, one);
    } else {
      MulMono(16 * x, n * one, -a);
      assert (16 * x) * (-a) == -(16 * (a * x)) && (n * one) * (-a) == -((n * a) * one);
      ScaledDown(n * a, 16 * q + 16, one);
    }
  }

  /** With `x` at least `n` sixteenths, a non-negative accumulator is scaled by at least that. */
  lemma StepScaleUp(one: int, a: int, x: int, c: int, n: nat)
    requires one > 0 && n * one <= 16 * x && 0 <= a
    ensures 16 * (HornerStep(one, a, x, c) - c) >= n * a - 16
  {
    var q := (a * x) / one;
    DivBounds(a * x, one);
    MulMono(n * one, 16 * x, a);
    assert (16 * x) * a == 16 * (a * x) && (n * one) * a == (n * a) * one;
    ScaledDown(n * a, 16 * q + 16, one);
  }

  lemma ScaledDown(a: int, b: int, d: int)
    requires d > 0 && a * d <= b * d
    ensures a <= b
  {
    assert (b + 1) * d == b * d + d;
    if a > b {
      MulMono(b + 1, a, d);
    }
  }

  // ----- the exponential -----

  /** The accumulator after `i + 1` coefficients of the numerator. */
  ghost function Acc(q: Tables, x: int, i: nat): int
    requires i < 8
  {
    Horner(q.one, q.num, x, i + 1)
  }

  /** The signs alternate: after the fourth coefficient the accumulator is not negative, after the
      seventh it is not positive. */
  lemma FirstSigns(q: Tables, x: int)
    requires SignsFit(q) && 0 <= x <= 5 * q.one
    ensures 0 <= Acc(q, x, 3) <= q.num[3]
  {
    var n := q.num;
    assert Acc(q, x, 0) == n[0];
    StepSign(q.one, n[0], x, n[1]);
    StepScale(q.one, n[0], x, n[1], 80);
    assert 0 <= Acc(q, x, 1) <= n[1];
    StepSign(q.one, Acc(q, x, 1), x, n[2]);
    StepScale(q.one, Acc(q, x, 1), x, n[2], 80);
    assert n[2] <= Acc(q, x, 2) <= 0;
    StepSign(q.one, Acc(q, x, 2), x, n[3]);
    StepScale(q.one, Acc(q, x, 2), x, n[3], 80);
  }

  lemma LaterSigns(q: Tables, x: int)
    requires SignsFit(q) && 0 <= x <= 5 * q.one && 0 <= Acc(q, x, 3) <= q.num[3]
    ensures Acc(q, x, 4) >= q.num[4] && Acc(q, x, 6) <= 0
  {
    var n := q.num;
    StepSign(q.one, Acc(q, x, 3), x, n[4]);
    StepScale(q.one, Acc(q, x, 3), x, n[4], 80);
    assert Acc(q, x, 4) <= 0;
    StepSign(q.one, Acc(q, x, 4), x, n[5]);
    assert Acc(q, x, 5) <= n[5];
    StepMono(q.one, Acc(q, x, 5), n[5], x, n[6]);
    StepScale(q.one, n[5], x, n[6], 80);
  }

  /** The cubic that remains when the higher powers are dropped. */
  ghost function Cubic(q: Tables, x: int): int {
    var n := q.num;
    HornerStep(q.one, HornerStep(q.one, HornerStep(q.one, n[4], x, n[5]), x, n[6]), x, n[7])
  }

  /** A lower bound on the cubic's next-to-last accumulator. */
  lemma CubicSlope(one: int, x: int, a: nat, b: nat, n4: int, n5: int, n6: int, quad: int)
    requires one > 0 && 0 <= x && a * one <= 16 * x <= b * one
    requires n4 <= 0 && quad == b * n4 - 16 + 16 * n5 >= 0
    ensures 256 * HornerStep(one, HornerStep(one, n4, x, n5), x, n6) >= a * quad - 256 + 256 * n6
  {
    var s2 := HornerStep(one, n4, x, n5);
    StepScale(one, n4, x, n5, b);
    StepScaleUp(one, s2, x, n6, a);
    MulMono(quad, 16 * s2, a);
    assert 16 * (a * s2) == (16 * s2) * a;
  }

  lemma CubicEnd(one: int, x: int, b: nat, s1: int, slope: int, n7: int)
    requires one > 0 && 0 <= x && 16 * x <= b * one
    requires 256 * s1 >= slope && b * slope + 4096 * n7 - 4096 >= 0 && n7 >= 0
    ensures HornerStep(one, s1, x, n7) >= 0
  {
    if s1 >= 0 {
      StepSign(one, s1, x, n7);
    } else {
      StepScale(one, s1, x, n7, b);
      MulMono(slope, 256 * s1, b);
      assert 256 * (b * s1) == (256 * s1) * b;
    }
  }

  lemma CubicPiece(q: Tables, x: int, a: nat, b: nat)
    requires PieceFits(q, a, b) && q.num[4] <= 0 && q.num[7] >= 0
    requires 0 <= x && a * q.one <= 16 * x <= b * q.one
    ensures Cubic(q, x) >= 0
  {
    var n := q.num;
    var quad := b * n[4] - 16 + 16 * n[5];
    var s1 := HornerStep(q.one, HornerStep(q.one, n[4], x, n[5]), x, n[6]);
    CubicSlope(q.one, x, a, b, n[4], n[5], n[6], quad);
    CubicEnd(q.one, x, b, s1, a * quad - 256 + 256 * n[6], n[7]);
  }

  lemma CubicPositive(q: Tables, x: int)
    requires Fits(q) && 0 <= x <= 5 * q.one
    ensures Cubic(q, x) >= 0
  {
    if 16 * x <= 47 * q.one {
      CubicPiece(q, x, 0, 47);
    } else if 16 * x <= 65 * q.one {
      CubicPiece(q, x, 47, 65);
    } else if 16 * x <= 74 * q.one {
      CubicPiece(q, x, 65, 74);
    } else if 16 * x <= 78 * q.one {
      CubicPiece(q, x, 74, 78);
    } else {
      CubicPiece(q, x, 78, 80);
    }
  }

  /** An accumulator that starts above the cubic's stays above it. */
  lemma AboveCubic(q: Tables, x: int)
    requires 0 <= x && Acc(q, x, 4) >= q.num[4]
    ensures Acc(q, x, 7) >= Cubic(q, x)
  {
    var n := q.num;
    var s2 := HornerStep(q.one, n[4], x, n[5]);
    var s1 := HornerStep(q.one, s2, x, n[6]);
    StepMono(q.one, n[4], Acc(q, x, 4), x, n[5]);
    assert s2 <= Acc(q, x, 5);
    StepMono(q.one, s2, Acc(q, x, 5), x, n[6]);
    assert s1 <= Acc(q, x, 6);
    StepMono(q.one, s1, Acc(q, x, 6), x, n[7]);
  }

  /** The numerator stays in [0, 1] although its coefficients alternate and every step rounds down. */
  lemma NumeratorRange(q: Tables, x: int)
    requires Fits(q) && 0 <= x <= 5 * q.one
    ensures 0 <= Polyval(q.one, q.num, x) <= q.one
  {
    FirstSigns(q, x);
    LaterSigns(q, x);
    StepSign(q.one, Acc(q, x, 6), x, q.num[7]);
    AboveCubic(q, x);
    CubicPositive(q, x);
  }

  lemma {:induction false} HornerAtLeastLast(one: int, p: seq<int>, x: int, n: nat)
    requires one > 0 && 0 < n <= |p| && 0 <= x && forall i :: 0 <= i < |p| ==> p[i] >= 0
    ensures Horner(one, p, x, n) >= p[n - 1]
  {
    if n > 1 {
      HornerAtLeastLast(one, p, x, n - 1);
      StepSign(one, Horner(one, p, x, n - 1), x, p[n - 1]);
    }
  }

  /** The denominator is at least 1 for every non-negative argument. */
  lemma DenominatorBound(q: Tables, x: int)
    requires Fits(q) && 0 <= x
    ensures Polyval(q.one, q.den, x) >= q.one
  {
    HornerAtLeastLast(q.one, q.den, x, 14);
  }

  /** `expneg`. */
  function ExpNeg(q: Tables, x: int): int
    requires Fits(q) && 0 <= x
  {
    DenominatorBound(q, x);
    (Polyval(q.one, q.num, x) * q.one) / Polyval(q.one, q.den, x)
  }

  /** `lambda`. */
  function Lambda(q: Tables, weight: int, total: int): int
    requires total != 0
  {
    (weight * BLOCKS_PER_EPOCH * q.one) / total
  }

  lemma LambdaRange(q: Tables, weight: int, total: int)
    requires 0 <= weight && 0 < total
    ensures 0 <= Lambda(q, weight, total)
    ensures weight <= total ==> Lambda(q, weight, total) <= 5 * q.one
    ensures weight == 0 ==> Lambda(q, weight, total) == 0
  {
    MulMono(0, weight * 5, q.one);
    DivMono(0, weight * 5 * q.one, total);
    if weight <= total {
      MulMono(weight * 5, total * 5, q.one);
      assert total * 5 * q.one == (5 * q.one) * total;
      DivMono(weight * 5 * q.one, (5 * q.one) * total, total);
      QuotientExact(5 * q.one, total);
    }
  }

  lemma QuotientExact(a: int, d: int)
    requires d > 0
    ensures (a * d) / d == a
  {
    var p := (a * d) / d;
    DivBounds(a * d, d);
    ScaledDown(p, a, d);
    assert (p + 1) * d == p * d + d;
    if a > p {
      MulMono(p + 1, a, d);
    }
  }

  /** For every weight up to the total, the probability of no win is a number in [0, 1]. */
  lemma ExpNegRange(q: Tables, x: int)
    requires Fits(q) && 0 <= x <= 5 * q.one
    ensures 0 <= ExpNeg(q, x) <= q.one
  {
    NumeratorRange(q, x);
    DenominatorBound(q, x);
    QuotientRange(q.one, Polyval(q.one, q.num, x), Polyval(q.one, q.den, x));
  }

  lemma QuotientRange(one: int, n: int, d: int)
    requires 0 <= n <= one <= d && one > 0
    ensures 0 <= (n * one) / d <= one
  {
    MulMono(0, n, one);
    DivMono(0, n * one, d);
    MulMono(n, d, one);
    DivMono(n * one, one * d, d);
    QuotientExact(one, d);
  }

  /** The ranges of everything the lottery starts from. */
  ghost predicate InRange(q: Tables, weight: int, total: int)
    requires Fits(q) && 0 <= weight <= total && 0 < total
  {
    var lam := Lambda(q, weight, total);
    && 0 <= lam <= 5 * q.one
    && 0 <= Polyval(q.one, q.num, lam) <= q.one <= Polyval(q.one, q.den, lam)
    && 0 <= ExpNeg(q, lam) <= q.one
    && 0 <= Icdf(q, lam, 0) <= q.one
  }

  /** For every weight up to the total, all of them are numbers in their ranges. */
  lemma LotteryInRange(q: Tables, weight: int, total: int)
    requires Fits(q) && 0 <= weight <= total && 0 < total
    ensures InRange(q, weight, total)
  {
    LambdaRange(q, weight, total);
    NumeratorRange(q, Lambda(q, weight, total));
    DenominatorBound(q, Lambda(q, weight, total));
    ExpNegRange(q, Lambda(q, weight, total));
  }

  /** The headline: the source's tables are among the tables with which all of them are in range, for
      every weight up to the total. */
  lemma SourceLottery()
    ensures Fits(Source())
    ensures forall q: Tables, weight: int, total: int ::
              Fits(q) && 0 <= weight <= total && 0 < total ==> InRange(q, weight, total)
  {
    SourceFits();
    forall q: Tables, weight: int, total: int | Fits(q) && 0 <= weight <= total && 0 < total
      ensures InRange(q, weight, total)
    {
      LotteryInRange(q, weight, total);
    }
  }

  lemma ExpNegZero(q: Tables)
    requires Fits(q)
    ensures ExpNeg(q, 0) == q.one
  {
    HornerAtZero(q.one, q.num, 8);
    HornerAtZero(q.one, q.den, 14);
    QuotientExact(q.one, q.one);
  }

  lemma {:induction false} HornerAtZero(one: int, p: seq<int>, n: nat)
    requires one > 0 && 0 < n <= |p|
    ensures Horner(one, p, 0, n) == p[n - 1]
  {
    if n > 1 {
      assert Horner(one, p, 0, n - 1) * 0 == 0;
      assert 0 / one == 0;
    }
  }

  // ----- the recurrence -----

  /** The probability of exactly `k` wins, as the in-place recurrence computes it. */
  function Pmf(q: Tables, lam: int, k: nat): int
    requires Fits(q) && 0 <= lam
  {
    if k == 0 then ExpNeg(q, lam) else ((Pmf(q, lam, k - 1) / k) * lam) / q.one
  }

  /** The probability of more than `k` wins. */
  function Icdf(q: Tables, lam: int, k: nat): int
    requires Fits(q) && 0 <= lam
  {
    if k == 0 then q.one - Pmf(q, lam, 0) else Icdf(q, lam, k - 1) - Pmf(q, lam, k)
  }

  /** No computed probability is negative. */
  lemma {:induction false} PmfNonNegative(q: Tables, lam: int, k: nat)
    requires Fits(q) && 0 <= lam <= 5 * q.one
    ensures Pmf(q, lam, k) >= 0
  {
    if k == 0 {
      ExpNegRange(q, lam);
    } else {
      PmfNonNegative(q, lam, k - 1);
      DivMono(0, Pmf(q, lam, k - 1), k);
      var t := Pmf(q, lam, k - 1) / k;
      MulMono(0, t, lam);
      DivMono(0, t * lam, q.one);
    }
  }

  /** The tail probability never rises. */
  lemma IcdfFalls(q: Tables, lam: int, k: nat)
    requires Fits(q) && 0 <= lam <= 5 * q.one
    ensures Icdf(q, lam, k + 1) <= Icdf(q, lam, k)
  {
    PmfNonNegative(q, lam, k + 1);
  }

  // ----- accuracy of the recurrence -----

  function Pow(b: int, k: nat): int {
    if k == 0 then 1 else b * Pow(b, k - 1)
  }

  function Fact(k: nat): int {
    if k == 0 then 1 else k * Fact(k - 1)
  }

  /** One step of the recurrence loses less than 6 units in the last place: under 5 from dividing
      by `k` before multiplying, under 1 from the shift. */
  lemma StepLoss(one: int, p: int, k: int, lam: int)
    requires one > 0 && 0 <= p && 1 <= k && 0 <= lam <= 5 * one
    ensures var r := ((p / k) * lam) / one;
            r * (k * one) <= p * lam < (r + 6) * (k * one)
  {
    var t := p / k;
    var r := (t * lam) / one;
    DivBounds(p, k);
    DivBounds(t * lam, one);
    StepLossBelow(one, p, k, lam, t, r);
    StepLossAbove(one, p, k, lam, t, r);
  }

  lemma StepLossBelow(one: int, p: int, k: int, lam: int, t: int, r: int)
    requires 1 <= k && 0 <= lam && t * k <= p && r * one <= t * lam
    ensures r * (k * one) <= p * lam
  {
    MulMono(r * one, t * lam, k);
    assert (r * one) * k == r * (k * one);
    assert (t * lam) * k == (t * k) * lam;
    MulMono(t * k, p, lam);
  }

  lemma DivisionLoss(p: int, k: int, lam: int, t: int)
    requires 0 <= lam && p < t * k + k
    ensures p * lam <= (t * lam) * k + lam * k
  {
    MulMono(p, t * k + k, lam);
    assert (t * k + k) * lam == (t * lam) * k + lam * k;
  }

  lemma SixUnits(one: int, k: int, r: int)
    ensures (r * one + one) * k + (5 * one) * k == (r + 6) * (k * one)
  {
    assert (r * one + one) * k == r * (k * one) + k * one;
    assert (r + 6) * (k * one) == r * (k * one) + 6 * (k * one);
  }

  lemma StepLossAbove(one: int, p: int, k: int, lam: int, t: int, r: int)
    requires 1 <= k && 0 <= lam <= 5 * one && p < t * k + k && t * lam < r * one + one
    ensures p * lam < (r + 6) * (k * one)
  {
    DivisionLoss(p, k, lam, t);
    MulMono(t * lam + 1, r * one + one, k);
    assert (t * lam + 1) * k == (t * lam) * k + k;
    MulMono(lam, 5 * one, k);
    SixUnits(one, k, r);
  }

  /** A bound on the accumulated loss after `k` steps. */
  function Slack(k: nat): int {
    match k
    case 0 => 0
    case 1 => 6
    case 2 => 21
    case 3 => 41
    case 4 => 58
    case _ => 64
  }

  lemma SlackStep(k: nat)
    requires k > 0
    ensures 6 * k + 5 * Slack(k - 1) <= k * Slack(k)
  {
  }

  /** `a` is within `slack` units of `p` units of size `u`, from above. */
  ghost predicate Within(a: int, p: int, slack: int, u: int) {
    p * u <= a <= (p + slack) * u
  }

  lemma WithinStep(one: int, a: int, p: int, slack: int, u: int, lam: int, k: nat, r: int, slack': int)
    requires Within(a, p, slack, u) && 0 <= u && 0 <= slack && 0 <= lam <= 5 * one && k > 0
    requires r * (k * one) <= p * lam < (r + 6) * (k * one)
    requires 6 * k + 5 * slack <= k * slack'
    ensures Within(a * lam, r, slack', k * one * u)
  {
    WithinBelow(a, p, u, lam, k * one, r);
    SlackScaled(one, slack, k, slack', r);
    MulMono(lam, 5 * one, slack);
    assert (5 * one) * slack == 5 * slack * one;
    WithinAbove(a, p, slack, u, lam, (r + 6) * (k * one), 5 * slack * one, r + slack', k * one);
  }

  lemma SlackScaled(one: int, slack: int, k: nat, slack': int, r: int)
    requires one >= 0 && 6 * k + 5 * slack <= k * slack'
    ensures (r + 6) * (k * one) + 5 * slack * one <= (r + slack') * (k * one)
  {
    MulMono(6 * k + 5 * slack, k * slack', one);
    assert (6 * k + 5 * slack) * one == 6 * (k * one) + 5 * slack * one;
    assert (r + 6) * (k * one) == r * (k * one) + 6 * (k * one);
    assert (r + slack') * (k * one) == r * (k * one) + (k * slack') * one;
  }

  lemma WithinBelow(a: int, p: int, u: int, lam: int, w: int, r: int)
    requires p * u <= a && 0 <= u && 0 <= lam && r * w <= p * lam
    ensures r * (w * u) <= a * lam
  {
    MulMono(p * u, a, lam);
    assert (p * u) * lam == (p * lam) * u;
    MulMono(r * w, p * lam, u);
    assert (r * w) * u == r * (w * u);
  }

  lemma WithinAbove(a: int, p: int, slack: int, u: int, lam: int, s: int, t: int, r: int, w: int)
    requires a <= (p + slack) * u && 0 <= u && 0 <= lam
    requires p * lam <= s && lam * slack <= t && s + t <= r * w
    ensures a * lam <= r * (w * u)
  {
    MulMono(a, (p + slack) * u, lam);
    assert ((p + slack) * u) * lam == (p * lam + lam * slack) * u;
    MulMono(p * lam + lam * slack, r * w, u);
    assert (r * w) * u == r * (w * u);
  }

  lemma {:induction false} UnitPositive(one: int, k: nat)
    requires one > 0
    ensures Fact(k) * Pow(one, k) > 0
  {
    if k > 0 {
      UnitPositive(one, k - 1);
      UnitStep(one, k);
      MulMono(1, k, one);
      MulMono(1, Fact(k - 1) * Pow(one, k - 1), k * one);
    }
  }

  lemma UnitStep(one: int, k: nat)
    requires k > 0
    ensures Fact(k) * Pow(one, k) == k * one * (Fact(k - 1) * Pow(one, k - 1))
  {
    var f, w := Fact(k - 1), Pow(one, k - 1);
    assert (k * f) * (one * w) == k * one * (f * w);
  }

  lemma PowStep(p0: int, lam: int, k: nat)
    requires k > 0
    ensures (p0 * Pow(lam, k - 1)) * lam == p0 * Pow(lam, k)
  {
    var w := Pow(lam, k - 1);
    assert (p0 * w) * lam == p0 * (lam * w);
  }

  /** Every computed probability is below the exact Poisson term by at most 64 units in the last
      place, however many wins: `Pmf(q, lam, 0) * lam^k / k!` in fixed point. */
  lemma {:induction false} PmfAccuracy(q: Tables, lam: int, k: nat)
    requires Fits(q) && 0 <= lam <= 5 * q.one
    ensures Within(Pmf(q, lam, 0) * Pow(lam, k), Pmf(q, lam, k), Slack(k), Fact(k) * Pow(q.one, k))
  {
    var p0 := Pmf(q, lam, 0);
    if k > 0 {
      PmfAccuracy(q, lam, k - 1);
      PmfNonNegative(q, lam, k - 1);
      StepLoss(q.one, Pmf(q, lam, k - 1), k, lam);
      SlackStep(k);
      UnitPositive(q.one, k - 1);
      UnitStep(q.one, k);
      WithinStep(q.one, p0 * Pow(lam, k - 1), Pmf(q, lam, k - 1), Slack(k - 1), Fact(k - 1) * Pow(q.one, k - 1),
                 lam, k, Pmf(q, lam, k), Slack(k));
      PowStep(p0, lam, k);
    }
  }

  // ----- the search -----

  /** The first index from `j` on, up to the limit, whose tail probability the hash reaches. */
  function WinCount(q: Tables, hash: int, lam: int, j: nat): (r: nat)
    requires Fits(q) && 0 <= lam && j <= MAX_WIN_COUNT
    ensures j <= r <= MAX_WIN_COUNT
    decreases MAX_WIN_COUNT - j
  {
    if hash < Icdf(q, lam, j) && j < MAX_WIN_COUNT then WinCount(q, hash, lam, j + 1) else j
  }

  /** The result is the least win count the hash allows, or the limit. */
  lemma {:induction false} WinCountLeast(q: Tables, hash: int, lam: int, j: nat)
    requires Fits(q) && 0 <= lam && j <= MAX_WIN_COUNT
    ensures var r := WinCount(q, hash, lam, j);
            && (forall i :: j <= i < r ==> hash < Icdf(q, lam, i))
            && (r < MAX_WIN_COUNT ==> hash >= Icdf(q, lam, r))
    decreases MAX_WIN_COUNT - j
  {
    if hash < Icdf(q, lam, j) && j < MAX_WIN_COUNT {
      WinCountLeast(q, hash, lam, j + 1);
    }
  }

  /** A larger hash never wins more often. */
  lemma {:induction false} WinCountAntitone(q: Tables, low: int, high: int, lam: int, j: nat)
    requires Fits(q) && 0 <= lam && j <= MAX_WIN_COUNT && low <= high
    ensures WinCount(q, high, lam, j) <= WinCount(q, low, lam, j)
    decreases MAX_WIN_COUNT - j
  {
    if high < Icdf(q, lam, j) && j < MAX_WIN_COUNT {
      WinCountAntitone(q, low, high, lam, j + 1);
    }
  }

  /** Without weight there is no win, whatever the hash. */
  lemma {:induction false} ZeroWeightNeverWins(q: Tables, hash: int, total: int)
    requires Fits(q) && 0 <= hash && 0 < total
    ensures Lambda(q, 0, total) == 0 && WinCount(q, hash, 0, 0) == 0
  {
    LambdaRange(q, 0, total);
    ExpNegZero(q);
  }

  // ----- the mutable big integers and the sortition object -----

  /** `math/big.Int`: every operation overwrites its receiver. */
  class BigInt {
    var v: int

    constructor (x: int)
      ensures v == x
    {
      v := x;
    }

    method Set(a: BigInt)
      modifies this
      ensures v == old(a.v)
    {
      v := a.v;
    }

    method Mul(a: BigInt, b: BigInt)
      modifies this
      ensures v == old(a.v) * old(b.v)
    {
      v := a.v * b.v;
    }

    method AddInt(a: BigInt, c: int)
      modifies this
      ensures v == old(a.v) + c
    {
      v := a.v + c;
    }

    method Sub(a: BigInt, b: BigInt)
      modifies this
      ensures v == old(a.v) - old(b.v)
    {
      v := a.v - b.v;
    }

    /** Euclidean division. */
    method Div(a: BigInt, b: BigInt)
      requires b.v != 0
      modifies this
      ensures v == old(a.v) / old(b.v)
    {
      v := a.v / b.v;
    }

    /** A left shift; `unit` is two to the shift. */
    method Lsh(a: BigInt, unit: int)
      modifies this
      ensures v == old(a.v) * unit
    {
      v := a.v * unit;
    }

    /** A right shift, rounding down for negative numbers too. */
    method Rsh(a: BigInt, unit: int)
      requires unit > 0
      modifies this
      ensures v == old(a.v) / unit
    {
      v := a.v / unit;
    }
  }

  /** Initialisation: every parsed coefficient is shifted in place. */
  method ParseCoefficients(coefs: seq<int>) returns (out: seq<int>)
    ensures out == Shifted(coefs)
  {
    out := [];
    for i := 0 to |coefs|
      invariant out == Shifted(coefs[..i])
    {
      var c := new BigInt(coefs[i]);
      c.Lsh(c, ONE_Q128);
      out := out + [c.v];
    }
    assert coefs[..|coefs|] == coefs;
  }

  method EvalPoly(one: int, p: seq<int>, x: BigInt) returns (res: BigInt)
    requires one > 0 && p != []
    ensures fresh(res) && res.v == Polyval(one, p, x.v)
  {
    res := new BigInt(p[0]);
    var tmp := new BigInt(0);
    for i := 1 to |p|
      invariant fresh(res) && fresh(tmp) && res != tmp && x != res && x != tmp
      invariant res.v == Horner(one, p, x.v, i)
    {
      tmp.Mul(res, x);
      res.Rsh(tmp, one);
      res.AddInt(res, p[i]);
    }
  }

  method ComputeExpNeg(q: Tables, x: BigInt) returns (r: BigInt)
    requires Fits(q) && 0 <= x.v
    ensures fresh(r) && r.v == ExpNeg(q, x.v)
  {
    DenominatorBound(q, x.v);
    r := EvalPoly(q.one, q.num, x);
    var deno := EvalPoly(q.one, q.den, x);
    r.Lsh(r, q.one);
    r.Div(r, deno);
  }

  method ComputeLambda(q: Tables, weight: BigInt, total: BigInt) returns (lam: BigInt)
    requires total.v != 0
    ensures fresh(lam) && lam.v == Lambda(q, weight.v, total.v)
  {
    var blocks := new BigInt(BLOCKS_PER_EPOCH);
    lam := new BigInt(0);
    lam.Mul(weight, blocks);
    lam.Lsh(lam, q.one);
    lam.Div(lam, total);
  }

  /** The probabilities of 0, 1, 2, ... wins, one after the other in the same integers. */
  class Poiss {
    const q: Tables
    const lam: BigInt
    const pmf: BigInt
    const icdf: BigInt
    const tmp: BigInt
    var k: nat

    /** The four integers are separate objects, and the two results follow the recurrence. */
    ghost predicate Valid()
      reads this, lam, pmf, icdf, tmp
    {
      && lam != pmf && lam != icdf && lam != tmp && pmf != icdf && pmf != tmp && icdf != tmp
      && Fits(q) && 0 <= lam.v
      && pmf.v == Pmf(q, lam.v, k)
      && icdf.v == Icdf(q, lam.v, k)
    }

    constructor (q: Tables, lambda: BigInt)
      requires Fits(q) && 0 <= lambda.v
      ensures Valid() && this.q == q && lam == lambda && k == 0
      ensures fresh(pmf) && fresh(icdf) && fresh(tmp)
    {
      var elam := ComputeExpNeg(q, lambda);
      var p := new BigInt(0);
      p.Set(elam);
      var i := new BigInt(1);
      i.Lsh(i, q.one);
      i.Sub(i, p);
      this.q := q;
      lam, pmf, icdf, tmp, k := lambda, p, i, elam, 0;
    }

    /** Advances to the next win count, in place. */
    method Next()
      requires Valid()
      modifies this`k, pmf, icdf, tmp
      ensures Valid() && k == old(k) + 1
    {
      k := k + 1;
      tmp.v := k;
      pmf.Div(pmf, tmp);
      tmp.Mul(pmf, lam);
      pmf.Rsh(tmp, q.one);
      icdf.Sub(icdf, pmf);
    }
  }

  /** `SelectProposer`, with the digest of the proof already read as a number. */
  method SelectProposer(q: Tables, hash: int, weight: BigInt, total: BigInt) returns (j: nat)
    requires Fits(q) && 0 <= weight.v && 0 < total.v
    ensures Lambda(q, weight.v, total.v) >= 0
    ensures j == WinCount(q, hash, Lambda(q, weight.v, total.v), 0)
  {
    LambdaRange(q, weight.v, total.v);
    var lam := ComputeLambda(q, weight, total);
    ghost var l := lam.v;
    var p := new Poiss(q, lam);
    j := 0;
    while hash < p.icdf.v && j < MAX_WIN_COUNT
      invariant p.Valid() && p.q == q && p.lam == lam && fresh({p, p.pmf, p.icdf, p.tmp})
      invariant lam.v == l && p.k == j <= MAX_WIN_COUNT
      invariant WinCount(q, hash, l, 0) == WinCount(q, hash, l, j)
      decreases MAX_WIN_COUNT - j
    {
      p.Next();
      j := j + 1;
    }
  }
}
