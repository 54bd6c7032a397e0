/** The sample statistics of a read cycle, over the reals: what the reported spread says about
    the samples that aggregation discards. */
module Statistics {

  function Sum(xs: seq<real>): real {
    if xs == [] then 0.0 else xs[0] + Sum(xs[1..])
  }

  function Sqr(x: real): (r: real)
    ensures r >= 0.0
  {
    Nonnegative(if x >= 0.0 then x else -x, if x >= 0.0 then x else -x);
    x * x
  }

  lemma Nonnegative(a: real, b: real)
    requires a >= 0.0 && b >= 0.0
    ensures a * b >= 0.0
  {
  }

  /** Sum of the squared distances from `m`. */
  function Squares(xs: seq<real>, m: real): (q: real)
    ensures q >= 0.0
  {
    if xs == [] then 0.0 else Sqr(xs[0] - m) + Squares(xs[1..], m)
  }

  function Mean(xs: seq<real>): real
    requires xs != []
  {
    Sum(xs) / |xs| as real
  }

  /** Population variance. */
  function Variance(xs: seq<real>): real
    requires xs != []
  {
    Squares(xs, Mean(xs)) / |xs| as real
  }

  function Min(xs: seq<real>): (m: real)
    requires xs != []
    ensures m in xs && forall x | x in xs :: m <= x
  {
    if |xs| == 1 then xs[0]
    else
      var rest := Min(xs[1..]);
      assert xs == [xs[0]] + xs[1..];
      if xs[0] <= rest then xs[0] else rest
  }

  function Max(xs: seq<real>): (m: real)
    requires xs != []
    ensures m in xs && forall x | x in xs :: x <= m
  {
    if |xs| == 1 then xs[0]
    else
      var rest := Max(xs[1..]);
      assert xs == [xs[0]] + xs[1..];
      if xs[0] >= rest then xs[0] else rest
  }

  /** Sum of the signed distances from `m`. */
  function Deviation(xs: seq<real>, m: real): real {
    if xs == [] then 0.0 else xs[0] - m + Deviation(xs[1..], m)
  }

  lemma ScaledOrder(n: real, a: real, b: real)
    requires n > 0.0 && n * a <= n * b
    ensures a <= b
  {
  }

  lemma OneMore(n: real, c: real)
    ensures (n + 1.0) * c == n * c + c
  {
  }

  lemma SumStep(n: real, n': real, lo: real, hi: real, x: real, s: real)
    requires n' == n + 1.0 && n * lo <= s <= n * hi && lo <= x <= hi
    ensures n' * lo <= x + s <= n' * hi
  {
  }

  lemma {:induction false} SumBounds(xs: seq<real>, n: real, lo: real, hi: real)
    requires n == |xs| as real && forall x | x in xs :: lo <= x <= hi
    ensures n * lo <= Sum(xs) <= n * hi
  {
    if xs != [] {
      assert xs[0] in xs && forall x | x in xs[1..] :: x in xs;
      SumBounds(xs[1..], n - 1.0, lo, hi);
      SumStep(n - 1.0, n, lo, hi, xs[0], Sum(xs[1..]));
    }
  }

  lemma QuotientBounds(n: real, s: real, lo: real, hi: real)
    requires n > 0.0 && n * lo <= s <= n * hi
    ensures lo <= s / n <= hi
  {
  }

  /** The mean lies between the extremes. */
  lemma MeanIsBetween(xs: seq<real>)
    requires xs != []
    ensures Min(xs) <= Mean(xs) <= Max(xs)
  {
    SumBounds(xs, |xs| as real, Min(xs), Max(xs));
    QuotientBounds(|xs| as real, Sum(xs), Min(xs), Max(xs));
  }

  lemma {:induction false} DeviationIsSum(xs: seq<real>, m: real)
    ensures Deviation(xs, m) == Sum(xs) - |xs| as real * m
  {
    if xs != [] {
      DeviationIsSum(xs[1..], m);
      OneMore(|xs[1..]| as real, m);
    }
  }

  lemma QuotientTimes(n: real, s: real)
    requires n > 0.0
    ensures n * (s / n) == s
  {
  }

  lemma DeviationsFromMeanCancel(xs: seq<real>)
    requires xs != []
    ensures Deviation(xs, Mean(xs)) == 0.0
  {
    DeviationIsSum(xs, Mean(xs));
    QuotientTimes(|xs| as real, Sum(xs));
  }

  lemma CauchyGap(s: real, q: real, d: real, k: real)
    requires k >= 1.0 && Sqr(s) <= k * q
    ensures 2.0 * (s * d) <= q + k * Sqr(d)
  {
    var gap := q + k * Sqr(d) - 2.0 * (s * d);
    var e := s - k * d;
    assert Sqr(e) == Sqr(s) - 2.0 * (k * (s * d)) + k * (k * Sqr(d));
    assert k * gap == k * q - 2.0 * (k * (s * d)) + k * (k * Sqr(d));
    ScaledOrder(k, 0.0, gap);
  }

  lemma CauchyStep(s: real, q: real, d: real, k: real, s': real, q': real)
    requires k >= 1.0 && Sqr(s) <= k * q && s' == s + d && q' == q + Sqr(d)
    ensures Sqr(s') <= (k + 1.0) * q'
  {
    CauchyGap(s, q, d, k);
    assert Sqr(s') == Sqr(s) + 2.0 * (s * d) + Sqr(d);
    assert (k + 1.0) * q' == k * q + q + k * Sqr(d) + Sqr(d);
  }

  /** Cauchy-Schwarz: the squared sum of distances is at most their number times their squares. */
  lemma {:induction false} Cauchy(xs: seq<real>, m: real)
    ensures Sqr(Deviation(xs, m)) <= |xs| as real * Squares(xs, m)
  {
    if |xs| == 1 {
      assert xs[1..] == [];
      assert Deviation(xs, m) == xs[0] - m && Squares(xs, m) == Sqr(xs[0] - m);
    } else if |xs| > 1 {
      Cauchy(xs[1..], m);
      CauchyStep(Deviation(xs[1..], m), Squares(xs[1..], m), xs[0] - m, |xs[1..]| as real,
                 Deviation(xs, m), Squares(xs, m));
    }
  }

  lemma {:induction false} DeviationTakesOut(xs: seq<real>, i: nat, m: real)
    requires i < |xs|
    ensures Deviation(xs, m) == xs[i] - m + Deviation(xs[..i] + xs[i + 1..], m)
  {
    var rest := xs[..i] + xs[i + 1..];
    if i == 0 {
      assert rest == xs[1..];
    } else {
      DeviationTakesOut(xs[1..], i - 1, m);
      assert rest[0] == xs[0] && rest[1..] == xs[1..][..i - 1] + xs[1..][i..];
    }
  }

  lemma {:induction false} SquaresTakesOut(xs: seq<real>, i: nat, m: real)
    requires i < |xs|
    ensures Squares(xs, m) == Sqr(xs[i] - m) + Squares(xs[..i] + xs[i + 1..], m)
  {
    var rest := xs[..i] + xs[i + 1..];
    if i == 0 {
      assert rest == xs[1..];
    } else {
      SquaresTakesOut(xs[1..], i - 1, m);
      assert rest[0] == xs[0] && rest[1..] == xs[1..][..i - 1] + xs[1..][i..];
    }
  }

  /** How far, squared, one of `n` samples of this variance can be from their mean. */
  function Reach(n: nat, variance: real): real {
    (n as real - 1.0) * variance
  }

  /** Samuelson: no sample is further from the mean than `sqrt(n - 1)` standard deviations. */
  lemma SampleIsNearMean(xs: seq<real>, x: real)
    requires x in xs
    ensures Sqr(x - Mean(xs)) <= Reach(|xs|, Variance(xs))
  {
    DeviationsFromMeanCancel(xs);
    var i :| 0 <= i < |xs| && xs[i] == x;
    SampleIsNear(xs, i, x, Mean(xs));
  }

  lemma SampleIsNear(xs: seq<real>, i: nat, x: real, m: real)
    requires i < |xs| && xs[i] == x && Deviation(xs, m) == 0.0
    ensures Sqr(x - m) <= Reach(|xs|, Squares(xs, m) / |xs| as real)
  {
    var dev, q := Others(xs, i, m);
    SamuelsonAlgebra(|xs| as real, (|xs| - 1) as real, xs[i] - m, dev, Squares(xs, m), q);
  }

  /** The deviations and squares of all samples but one. */
  lemma Others(xs: seq<real>, i: nat, m: real) returns (dev: real, q: real)
    requires i < |xs|
    ensures Deviation(xs, m) == xs[i] - m + dev && Squares(xs, m) == Sqr(xs[i] - m) + q
    ensures Sqr(dev) <= (|xs| - 1) as real * q
  {
    var rest := xs[..i] + xs[i + 1..];
    dev, q := Deviation(rest, m), Squares(rest, m);
    DeviationTakesOut(xs, i, m);
    SquaresTakesOut(xs, i, m);
    Cauchy(rest, m);
    assert |rest| == |xs| - 1;
  }

  lemma SamuelsonAlgebra(n: real, n1: real, d: real, s: real, q: real, r: real)
    requires n >= 1.0 && n1 == n - 1.0 && s == -d && q == Sqr(d) + r && Sqr(s) <= n1 * r
    ensures Sqr(d) <= n1 * (q / n)
  {
  }

  /** The product of the distances of `m` from the two ends. */
  function Room(lo: real, m: real, hi: real): real {
    (hi - m) * (m - lo)
  }

  /** The squared distance from `m` stays under a line in the distance. */
  ghost predicate UnderLine(x: real, m: real, c: real, k: real) {
    Sqr(x - m) <= c + (x - m) * k
  }

  lemma OneWithin(x: real, m: real, lo: real, hi: real)
    requires lo <= x <= hi
    ensures UnderLine(x, m, Room(lo, m, hi), hi + lo - 2.0 * m)
  {
    Nonnegative(hi - x, x - lo);
    assert (hi - x) * (x - lo) == (hi - m) * (m - lo) + (x - m) * (hi + lo - 2.0 * m) - (x - m) * (x - m);
  }

  /** The sum of the line over the samples. */
  function LineSum(xs: seq<real>, m: real, c: real, k: real): real {
    if xs == [] then 0.0 else c + (xs[0] - m) * k + LineSum(xs[1..], m, c, k)
  }

  lemma {:induction false} SquaresUnderLine(xs: seq<real>, m: real, c: real, k: real)
    requires forall x | x in xs :: UnderLine(x, m, c, k)
    ensures Squares(xs, m) <= LineSum(xs, m, c, k)
  {
    if xs != [] {
      assert xs[0] in xs && forall y | y in xs[1..] :: y in xs;
      SquaresUnderLine(xs[1..], m, c, k);
    }
  }

  lemma {:induction false} LineSumIs(xs: seq<real>, m: real, c: real, k: real)
    ensures LineSum(xs, m, c, k) == |xs| as real * c + Deviation(xs, m) * k
  {
    if xs != [] {
      LineSumIs(xs[1..], m, c, k);
      LineStep(|xs[1..]| as real, c, k, Deviation(xs[1..], m), xs[0] - m);
    }
  }

  lemma LineStep(n: real, c: real, k: real, dev: real, d: real)
    ensures c + d * k + (n * c + dev * k) == (n + 1.0) * c + (d + dev) * k
  {
  }

  lemma LineSumIsFlat(xs: seq<real>, n: real, m: real, c: real, k: real, dev: real)
    requires n == |xs| as real && dev == Deviation(xs, m) == 0.0
    ensures LineSum(xs, m, c, k) == n * c
  {
    LineSumIs(xs, m, c, k);
    assert dev * k == 0.0;
  }

  lemma AverageUnderLine(xs: seq<real>, n: real, m: real, c: real, k: real)
    requires xs != [] && n == |xs| as real
    requires Deviation(xs, m) == 0.0 && forall x | x in xs :: UnderLine(x, m, c, k)
    ensures Squares(xs, m) / n <= c
  {
    SquaresUnderLine(xs, m, c, k);
    LineSumIsFlat(xs, n, m, c, k, 0.0);
    Bounded(n, Squares(xs, m), c);
  }

  lemma SpreadWithin(xs: seq<real>, m: real, lo: real, hi: real)
    requires xs != [] && Deviation(xs, m) == 0.0 && forall x | x in xs :: lo <= x <= hi
    ensures Squares(xs, m) / |xs| as real <= Room(lo, m, hi) <= Sqr(hi - lo) / 4.0
  {
    forall x | x in xs ensures UnderLine(x, m, Room(lo, m, hi), hi + lo - 2.0 * m) {
      OneWithin(x, m, lo, hi);
    }
    AverageUnderLine(xs, |xs| as real, m, Room(lo, m, hi), hi + lo - 2.0 * m);
    Quarter(hi - m, m - lo, hi - lo);
  }

  /** Bhatia-Davis and Popoviciu: the variance is bounded by the product of the distances of the
      mean from the extremes, and that by a quarter of the squared range. */
  lemma {:induction false} VarianceBound(xs: seq<real>)
    requires xs != []
    ensures Variance(xs) <= Room(Min(xs), Mean(xs), Max(xs)) <= Sqr(Max(xs) - Min(xs)) / 4.0
  {
    DeviationsFromMeanCancel(xs);
    SpreadWithin(xs, Mean(xs), Min(xs), Max(xs));
  }

  lemma Bounded(n: real, q: real, c: real)
    requires n > 0.0 && q <= n * c
    ensures q / n <= c
  {
  }

  lemma Quarter(a: real, b: real, range: real)
    requires range == a + b
    ensures a * b <= Sqr(range) / 4.0
  {
    assert Sqr(a - b) >= 0.0;
    assert Sqr(range) - Sqr(a - b) == 4.0 * (a * b);
  }

  lemma VarianceIsNotNegative(xs: seq<real>)
    requires xs != []
    ensures Variance(xs) >= 0.0
  {
    NotNegative(|xs| as real, Squares(xs, Mean(xs)));
  }

  lemma NotNegative(n: real, q: real)
    requires n > 0.0 && q >= 0.0
    ensures q / n >= 0.0
  {
  }
}
