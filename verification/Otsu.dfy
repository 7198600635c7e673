/** Otsu's threshold from a histogram of 256 bins, in exact arithmetic. The sums are integers as in
    the source; fractions and variances are exact reals in place of `float`. */
module Otsu {

  type Histogram = h: seq<nat> | |h| == 256 witness seq(256, _ => 0)

  // ---------------------------------------------------------------- sums over bins

  /** Pixels, sum of grey values and sum of their squares in the bins lo .. hi-1. */
  function Count(h: Histogram, lo: nat, hi: nat): (n: nat)
    requires lo <= hi <= 256
  {
    if lo == hi then 0 else Count(h, lo, hi - 1) + h[hi - 1]
  }

  function Weight(h: Histogram, lo: nat, hi: nat): (n: nat)
    requires lo <= hi <= 256
  {
    if lo == hi then 0 else Weight(h, lo, hi - 1) + h[hi - 1] * (hi - 1)
  }

  function Square(h: Histogram, lo: nat, hi: nat): real
    requires lo <= hi <= 256
  {
    if lo == hi then 0.0 else Square(h, lo, hi - 1) + h[hi - 1] as real * (hi - 1) as real * (hi - 1) as real
  }

  lemma {:induction false} SumsSplit(h: Histogram, lo: nat, mid: nat, hi: nat)
    requires lo <= mid <= hi <= 256
    ensures Count(h, lo, hi) == Count(h, lo, mid) + Count(h, mid, hi)
    ensures Weight(h, lo, hi) == Weight(h, lo, mid) + Weight(h, mid, hi)
    ensures Square(h, lo, hi) == Square(h, lo, mid) + Square(h, mid, hi)
    decreases hi
  {
    if mid < hi { SumsSplit(h, lo, mid, hi - 1); }
  }

  /** Empty bins add nothing, and nothing else does. */
  lemma {:induction false} EmptyBins(h: Histogram, lo: nat, hi: nat)
    requires lo <= hi <= 256
    ensures Count(h, lo, hi) == 0 <==> forall i :: lo <= i < hi ==> h[i] == 0
    ensures Count(h, lo, hi) == 0 ==> Weight(h, lo, hi) == 0
    decreases hi
  {
    if lo < hi { EmptyBins(h, lo, hi - 1); }
  }

  /** With 8-bit bins every sum fits the 32-bit variables that hold it. */
  lemma {:induction false} SumsFit(h: Histogram, lo: nat, hi: nat)
    requires lo <= hi <= 256 && forall i :: 0 <= i < 256 ==> h[i] <= 255
    ensures Count(h, lo, hi) <= 255 * (hi - lo) && Weight(h, lo, hi) <= 255 * 255 * (hi - lo) < 0x8000_0000
    decreases hi
  {
    if lo < hi {
      SumsFit(h, lo, hi - 1);
      assert h[hi - 1] * (hi - 1) <= 255 * 255 by { MulLe(h[hi - 1], 255, hi - 1, 255); }
    }
  }

  lemma MulLe(a: nat, b: nat, c: nat, d: nat)
    requires a <= b && c <= d
    ensures a * c <= b * d
  {
    assert a * c <= a * d by { assert a * (d - c) >= 0; }
    assert a * d <= b * d by { assert (b - a) * d >= 0; }
  }

  // ---------------------------------------------------------------- variances

  /** A split after grey value `j` with pixels on both sides. */
  predicate Valid(h: Histogram, j: nat) {
    j < 255 && Count(h, 0, j + 1) > 0 && Count(h, j + 1, 256) > 0
  }

  function Mean(h: Histogram, lo: nat, hi: nat): real
    requires lo <= hi <= 256 && Count(h, lo, hi) > 0
  {
    Weight(h, lo, hi) as real / Count(h, lo, hi) as real
  }

  /** Between-class variance of a split: the quantity the source maximises. */
  function Between(h: Histogram, j: nat): real
    requires Valid(h, j)
  {
    SumsSplit(h, 0, j + 1, 256);
    var n := Count(h, 0, 256) as real;
    var d := Mean(h, 0, j + 1) - Mean(h, j + 1, 256);
    (Count(h, 0, j + 1) as real / n) * (Count(h, j + 1, 256) as real / n) * d * d
  }

  /** Sum of squared distances from `m`. */
  function Spread(h: Histogram, lo: nat, hi: nat, m: real): real
    requires lo <= hi <= 256
  {
    if lo == hi then 0.0
    else Spread(h, lo, hi - 1, m) + h[hi - 1] as real * ((hi - 1) as real - m) * ((hi - 1) as real - m)
  }

  /** Within-class variance of a split, and the variance of the whole image. */
  function Within(h: Histogram, j: nat): real
    requires Valid(h, j)
  {
    SumsSplit(h, 0, j + 1, 256);
    (Spread(h, 0, j + 1, Mean(h, 0, j + 1)) + Spread(h, j + 1, 256, Mean(h, j + 1, 256))) / Count(h, 0, 256) as real
  }

  function Total(h: Histogram): real
    requires Count(h, 0, 256) > 0
  {
    Spread(h, 0, 256, Mean(h, 0, 256)) / Count(h, 0, 256) as real
  }

  /** The sum of squared distances from `m` of a class with these three sums. */
  ghost predicate Expansion(s: real, m: real, p: real, w: real, n: real) {
    s == p - 2.0 * m * w + m * m * n
  }

  /** The four sums of a class, and those of the class with `c` more pixels of value `x`. */
  datatype Sums = Sums(spread: real, squares: real, weight: real, n: real)

  ghost predicate OneMore(c: real, x: real, m: real, s: Sums, t: Sums) {
    && t.spread == s.spread + c * (x - m) * (x - m) && t.squares == s.squares + c * x * x
    && t.weight == s.weight + c * x && t.n == s.n + c
  }

  lemma OneMoreExpands(c: real, x: real, m: real, s: Sums, t: Sums)
    requires Expansion(s.spread, m, s.squares, s.weight, s.n) && OneMore(c, x, m, s, t)
    ensures Expansion(t.spread, m, t.squares, t.weight, t.n)
  {
  }

  lemma ProductCasts(a: nat, b: nat)
    ensures (a * b) as real == a as real * b as real
  {
  }

  function SumsOf(h: Histogram, lo: nat, hi: nat, m: real): Sums
    requires lo <= hi <= 256
  {
    Sums(Spread(h, lo, hi, m), Square(h, lo, hi), Weight(h, lo, hi) as real, Count(h, lo, hi) as real)
  }

  lemma LastBin(h: Histogram, lo: nat, hi: nat, m: real)
    requires lo < hi <= 256
    ensures OneMore(h[hi - 1] as real, (hi - 1) as real, m, SumsOf(h, lo, hi - 1, m), SumsOf(h, lo, hi, m))
  {
    ProductCasts(h[hi - 1], hi - 1);
  }

  lemma {:induction false} SpreadExpands(h: Histogram, lo: nat, hi: nat, m: real)
    requires lo <= hi <= 256
    ensures var s := SumsOf(h, lo, hi, m); Expansion(s.spread, m, s.squares, s.weight, s.n)
    decreases hi
  {
    if lo < hi {
      hide SumsOf, OneMore, Expansion;
      SpreadExpands(h, lo, hi - 1, m);
      LastBin(h, lo, hi, m);
      OneMoreExpands(h[hi - 1] as real, (hi - 1) as real, m, SumsOf(h, lo, hi - 1, m), SumsOf(h, lo, hi, m));
    }
  }

  lemma MeanTimesCount(spread: real, m: real, w: real, c: real, p: real)
    requires c > 0.0 && m == w / c && Expansion(spread, m, p, w, c)
    ensures m * c == w && spread == p - m * m * c
  {
    assert m * w == m * (m * c);
  }

  /** About its own mean, a class spreads by its squares less its count times its mean squared. */
  lemma SpreadAboutMean(h: Histogram, lo: nat, hi: nat)
    requires lo <= hi <= 256 && Count(h, lo, hi) > 0
    ensures var m := Mean(h, lo, hi);
            && m * Count(h, lo, hi) as real == Weight(h, lo, hi) as real
            && Spread(h, lo, hi, m) == Square(h, lo, hi) - m * m * Count(h, lo, hi) as real
  {
    hide Square, Weight, Spread, Count, Expansion;
    var m := Mean(h, lo, hi);
    SpreadExpands(h, lo, hi, m);
    MeanTimesCount(Spread(h, lo, hi, m), m, Weight(h, lo, hi) as real, Count(h, lo, hi) as real, Square(h, lo, hi));
  }

  lemma TwoMeans(a: real, b: real, x: real, y: real)
    ensures (a + b) * (a * x * x + b * y * y) - (a * x + b * y) * (a * x + b * y) == a * b * (x - y) * (x - y)
  {
  }

  /** A class by its exact moments: pixels, mean, sum of squares, spread about the mean. */
  datatype Moments = Moments(n: real, mean: real, squares: real, spread: real)

  ghost predicate Consistent(c: Moments) {
    c.n > 0.0 && c.spread == c.squares - c.mean * c.mean * c.n
  }

  function ClassMoments(h: Histogram, lo: nat, hi: nat): Moments
    requires lo <= hi <= 256 && Count(h, lo, hi) > 0
  {
    Moments(Count(h, lo, hi) as real, Mean(h, lo, hi), Square(h, lo, hi), Spread(h, lo, hi, Mean(h, lo, hi)))
  }

  lemma PartsAdd(u: Moments, v: Moments, t: Moments)
    requires Consistent(u) && Consistent(v) && Consistent(t)
    requires t.n == u.n + v.n && t.mean * t.n == u.mean * u.n + v.mean * v.n && t.squares == u.squares + v.squares
    ensures (u.spread + v.spread) / t.n + (u.n / t.n) * (v.n / t.n) * (u.mean - v.mean) * (u.mean - v.mean)
            == t.spread / t.n
  {
    PartsAddReals(u.n, v.n, t.n, u.mean, v.mean, t.mean, u.squares, v.squares, u.spread, v.spread, t.spread);
  }

  lemma MomentsAdd(h: Histogram, j: nat)
    requires Valid(h, j)
    ensures Count(h, 0, 256) > 0
    ensures var u, v, t := ClassMoments(h, 0, j + 1), ClassMoments(h, j + 1, 256), ClassMoments(h, 0, 256);
            && Consistent(u) && Consistent(v) && Consistent(t)
            && t.n == u.n + v.n && t.mean * t.n == u.mean * u.n + v.mean * v.n && t.squares == u.squares + v.squares
  {
    hide Square, Weight, Spread, Count, Mean;
    SumsSplit(h, 0, j + 1, 256);
    SpreadAboutMean(h, 0, j + 1);
    SpreadAboutMean(h, j + 1, 256);
    SpreadAboutMean(h, 0, 256);
  }

  lemma VariancesFromMoments(h: Histogram, j: nat)
    requires Valid(h, j)
    ensures Count(h, 0, 256) > 0
    ensures var u, v, t := ClassMoments(h, 0, j + 1), ClassMoments(h, j + 1, 256), ClassMoments(h, 0, 256);
            && Within(h, j) == (u.spread + v.spread) / t.n && Total(h) == t.spread / t.n
            && Between(h, j) == (u.n / t.n) * (v.n / t.n) * (u.mean - v.mean) * (u.mean - v.mean)
  {
    hide Square, Weight, Spread, Count, Mean;
    SumsSplit(h, 0, j + 1, 256);
  }

  /** The variance of the image is the sum of the two parts, for every valid split. */
  lemma VarianceSplits(h: Histogram, j: nat)
    requires Valid(h, j)
    ensures Count(h, 0, 256) > 0 && Within(h, j) + Between(h, j) == Total(h)
  {
    hide Square, Weight, Spread, Count, Mean, Within, Between, Total, ClassMoments, Consistent;
    MomentsAdd(h, j);
    VariancesFromMoments(h, j);
    PartsAdd(ClassMoments(h, 0, j + 1), ClassMoments(h, j + 1, 256), ClassMoments(h, 0, 256));
  }

  lemma PartsAddReals(a: real, b: real, n: real, x: real, y: real, m: real, p: real, q: real, u: real, v: real, t: real)
    requires a > 0.0 && b > 0.0 && n == a + b && m * n == x * a + y * b
    requires u == p - x * x * a && v == q - y * y * b && t == (p + q) - m * m * n
    ensures (u + v) / n + (a / n) * (b / n) * (x - y) * (x - y) == t / n
  {
    TwoMeans(a, b, x, y);
    var d := (x - y) * (x - y);
    assert (a / n) * (b / n) * (x - y) * (x - y) == (a * b * d / n) / n;
    assert n * (a * x * x + b * y * y) - (m * n) * (m * n) == a * b * d;
    assert (m * n) * (m * n) == n * (m * m * n);
    assert n * ((a * x * x + b * y * y) - m * m * n) == a * b * d;
    assert a * b * d / n == (a * x * x + b * y * y) - m * m * n;
  }

  // ---------------------------------------------------------------- the threshold

  /** The least split that maximises the between-class variance. */
  ghost predicate LeastBest(h: Histogram, t: nat) {
    && Valid(h, t)
    && (forall j: nat :: Valid(h, j) ==> Between(h, j) <= Between(h, t))
    && (forall j: nat :: Valid(h, j) && j < t ==> Between(h, j) < Between(h, t))
  }

  /** It is also the least split that minimises the within-class variance. */
  lemma BestMinimisesWithin(h: Histogram, t: nat)
    requires Valid(h, t)
    ensures LeastBest(h, t) <==>
              && (forall j: nat :: Valid(h, j) ==> Within(h, t) <= Within(h, j))
              && (forall j: nat :: Valid(h, j) && j < t ==> Within(h, t) < Within(h, j))
  {
    hide Valid, Between, Within, Total, Count;
    VarianceSplits(h, t);
    forall j: nat | Valid(h, j) ensures Within(h, j) + Between(h, j) == Total(h) { VarianceSplits(h, j); }
  }

  /** There is exactly one such split wherever there is a valid one. */
  lemma LeastBestUnique(h: Histogram, t: nat, u: nat)
    requires LeastBest(h, t) && LeastBest(h, u)
    ensures t == u
  {
    hide Valid, Between;
  }

  /** A float that may not be a number; a comparison with one is false. */
  datatype Float = NaN | Num(value: real)

  predicate Greater(x: Float, y: Float) { x.Num? && y.Num? && x.value > y.value }

  /** The variance as the loop computes it, from its four running sums. A class without pixels makes
      zero over zero. */
  function Sigma(amount: nat, back: nat, fore: nat, weightBack: nat, weightFore: nat): Float {
    if amount == 0 || back == 0 || fore == 0 then NaN
    else
      var omegaBack, omegaFore := back as real / amount as real, fore as real / amount as real;
      var d := weightBack as real / back as real - weightFore as real / fore as real;
      Num(omegaBack * omegaFore * d * d)
  }

  lemma SigmaIsBetween(h: Histogram, j: nat)
    requires j < 255
    ensures Sigma(Count(h, 0, 256), Count(h, 0, j + 1), Count(h, j + 1, 256), Weight(h, 0, j + 1), Weight(h, j + 1, 256))
            == if Valid(h, j) then Num(Between(h, j)) else NaN
  {
    hide Count, Weight;
    SumsSplit(h, 0, j + 1, 256);
  }

  lemma BetweenNonNegative(h: Histogram, j: nat)
    requires Valid(h, j)
    ensures Between(h, j) >= 0.0
  {
    hide Count, Weight, Mean;
    SumsSplit(h, 0, j + 1, 256);
    var a, b := Count(h, 0, j + 1) as real / Count(h, 0, 256) as real, Count(h, j + 1, 256) as real / Count(h, 0, 256) as real;
    var d := Mean(h, 0, j + 1) - Mean(h, j + 1, 256);
    ProductNonNegative(a, b, d);
  }

  lemma ProductNonNegative(a: real, b: real, d: real)
    requires a >= 0.0 && b >= 0.0
    ensures a * b * d * d >= 0.0
  {
    assert a * b >= 0.0 && d * d >= 0.0;
    assert a * b * d * d == (a * b) * (d * d);
  }

  /** What the search returns: the best split where there is a valid one. Otherwise the image has at
      most one grey value, and the search for the largest one, which tests the bin of the smallest,
      always stops at 255: a lone grey value is returned only if it is 254 or 255, and 0 otherwise. */
  ghost predicate IsThreshold(h: Histogram, t: nat) {
    if exists j: nat :: Valid(h, j) then LeastBest(h, t)
    else t == if h[255] > 0 then 255 else if h[254] > 0 then 254 else 0
  }

  /** The search for the largest grey value, which tests the same bin every time. */
  method LargestValue(h: Histogram, minValue: nat) returns (maxValue: nat)
    ensures maxValue == if minValue < 255 && h[minValue] == 0 then minValue else 255
  {
    maxValue := 255;
    while maxValue > minValue && h[minValue] == 0
      invariant minValue < 255 && h[minValue] == 0 ==> minValue <= maxValue
      invariant !(minValue < 255 && h[minValue] == 0) ==> maxValue == 255
    {
      maxValue := maxValue - 1;
    }
  }

  /** No valid split below `j`, or the best of them with its variance. */
  ghost predicate BestBelow(h: Histogram, j: nat, t: nat, sigma: Float) {
    if forall k: nat :: k < j ==> !Valid(h, k) then t == 0 && sigma == Num(-1.0)
    else
      && t < j && Valid(h, t) && sigma == Num(Between(h, t))
      && (forall k: nat :: k < j && Valid(h, k) ==> Between(h, k) <= Between(h, t))
      && (forall k: nat :: k < t && Valid(h, k) ==> Between(h, k) < Between(h, t))
  }

  lemma BestBelowStep(h: Histogram, j: nat, t: nat, sigma: Float)
    requires j < 255 && BestBelow(h, j, t, sigma)
    ensures var x := if Valid(h, j) then Num(Between(h, j)) else NaN;
            if Greater(x, sigma) then BestBelow(h, j + 1, j, x) else BestBelow(h, j + 1, t, sigma)
  {
    hide Valid, Between;
    if Valid(h, j) { BetweenNonNegative(h, j); }
  }

  /** A split is valid when there are pixels at or below it and pixels above it. */
  lemma ValidByBins(h: Histogram, j: nat)
    requires j < 255
    ensures Valid(h, j) <==> (exists i :: 0 <= i <= j && h[i] > 0) && (exists i :: j < i < 256 && h[i] > 0)
  {
    EmptyBins(h, 0, j + 1);
    EmptyBins(h, j + 1, 256);
  }

  /** Without a pixel below `m`, no split below `m` is valid. */
  lemma NoSplitBelow(h: Histogram, m: nat)
    requires m <= 256 && forall i :: 0 <= i < m ==> h[i] == 0
    ensures forall j: nat :: j < m ==> !Valid(h, j)
  {
    forall j: nat | j < m && j < 255 ensures !Valid(h, j) { ValidByBins(h, j); }
  }

  /** The three sums and the loop over the splits. */
  method Search(h: Histogram, minValue: nat) returns (threshold: nat)
    requires minValue <= 256 && forall i :: 0 <= i < minValue ==> h[i] == 0
    ensures exists sigma :: BestBelow(h, 255, threshold, sigma)
  {
    hide Valid, Between;
    EmptyBins(h, 0, minValue);
    var amount, pixelIntegral := 0, 0;
    for j := minValue to 256
      invariant amount == Count(h, 0, j) && pixelIntegral == Weight(h, 0, j)
    {
      amount := amount + h[j];
      pixelIntegral := pixelIntegral + h[j] * j;
    }
    threshold := 0;
    var sigmaB := Num(-1.0);
    var pixelBack, pixelIntegralBack := 0, 0;
    NoSplitBelow(h, minValue);
    if minValue >= 255 {
      assert BestBelow(h, 255, threshold, sigmaB);
      return;
    }
    for j := minValue to 255
      invariant pixelBack == Count(h, 0, j) && pixelIntegralBack == Weight(h, 0, j)
      invariant BestBelow(h, j, threshold, sigmaB)
    {
      SumsSplit(h, 0, j + 1, 256);
      pixelBack := pixelBack + h[j];
      var pixelFore := amount - pixelBack;
      pixelIntegralBack := pixelIntegralBack + h[j] * j;
      var pixelIntegralFore := pixelIntegral - pixelIntegralBack;
      SigmaIsBetween(h, j);
      BestBelowStep(h, j, threshold, sigmaB);
      var sigma := Sigma(amount, pixelBack, pixelFore, pixelIntegralBack, pixelIntegralFore);
      if Greater(sigma, sigmaB) {
        sigmaB := sigma;
        threshold := j;
      }
    }
  }

  /** ostu_threshold, from the histogram on. */
  method OstuThreshold(h: Histogram) returns (threshold: nat)
    ensures IsThreshold(h, threshold)
  {
    hide Between;
    var minValue := 0;
    while minValue < 256 && h[minValue] == 0
      invariant minValue <= 256 && forall i :: 0 <= i < minValue ==> h[i] == 0
    {
      minValue := minValue + 1;
    }
    NoSplitBelow(h, minValue);
    var maxValue := LargestValue(h, minValue);
    forall j: nat | j < 255 ensures Valid(h, j) <==> minValue <= j && exists i :: j < i < 256 && h[i] > 0 {
      ValidByBins(h, j);
    }
    if maxValue == minValue {
      return maxValue;
    }
    if minValue + 1 == maxValue {
      assert Valid(h, 254) <==> h[255] > 0;
      assert forall j: nat :: Valid(h, j) ==> j == 254;
      return minValue;
    }
    threshold := Search(h, minValue);
    if minValue < 254 && !Valid(h, minValue) {
      assert h[254] == 0 && h[255] == 0;
    }
  }

  /** The source means to return the grey value of an image that has only one. It does so exactly
      for 0, 254 and 255. */
  lemma SingleValueExact(h: Histogram, v: nat, t: nat)
    requires v < 256 && h[v] > 0 && (forall i :: 0 <= i < 256 && i != v ==> h[i] == 0)
    requires IsThreshold(h, t)
    ensures t == v <==> v == 0 || v == 254 || v == 255
  {
    forall j: nat | j < 255 ensures !Valid(h, j) { ValidByBins(h, j); }
  }

  /** For an image of exactly two grey values the threshold is the smaller one. */
  lemma TwoValues(h: Histogram, u: nat, v: nat, t: nat)
    requires u < v < 256 && h[u] > 0 && h[v] > 0 && (forall i :: 0 <= i < 256 && i != u && i != v ==> h[i] == 0)
    requires IsThreshold(h, t)
    ensures t == u
  {
    hide Between;
    forall j: nat | j < 255 ensures Valid(h, j) <==> u <= j < v { ValidByBins(h, j); }
    assert Valid(h, u) && LeastBest(h, t);
    SameSplit(h, u, t);
  }

  lemma SameSplit(h: Histogram, u: nat, j: nat)
    requires u <= j && Valid(h, u) && Valid(h, j) && forall i :: u < i <= j ==> h[i] == 0
    ensures Between(h, j) == Between(h, u)
  {
    SumsSplit(h, 0, u + 1, j + 1);
    SumsSplit(h, u + 1, j + 1, 256);
    EmptyBins(h, u + 1, j + 1);
  }
}
