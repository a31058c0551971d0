/** The summary statistics of the timing code, and what they promise about any
    list: the median is a half-way rank and the least-total-distance point, it
    never lies further from the mean than the standard deviation, and it and
    the MAD resist a minority of outliers. */
module Statistics {
  import opened Reals
  import opened Sorting
  import opened Doubles

  /** The middle element of a sorted list, or the mean of the two middle ones. */
  function Middle(vec2: seq<real>): real
    requires vec2 != []
  {
    var n := |vec2|;
    if n % 2 == 0 then (vec2[n / 2 - 1] + vec2[n / 2]) / 2.0 else vec2[n / 2]
  }

  /** The median, 0.0 for the empty list. */
  function Median(vec: seq<real>): real {
    if vec == [] then 0.0 else Middle(Sort(vec))
  }

  /** The average, NaN for the empty list, as 0.0 / 0.0 is. */
  function Average(vec: seq<real>): Double {
    Quotient(Sum(vec), |vec| as real)
  }

  function Mean(vec: seq<real>): real
    requires vec != []
  {
    Sum(vec) / |vec| as real
  }

  /** The square of the standard deviation, 0.0 below two elements. */
  function Variance(vec: seq<real>): real {
    if |vec| < 2 then 0.0 else SumSquares(vec, Mean(vec)) / (|vec| - 1) as real
  }

  function MedianAbsoluteDeviation(vec: seq<real>): real {
    Median(AbsDeviations(vec, Median(vec)))
  }

  /** calculate_median: sorts a copy and takes its middle. */
  method CalculateMedian(vec: seq<real>) returns (median: real)
    ensures median == Median(vec)
  {
    hide Sort;
    if vec == [] {
      return 0.0;
    }
    var vec2 := Sort(vec);
    var n := |vec2|;
    if n % 2 == 0 {
      return (vec2[n / 2 - 1] + vec2[n / 2]) / 2.0;
    } else {
      return vec2[n / 2];
    }
  }

  /** The loops that add up a list. */
  method Accumulate(list: seq<real>) returns (sum: real)
    ensures sum == Sum(list)
  {
    sum := 0.0;
    for i := 0 to |list|
      invariant sum == Sum(list[..i])
    {
      assert list[..i + 1][..i] == list[..i];
      sum := sum + list[i];
    }
    assert list[..|list|] == list;
  }

  method CalculateAverage(vec: seq<real>) returns (average: Double)
    ensures average == Average(vec)
  {
    var sum := Accumulate(vec);
    average := Quotient(sum, |vec| as real);
  }

  /** The nonnegative square root of the variance. */
  predicate IsStandardDeviation(vec: seq<real>, stddev: real) {
    stddev >= 0.0 && Square(stddev) == Variance(vec)
  }

  /** What `std::sqrt` promises on nonnegative numbers, without rounding. */
  ghost predicate IsSquareRoot(sqrt: real -> real) {
    forall x: real :: x >= 0.0 ==> sqrt(x) >= 0.0 && Square(sqrt(x)) == x
  }

  lemma SquareIsNonnegative(x: real)
    ensures Square(x) >= 0.0
  {
    if x != 0.0 { PositiveSquare(x); }
  }

  lemma {:induction false} SumSquaresIsNonnegative(s: seq<real>, c: real)
    ensures SumSquares(s, c) >= 0.0
  {
    if s == [] {
    } else {
      SumSquaresIsNonnegative(s[..|s| - 1], c);
      SquareIsNonnegative(s[|s| - 1] - c);
    }
  }

  method CalculateStandardDeviation(vec: seq<real>, sqrt: real -> real) returns (stddev: real)
    requires IsSquareRoot(sqrt)
    ensures IsStandardDeviation(vec, stddev)
  {
    if |vec| < 2 {
      return 0.0;
    }
    var average := CalculateAverage(vec);
    var mean, sumSquares := average.v, 0.0;
    for i := 0 to |vec|
      invariant sumSquares == SumSquares(vec[..i], mean)
    {
      assert vec[..i + 1][..i] == vec[..i];
      sumSquares := sumSquares + Square(vec[i] - mean);
    }
    assert vec[..|vec|] == vec;
    SumSquaresIsNonnegative(vec, mean);
    stddev := sqrt(sumSquares / (|vec| - 1) as real);
  }

  method CalculateMedianAbsoluteDeviation(vec: seq<real>) returns (mad: real)
    ensures mad == MedianAbsoluteDeviation(vec)
  {
    var median := CalculateMedian(vec);
    var vecAbsDifferences := seq(|vec|, _ => 0.0);
    ghost var deviations := AbsDeviations(vec, median);
    for i := 0 to |vec|
      invariant |vecAbsDifferences| == |vec|
      invariant forall k :: 0 <= k < i ==> vecAbsDifferences[k] == deviations[k]
    {
      vecAbsDifferences := vecAbsDifferences[i := Abs(vec[i] - median)];
    }
    assert vecAbsDifferences == deviations;
    mad := CalculateMedian(vecAbsDifferences);
  }

  // ----- ranks -----

  lemma {:induction false} InsertCounts(s: seq<real>, y: real, x: real)
    requires Sorted(s)
    ensures CountLe(Insert(s, y), x) == CountLe(s, x) + if y <= x then 1 else 0
    ensures CountGe(Insert(s, y), x) == CountGe(s, x) + if y >= x then 1 else 0
  {
    if s == [] || s[|s| - 1] <= y {
      CountAppendOne(s, y, x);
    } else {
      var init, last := s[..|s| - 1], s[|s| - 1];
      InsertCounts(init, y, x);
      CountAppendOne(Insert(init, y), last, x);
    }
  }

  /** Sorting moves elements but counts none twice and loses none. */
  lemma {:induction false} SortCounts(s: seq<real>, x: real)
    ensures CountLe(Sort(s), x) == CountLe(s, x)
    ensures CountGe(Sort(s), x) == CountGe(s, x)
  {
    if s == [] {
    } else {
      SortCounts(s[..|s| - 1], x);
      InsertCounts(Sort(s[..|s| - 1]), s[|s| - 1], x);
    }
  }

  /** `up` is a sorted list with the same counts as `s`. */
  ghost predicate SortedForm(up: seq<real>, s: seq<real>) {
    && Sorted(up)
    && |up| == |s|
    && forall x: real :: CountLe(up, x) == CountLe(s, x) && CountGe(up, x) == CountGe(s, x)
  }

  lemma SortIsSortedForm(s: seq<real>)
    ensures SortedForm(Sort(s), s)
  {
    forall x: real ensures CountLe(Sort(s), x) == CountLe(s, x) && CountGe(Sort(s), x) == CountGe(s, x) {
      SortCounts(s, x);
    }
  }

  /** In a sorted list, the element at position k is at least c exactly when
      |s| - k elements are, and at most c exactly when k + 1 elements are. */
  lemma SortedRank(s: seq<real>, k: nat, c: real)
    requires Sorted(s) && k < |s|
    ensures s[k] >= c <==> CountGe(s, c) >= |s| - k
    ensures s[k] <= c <==> CountLe(s, c) >= k + 1
  {
    CountGeBounds(s, if s[k] >= c then k else k + 1, c);
    CountLeBounds(s, if s[k] <= c then k + 1 else k, c);
  }

  lemma MiddleIsBetween(s: seq<real>)
    requires Sorted(s) && s != []
    ensures s[(|s| - 1) / 2] <= Middle(s) <= s[|s| / 2]
  {
  }

  /** At least half of the elements are at most the median, and at least half
      are at least the median. */
  lemma MedianRank(vec: seq<real>)
    requires vec != []
    ensures 2 * CountLe(vec, Median(vec)) >= |vec|
    ensures 2 * CountGe(vec, Median(vec)) >= |vec|
  {
    var s, n, m := Sort(vec), |vec|, Median(vec);
    MiddleIsBetween(s);
    SortedRank(s, (n - 1) / 2, m);
    SortedRank(s, n / 2, m);
    SortCounts(vec, m);
  }

  /** x is the k-th smallest element, counted from 0 and stated by counting only. */
  predicate IsOrderStatistic(s: seq<real>, k: nat, x: real) {
    CountLe(s, x) >= k + 1 && CountGe(s, x) >= |s| - k
  }

  /** There is an element of every rank. */
  lemma OrderStatisticExists(s: seq<real>, k: nat) returns (x: real)
    requires k < |s|
    ensures x in s && IsOrderStatistic(s, k, x)
  {
    x := Sort(s)[k];
    assert x in multiset(s);
    SortedRank(Sort(s), k, x);
    SortCounts(s, x);
  }

  lemma SortedFormAt(s: seq<real>, up: seq<real>, k: nat, x: real)
    requires SortedForm(up, s) && k < |s| && IsOrderStatistic(s, k, x)
    ensures up[k] == x
  {
    SortedRank(up, k, x);
  }

  /** The median is the mean of the two middle elements in rank, which are one
      and the same for an odd count. */
  lemma MedianIsMidpoint(vec: seq<real>, lo: real, hi: real)
    requires vec != []
    requires IsOrderStatistic(vec, (|vec| - 1) / 2, lo) && IsOrderStatistic(vec, |vec| / 2, hi)
    ensures Median(vec) == (lo + hi) / 2.0
  {
    SortIsSortedForm(vec);
    SortedFormAt(vec, Sort(vec), (|vec| - 1) / 2, lo);
    SortedFormAt(vec, Sort(vec), |vec| / 2, hi);
    MiddleIsMean(Sort(vec));
  }

  lemma MiddleIsMean(s: seq<real>)
    requires s != []
    ensures Middle(s) == (s[|s| / 2] + s[(|s| - 1) / 2]) / 2.0
  {
  }

  // ----- the least total distance -----

  lemma {:induction false} ShiftUp(s: seq<real>, m: real, x: real)
    requires m <= x
    ensures CountLe(s, m) <= |s|
    ensures TotalDeviation(s, x) + Times(|s| - CountLe(s, m), x - m)
         >= TotalDeviation(s, m) + Times(CountLe(s, m), x - m)
  {
    if s == [] {
    } else {
      ShiftUp(s[..|s| - 1], m, x);
    }
  }

  lemma {:induction false} ShiftDown(s: seq<real>, m: real, x: real)
    requires x <= m
    ensures CountGe(s, m) <= |s|
    ensures TotalDeviation(s, x) + Times(|s| - CountGe(s, m), m - x)
         >= TotalDeviation(s, m) + Times(CountGe(s, m), m - x)
  {
    if s == [] {
    } else {
      ShiftDown(s[..|s| - 1], m, x);
    }
  }

  lemma HalfwayMinimisesDeviation(s: seq<real>, m: real, x: real)
    requires 2 * CountLe(s, m) >= |s| && 2 * CountGe(s, m) >= |s|
    ensures TotalDeviation(s, m) <= TotalDeviation(s, x)
  {
    if m <= x {
      ShiftUp(s, m, x);
      TimesMonotone(|s| - CountLe(s, m), CountLe(s, m), x - m);
    } else {
      ShiftDown(s, m, x);
      TimesMonotone(|s| - CountGe(s, m), CountGe(s, m), m - x);
    }
  }

  /** The median minimises the total absolute deviation over all points. */
  lemma MedianMinimisesDeviation(vec: seq<real>, x: real)
    ensures TotalDeviation(vec, Median(vec)) <= TotalDeviation(vec, x)
  {
    if vec != [] {
      MedianRank(vec);
      HalfwayMinimisesDeviation(vec, Median(vec), x);
    }
  }

  // ----- mean, median and standard deviation -----

  lemma {:induction false} SumOfDifferences(s: seq<real>, c: real)
    ensures Abs(Sum(s) - Times(|s|, c)) <= TotalDeviation(s, c)
  {
    if s == [] {
    } else {
      SumOfDifferences(s[..|s| - 1], c);
    }
  }

  lemma SquareAboveTangent(d: real, t: real)
    ensures Square(d) >= 2.0 * t * Abs(d) - Square(t)
  {
    var e := Abs(d);
    assert Square(d) == Square(e);
    assert Square(e - t) == Square(e) - 2.0 * t * e + Square(t);
    assert Square(e - t) >= 0.0;
  }

  lemma {:induction false} SquaresAboveTangent(s: seq<real>, c: real, t: real)
    ensures SumSquares(s, c) >= 2.0 * t * TotalDeviation(s, c) - Times(|s|, Square(t))
  {
    if s == [] {
    } else {
      SquaresAboveTangent(s[..|s| - 1], c, t);
      SquareAboveTangent(s[|s| - 1] - c, t);
    }
  }

  lemma GapBelowMeanDeviation(sum: real, n: real, c: real, dev: real)
    requires n > 0.0 && Abs(sum - n * c) <= dev
    ensures Abs(sum / n - c) <= dev / n
  {
    var mean := sum / n;
    assert sum - n * c == (mean - c) * n;
    assert Abs(sum - n * c) == Abs(mean - c) * n;
  }

  lemma TangentAtMean(n: real, dev: real)
    requires n > 0.0
    ensures 2.0 * (dev / n) * dev - n * Square(dev / n) == n * Square(dev / n)
  {
    var a := dev / n;
    assert dev == a * n;
  }

  /** The quadratic mean is at least the mean: Cauchy-Schwarz on the deviations. */
  lemma SquaresAboveMeanDeviation(s: seq<real>, n: real, c: real)
    requires s != [] && n == |s| as real
    ensures SumSquares(s, c) >= n * Square(TotalDeviation(s, c) / n)
  {
    var a := TotalDeviation(s, c) / n;
    SquaresAboveTangent(s, c, a);
    TimesIsProduct(|s|, n, Square(a));
    TangentAtMean(n, TotalDeviation(s, c));
  }

  lemma SquareBelowQuotient(n: real, a: real, squares: real)
    requires n >= 2.0 && squares >= n * Square(a)
    ensures Square(a) <= squares / (n - 1.0)
  {
    var q := Square(a);
    assert q >= 0.0;
    assert squares >= q * (n - 1.0);
  }

  lemma DeviationBelowStddev(vec: seq<real>)
    requires |vec| >= 2
    ensures Square(TotalDeviation(vec, Mean(vec)) / |vec| as real) <= Variance(vec)
  {
    SquaresAboveMeanDeviation(vec, |vec| as real, Mean(vec));
    SquareBelowQuotient(|vec| as real, TotalDeviation(vec, Mean(vec)) / |vec| as real,
                        SumSquares(vec, Mean(vec)));
  }

  lemma GapAtHalfwayPoint(vec: seq<real>, n: real, med: real, dev: real)
    requires vec != [] && n == |vec| as real && TotalDeviation(vec, med) <= dev
    ensures Abs(Sum(vec) / n - med) <= dev / n
  {
    SumOfDifferences(vec, med);
    TimesIsProduct(|vec|, n, med);
    GapBelowMeanDeviation(Sum(vec), n, med, dev);
  }

  lemma RootBound(x: real, stddev: real)
    requires stddev >= 0.0 && Square(x) <= Square(stddev)
    ensures Abs(x) <= stddev
  {
    var a := Abs(x);
    assert Square(a) == Square(x);
    if a > stddev {
      PositiveProduct(a - stddev, a);
      NonnegativeProduct(a - stddev, stddev);
    }
  }

  /** Only one number is the standard deviation of a list. */
  lemma StandardDeviationIsUnique(vec: seq<real>, a: real, b: real)
    requires IsStandardDeviation(vec, a) && IsStandardDeviation(vec, b)
    ensures a == b
  {
    hide Variance;
    RootBound(a, b);
    RootBound(b, a);
  }

  /** The mean and the median never differ by more than the standard deviation. */
  lemma MeanMedianWithinStddev(vec: seq<real>)
    requires vec != []
    ensures Square(Mean(vec) - Median(vec)) <= Variance(vec)
    ensures forall stddev :: IsStandardDeviation(vec, stddev) ==> Abs(Mean(vec) - Median(vec)) <= stddev
  {
    hide Variance, Median, Mean, SumSquares;
    if |vec| == 1 { NoGapForOne(vec); } else { SquaredGapBelowVariance(vec); }
    forall stddev | IsStandardDeviation(vec, stddev) ensures Abs(Mean(vec) - Median(vec)) <= stddev {
      RootBound(Mean(vec) - Median(vec), stddev);
    }
  }

  lemma NoGapForOne(vec: seq<real>)
    requires |vec| == 1
    ensures Mean(vec) == Median(vec) == vec[0] && Square(Mean(vec) - Median(vec)) == Variance(vec) == 0.0
  {
    assert Sort(vec)[0] in multiset(vec);
    assert vec[..0] == [] && Sum(vec) == vec[0];
    assert vec[0] / 1.0 == vec[0];
  }

  lemma SquaredGapBelowVariance(vec: seq<real>)
    requires |vec| >= 2
    ensures Square(Mean(vec) - Median(vec)) <= Variance(vec)
  {
    MedianMinimisesDeviation(vec, Mean(vec));
    GapAtHalfwayPoint(vec, |vec| as real, Median(vec), TotalDeviation(vec, Mean(vec)));
    SquareMonotone(Mean(vec) - Median(vec), TotalDeviation(vec, Mean(vec)) / |vec| as real);
    DeviationBelowStddev(vec);
  }

  // ----- the variance from pairs -----

  /** The sum of the squared differences of all pairs of elements. */
  function PairSquares(s: seq<real>): real {
    if s == [] then 0.0 else PairSquares(s[..|s| - 1]) + SumSquares(s[..|s| - 1], s[|s| - 1])
  }

  /** The first-order deviation from c, which is 0 at the mean. */
  function Offset(s: seq<real>, c: real): real {
    if s == [] then 0.0 else Offset(s[..|s| - 1], c) + (s[|s| - 1] - c)
  }

  lemma {:induction false} OffsetIs(s: seq<real>, c: real)
    ensures Offset(s, c) == Sum(s) - Times(|s|, c)
  {
    if s == [] {
    } else {
      OffsetIs(s[..|s| - 1], c);
    }
  }

  lemma ShiftStep(e: real, d: real, o: real, r: real)
    ensures Square(e - d) - 2.0 * d * (o - e) + (r - 1.0) * Square(d)
         == Square(e) - 2.0 * d * o + r * Square(d)
  {
    assert Square(e - d) == Square(e) - 2.0 * d * e + Square(d);
  }

  lemma {:induction false} SquaresShift(s: seq<real>, r: real, c: real, d: real, o: real)
    requires r == |s| as real && o == Offset(s, c)
    ensures SumSquares(s, c + d) == SumSquares(s, c) - 2.0 * d * o + r * Square(d)
  {
    hide Square;
    if s != [] {
      var init, e := s[..|s| - 1], s[|s| - 1] - c;
      SquaresShift(init, r - 1.0, c, d, o - e);
      assert Square(s[|s| - 1] - (c + d)) == Square(e - d);
      ShiftStep(e, d, o, r);
      calc {
        SumSquares(s, c + d);
        SumSquares(init, c + d) + Square(e - d);
        SumSquares(init, c) - 2.0 * d * (o - e) + (r - 1.0) * Square(d) + Square(e - d);
        SumSquares(init, c) + Square(e) - 2.0 * d * o + r * Square(d);
        SumSquares(s, c) - 2.0 * d * o + r * Square(d);
      }
    } else {
      NothingShifts(r, d, o);
    }
  }

  lemma NothingShifts(r: real, d: real, o: real)
    requires r == 0.0 && o == 0.0
    ensures -2.0 * d * o + r * Square(d) == 0.0
    ensures r * d - Square(o) == 0.0
  {
  }

  lemma PairStep(q: real, o: real, r: real, d: real)
    ensures (r - 1.0) * (q - Square(d)) - Square(o - d)
          + ((q - Square(d)) - 2.0 * d * (o - d) + (r - 1.0) * Square(d))
         == r * q - Square(o)
  {
    assert Square(o - d) == Square(o) - 2.0 * d * o + Square(d);
  }

  lemma {:induction false} PairSquaresFromSums(s: seq<real>, r: real, c: real, q: real, o: real)
    requires r == |s| as real && q == SumSquares(s, c) && o == Offset(s, c)
    ensures PairSquares(s) == r * q - Square(o)
  {
    hide Square;
    if s != [] {
      var init, d := s[..|s| - 1], s[|s| - 1] - c;
      PairSquaresFromSums(init, r - 1.0, c, q - Square(d), o - d);
      SquaresShift(init, r - 1.0, c, d, o - d);
      assert c + d == s[|s| - 1];
      PairStep(q, o, r, d);
    } else {
      NothingShifts(r, q, o);
    }
  }

  lemma OffsetAtMean(vec: seq<real>, r: real, mean: real)
    requires vec != [] && r == |vec| as real && mean == Sum(vec) / r
    ensures Offset(vec, mean) == 0.0
  {
    OffsetIs(vec, mean);
    TimesIsProduct(|vec|, r, mean);
  }

  lemma PairSquaresAtMean(vec: seq<real>, r: real, mean: real, q: real)
    requires vec != [] && r == |vec| as real && mean == Sum(vec) / r && q == SumSquares(vec, mean)
    ensures PairSquares(vec) == r * q
  {
    OffsetAtMean(vec, r, mean);
    PairSquaresFromSums(vec, r, mean, q, 0.0);
  }

  lemma CancelDivision(x: real, y: real)
    requires y != 0.0
    ensures y * (x / y) == x
  {
  }

  /** The variance is the sum of squared differences over all pairs, divided by
      n(n - 1): a form without the mean. */
  lemma VarianceFromPairs(vec: seq<real>, r: real)
    requires |vec| >= 2 && r == |vec| as real
    ensures r * ((r - 1.0) * Variance(vec)) == PairSquares(vec)
  {
    hide SumSquares, PairSquares, Sum;
    var q := SumSquares(vec, Mean(vec));
    PairSquaresAtMean(vec, r, Mean(vec), q);
    assert Variance(vec) == q / (r - 1.0);
    CancelDivision(q, r - 1.0);
  }

  // ----- robustness -----

  lemma {:induction false} CountInExcludes(s: seq<real>, a: real, b: real, m: real)
    ensures m < a ==> CountIn(s, a, b) + CountLe(s, m) <= |s|
    ensures m > b ==> CountIn(s, a, b) + CountGe(s, m) <= |s|
  {
    if s == [] {
    } else {
      CountInExcludes(s[..|s| - 1], a, b, m);
    }
  }

  /** When more than half of a list lies in an interval, so does its median. */
  lemma MedianFollowsMajority(vec: seq<real>, a: real, b: real)
    requires 2 * CountIn(vec, a, b) > |vec|
    ensures a <= Median(vec) <= b
  {
    MedianRank(vec);
    CountInExcludes(vec, a, b, Median(vec));
  }

  lemma {:induction false} CountWithin(s: seq<real>, c: real, r: real)
    ensures CountLe(AbsDeviations(s, c), r) == CountIn(s, c - r, c + r)
  {
    if s == [] {
    } else {
      CountWithin(s[..|s| - 1], c, r);
      assert AbsDeviations(s, c)[..|s| - 1] == AbsDeviations(s[..|s| - 1], c);
    }
  }

  lemma HalfWithinMedianDeviation(vec: seq<real>, c: real, r: real)
    requires vec != [] && r == Median(AbsDeviations(vec, c))
    ensures r >= 0.0 && 2 * CountIn(vec, c - r, c + r) >= |vec|
  {
    var devs := AbsDeviations(vec, c);
    MedianRank(devs);
    CountWithin(vec, c, r);
    CountLeBounds(devs, 0, r);
  }

  /** The MAD is nonnegative and at least half of the elements lie within one
      MAD of the median. */
  lemma MadCoversHalf(vec: seq<real>)
    requires vec != []
    ensures MedianAbsoluteDeviation(vec) >= 0.0
    ensures var m, r := Median(vec), MedianAbsoluteDeviation(vec);
            2 * CountIn(vec, m - r, m + r) >= |vec|
  {
    HalfWithinMedianDeviation(vec, Median(vec), MedianAbsoluteDeviation(vec));
  }

  /** How many elements are at least r away from c. */
  function CountFar(s: seq<real>, c: real, r: real): nat {
    if s == [] then 0
    else CountFar(s[..|s| - 1], c, r) + if s[|s| - 1] <= c - r || s[|s| - 1] >= c + r then 1 else 0
  }

  lemma {:induction false} CountAway(s: seq<real>, c: real, r: real)
    requires r >= 0.0
    ensures CountGe(AbsDeviations(s, c), r) == CountFar(s, c, r)
  {
    if s == [] {
    } else {
      CountAway(s[..|s| - 1], c, r);
      assert AbsDeviations(s, c)[..|s| - 1] == AbsDeviations(s[..|s| - 1], c);
    }
  }

  /** r is the k-th smallest distance of the elements from c, counted from 0 and
      stated by counting elements only. */
  predicate IsDistanceStatistic(s: seq<real>, c: real, k: nat, r: real) {
    r >= 0.0 && CountIn(s, c - r, c + r) >= k + 1 && CountFar(s, c, r) >= |s| - k
  }

  lemma DistanceIsOrderStatistic(s: seq<real>, c: real, k: nat, r: real)
    requires IsDistanceStatistic(s, c, k, r)
    ensures IsOrderStatistic(AbsDeviations(s, c), k, r)
  {
    CountWithin(s, c, r);
    CountAway(s, c, r);
  }

  /** There is a distance of every rank. */
  lemma DistanceStatisticExists(s: seq<real>, c: real, k: nat) returns (r: real)
    requires k < |s|
    ensures IsDistanceStatistic(s, c, k, r)
  {
    r := OrderStatisticExists(AbsDeviations(s, c), k);
    CountWithin(s, c, r);
    CountAway(s, c, r);
  }

  /** The MAD is the mean of the two middle distances in rank from the median,
      which are one and the same for an odd count. */
  lemma MadIsMidpoint(vec: seq<real>, lo: real, hi: real)
    requires vec != []
    requires IsDistanceStatistic(vec, Median(vec), (|vec| - 1) / 2, lo)
    requires IsDistanceStatistic(vec, Median(vec), |vec| / 2, hi)
    ensures MedianAbsoluteDeviation(vec) == (lo + hi) / 2.0
  {
    hide Median, AbsDeviations;
    DistanceIsOrderStatistic(vec, Median(vec), (|vec| - 1) / 2, lo);
    DistanceIsOrderStatistic(vec, Median(vec), |vec| / 2, hi);
    MedianIsMidpoint(AbsDeviations(vec, Median(vec)), lo, hi);
  }

  lemma {:induction false} CountsBelowAndAbove(s: seq<real>, a: real, b: real)
    requires a < b
    ensures CountLe(s, a) + CountGe(s, b) <= |s|
  {
    if s == [] {
    } else {
      CountsBelowAndAbove(s[..|s| - 1], a, b);
    }
  }

  /** A distance within which more than half of the elements lie is at least the
      MAD. */
  lemma MadBelowMajorityDistance(vec: seq<real>, s: real)
    requires 2 * CountIn(vec, Median(vec) - s, Median(vec) + s) > |vec|
    ensures MedianAbsoluteDeviation(vec) <= s
  {
    hide Median;
    var devs, mad := AbsDeviations(vec, Median(vec)), MedianAbsoluteDeviation(vec);
    MedianRank(devs);
    CountWithin(vec, Median(vec), s);
    if s < mad { CountsBelowAndAbove(devs, s, mad); }
  }

  // ----- lists too short for a statistic -----

  /** What an empty list gives. */
  lemma StatisticsOfNothing()
    ensures Median([]) == 0.0 && Average([]) == NaN && MedianAbsoluteDeviation([]) == 0.0
    ensures Variance([]) == 0.0 && IsStandardDeviation([], 0.0)
  {
    assert AbsDeviations([], 0.0) == [];
  }

  /** The average times the count is the sum. */
  lemma AverageMeaning(vec: seq<real>)
    requires vec != []
    ensures Average(vec).Finite? && Average(vec).v * |vec| as real == Sum(vec)
  {
    hide Sum;
    QuotientMeaning(Sum(vec), |vec| as real);
  }
}
