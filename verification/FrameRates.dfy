/** Frame rates: the reciprocals of the durations, and how their average and
    median compare with the reciprocals of the average and median duration. */
module FrameRates {
  import opened Reals
  import opened Sorting
  import opened Doubles
  import opened Statistics

  /** The rate of one inter-frame duration, 0 where the duration is 0. */
  function Rate(duration: real): real {
    if duration != 0.0 then 1.0 / duration else 0.0
  }

  function Rates(durations: seq<real>): (rates: seq<real>)
    ensures |rates| == |durations|
  {
    seq(|durations|, i requires 0 <= i < |durations| => Rate(durations[i]))
  }

  /** frame_rate_fps_reverse_average: 1.0 over the average duration. */
  function ReverseAverage(average: Double): Double {
    match average
    case Finite(a) => Quotient(1.0, a)
    case NaN => NaN
    case _ => Finite(0.0)
  }

  predicate AllPositive(s: seq<real>) {
    forall i :: 0 <= i < |s| ==> s[i] > 0.0
  }

  predicate AllEqualTo(s: seq<real>, c: real) {
    forall i :: 0 <= i < |s| ==> s[i] == c
  }

  // ----- average rate and reverse average -----

  /** How far the rate of x lies above the tangent, at 1 / b, of the reciprocal. */
  function Excess(x: real, b: real): real {
    Rate(x) + Square(b) * x - 2.0 * b
  }

  function TotalExcess(s: seq<real>, b: real): real {
    if s == [] then 0.0 else TotalExcess(s[..|s| - 1], b) + Excess(s[|s| - 1], b)
  }

  lemma ExcessIsSquare(x: real, b: real)
    requires x > 0.0
    ensures Excess(x, b) == x * Square(1.0 / x - b)
  {
    var r := 1.0 / x;
    assert x * r == 1.0;
    assert x * Square(r - b) == (x * r) * r - 2.0 * ((x * r) * b) + x * (b * b);
  }

  lemma ExcessIsNonnegative(x: real, b: real)
    requires x > 0.0
    ensures Excess(x, b) >= 0.0
    ensures Excess(x, b) == 0.0 <==> 1.0 / x == b
  {
    ExcessIsSquare(x, b);
    var gap := 1.0 / x - b;
    if gap != 0.0 {
      PositiveSquare(gap);
      PositiveProduct(x, Square(gap));
    }
  }

  lemma {:induction false} TotalExcessIsNonnegative(s: seq<real>, b: real)
    requires AllPositive(s)
    ensures TotalExcess(s, b) >= 0.0
    ensures TotalExcess(s, b) == 0.0 <==> forall i :: 0 <= i < |s| ==> 1.0 / s[i] == b
  {
    if s == [] {
    } else {
      TotalExcessIsNonnegative(s[..|s| - 1], b);
      ExcessIsNonnegative(s[|s| - 1], b);
    }
  }

  /** The sum of q * x over the list, kept apart from the product q * Sum(s). */
  function ScaledSum(s: seq<real>, q: real): real {
    if s == [] then 0.0 else ScaledSum(s[..|s| - 1], q) + q * s[|s| - 1]
  }

  lemma {:induction false} ScaledSumIsProduct(s: seq<real>, q: real)
    ensures ScaledSum(s, q) == q * Sum(s)
  {
    if s == [] {
    } else {
      ScaledSumIsProduct(s[..|s| - 1], q);
    }
  }

  lemma {:induction false} TotalExcessFromSums(s: seq<real>, b: real)
    ensures TotalExcess(s, b) == Sum(Rates(s)) + ScaledSum(s, Square(b)) - Times(|s|, 2.0 * b)
  {
    if s == [] {
    } else {
      TotalExcessFromSums(s[..|s| - 1], b);
      assert Rates(s)[..|s| - 1] == Rates(s[..|s| - 1]);
    }
  }

  lemma ExcessAtTheMean(s: seq<real>, n: real, b: real)
    requires n == |s| as real && b * Sum(s) == n
    ensures TotalExcess(s, b) == Sum(Rates(s)) - n * b
  {
    hide Square, TotalExcess, ScaledSum, Sum;
    TotalExcessFromSums(s, b);
    ScaledSumIsProduct(s, Square(b));
    TimesIsProduct(|s|, n, 2.0 * b);
    SquareTimesSum(Sum(s), n, b);
  }

  lemma SquareTimesSum(sum: real, n: real, b: real)
    requires b * sum == n
    ensures Square(b) * sum - n * (2.0 * b) == -(n * b)
  {
    assert Square(b) * sum == b * (b * sum);
  }

  lemma ReverseIsReciprocalMean(n: real, sum: real)
    requires n > 0.0 && sum > 0.0
    ensures ReverseAverage(Quotient(sum, n)) == Finite(n / sum)
    ensures (n / sum) * sum == n && 1.0 / (sum / n) == n / sum && sum / n > 0.0
  {
    assert sum / n > 0.0;
    assert (n / sum) * (sum / n) == 1.0;
  }

  lemma QuotientAbove(rates: real, n: real, b: real)
    requires n > 0.0
    ensures Quotient(rates, n) == Finite(rates / n)
    ensures rates / n >= b <==> rates - n * b >= 0.0
    ensures rates / n == b <==> rates - n * b == 0.0
  {
    assert (rates / n) * n == rates;
  }

  /** AM-HM: with positive durations the average rate is at least the reciprocal
      of the average duration, and equals it only when all durations agree. */
  lemma AverageRateAboveReverseAverage(durations: seq<real>)
    requires durations != [] && AllPositive(durations)
    ensures var average := Average(Rates(durations));
            var reverse := ReverseAverage(Average(durations));
            && average.Finite? && reverse.Finite?
            && average.v >= reverse.v
            && (average.v == reverse.v <==> AllEqualTo(durations, Mean(durations)))
  {
    SumIsPositive(durations);
    AverageRateCompared(durations, |durations| as real, Sum(durations), Sum(Rates(durations)));
  }

  lemma AverageRateCompared(s: seq<real>, n: real, sum: real, rates: real)
    requires s != [] && AllPositive(s) && n == |s| as real
    requires sum == Sum(s) && sum > 0.0 && rates == Sum(Rates(s))
    ensures Quotient(rates, n).Finite? && ReverseAverage(Quotient(sum, n)).Finite?
    ensures Quotient(rates, n).v >= ReverseAverage(Quotient(sum, n)).v
    ensures Quotient(rates, n).v == ReverseAverage(Quotient(sum, n)).v <==> AllEqualTo(s, sum / n)
  {
    ReverseIsReciprocalMean(n, sum);
    var b, mean := n / sum, sum / n;
    ExcessAtTheMean(s, n, b);
    TotalExcessIsNonnegative(s, b);
    QuotientAbove(rates, n, b);
    ReciprocalIs(s, mean, b);
  }

  lemma {:induction false} SumIsPositive(s: seq<real>)
    requires s != [] && AllPositive(s)
    ensures Sum(s) > 0.0
  {
    if |s| == 1 {
    } else {
      SumIsPositive(s[..|s| - 1]);
    }
  }

  lemma ReciprocalIs(s: seq<real>, mean: real, b: real)
    requires AllPositive(s) && mean > 0.0 && 1.0 / mean == b
    ensures AllEqualTo(s, mean) <==> forall i :: 0 <= i < |s| ==> 1.0 / s[i] == b
  {
    forall i | 0 <= i < |s| ensures s[i] == mean <==> 1.0 / s[i] == b {
      ReciprocalInjective(s[i], mean);
    }
  }

  lemma ReciprocalInjective(x: real, y: real)
    requires x > 0.0 && y > 0.0
    ensures x == y <==> 1.0 / x == 1.0 / y
  {
    assert x == 1.0 / (1.0 / x) && y == 1.0 / (1.0 / y);
  }

  // ----- the median rate -----

  lemma ReciprocalSwapsBounds(x: real, c: real)
    requires x > 0.0 && c > 0.0
    ensures 1.0 / x >= c <==> x <= 1.0 / c
  {
    assert (1.0 / x) * x == 1.0 && (1.0 / c) * c == 1.0;
    if 1.0 / x >= c {
      NonnegativeProduct(1.0 / x - c, x * (1.0 / c));
    }
    if x <= 1.0 / c {
      NonnegativeProduct(1.0 / c - x, c * (1.0 / x));
    }
  }

  lemma {:induction false} RatesCount(s: seq<real>, c: real)
    requires AllPositive(s) && c > 0.0
    ensures CountGe(Rates(s), c) == CountLe(s, 1.0 / c)
  {
    if s == [] {
    } else {
      RatesCount(s[..|s| - 1], c);
      assert Rates(s)[..|s| - 1] == Rates(s[..|s| - 1]);
      ReciprocalSwapsBounds(s[|s| - 1], c);
    }
  }

  lemma RatesCompare(s: seq<real>, up: seq<real>, down: seq<real>, k: nat, c: real)
    requires AllPositive(s) && SortedForm(up, s) && SortedForm(down, Rates(s))
    requires k < |s| && c > 0.0
    ensures down[k] >= c <==> up[|s| - 1 - k] <= 1.0 / c
  {
    SortedRank(down, k, c);
    RatesCount(s, c);
    SortedRank(up, |s| - 1 - k, 1.0 / c);
  }

  /** Taking reciprocals reverses the order statistics. */
  lemma RatesReverseOrder(s: seq<real>, up: seq<real>, down: seq<real>, k: nat)
    requires AllPositive(s) && SortedForm(up, s) && SortedForm(down, Rates(s))
    requires k < |s| && down[k] > 0.0 && up[|s| - 1 - k] > 0.0
    ensures down[k] == 1.0 / up[|s| - 1 - k]
  {
    var x := up[|s| - 1 - k];
    RatesCompare(s, up, down, k, down[k]);
    ReciprocalSwapsBounds(x, down[k]);
    RatesCompare(s, up, down, k, 1.0 / x);
    assert 1.0 / (1.0 / x) == x;
  }

  lemma SortedFormOfPositive(s: seq<real>)
    requires AllPositive(s)
    ensures SortedForm(Sort(s), s) && AllPositive(Sort(s))
  {
    SortIsSortedForm(s);
    forall i | 0 <= i < |s| ensures Sort(s)[i] > 0.0 {
      assert Sort(s)[i] in multiset(s);
    }
  }

  lemma RatesArePositive(s: seq<real>)
    requires AllPositive(s)
    ensures AllPositive(Rates(s))
  {
  }

  lemma SumOfReciprocals(a: real, b: real)
    requires 0.0 < a && 0.0 < b
    ensures a * b > 0.0
    ensures (1.0 / a + 1.0 / b) / 2.0 == ((a + b) / 2.0) / (a * b)
  {
    var u, v, p := 1.0 / a, 1.0 / b, a * b;
    PositiveProduct(a, b);
    assert u * a == 1.0 && v * b == 1.0;
    assert ((u + v) / 2.0) * p == ((u * a) * b + (v * b) * a) / 2.0;
    QuotientIs((u + v) / 2.0, p, (a + b) / 2.0);
  }

  lemma MeanOfReciprocals(a: real, b: real)
    requires 0.0 < a && 0.0 < b
    ensures (1.0 / a + 1.0 / b) / 2.0 >= 1.0 / ((a + b) / 2.0)
    ensures (1.0 / a + 1.0 / b) / 2.0 == 1.0 / ((a + b) / 2.0) <==> a == b
  {
    var m, d := (a + b) / 2.0, (a - b) / 2.0;
    SumOfReciprocals(a, b);
    QuotientsCompare(m, a * b);
    assert Square(m) == a * b + Square(d);
    if a != b { PositiveSquare(d); }
  }

  lemma QuotientsCompare(m: real, p: real)
    requires m > 0.0 && p > 0.0
    ensures m / p >= 1.0 / m <==> Square(m) >= p
    ensures m / p == 1.0 / m <==> Square(m) == p
  {
    var u, v := m / p, 1.0 / m;
    assert u * p == m && v * m == 1.0;
    PositiveProduct(p, m);
    assert (u - v) * (p * m) == (u * p) * m - (v * m) * p;
    if u > v { PositiveProduct(u - v, p * m); }
    if u < v { PositiveProduct(v - u, p * m); }
  }

  lemma MiddleOfReciprocals(s: seq<real>, up: seq<real>, down: seq<real>)
    requires s != [] && AllPositive(s) && AllPositive(up) && AllPositive(down)
    requires SortedForm(up, s) && SortedForm(down, Rates(s))
    ensures Middle(up) > 0.0
    ensures Middle(down) >= 1.0 / Middle(up)
    ensures Middle(down) == 1.0 / Middle(up) <==> up[(|s| - 1) / 2] == up[|s| / 2]
  {
    var lo, hi := up[(|s| - 1) / 2], up[|s| / 2];
    RatesReverseOrder(s, up, down, |s| / 2);
    RatesReverseOrder(s, up, down, (|s| - 1) / 2);
    MeanOfReciprocals(hi, lo);
    MiddleIsMean(up);
    MiddleIsMean(down);
  }

  /** With positive durations the median rate is at least the reciprocal of the
      median duration. The two agree exactly when the two middle durations do,
      so always for an odd count. */
  lemma MedianRateAboveMedianReciprocal(durations: seq<real>)
    requires durations != [] && AllPositive(durations)
    ensures Median(durations) > 0.0
    ensures Median(Rates(durations)) >= 1.0 / Median(durations)
    ensures Median(Rates(durations)) == 1.0 / Median(durations)
       <==> Sort(durations)[(|durations| - 1) / 2] == Sort(durations)[|durations| / 2]
  {
    SortedFormOfPositive(durations);
    RatesArePositive(durations);
    SortedFormOfPositive(Rates(durations));
    MiddleOfReciprocals(durations, Sort(durations), Sort(Rates(durations)));
  }

  // ----- what the rates are -----

  /** Every rate undoes its duration, and a zero duration has rate zero. */
  lemma RatesMeaning(durations: seq<real>, i: nat)
    requires i < |durations|
    ensures durations[i] != 0.0 ==> Rates(durations)[i] * durations[i] == 1.0
    ensures durations[i] == 0.0 ==> Rates(durations)[i] == 0.0
  {
  }

  /** The reverse average undoes the average; it is infinite for an average of
      zero and NaN without durations. */
  lemma ReverseAverageMeaning(average: Double)
    ensures average.Finite? && average.v != 0.0 ==>
      ReverseAverage(average).Finite? && ReverseAverage(average).v * average.v == 1.0
    ensures average == Finite(0.0) ==> ReverseAverage(average) == PosInf
    ensures average == NaN ==> ReverseAverage(average) == NaN
  {
    if average.Finite? { QuotientMeaning(1.0, average.v); }
  }
}
