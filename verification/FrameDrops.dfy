/** Frame drops: the durations above 1.5 times the median, the ratio and count
    derived from them, and the two summaries reported about them. */
module FrameDrops {
  import opened MachineInts
  import opened Reals
  import opened Selections
  import opened Sorting
  import opened Doubles
  import opened Statistics

  /** pts_duration_sec_threshold: twice the median, times the factor 0.75. */
  function DropThreshold(median: real): real {
    median * 0.75 * 2.0
  }

  /** The durations above the threshold, in their order. */
  function Drops(durations: seq<real>, median: real): (drops: seq<real>)
    ensures |drops| <= |durations|
  {
    if durations == [] then []
    else
      var init, last := durations[..|durations| - 1], durations[|durations| - 1];
      Drops(init, median) + if last > DropThreshold(median) then [last] else []
  }

  /** frame_drop_ratio: the drop lengths beyond one median each, over the total
      duration. */
  function DropRatio(drops: seq<real>, median: real, total: real): Double {
    Quotient(Sum(drops) - median * |drops| as real, total)
  }

  /** frame_drop_count: the ratio of the frames, truncated, or 0 when that does
      not lie strictly between the int bounds. */
  function DropCount(ratio: Double, numFrames: int): (count: int)
    ensures INT_MIN < count < INT_MAX
  {
    match ratio
    case Finite(r) =>
      var count := r * numFrames as real;
      if INT_MIN as real < count < INT_MAX as real then Truncate(count) else 0
    case _ => 0
  }

  /** normalized_frame_drop_average_length, in medians; 0 without drops. */
  function NormalizedDropLength(drops: seq<real>, median: real): Double {
    if drops == [] then Finite(0.0)
    else Quotient(Sum(drops) / |drops| as real, median)
  }

  // ----- how many drops there can be, and how long -----

  lemma {:induction false} DropsAreAboveThreshold(s: seq<real>, median: real)
    ensures forall d :: d in Drops(s, median) ==> d > DropThreshold(median)
  {
    if s == [] {
    } else {
      DropsAreAboveThreshold(s[..|s| - 1], median);
    }
  }

  /** Every duration above the threshold is a drop, and nothing else is. */
  lemma {:induction false} DropsAreCounted(s: seq<real>, median: real)
    ensures |Drops(s, median)| == |s| - CountLe(s, 1.5 * median)
    ensures forall d :: d in Drops(s, median) <==> d in s && d > 1.5 * median
  {
    if s == [] {
    } else {
      var init, last := s[..|s| - 1], s[|s| - 1];
      DropsAreCounted(init, median);
      assert s == init + [last];
    }
  }

  /** For each duration, whether it is above 1.5 medians. */
  function AboveThreshold(s: seq<real>, median: real): (flags: seq<bool>)
    ensures |flags| == |s| && forall i :: 0 <= i < |s| ==> flags[i] == (s[i] > 1.5 * median)
  {
    seq(|s|, i requires 0 <= i < |s| => s[i] > 1.5 * median)
  }

  /** The drops are the durations above 1.5 medians in the order of the frames. */
  lemma {:induction false} DropsInOrder(s: seq<real>, median: real) returns (positions: seq<nat>)
    ensures ListsAt(Drops(s, median), s, positions)
    ensures AreFlagged(positions, AboveThreshold(s, median))
  {
    hide ListsAt, AreFlagged, Increasing;
    if s == [] {
      positions := [];
      NothingChosen<real>();
      assert AboveThreshold([], median) == [];
    } else {
      var init, last := s[..|s| - 1], s[|s| - 1];
      positions := DropsInOrder(init, median);
      ListsIncreasing(Drops(init, median), init, positions);
      AppendChosen(Drops(init, median), init, positions, last);
      AppendFlag(positions, AboveThreshold(init, median));
      assert s == init + [last];
      assert AboveThreshold(s, median) == AboveThreshold(init, median) + [last > 1.5 * median];
      if last > 1.5 * median {
        positions := positions + [|init|];
        assert Drops(s, median) == Drops(init, median) + [last];
      } else {
        assert Drops(s, median) == Drops(init, median);
      }
    }
  }

  lemma {:induction false} DropsExcludeMedian(s: seq<real>, median: real)
    requires median >= 0.0
    ensures |Drops(s, median)| + CountLe(s, median) <= |s|
  {
    if s == [] {
    } else {
      DropsExcludeMedian(s[..|s| - 1], median);
    }
  }

  lemma {:induction false} DropsSumBounds(s: seq<real>, median: real)
    requires median >= 0.0 && forall i :: 0 <= i < |s| ==> s[i] >= 0.0
    ensures Times(|Drops(s, median)|, median) <= Sum(Drops(s, median)) <= Sum(s)
  {
    if s == [] {
    } else {
      var init, last := s[..|s| - 1], s[|s| - 1];
      DropsSumBounds(init, median);
      if last > DropThreshold(median) {
        assert Drops(s, median)[..|Drops(s, median)| - 1] == Drops(init, median);
      } else {
        assert Drops(s, median) == Drops(init, median);
      }
    }
  }

  lemma MedianIsNonnegative(s: seq<real>)
    requires forall i :: 0 <= i < |s| ==> s[i] >= 0.0
    ensures Median(s) >= 0.0
  {
    if s != [] {
      MedianRank(s);
      CountLeBounds(s, 0, Median(s));
    }
  }

  lemma QuotientInUnit(x: real, y: real)
    requires y > 0.0 && 0.0 <= x <= y
    ensures 0.0 <= x / y <= 1.0
  {
  }

  lemma TruncateInRange(x: real, n: nat)
    requires 0.0 <= x <= n as real
    ensures 0 <= Truncate(x) <= n
  {
  }

  lemma RatioTimesFrames(ratio: real, numFrames: nat)
    requires 0.0 <= ratio <= 1.0
    ensures 0.0 <= ratio * numFrames as real <= numFrames as real
  {
    NonnegativeProduct(ratio, numFrames as real);
    NonnegativeProduct(1.0 - ratio, numFrames as real);
  }

  lemma {:induction false} DropsIncludeAbove(s: seq<real>, median: real)
    requires median < 0.0
    ensures |Drops(s, median)| >= CountGe(s, median)
  {
    if s == [] {
    } else {
      DropsIncludeAbove(s[..|s| - 1], median);
    }
  }

  /** The sign of the median decides on which side of one half the drops are:
      with a nonnegative median the threshold is not below it, and with a
      negative one, which unsorted frames can have, it is. */
  lemma DropsAndHalf(durations: seq<real>)
    ensures Median(durations) >= 0.0 ==> 2 * |Drops(durations, Median(durations))| <= |durations|
    ensures Median(durations) < 0.0 ==> 2 * |Drops(durations, Median(durations))| >= |durations|
  {
    var median := Median(durations);
    if durations != [] { MedianRank(durations); }
    if median >= 0.0 { DropsExcludeMedian(durations, median); } else { DropsIncludeAbove(durations, median); }
  }

  /** Nonnegative durations: at most half of them are drops, and with a positive
      total the ratio is a fraction and the count at most the frame count. */
  lemma DropBounds(durations: seq<real>, numFrames: nat)
    requires forall i :: 0 <= i < |durations| ==> durations[i] >= 0.0
    ensures Median(durations) >= 0.0
    ensures var median := Median(durations);
            var drops := Drops(durations, median);
            2 * |drops| <= |durations|
    ensures var median := Median(durations);
            var drops := Drops(durations, median);
            var ratio := DropRatio(drops, median, Sum(durations));
            Sum(durations) > 0.0 ==>
              && ratio.Finite? && 0.0 <= ratio.v <= 1.0
              && 0 <= DropCount(ratio, numFrames) <= numFrames
  {
    var median := Median(durations);
    MedianIsNonnegative(durations);
    DropsAndHalf(durations);
    if Sum(durations) > 0.0 {
      DropsSumBounds(durations, median);
      RatioIsFraction(Drops(durations, median), median, Sum(durations), numFrames);
    }
  }

  lemma ExtraIsFraction(sum: real, k: real, median: real, total: real)
    requires 0.0 <= k && 0.0 <= median && k * median <= sum <= total && 0.0 < total
    ensures var ratio := Quotient(sum - median * k, total); ratio.Finite? && 0.0 <= ratio.v <= 1.0
  {
    NonnegativeProduct(k, median);
    QuotientInUnit(sum - median * k, total);
  }

  lemma FractionGivesCount(ratio: real, numFrames: nat)
    requires 0.0 <= ratio <= 1.0
    ensures 0 <= DropCount(Finite(ratio), numFrames) <= numFrames
  {
    RatioTimesFrames(ratio, numFrames);
    TruncateInRange(ratio * numFrames as real, numFrames);
  }

  lemma RatioIsFraction(drops: seq<real>, median: real, total: real, numFrames: nat)
    requires median >= 0.0 && total > 0.0
    requires Times(|drops|, median) <= Sum(drops) <= total
    ensures var ratio := DropRatio(drops, median, total);
            && ratio.Finite? && 0.0 <= ratio.v <= 1.0
            && 0 <= DropCount(ratio, numFrames) <= numFrames
  {
    TimesIsProduct(|drops|, |drops| as real, median);
    ExtraIsFraction(Sum(drops), |drops| as real, median, total);
    FractionGivesCount(DropRatio(drops, median, total).v, numFrames);
  }

  // ----- drop accounting -----

  lemma {:induction false} SumAboveThreshold(s: seq<real>, t: real)
    requires forall d :: d in s ==> d > t
    ensures s != [] ==> Sum(s) > Times(|s|, t)
    ensures s == [] ==> Sum(s) == 0.0
  {
    if s == [] {
    } else {
      var init := s[..|s| - 1];
      assert forall d :: d in init ==> d in s;
      SumAboveThreshold(init, t);
      assert s[|s| - 1] in s;
    }
  }

  lemma AccountingAlgebra(sum: real, k: real, median: real, total: real)
    requires k > 0.0 && median != 0.0 && total != 0.0
    ensures ((sum - median * k) / total) * total == k * median * ((sum / k) / median - 1.0)
  {
    var len := (sum / k) / median;
    assert len * median * k == sum;
    assert k * median * (len - 1.0) == len * median * k - median * k;
  }

  lemma NormalizedAbove(sum: real, k: real, median: real)
    requires k > 0.0 && median > 0.0 && sum > k * DropThreshold(median)
    ensures (sum / k) / median > 1.5
  {
    var average := sum / k;
    assert average * k == sum;
    assert average > median * 1.5;
  }

  lemma NormalizedBelow(sum: real, k: real, median: real)
    requires k > 0.0 && median < 0.0 && sum > k * DropThreshold(median)
    ensures (sum / k) / median < 1.5
  {
    var average := sum / k;
    assert average * k == sum;
    assert average > median * 1.5;
    QuotientIs(median * 1.5 / median, median, median * 1.5);
  }

  lemma LengthOfDrops(drops: seq<real>, median: real)
    requires median != 0.0 && drops != []
    requires Sum(drops) > |drops| as real * DropThreshold(median)
    ensures var length := NormalizedDropLength(drops, median);
            length.Finite? && (length.v > 1.5 <==> median > 0.0)
  {
    if median > 0.0 {
      NormalizedAbove(Sum(drops), |drops| as real, median);
    } else {
      NormalizedBelow(Sum(drops), |drops| as real, median);
    }
  }

  lemma SumAboveProduct(s: seq<real>, t: real, k: real)
    requires s != [] && k == |s| as real && forall d :: d in s ==> d > t
    ensures Sum(s) > k * t
  {
    SumAboveThreshold(s, t);
    TimesIsProduct(|s|, k, t);
  }

  lemma DropsSumAboveThreshold(s: seq<real>, median: real)
    requires Drops(s, median) != []
    ensures Sum(Drops(s, median)) > |Drops(s, median)| as real * DropThreshold(median)
  {
    DropsAreAboveThreshold(s, median);
    SumAboveProduct(Drops(s, median), DropThreshold(median), |Drops(s, median)| as real);
  }

  lemma AccountingOfDrops(drops: seq<real>, median: real, total: real)
    requires median != 0.0 && total != 0.0 && drops != []
    ensures var ratio, length := DropRatio(drops, median, total), NormalizedDropLength(drops, median);
            && ratio.Finite? && length.Finite?
            && ratio.v * total == |drops| as real * median * (length.v - 1.0)
  {
    AccountingAlgebra(Sum(drops), |drops| as real, median, total);
  }

  /** The normalized length of a nonempty list of drops exceeds 1.5 exactly for a
      positive median, and the reported ratio accounts for the same time. */
  lemma DropAccounting(durations: seq<real>, median: real)
    requires median != 0.0 && Drops(durations, median) != []
    ensures var length := NormalizedDropLength(Drops(durations, median), median);
            length.Finite? && (length.v > 1.5 <==> median > 0.0)
    ensures var drops := Drops(durations, median);
            var ratio := DropRatio(drops, median, Sum(durations));
            var length := NormalizedDropLength(drops, median);
            Sum(durations) != 0.0 ==>
              && ratio.Finite?
              && ratio.v * Sum(durations) == |drops| as real * median * (length.v - 1.0)
  {
    hide Drops, DropThreshold, DropRatio, NormalizedDropLength, Sum;
    DropsSumAboveThreshold(durations, median);
    LengthOfDrops(Drops(durations, median), median);
    if Sum(durations) != 0.0 {
      AccountingOfDrops(Drops(durations, median), median, Sum(durations));
    }
  }

  // ----- percentiles and consecutive counts -----

  /** The index read for a percentile in a list of that size. */
  function Position(percentile: real, size: nat): int {
    Truncate(percentile / 100.0 * size as real)
  }

  /** The percentile reported for a list of drops, in medians; 0 without drops. */
  function Percentile(drops: seq<real>, median: real, percentile: real): Double
    requires drops != [] ==> 0 <= Position(percentile, |drops|) < |drops|
  {
    if drops == [] then Finite(0.0)
    else Quotient(Sort(drops)[Position(percentile, |drops|)], median)
  }

  /** How many drops are at least `c` medians long. */
  function Consecutive(drops: seq<real>, median: real, c: int): nat {
    if drops == [] then 0
    else
      var init, last := drops[..|drops| - 1], drops[|drops| - 1];
      Consecutive(init, median, c)
      + if LessEqual(Finite(c as real), Quotient(last, median)) then 1 else 0
  }

  lemma PositionInRange(percentile: real, size: nat)
    requires 0.0 <= percentile < 100.0
    ensures size > 0 ==> 0 <= Position(percentile, size) < size
    ensures size == 0 ==> Position(percentile, size) == 0
  {
    var n := size as real;
    NonnegativeProduct(percentile / 100.0, n);
    assert size > 0 ==> percentile / 100.0 * n < 1.0 * n;
  }

  lemma PositionMonotone(p: real, q: real, size: nat)
    requires 0.0 <= p <= q
    ensures Position(p, size) <= Position(q, size)
  {
    var n := size as real;
    NonnegativeProduct(p / 100.0, n);
    NonnegativeProduct((q - p) / 100.0, n);
    assert q / 100.0 * n == p / 100.0 * n + (q - p) / 100.0 * n;
  }

  /** The lengths are measured in a positive median, or the median is 0 and every
      drop, being above the threshold, is infinitely many medians long. */
  predicate Measurable(drops: seq<real>, median: real) {
    median > 0.0 || (median == 0.0 && forall i :: 0 <= i < |drops| ==> drops[i] > 0.0)
  }

  /** Drops of a list with a nonnegative median are measurable. */
  lemma DropsAreMeasurable(durations: seq<real>, median: real)
    requires median >= 0.0
    ensures Measurable(Drops(durations, median), median)
  {
    DropsAreAboveThreshold(durations, median);
    forall i | 0 <= i < |Drops(durations, median)|
      ensures Drops(durations, median)[i] > DropThreshold(median)
    {
      assert Drops(durations, median)[i] in Drops(durations, median);
    }
  }

  /** A length reaches c medians exactly when it is at least this bound. */
  lemma QuotientReaches(x: real, median: real, c: real)
    requires median > 0.0 || (median == 0.0 && x > 0.0)
    ensures LessEqual(Finite(c), Quotient(x, median)) <==> x >= c * median
  {
    if median > 0.0 { assert (x / median) * median == x; }
  }

  lemma {:induction false} ConsecutiveIsCount(drops: seq<real>, median: real, c: int)
    requires Measurable(drops, median)
    ensures Consecutive(drops, median, c) == CountGe(drops, c as real * median)
  {
    if drops == [] {
    } else {
      ConsecutiveIsCount(drops[..|drops| - 1], median, c);
      QuotientReaches(drops[|drops| - 1], median, c as real);
    }
  }

  lemma {:induction false} ConsecutiveInsert(s: seq<real>, y: real, median: real, c: int)
    requires Sorted(s)
    ensures Consecutive(Insert(s, y), median, c)
         == Consecutive(s, median, c) + Consecutive([y], median, c)
  {
    if s == [] || s[|s| - 1] <= y {
      assert (s + [y])[..|s + [y]| - 1] == s;
      assert [y][..0] == [];
    } else {
      var init, last := s[..|s| - 1], s[|s| - 1];
      ConsecutiveInsert(init, y, median, c);
      assert (Insert(init, y) + [last])[..|Insert(init, y)|] == Insert(init, y);
    }
  }

  /** The sort made by the percentile call changes no consecutive count. */
  lemma {:induction false} ConsecutiveIgnoresSort(drops: seq<real>, median: real, c: int)
    ensures Consecutive(Sort(drops), median, c) == Consecutive(drops, median, c)
  {
    if drops == [] {
    } else {
      var init, last := drops[..|drops| - 1], drops[|drops| - 1];
      ConsecutiveIgnoresSort(init, median, c);
      ConsecutiveInsert(Sort(init), last, median, c);
      assert [last][..0] == [];
    }
  }

  lemma RankAtPosition(drops: seq<real>, up: seq<real>, median: real, k: nat, c: real)
    requires SortedForm(up, drops) && k < |drops| && Measurable(drops, median)
    requires up[k] in drops
    ensures LessEqual(Finite(c), Quotient(up[k], median)) <==> CountGe(drops, c * median) >= |drops| - k
  {
    QuotientReaches(up[k], median, c);
    SortedRank(up, k, c * median);
  }

  lemma SortedElementIsOld(s: seq<real>, k: nat)
    requires k < |s|
    ensures Sort(s)[k] in s
  {
    assert Sort(s)[k] in multiset(s);
  }

  /** The percentile is at least c medians, for any real c, exactly when the
      drops of at least that length cover the positions from there on. */
  lemma PercentileRank(drops: seq<real>, median: real, percentile: real, c: real)
    requires drops != [] && Measurable(drops, median)
    requires 0 <= Position(percentile, |drops|) < |drops|
    ensures LessEqual(Finite(c), Percentile(drops, median, percentile))
       <==> CountGe(drops, c * median) >= |drops| - Position(percentile, |drops|)
  {
    SortIsSortedForm(drops);
    SortedElementIsOld(drops, Position(percentile, |drops|));
    RankAtPosition(drops, Sort(drops), median, Position(percentile, |drops|), c);
  }

  /** Duality: for a whole number c of medians that is the consecutive count. */
  lemma PercentileConsecutiveDuality(drops: seq<real>, median: real, percentile: real, c: int)
    requires drops != [] && Measurable(drops, median)
    requires 0 <= Position(percentile, |drops|) < |drops|
    ensures LessEqual(Finite(c as real), Percentile(drops, median, percentile))
       <==> Consecutive(drops, median, c) >= |drops| - Position(percentile, |drops|)
  {
    PercentileRank(drops, median, percentile, c as real);
    ConsecutiveIsCount(drops, median, c);
  }

  // ----- exactly when the two summaries are dual -----

  /** The two summaries agree at one percentile and one number of medians. */
  predicate DualAt(drops: seq<real>, median: real, percentile: real, c: int)
    requires 0.0 <= percentile < 100.0
  {
    PositionInRange(percentile, |drops|);
    (LessEqual(Finite(c as real), Percentile(drops, median, percentile))
     <==> Consecutive(drops, median, c) >= |drops| - Position(percentile, |drops|))
  }

  /** They agree at every percentile and every whole number of medians. */
  ghost predicate SummariesAreDual(drops: seq<real>, median: real) {
    forall percentile: real, c: int :: 0.0 <= percentile < 100.0 ==> DualAt(drops, median, percentile, c)
  }

  /** A length in whole medians. */
  function WholeMedians(x: real, median: real): int
    requires median != 0.0
  {
    (x / median).Floor
  }

  /** All drops are equally many whole medians long. */
  predicate InOneBand(drops: seq<real>, median: real)
    requires median != 0.0
  {
    forall i, j :: 0 <= i < |drops| && 0 <= j < |drops| ==>
      WholeMedians(drops[i], median) == WholeMedians(drops[j], median)
  }

  lemma ReachesWhole(x: real, median: real, c: int)
    requires median != 0.0
    ensures LessEqual(Finite(c as real), Quotient(x, median)) <==> c <= WholeMedians(x, median)
  {
  }

  lemma {:induction false} ConsecutiveInBand(drops: seq<real>, median: real, band: int, c: int)
    requires median != 0.0
    requires forall i :: 0 <= i < |drops| ==> WholeMedians(drops[i], median) == band
    ensures Consecutive(drops, median, c) == if c <= band then |drops| else 0
  {
    if drops == [] {
    } else {
      ConsecutiveInBand(drops[..|drops| - 1], median, band, c);
      ReachesWhole(drops[|drops| - 1], median, c);
    }
  }

  /** Drops of one band: a length is reached by all of them or by none. */
  lemma DualInOneBand(drops: seq<real>, median: real, percentile: real, c: int)
    requires drops != [] && median != 0.0 && InOneBand(drops, median) && 0.0 <= percentile < 100.0
    ensures DualAt(drops, median, percentile, c)
  {
    PositionInRange(percentile, |drops|);
    var x := Sort(drops)[Position(percentile, |drops|)];
    SortedElementIsOld(drops, Position(percentile, |drops|));
    ConsecutiveInBand(drops, median, WholeMedians(drops[0], median), c);
    ReachesWhole(x, median, c);
  }

  lemma {:induction false} ConsecutiveMisses(drops: seq<real>, median: real, c: int, k: nat)
    requires median != 0.0 && k < |drops| && WholeMedians(drops[k], median) < c
    ensures Consecutive(drops, median, c) < |drops|
  {
    var init, last := drops[..|drops| - 1], drops[|drops| - 1];
    ReachesWhole(last, median, c);
    if k < |init| {
      ConsecutiveMisses(init, median, c, k);
    } else {
      ConsecutiveAtMostAll(init, median, c);
    }
  }

  lemma {:induction false} ConsecutiveAtMostAll(drops: seq<real>, median: real, c: int)
    ensures Consecutive(drops, median, c) <= |drops|
  {
    if drops == [] {
    } else {
      ConsecutiveAtMostAll(drops[..|drops| - 1], median, c);
    }
  }

  lemma LeastIsLongest(x: real, y: real, median: real)
    requires median < 0.0 && x <= y
    ensures WholeMedians(x, median) >= WholeMedians(y, median)
  {
    var p, q := x / median, y / median;
    assert p * median == x && q * median == y;
    if p < q { PositiveProduct(q - p, -median); }
  }

  /** Dividing by a negative median reverses the order: percentile 0 then names
      the longest drop, and the shorter ones fail to reach its length. */
  lemma NotDualInTwoBands(drops: seq<real>, median: real, k: nat)
    requires k < |drops| && median < 0.0
    requires WholeMedians(drops[k], median) < WholeMedians(Sort(drops)[0], median)
    ensures !DualAt(drops, median, 0.0, WholeMedians(Sort(drops)[0], median))
  {
    var c := WholeMedians(Sort(drops)[0], median);
    assert Position(0.0, |drops|) == 0;
    ReachesWhole(Sort(drops)[0], median, c);
    ConsecutiveMisses(drops, median, c, k);
  }

  lemma ShorterDrop(drops: seq<real>, median: real) returns (k: nat)
    requires drops != [] && median < 0.0 && !InOneBand(drops, median)
    ensures k < |drops| && WholeMedians(drops[k], median) < WholeMedians(Sort(drops)[0], median)
  {
    var least := Sort(drops)[0];
    forall i | 0 <= i < |drops|
      ensures WholeMedians(drops[i], median) <= WholeMedians(least, median)
    {
      assert drops[i] in multiset(Sort(drops));
      LeastIsLongest(least, drops[i], median);
    }
    k :| 0 <= k < |drops| && WholeMedians(drops[k], median) != WholeMedians(least, median);
  }

  /** The two cases in which the summaries are dual. */
  lemma DualUnder(drops: seq<real>, median: real, percentile: real, c: int)
    requires drops != [] && 0.0 <= percentile < 100.0
    requires Measurable(drops, median) || (median != 0.0 && InOneBand(drops, median))
    ensures DualAt(drops, median, percentile, c)
  {
    PositionInRange(percentile, |drops|);
    if Measurable(drops, median) {
      PercentileConsecutiveDuality(drops, median, percentile, c);
    } else {
      DualInOneBand(drops, median, percentile, c);
    }
  }

  /** Without drops every percentile is 0.0, whatever the count says. */
  lemma NotDualWithoutDrops(median: real)
    ensures !DualAt([], median, 0.0, 1)
  {
  }

  /** The percentiles and the consecutive counts reported for the drops of a
      list are dual exactly when there are drops, and the median is not negative
      or all the drops are equally many whole medians long. */
  lemma DualExactly(durations: seq<real>, median: real)
    ensures var drops := Drops(durations, median);
            SummariesAreDual(drops, median)
            <==> drops != [] && (median >= 0.0 || InOneBand(drops, median))
  {
    hide Drops, DualAt, InOneBand;
    var drops := Drops(durations, median);
    if median >= 0.0 { DropsAreMeasurable(durations, median); }
    if drops == [] {
      NotDualWithoutDrops(median);
    } else if median >= 0.0 || InOneBand(drops, median) {
      forall percentile: real, c: int | 0.0 <= percentile < 100.0 ensures DualAt(drops, median, percentile, c) {
        DualUnder(drops, median, percentile, c);
      }
    } else {
      var k := ShorterDrop(drops, median);
      NotDualInTwoBands(drops, median, k);
    }
  }

  /** Three durations in two bands, below a negative median. */
  lemma DualityFailsBelowZero(durations: seq<real>)
    requires durations == [-2.0, -2.0, 0.0]
    ensures Median(durations) == -2.0
    ensures Drops(durations, -2.0) == durations
    ensures !DualAt(durations, -2.0, 0.0, 1) && !SummariesAreDual(durations, -2.0)
  {
    SortedUnique(Sort(durations), durations);
    ThreeDrops(durations);
    assert WholeMedians(durations[0], -2.0) == 1 && WholeMedians(durations[2], -2.0) == 0;
    NotDualInTwoBands(durations, -2.0, 2);
  }

  lemma DropsNext(s: seq<real>, x: real, median: real)
    requires x > 1.5 * median
    ensures Drops(s + [x], median) == Drops(s, median) + [x]
  {
    assert (s + [x])[..|s|] == s;
  }

  lemma ThreeDrops(s: seq<real>)
    requires s == [-2.0, -2.0, 0.0]
    ensures Drops(s, -2.0) == s
  {
    hide Drops;
    DropsOfNothing(-2.0);
    DropsNext([], -2.0, -2.0);
    DropsNext([-2.0], -2.0, -2.0);
    DropsNext([-2.0, -2.0], 0.0, -2.0);
    assert [] + [-2.0] == [-2.0] && [-2.0] + [-2.0] == [-2.0, -2.0] && [-2.0, -2.0] + [0.0] == s;
  }

  lemma DropsOfNothing(median: real)
    ensures Drops([], median) == []
  {
  }

  /** The percentiles of measurable drops do not decrease. */
  lemma PercentileMonotone(drops: seq<real>, median: real, p: real, q: real)
    requires drops != [] && Measurable(drops, median) && 0.0 <= p <= q < 100.0
    ensures 0 <= Position(p, |drops|) < |drops| && 0 <= Position(q, |drops|) < |drops|
    ensures LessEqual(Percentile(drops, median, p), Percentile(drops, median, q))
  {
    PositionInRange(p, |drops|);
    PositionInRange(q, |drops|);
    PositionMonotone(p, q, |drops|);
    SortedElementIsOld(drops, Position(p, |drops|));
    PercentileAt(Sort(drops), median, Position(p, |drops|), Position(q, |drops|));
  }

  lemma PercentileAt(up: seq<real>, median: real, j: nat, k: nat)
    requires Sorted(up) && j <= k < |up|
    requires median > 0.0 || (median == 0.0 && up[j] > 0.0)
    ensures LessEqual(Quotient(up[j], median), Quotient(up[k], median))
  {
    QuotientMonotone(up[j], up[k], median);
  }

  lemma QuotientMonotone(x: real, y: real, m: real)
    requires x <= y && (m > 0.0 || (m == 0.0 && x > 0.0))
    ensures LessEqual(Quotient(x, m), Quotient(y, m))
  {
    if m > 0.0 { assert x / m <= y / m; }
  }

  // ----- exactly when the percentiles do not decrease -----

  /** The percentile at p is at most that at q. */
  predicate PercentilesInOrder(drops: seq<real>, median: real, p: real, q: real)
    requires 0.0 <= p <= q < 100.0
  {
    PositionInRange(p, |drops|);
    PositionInRange(q, |drops|);
    LessEqual(Percentile(drops, median, p), Percentile(drops, median, q))
  }

  ghost predicate PercentilesNondecreasing(drops: seq<real>, median: real) {
    forall p: real, q: real :: 0.0 <= p <= q < 100.0 ==> PercentilesInOrder(drops, median, p, q)
  }

  predicate AllEqual(s: seq<real>) {
    forall i, j :: 0 <= i < |s| && 0 <= j < |s| ==> s[i] == s[j]
  }

  lemma EqualDropsInOrder(drops: seq<real>, median: real, p: real, q: real)
    requires median != 0.0 && AllEqual(drops) && 0.0 <= p <= q < 100.0
    ensures PercentilesInOrder(drops, median, p, q)
  {
    hide Sort, Position;
    PositionInRange(p, |drops|);
    PositionInRange(q, |drops|);
    if drops != [] {
      SortedElementIsOld(drops, Position(p, |drops|));
      SortedElementIsOld(drops, Position(q, |drops|));
    }
  }

  /** The percentile that names the last of n sorted drops. */
  function LastPercentile(n: nat): (percentile: real)
    requires n > 0
    ensures 0.0 <= percentile < 100.0
  {
    LastFraction(n as real);
    100.0 * ((n - 1) as real / n as real)
  }

  lemma LastFraction(n: real)
    requires n >= 1.0
    ensures 0.0 <= (n - 1.0) / n < 1.0 && (n - 1.0) / n * n == n - 1.0
  {
  }

  lemma LastPosition(n: nat)
    requires n > 0
    ensures Position(LastPercentile(n), n) == n - 1
  {
    LastFraction(n as real);
    assert LastPercentile(n) / 100.0 == (n - 1) as real / n as real;
    assert (n - 1) as real == n as real - 1.0;
  }

  lemma EndsDiffer(drops: seq<real>)
    requires !AllEqual(drops)
    ensures drops != [] && Sort(drops)[0] < Sort(drops)[|drops| - 1]
  {
    hide Sort;
    var up := Sort(drops);
    forall i | 0 <= i < |drops| ensures up[0] <= drops[i] <= up[|up| - 1] {
      BetweenEnds(drops, up, i);
    }
  }

  lemma BetweenEnds(s: seq<real>, up: seq<real>, i: nat)
    requires Sorted(up) && multiset(up) == multiset(s) && |up| == |s| && i < |s|
    ensures up[0] <= s[i] <= up[|up| - 1]
  {
    assert s[i] in multiset(up);
  }

  lemma NegativeReverses(x: real, y: real, median: real)
    requires median < 0.0 && x < y
    ensures !LessEqual(Quotient(x, median), Quotient(y, median))
  {
    var p, q := x / median, y / median;
    assert p * median == x && q * median == y;
    if p <= q { NonnegativeProduct(q - p, -median); }
  }

  /** Dividing by a negative median, percentile 0 is the greatest one. */
  lemma EndsOutOfOrder(drops: seq<real>, median: real)
    requires median < 0.0 && !AllEqual(drops)
    ensures drops != [] && !PercentilesInOrder(drops, median, 0.0, LastPercentile(|drops|))
  {
    hide Sort, AllEqual;
    EndsDiffer(drops);
    LastPosition(|drops|);
    assert Position(0.0, |drops|) == 0;
    NegativeReverses(Sort(drops)[0], Sort(drops)[|drops| - 1], median);
  }

  /** The percentiles reported for the drops of a list do not decrease exactly
      when the median is not negative or all the drops are equal. */
  lemma PercentilesNondecreasingExactly(durations: seq<real>, median: real)
    ensures var drops := Drops(durations, median);
            PercentilesNondecreasing(drops, median) <==> median >= 0.0 || AllEqual(drops)
  {
    hide Drops, PercentilesInOrder, AllEqual, Measurable;
    var drops := Drops(durations, median);
    if median >= 0.0 { DropsAreMeasurable(durations, median); }
    if median >= 0.0 || AllEqual(drops) {
      forall p: real, q: real | 0.0 <= p <= q < 100.0 ensures PercentilesInOrder(drops, median, p, q) {
        InOrderUnder(drops, median, p, q);
      }
    } else {
      EndsOutOfOrder(drops, median);
    }
  }

  /** The two cases in which the percentiles do not decrease. */
  lemma InOrderUnder(drops: seq<real>, median: real, p: real, q: real)
    requires Measurable(drops, median) || (median != 0.0 && AllEqual(drops))
    requires 0.0 <= p <= q < 100.0
    ensures PercentilesInOrder(drops, median, p, q)
  {
    hide Sort, Position;
    if drops == [] {
    } else if Measurable(drops, median) {
      PercentileMonotone(drops, median, p, q);
    } else {
      EqualDropsInOrder(drops, median, p, q);
    }
  }

  /** Three durations below a negative median, whose percentiles fall from 1 to 0. */
  lemma PercentilesFallBelowZero(durations: seq<real>)
    requires durations == [-2.0, -2.0, 0.0]
    ensures Position(0.0, 3) == 0 && Percentile(durations, -2.0, 0.0) == Finite(1.0)
    ensures Position(90.0, 3) == 2 && Percentile(durations, -2.0, 90.0) == Finite(0.0)
    ensures !PercentilesInOrder(durations, -2.0, 0.0, 90.0) && !PercentilesNondecreasing(durations, -2.0)
  {
    SortedUnique(Sort(durations), durations);
  }

  /** Consecutive counts do not increase with the length asked for. */
  lemma {:induction false} ConsecutiveMonotone(drops: seq<real>, median: real, c: int, d: int)
    requires c <= d
    ensures Consecutive(drops, median, d) <= Consecutive(drops, median, c)
  {
    if drops == [] {
    } else {
      ConsecutiveMonotone(drops[..|drops| - 1], median, c, d);
    }
  }

  // ----- what ratio, count and length are -----

  /** The time of the drops beyond one median each. */
  function ExtraTime(drops: seq<real>, median: real): real {
    if drops == [] then 0.0 else ExtraTime(drops[..|drops| - 1], median) + (drops[|drops| - 1] - median)
  }

  lemma {:induction false} ExtraTimeFromSums(drops: seq<real>, k: real, median: real)
    requires k == |drops| as real
    ensures ExtraTime(drops, median) == Sum(drops) - median * k
  {
    if drops == [] {
    } else {
      ExtraTimeFromSums(drops[..|drops| - 1], k - 1.0, median);
    }
  }

  /** The ratio is the extra time of the drops over the total duration, so 0
      without drops; a total of zero gives an infinity or NaN. */
  lemma DropRatioMeaning(drops: seq<real>, median: real, total: real)
    ensures total != 0.0 ==>
      && DropRatio(drops, median, total).Finite?
      && DropRatio(drops, median, total).v * total == ExtraTime(drops, median)
    ensures total != 0.0 && drops == [] ==> DropRatio(drops, median, total) == Finite(0.0)
    ensures total == 0.0 && ExtraTime(drops, median) > 0.0 ==> DropRatio(drops, median, total) == PosInf
    ensures total == 0.0 && ExtraTime(drops, median) < 0.0 ==> DropRatio(drops, median, total) == NegInf
    ensures total == 0.0 && ExtraTime(drops, median) == 0.0 ==> DropRatio(drops, median, total) == NaN
  {
    ExtraTimeFromSums(drops, |drops| as real, median);
    QuotientMeaning(Sum(drops) - median * |drops| as real, total);
    if drops == [] && total != 0.0 { ZeroQuotient(DropRatio(drops, median, total).v, total); }
  }

  lemma ZeroQuotient(q: real, y: real)
    requires y != 0.0 && q * y == 0.0
    ensures q == 0.0
  {
  }

  /** The count is the integer part of ratio times frames, taken toward zero, when
      that is finite and strictly between the int bounds, and 0 otherwise. */
  lemma DropCountMeaning(ratio: Double, numFrames: int)
    ensures var count := DropCount(ratio, numFrames);
      match ratio
      case Finite(r) =>
        var x := r * numFrames as real;
        if INT_MIN as real < x < INT_MAX as real then
          && (x >= 0.0 ==> count as real <= x < count as real + 1.0)
          && (x < 0.0 ==> count as real - 1.0 < x <= count as real)
        else count == 0
      case _ => count == 0
  {
    if ratio.Finite? { TruncateMeaning(ratio.v * numFrames as real); }
  }

  /** The normalized length times the median and the number of drops is the time
      of the drops; it is 0 without drops, and infinite over a median of zero. */
  lemma NormalizedLengthMeaning(durations: seq<real>, median: real)
    ensures var drops := Drops(durations, median);
      var length := NormalizedDropLength(drops, median);
      && (drops == [] ==> length == Finite(0.0))
      && (drops != [] && median != 0.0 ==>
            length.Finite? && (length.v * median) * |drops| as real == Sum(drops))
      && (drops != [] && median == 0.0 ==> length == PosInf)
  {
    hide Drops, Sum, Quotient;
    var drops := Drops(durations, median);
    if drops != [] {
      var n := |drops| as real;
      QuotientMeaning(Sum(drops), n);
      QuotientMeaning(Sum(drops) / n, median);
      DropsSumAboveThreshold(durations, median);
      if median == 0.0 { PositiveQuotient(Sum(drops), n); }
    }
  }

  lemma PositiveQuotient(x: real, y: real)
    requires x > 0.0 && y > 0.0
    ensures x / y > 0.0
  {
  }

  // ----- what the percentiles are, without the index -----

  /** k is the whole part of that percentage of n. */
  predicate IsRankOf(k: nat, percentile: real, n: nat) {
    100.0 * k as real <= percentile * n as real < 100.0 * (k as real + 1.0)
  }

  lemma RankIsPosition(percentile: real, n: nat, k: nat)
    requires 0.0 <= percentile < 100.0 && n > 0 && IsRankOf(k, percentile, n)
    ensures k < n && Position(percentile, n) == k
  {
    var x := percentile / 100.0 * n as real;
    assert x == percentile * n as real / 100.0;
    assert k as real <= x < k as real + 1.0;
    PositionInRange(percentile, n);
  }

  /** There is exactly one such rank, and it is below n. */
  lemma RankExists(percentile: real, n: nat) returns (k: nat)
    requires 0.0 <= percentile < 100.0 && n > 0
    ensures k < n && IsRankOf(k, percentile, n)
    ensures forall j: nat :: IsRankOf(j, percentile, n) ==> j == k
  {
    PositionInRange(percentile, n);
    k := Position(percentile, n);
    TruncateMeaning(percentile / 100.0 * n as real);
    assert percentile / 100.0 * n as real == percentile * n as real / 100.0;
    forall j: nat | IsRankOf(j, percentile, n) ensures j == k {
      RankIsPosition(percentile, n, j);
    }
  }

  /** The percentile is the drop of that rank, in medians. */
  lemma PercentileIsOrderStatistic(drops: seq<real>, median: real, percentile: real, k: nat, x: real)
    requires drops != [] && 0.0 <= percentile < 100.0
    requires IsRankOf(k, percentile, |drops|) && IsOrderStatistic(drops, k, x)
    ensures 0 <= Position(percentile, |drops|) < |drops|
    ensures Percentile(drops, median, percentile) == Quotient(x, median)
    ensures median != 0.0 ==>
      && Percentile(drops, median, percentile).Finite?
      && Percentile(drops, median, percentile).v * median == x
  {
    hide Sort, Position, IsRankOf, IsOrderStatistic;
    RankIsPosition(percentile, |drops|, k);
    SortIsSortedForm(drops);
    SortedFormAt(drops, Sort(drops), k, x);
    QuotientMeaning(x, median);
  }

  /** The duality, with the rank in place of the index. */
  lemma DualityByRank(drops: seq<real>, median: real, percentile: real, k: nat, c: int)
    requires drops != [] && 0.0 <= percentile < 100.0 && IsRankOf(k, percentile, |drops|)
    requires Measurable(drops, median) || (median != 0.0 && InOneBand(drops, median))
    ensures 0 <= Position(percentile, |drops|) < |drops|
    ensures LessEqual(Finite(c as real), Percentile(drops, median, percentile))
       <==> Consecutive(drops, median, c) >= |drops| - k
  {
    hide Position, Percentile, Consecutive, IsRankOf, Measurable, InOneBand;
    RankIsPosition(percentile, |drops|, k);
    DualUnder(drops, median, percentile, c);
  }

  /** The counts by comparing with c medians: below a negative median a drop
      reaches c medians when it is at most that. */
  lemma {:induction false} ConsecutiveMeaning(drops: seq<real>, median: real, c: int)
    ensures median > 0.0 ==> Consecutive(drops, median, c) == CountGe(drops, c as real * median)
    ensures median < 0.0 ==> Consecutive(drops, median, c) == CountLe(drops, c as real * median)
  {
    if drops == [] {
    } else {
      var last := drops[|drops| - 1];
      ConsecutiveMeaning(drops[..|drops| - 1], median, c);
      if median > 0.0 { QuotientReaches(last, median, c as real); }
      if median < 0.0 { NegativeReaches(last, median, c as real); }
    }
  }

  lemma NegativeReaches(x: real, median: real, c: real)
    requires median < 0.0
    ensures LessEqual(Finite(c), Quotient(x, median)) <==> x <= c * median
  {
    QuotientMeaning(x, median);
    CompareNegatively(c, Quotient(x, median).v, median, -median);
  }

  lemma CompareNegatively(c: real, q: real, median: real, opposite: real)
    requires median < 0.0 && opposite == -median
    ensures c <= q <==> q * median <= c * median
  {
    var x, y := c * opposite, q * opposite;
    assert x == -(c * median) && y == -(q * median);
    if c <= q {
      NonnegativeProduct(q - c, opposite);
      assert (q - c) * opposite == y - x;
    } else {
      PositiveProduct(c - q, opposite);
      assert (c - q) * opposite == x - y;
    }
  }
}
