/** What the timing lists mean for every pair of sample tables. */
module TimingTheorems {
  import opened MachineInts
  import opened Reals
  import opened Selections
  import opened Sorting
  import opened Doubles
  import opened Deltas
  import opened SampleTables
  import opened Statistics
  import opened FrameRates
  import opened FrameDrops
  import opened Timing
  import opened Wrappers

  // ----- the permutation -----

  /** A stable order lists every frame exactly once. */
  lemma StableOrderIsPermutation(keys: seq<real>, order: seq<nat>)
    requires IsStableOrder(keys, order)
    ensures multiset(order) == multiset(Identity(|keys|))
  {
    var frames := Identity(|keys|);
    DistinctMultiset(order);
    DistinctMultiset(frames);
    forall f: nat ensures multiset(order)[f] == multiset(frames)[f] {
      assert f < |keys| <==> f in frames by { if f < |keys| { assert frames[f] == f; } }
    }
  }

  lemma {:induction false} DistinctMultiset(s: seq<nat>)
    requires forall i, j :: 0 <= i < j < |s| ==> s[i] != s[j]
    ensures forall f :: multiset(s)[f] == if f in s then 1 else 0
  {
    if s == [] {
    } else {
      var init, last := s[..|s| - 1], s[|s| - 1];
      DistinctMultiset(init);
      assert s == init + [last];
    }
  }

  /** In stable order the keys do not decrease, and equal keys keep the order of
      their frames. */
  lemma StableOrderSorts(keys: seq<real>, order: seq<nat>)
    requires IsStableOrder(keys, order)
    ensures Sorted(Reordered(keys, order))
    ensures forall i, j :: 0 <= i < j < |order| && keys[order[i]] == keys[order[j]] ==> order[i] < order[j]
  {
    forall i, j | 0 <= i < j < |order| ensures keys[order[i]] <= keys[order[j]] {
      assert Before(keys, order[i], order[j]);
    }
    forall i, j | 0 <= i < j < |order| && keys[order[i]] == keys[order[j]] ensures order[i] < order[j] {
      assert Before(keys, order[i], order[j]);
    }
  }

  /** The identity is the stable order exactly of keys that do not decrease. */
  lemma IdentityIsStableOrder(keys: seq<real>)
    ensures IsStableOrder(keys, Identity(|keys|)) <==> Sorted(keys)
  {
    var frames := Identity(|keys|);
    forall f: nat | f < |keys| ensures f in frames { assert frames[f] == f; }
    if IsStableOrder(keys, frames) {
      forall i, j | 0 <= i < j < |keys| ensures keys[i] <= keys[j] {
        assert Before(keys, frames[i], frames[j]);
      }
    }
  }

  // ----- deltas of the tables -----

  /** Without a ctts table, and unsorted, the durations are the stts values of
      all frames but the last, even where the dts wraps past 2^32. */
  lemma DeltasAreSttsValues(stts: SttsTable, i: nat)
    requires i + 1 < TotalSamples(stts)
    ensures VectorDeltas(PtsUnits(stts, None, TotalSamples(stts)))[i] == ToInt32(SttsAt(stts, i))
  {
    hide SubInt32Wraparound, ToInt32;
    var n := TotalSamples(stts);
    var pts := PtsUnits(stts, None, n);
    DeltaAt(pts, i);
    PtsUnitsAt(stts, None, n, i);
    PtsUnitsAt(stts, None, n, i + 1);
    WrappedStep(DT(stts, i), SttsAt(stts, i));
  }

  lemma WrappedStep(dt: int, delta: Uint32)
    ensures SubInt32Wraparound(ToInt32(dt + delta), ToInt32(dt)) == ToInt32(delta)
  {
    SubInt32WraparoundExact(ToInt32(dt + delta), ToInt32(dt));
    ToInt32Congruent(dt + delta);
    ToInt32Congruent(dt);
    CongruentSum(ToInt32(dt + delta), dt + delta, ToInt32(dt), dt);
    CongruentToInt32(ToInt32(dt + delta) - ToInt32(dt), delta);
  }

  lemma {:induction false} DTMonotone(stts: SttsTable, i: nat, j: nat)
    requires i <= j <= TotalSamples(stts)
    ensures DT(stts, i) <= DT(stts, j)
  {
    if i == j {
    } else {
      DTMonotone(stts, i, j - 1);
    }
  }

  lemma SecondsCompare(a: int, b: int, timescale: Uint32)
    requires timescale > 0
    ensures Seconds(a, timescale) <= Seconds(b, timescale) <==> a <= b
  {
    var t := timescale as real;
    assert Seconds(a, timescale) * t == a as real && Seconds(b, timescale) * t == b as real;
    if Seconds(a, timescale) <= Seconds(b, timescale) {
      NonnegativeProduct(Seconds(b, timescale) - Seconds(a, timescale), t);
    }
  }

  /** No decode time of the table reaches 2^32. */
  predicate NoDtsWraps(stts: SttsTable) {
    forall i :: 0 <= i < TotalSamples(stts) ==> DT(stts, i) < TWO_32
  }

  lemma DtsSecAt(stts: SttsTable, timescale: Uint32, i: nat)
    requires timescale > 0 && i < TotalSamples(stts) && DT(stts, i) < TWO_32
    ensures PtsSecs(stts, None, timescale, TotalSamples(stts))[i] == Seconds(DT(stts, i), timescale)
  {
    hide Seconds, PtsSecs;
    PtsSecsAt(stts, None, timescale, TotalSamples(stts), i);
  }

  lemma DtsSecsInOrder(stts: SttsTable, timescale: Uint32, i: nat, j: nat)
    requires timescale > 0 && i <= j < TotalSamples(stts) && DT(stts, j) < TWO_32
    ensures var keys := PtsSecs(stts, None, timescale, TotalSamples(stts)); keys[i] <= keys[j]
  {
    hide Seconds, PtsSecs;
    DTMonotone(stts, i, j);
    DtsSecAt(stts, timescale, i);
    DtsSecAt(stts, timescale, j);
    SecondsCompare(DT(stts, i), DT(stts, j), timescale);
  }

  lemma DtsSecsSortedIfNoWrap(stts: SttsTable, timescale: Uint32)
    requires timescale > 0 && NoDtsWraps(stts)
    ensures Sorted(PtsSecs(stts, None, timescale, TotalSamples(stts)))
  {
    hide PtsSecs;
    var keys := PtsSecs(stts, None, timescale, TotalSamples(stts));
    forall i, j | 0 <= i < j < |keys| ensures keys[i] <= keys[j] {
      DtsSecsInOrder(stts, timescale, i, j);
    }
  }

  lemma {:induction false} FirstWrap(stts: SttsTable, i: nat) returns (k: nat)
    requires i < TotalSamples(stts) && DT(stts, i) >= TWO_32
    ensures k + 1 <= i && DT(stts, k) < TWO_32 <= DT(stts, k + 1)
  {
    if DT(stts, i - 1) < TWO_32 { k := i - 1; } else { k := FirstWrap(stts, i - 1); }
  }

  lemma DtsSecsUnsortedIfWrap(stts: SttsTable, timescale: Uint32, i: nat)
    requires timescale > 0 && i < TotalSamples(stts) && DT(stts, i) >= TWO_32
    ensures !Sorted(PtsSecs(stts, None, timescale, TotalSamples(stts)))
  {
    var n := TotalSamples(stts);
    hide Seconds, PtsSecs;
    var k := FirstWrap(stts, i);
    PtsSecsAt(stts, None, timescale, n, k);
    PtsSecsAt(stts, None, timescale, n, k + 1);
    var a, b := DT(stts, k), DT(stts, k + 1);
    assert ToUint32(a) == a && ToUint32(b) == b - TWO_32;
    SecondsCompare(a, b - TWO_32, timescale);
  }

  /** Without a ctts table, sorting leaves every frame where it was exactly when
      no decode time wraps past 2^32. */
  lemma SortIsIdentityWithoutCtts(stts: SttsTable, timescale: Uint32, order: seq<nat>)
    requires timescale > 0
    requires IsStableOrder(PtsSecs(stts, None, timescale, TotalSamples(stts)), order)
    ensures order == Identity(TotalSamples(stts)) <==> NoDtsWraps(stts)
  {
    var keys := PtsSecs(stts, None, timescale, TotalSamples(stts));
    IdentityIsStableOrder(keys);
    if NoDtsWraps(stts) {
      DtsSecsSortedIfNoWrap(stts, timescale);
      StableOrderUnique(keys, order, Identity(|keys|));
    } else {
      var i :| 0 <= i < TotalSamples(stts) && DT(stts, i) >= TWO_32;
      DtsSecsUnsortedIfWrap(stts, timescale, i);
    }
  }

  /** Three samples of 2^31 units: the third starts at 2^32, which wraps to 0, so
      it is sorted before the second. */
  lemma WrappedFrameMoves(stts: SttsTable, timescale: Uint32, order: seq<nat>)
    requires stts == [Run(3, TWO_31)] && timescale > 0
    requires IsStableOrder(PtsSecs(stts, None, timescale, TotalSamples(stts)), order)
    ensures order == [0, 2, 1] && !NoDtsWraps(stts)
  {
    hide Seconds, PtsSecs;
    ThreeSamples(stts);
    var keys := PtsSecs(stts, None, timescale, 3);
    PtsSecsAt(stts, None, timescale, 3, 0);
    PtsSecsAt(stts, None, timescale, 3, 1);
    PtsSecsAt(stts, None, timescale, 3, 2);
    SecondsCompare(TWO_31, 0, timescale);
    assert keys[0] == keys[2] < keys[1];
    var frames: seq<nat> := [0, 2, 1];
    assert frames[0] == 0 && frames[1] == 2 && frames[2] == 1;
    StableOrderUnique(keys, order, frames);
  }

  lemma ThreeSamples(stts: SttsTable)
    requires stts == [Run(3, TWO_31)]
    ensures TotalSamples(stts) == 3
    ensures DT(stts, 0) == 0 && DT(stts, 1) == TWO_31 && DT(stts, 2) == TWO_32
  {
    assert stts[..0] == [];
    EntryInRun(stts, 0, 0);
    EntryInRun(stts, 0, 1);
    assert DT(stts, 1) == DT(stts, 0) + SttsAt(stts, 0);
    assert DT(stts, 2) == DT(stts, 1) + SttsAt(stts, 1);
  }

  /** So, when none wraps, the sorted durations are the stts values as well. */
  lemma SortedDeltasAreSttsValues(stts: SttsTable, timescale: Uint32, order: seq<nat>, i: nat)
    requires timescale > 0 && NoDtsWraps(stts) && i + 1 < TotalSamples(stts)
    requires IsStableOrder(PtsSecs(stts, None, timescale, TotalSamples(stts)), order)
    ensures VectorDeltas(Reordered(PtsUnits(stts, None, TotalSamples(stts)), order))[i]
         == ToInt32(SttsAt(stts, i))
  {
    hide ToInt32, IsStableOrder;
    SortIsIdentityWithoutCtts(stts, timescale, order);
    ReorderedByIdentity(PtsUnits(stts, None, TotalSamples(stts)));
    DeltasAreSttsValues(stts, i);
  }

  /** The differences are the stts values, as int32, of all frames but the last. */
  predicate AreSttsValues(deltas: seq<Int32>, stts: SttsTable)
    requires TotalSamples(stts) > 0 && |deltas| == TotalSamples(stts) - 1
  {
    forall i :: 0 <= i < |deltas| ==> deltas[i] == ToInt32(SttsAt(stts, i))
  }

  lemma EqualDeltasOfStts(stts: SttsTable, deltas: seq<Int32>)
    requires TotalSamples(stts) > 0 && |deltas| == TotalSamples(stts) - 1 && AreSttsValues(deltas, stts)
    ensures deltas == VectorDeltas(PtsUnits(stts, None, TotalSamples(stts)))
  {
    hide ToInt32, PtsUnits, VectorDeltas;
    forall i | 0 <= i < |deltas|
      ensures deltas[i] == VectorDeltas(PtsUnits(stts, None, TotalSamples(stts)))[i]
    {
      DeltasAreSttsValues(stts, i);
    }
  }

  lemma FirstFrameStaysFirst(stts: SttsTable, timescale: Uint32, order: seq<nat>)
    requires timescale > 0 && TotalSamples(stts) > 0
    requires IsStableOrder(PtsSecs(stts, None, timescale, TotalSamples(stts)), order)
    ensures order[0] == 0
  {
    hide Seconds, PtsSecs;
    var keys := PtsSecs(stts, None, timescale, TotalSamples(stts));
    PtsSecsAt(stts, None, timescale, TotalSamples(stts), 0);
    PtsSecsAt(stts, None, timescale, TotalSamples(stts), order[0]);
    SecondsCompare(0, PtsKey(stts, None, order[0]), timescale);
    var first: nat := 0;
    assert first in order;
    var k :| 0 <= k < |order| && order[k] == first;
  }

  /** A list is given by its first element and its differences. */
  lemma SameDeltas(s: seq<Int32>, t: seq<Int32>)
    requires s != [] && t != [] && s[0] == t[0] && VectorDeltas(s) == VectorDeltas(t)
    ensures s == t
  {
    DeltasRoundTrip(s);
    DeltasRoundTrip(t);
  }

  /** Units that are equal as int32 come from equal dts. */
  lemma SameUnitsSameKeys(stts: SttsTable, timescale: Uint32, i: nat, j: nat)
    requires timescale > 0 && i < TotalSamples(stts) && j < TotalSamples(stts)
    requires var pts := PtsUnits(stts, None, TotalSamples(stts)); pts[i] == pts[j]
    ensures var keys := PtsSecs(stts, None, timescale, TotalSamples(stts)); keys[i] == keys[j]
  {
    hide Seconds, PtsSecs, PtsUnits;
    PtsUnitsAt(stts, None, TotalSamples(stts), i);
    PtsUnitsAt(stts, None, TotalSamples(stts), j);
    PtsSecsAt(stts, None, timescale, TotalSamples(stts), i);
    PtsSecsAt(stts, None, timescale, TotalSamples(stts), j);
  }

  lemma NoWrapIfUnitsStay(stts: SttsTable, timescale: Uint32, order: seq<nat>)
    requires timescale > 0
    requires IsStableOrder(PtsSecs(stts, None, timescale, TotalSamples(stts)), order)
    requires Reordered(PtsUnits(stts, None, TotalSamples(stts)), order)
          == PtsUnits(stts, None, TotalSamples(stts))
    ensures NoDtsWraps(stts)
  {
    hide PtsSecs, PtsUnits, DT;
    var n := TotalSamples(stts);
    var keys, pts := PtsSecs(stts, None, timescale, n), PtsUnits(stts, None, n);
    forall i | 0 <= i < n ensures keys[order[i]] == keys[i] {
      assert Reordered(pts, order)[i] == pts[i];
      SameUnitsSameKeys(stts, timescale, order[i], i);
    }
    assert Reordered(keys, order) == keys;
    StableOrderSorts(keys, order);
    forall i | 0 <= i < n ensures DT(stts, i) < TWO_32 {
      if DT(stts, i) >= TWO_32 { DtsSecsUnsortedIfWrap(stts, timescale, i); }
    }
  }

  /** The sorted durations are the stts values exactly when no decode time wraps. */
  lemma SortedDeltasAreSttsExactly(stts: SttsTable, timescale: Uint32, order: seq<nat>)
    requires timescale > 0 && TotalSamples(stts) > 0
    requires IsStableOrder(PtsSecs(stts, None, timescale, TotalSamples(stts)), order)
    ensures AreSttsValues(VectorDeltas(Reordered(PtsUnits(stts, None, TotalSamples(stts)), order)), stts)
       <==> NoDtsWraps(stts)
  {
    hide ToInt32, PtsSecs, PtsUnits, VectorDeltas, NoDtsWraps;
    var pts := PtsUnits(stts, None, TotalSamples(stts));
    var sorted := Reordered(pts, order);
    if NoDtsWraps(stts) {
      forall i | 0 <= i < |sorted| - 1 ensures VectorDeltas(sorted)[i] == ToInt32(SttsAt(stts, i)) {
        SortedDeltasAreSttsValues(stts, timescale, order, i);
      }
    }
    if AreSttsValues(VectorDeltas(sorted), stts) {
      EqualDeltasOfStts(stts, VectorDeltas(sorted));
      FirstFrameStaysFirst(stts, timescale, order);
      SameDeltas(sorted, pts);
      NoWrapIfUnitsStay(stts, timescale, order);
    }
  }

  // ----- durations in presentation order -----

  /** Every exact composition time lies in 0..2^31-1. */
  predicate TimesInRange(stts: SttsTable, ctts: Option<CttsTable>) {
    forall i :: 0 <= i < TotalSamples(stts) ==> 0 <= CT(stts, ctts, i) <= INT_MAX
  }

  /** The units between the i-th frame in this order and the next. */
  function Gap(stts: SttsTable, ctts: Option<CttsTable>, order: seq<nat>, i: nat): int
    requires Indices(order, TotalSamples(stts)) && i + 1 < |order|
  {
    PtsKey(stts, ctts, order[i + 1]) - PtsKey(stts, ctts, order[i])
  }

  /** In this order no frame starts 2^31 units or more after the one before it. */
  predicate NoWideGap(stts: SttsTable, ctts: Option<CttsTable>, order: seq<nat>)
    requires Indices(order, TotalSamples(stts))
  {
    forall i :: 0 <= i < |order| - 1 ==> Gap(stts, ctts, order, i) <= INT_MAX
  }

  /** Times in range leave no room for such a gap. */
  lemma InRangeHasNoWideGap(stts: SttsTable, ctts: Option<CttsTable>, order: seq<nat>)
    requires Indices(order, TotalSamples(stts)) && TimesInRange(stts, ctts)
    ensures NoWideGap(stts, ctts, order)
  {
    hide DT, CT;
    forall i | 0 <= i < |order| ensures 0 <= PtsKey(stts, ctts, order[i]) <= INT_MAX {
      InRangeKey(stts, ctts, order[i]);
    }
  }

  lemma InRangeKey(stts: SttsTable, ctts: Option<CttsTable>, i: nat)
    requires i < TotalSamples(stts) && 0 <= CT(stts, ctts, i) <= INT_MAX
    ensures PtsKey(stts, ctts, i) == CT(stts, ctts, i)
  {
  }

  lemma KeysInOrder(stts: SttsTable, ctts: Option<CttsTable>, timescale: Uint32, order: seq<nat>, i: nat)
    requires timescale > 0 && i + 1 < TotalSamples(stts)
    requires IsStableOrder(PtsSecs(stts, ctts, timescale, TotalSamples(stts)), order)
    ensures 0 <= Gap(stts, ctts, order, i) < TWO_32
  {
    hide Seconds, PtsSecs;
    var n := TotalSamples(stts);
    assert Before(PtsSecs(stts, ctts, timescale, n), order[i], order[i + 1]);
    PtsSecsAt(stts, ctts, timescale, n, order[i]);
    PtsSecsAt(stts, ctts, timescale, n, order[i + 1]);
    SecondsCompare(PtsKey(stts, ctts, order[i]), PtsKey(stts, ctts, order[i + 1]), timescale);
  }

  lemma UnitsOfKey(stts: SttsTable, ctts: Option<CttsTable>, i: nat)
    requires i < TotalSamples(stts)
    ensures Congruent(PtsUnits(stts, ctts, TotalSamples(stts))[i], PtsKey(stts, ctts, i))
  {
    PtsUnitsAt(stts, ctts, TotalSamples(stts), i);
    ToInt32Congruent(CT(stts, ctts, i));
    UnsignedCongruent(CT(stts, ctts, i));
  }

  /** A delta of units is the int32 image of the gap between the keys. */
  lemma DeltaOfKeys(stts: SttsTable, ctts: Option<CttsTable>, order: seq<nat>, i: nat)
    requires |order| == TotalSamples(stts) && Indices(order, |order|) && i + 1 < |order|
    ensures VectorDeltas(Reordered(PtsUnits(stts, ctts, TotalSamples(stts)), order))[i]
         == ToInt32(Gap(stts, ctts, order, i))
  {
    hide PtsUnits, VectorDeltas, SubInt32Wraparound, ToInt32, PtsKey, Congruent;
    var pts := Reordered(PtsUnits(stts, ctts, TotalSamples(stts)), order);
    DeltaAt(pts, i);
    SubInt32WraparoundExact(pts[i + 1], pts[i]);
    UnitsOfKey(stts, ctts, order[i]);
    UnitsOfKey(stts, ctts, order[i + 1]);
    CongruentSum(pts[i + 1], PtsKey(stts, ctts, order[i + 1]), pts[i], PtsKey(stts, ctts, order[i]));
    CongruentToInt32(pts[i + 1] as int - pts[i] as int, Gap(stts, ctts, order, i));
  }

  lemma ImageIsNonnegative(gap: int)
    requires 0 <= gap < TWO_32
    ensures ToInt32(gap) >= 0 <==> gap <= INT_MAX
  {
  }

  lemma SortedDurationSign(stts: SttsTable, ctts: Option<CttsTable>, timescale: Uint32,
                           order: seq<nat>, i: nat)
    requires timescale > 0 && i + 1 < TotalSamples(stts)
    requires IsStableOrder(PtsSecs(stts, ctts, timescale, TotalSamples(stts)), order)
    ensures var durations := Durations(Reordered(PtsUnits(stts, ctts, TotalSamples(stts)), order), timescale);
      durations[i] >= 0.0 <==> Gap(stts, ctts, order, i) <= INT_MAX
  {
    hide PtsUnits, PtsSecs, PtsKey, VectorDeltas, ToInt32;
    var gap := Gap(stts, ctts, order, i);
    KeysInOrder(stts, ctts, timescale, order, i);
    DeltaOfKeys(stts, ctts, order, i);
    ImageIsNonnegative(gap);
    DurationAt(VectorDeltas(Reordered(PtsUnits(stts, ctts, TotalSamples(stts)), order)), timescale, i);
    SecondsCompare(0, ToInt32(gap), timescale);
  }

  predicate AllNonnegative(s: seq<real>) {
    forall i :: 0 <= i < |s| ==> s[i] >= 0.0
  }

  /** In presentation order no duration is negative exactly when there is no gap
      of 2^31 units or more between neighbours. */
  lemma SortedDurationsNonnegative(stts: SttsTable, ctts: Option<CttsTable>, timescale: Uint32,
                                   order: seq<nat>)
    requires timescale > 0
    requires IsStableOrder(PtsSecs(stts, ctts, timescale, TotalSamples(stts)), order)
    ensures AllNonnegative(Durations(Reordered(PtsUnits(stts, ctts, TotalSamples(stts)), order), timescale))
       <==> NoWideGap(stts, ctts, order)
  {
    hide PtsUnits, PtsSecs, PtsKey, Gap, Durations;
    var durations := Durations(Reordered(PtsUnits(stts, ctts, TotalSamples(stts)), order), timescale);
    DurationCount(Reordered(PtsUnits(stts, ctts, TotalSamples(stts)), order), timescale);
    forall i | 0 <= i < |order| - 1
      ensures durations[i] >= 0.0 <==> Gap(stts, ctts, order, i) <= INT_MAX
    {
      SortedDurationSign(stts, ctts, timescale, order, i);
    }
  }

  /** The three samples of 2^31 units, sorted: the last two are 2^31 units apart,
      which reads back as a negative duration. */
  lemma WideGapIsNegative(stts: SttsTable, timescale: Uint32, order: seq<nat>)
    requires stts == [Run(3, TWO_31)] && timescale > 0
    requires IsStableOrder(PtsSecs(stts, None, timescale, TotalSamples(stts)), order)
    ensures !NoWideGap(stts, None, order)
    ensures !AllNonnegative(Durations(Reordered(PtsUnits(stts, None, TotalSamples(stts)), order), timescale))
  {
    hide PtsUnits, PtsSecs, Durations, AllNonnegative;
    ThreeSamples(stts);
    WrappedFrameMoves(stts, timescale, order);
    assert Gap(stts, None, order, 1) == TWO_31;
    SortedDurationsNonnegative(stts, None, timescale, order);
  }

  lemma DurationCount(pts: seq<Int32>, timescale: Uint32)
    requires timescale > 0
    ensures |Durations(pts, timescale)| == if pts == [] then 0 else |pts| - 1
  {
  }

  /** No difference between neighbours leaves the int32 range. */
  predicate NoGapWraps(pts: seq<Int32>) {
    forall i :: 0 <= i < |pts| - 1 ==> FitsInt32(pts[i + 1] as int - pts[i] as int)
  }

  lemma {:induction false} DurationAt(deltas: seq<Int32>, timescale: Uint32, i: nat)
    requires timescale > 0 && i < |deltas|
    ensures DurationSecs(deltas, timescale)[i] == Seconds(deltas[i], timescale)
  {
    if i == |deltas| - 1 {
    } else {
      DurationAt(deltas[..|deltas| - 1], timescale, i);
    }
  }

  /** Sorted frames without such a gap: at most half of the durations are drops,
      the drop ratio is a fraction, and no more drops are counted than there are
      frames. */
  lemma SortedDropBounds(stts: SttsTable, ctts: Option<CttsTable>, timescale: Uint32, order: seq<nat>)
    requires timescale > 0
    requires IsStableOrder(PtsSecs(stts, ctts, timescale, TotalSamples(stts)), order)
    requires NoWideGap(stts, ctts, order)
    ensures var durations := Durations(Reordered(PtsUnits(stts, ctts, TotalSamples(stts)), order), timescale);
      var median := Median(durations);
      var drops := Drops(durations, median);
      var ratio := DropRatio(drops, median, Sum(durations));
      && median >= 0.0
      && 2 * |drops| <= |durations|
      && (Sum(durations) > 0.0 ==>
            && ratio.Finite? && 0.0 <= ratio.v <= 1.0
            && 0 <= DropCount(ratio, TotalSamples(stts)) <= TotalSamples(stts))
  {
    var pts := Reordered(PtsUnits(stts, ctts, TotalSamples(stts)), order);
    hide NoWideGap, PtsUnits, PtsSecs, IsStableOrder;
    SortedDurationsNonnegative(stts, ctts, timescale, order);
    DropBounds(Durations(pts, timescale), TotalSamples(stts));
  }

  // ----- the total duration -----

  lemma SecondsAdd(a: int, b: int, timescale: Uint32)
    requires timescale > 0
    ensures Seconds(a + b, timescale) == Seconds(a, timescale) + Seconds(b, timescale)
  {
  }

  lemma {:induction false} TotalInSeconds(deltas: seq<Int32>, timescale: Uint32)
    requires timescale > 0
    ensures Sum(DurationSecs(deltas, timescale)) == Seconds(SumInts(deltas), timescale)
  {
    if deltas == [] {
    } else {
      var init, last := deltas[..|deltas| - 1], deltas[|deltas| - 1];
      TotalInSeconds(init, timescale);
      SecondsAdd(SumInts(init), last, timescale);
      SumAppend(DurationSecs(init, timescale), [Seconds(last, timescale)]);
      assert [Seconds(last, timescale)][..0] == [];
    }
  }

  /** The exact time from the first to the last frame, in units. */
  function Span(pts: seq<Int32>): int
    requires pts != []
  {
    pts[|pts| - 1] as int - pts[0] as int
  }

  lemma TelescopeStep(sum: int, delta: Int32, previous: Int32, last: Int32, first: Int32)
    requires delta == SubInt32Wraparound(last, previous)
    requires Congruent(sum, previous as int - first as int)
    ensures Congruent(sum + delta, last as int - first as int)
    ensures FitsInt32(last as int - previous as int) ==> delta == last as int - previous as int
  {
    SubInt32WraparoundExact(last, previous);
    CongruentSum(sum, previous as int - first as int, delta, last as int - previous as int);
  }

  lemma SumOfNextDelta(pts: seq<Int32>)
    requires |pts| > 1
    ensures var n := |pts| - 1;
      SumInts(VectorDeltas(pts)) == SumInts(VectorDeltas(pts[..n])) + SubInt32Wraparound(pts[n], pts[n - 1])
  {
    hide SubInt32Wraparound;
    var deltas, n := VectorDeltas(pts), |pts| - 1;
    assert deltas[..|deltas| - 1] == VectorDeltas(pts[..n]);
  }

  lemma {:induction false} DeltasTelescope(pts: seq<Int32>)
    requires pts != []
    ensures Congruent(SumInts(VectorDeltas(pts)), Span(pts))
    ensures NoGapWraps(pts) ==> SumInts(VectorDeltas(pts)) == Span(pts)
  {
    hide SubInt32Wraparound, Congruent, VectorDeltas, SumInts, FitsInt32;
    var n := |pts| - 1;
    if n == 0 {
      SpanOfOne(pts);
    } else {
      var init := pts[..n];
      DeltasTelescope(init);
      SumOfNextDelta(pts);
      TelescopeStep(SumInts(VectorDeltas(init)), SubInt32Wraparound(pts[n], pts[n - 1]), pts[n - 1], pts[n], pts[0]);
      if NoGapWraps(pts) {
        GapsOfPrefix(pts);
        assert FitsInt32(pts[n - 1 + 1] as int - pts[n - 1] as int);
      }
    }
  }

  lemma GapsOfPrefix(pts: seq<Int32>)
    requires |pts| > 1 && NoGapWraps(pts)
    ensures NoGapWraps(pts[..|pts| - 1])
  {
    hide FitsInt32;
    var init := pts[..|pts| - 1];
    forall i | 0 <= i < |init| - 1 ensures FitsInt32(init[i + 1] as int - init[i] as int) {
      assert FitsInt32(pts[i + 1] as int - pts[i] as int);
    }
  }

  lemma SpanOfOne(pts: seq<Int32>)
    requires |pts| == 1
    ensures Congruent(SumInts(VectorDeltas(pts)), Span(pts))
    ensures SumInts(VectorDeltas(pts)) == Span(pts)
  {
  }

  /** Without wrapped gaps the total duration is the time from the first to the
      last frame; in any case it differs from that by a multiple of 2^32 units. */
  lemma TotalDurationTelescopes(pts: seq<Int32>, timescale: Uint32)
    requires timescale > 0 && pts != []
    ensures var units := SumInts(VectorDeltas(pts));
      && Sum(Durations(pts, timescale)) == Seconds(units, timescale)
      && Congruent(units, Span(pts))
      && (NoGapWraps(pts) ==> units == Span(pts))
  {
    hide SubInt32Wraparound, Seconds;
    DeltasTelescope(pts);
    TotalInSeconds(VectorDeltas(pts), timescale);
  }

  // ----- the analysed track -----

  /** Frame by frame: row i of an analysed track is the row of the tables at
      the frame's original number. Units are seconds times the timescale. */
  lemma TrackFrame(t: TimingInformation, stts: SttsTable, ctts: Option<CttsTable>, sortByPts: bool, i: nat)
    requires t.timescaleVideoHz > 0 && t.InOrder(stts, ctts, sortByPts) && i < TotalSamples(stts)
    ensures i < |t.frameNumOrigList| && t.frameNumOrigList[i] < TotalSamples(stts) == t.numVideoFrames
    ensures var f, n, hz := t.frameNumOrigList[i], TotalSamples(stts), t.timescaleVideoHz as real;
      && |t.sttsUnitList| == |t.dtsSecList| == |t.ptsUnitList| == |t.ptsSecList| == n
      && t.sttsUnitList[i] == SttsAt(stts, f)
      && t.dtsSecList[i] * hz == ToUint32(DT(stts, f)) as real
      && (match ctts
          case None =>
            && t.cttsUnitList == []
            && Congruent(t.ptsUnitList[i], DT(stts, f))
            && t.ptsSecList[i] == t.dtsSecList[i]
          case Some(table) =>
            && |t.cttsUnitList| == n && t.cttsUnitList[i] == CttsAt(table, f)
            && Congruent(t.ptsUnitList[i], DT(stts, f) + t.cttsUnitList[i])
            && t.ptsSecList[i] * hz == t.ptsUnitList[i] as real)
  {
    hide SttsUnits, CttsUnits, DtsSecs, PtsUnits, PtsSecs, Seconds, DT, IsStableOrder, SttsAt, CttsAt,
         ToInt32, ToUint32, Congruent;
    var f, n, hz := t.frameNumOrigList[i], TotalSamples(stts), t.timescaleVideoHz;
    SttsUnitsAt(stts, n, f);
    DtsSecsAt(stts, hz, n, f);
    SecondsMeaning(ToUint32(DT(stts, f)), hz);
    PtsUnitsAt(stts, ctts, n, f);
    ToInt32Congruent(CT(stts, ctts, f));
    PtsSecsAt(stts, ctts, hz, n, f);
    if ctts.Some? {
      CttsUnitsAt(ctts.value, n, f);
      SecondsMeaning(t.ptsUnitList[i], hz);
    }
  }

  /** The order of an analysed track: a permutation of its frames that sorts the
      pts and keeps ties in order, or the order of the tables. */
  lemma TrackOrder(t: TimingInformation, stts: SttsTable, ctts: Option<CttsTable>, sortByPts: bool)
    requires t.timescaleVideoHz > 0 && t.InOrder(stts, ctts, sortByPts)
    ensures |t.frameNumOrigList| == |t.ptsSecList| == TotalSamples(stts)
    ensures multiset(t.frameNumOrigList) == multiset(Identity(TotalSamples(stts)))
    ensures sortByPts ==> Sorted(t.ptsSecList)
    ensures sortByPts ==> forall i, j :: 0 <= i < j < |t.ptsSecList| && t.ptsSecList[i] == t.ptsSecList[j] ==>
      t.frameNumOrigList[i] < t.frameNumOrigList[j]
    ensures !sortByPts ==> forall i :: 0 <= i < |t.frameNumOrigList| ==> t.frameNumOrigList[i] == i
  {
    hide SttsUnits, CttsUnits, DtsSecs, PtsUnits, PtsSecs, IsStableOrder;
    var keys, order := PtsSecs(stts, ctts, t.timescaleVideoHz, TotalSamples(stts)), t.frameNumOrigList;
    if sortByPts {
      StableOrderIsPermutation(keys, order);
      StableOrderSorts(keys, order);
    }
  }

  /** Row i of the derived series of an analysed track, by what it undoes. */
  lemma TrackSeries(t: TimingInformation, i: nat)
    requires t.Derived([]) && i + 1 < |t.ptsUnitList|
    ensures |t.ptsDurationSecList| == |t.ptsDurationDeltaSecList| == |t.ptsFramerateList|
         == |t.frameRateFpsList| == |t.ptsUnitList| - 1
    ensures var delta := ToInt32(t.ptsUnitList[i + 1] as int - t.ptsUnitList[i] as int);
      t.ptsDurationSecList[i] * t.timescaleVideoHz as real == delta as real
    ensures t.ptsDurationSecAverage.Finite?
         && t.ptsDurationDeltaSecList[i] + t.ptsDurationSecAverage.v == t.ptsDurationSecList[i]
    ensures var duration := t.ptsDurationSecList[i];
      if duration == 0.0 then t.ptsFramerateList[i] == NaN && t.frameRateFpsList[i] == 0.0
      else
        && t.ptsFramerateList[i].Finite? && t.ptsFramerateList[i].v * duration == 1.0
        && t.frameRateFpsList[i] * duration == 1.0
  {
    hide Median, MedianAbsoluteDeviation, IsStandardDeviation, Average, Durations, DeltasToMean, InstantRates,
         Rates, ToInt32;
    DurationCount(t.ptsUnitList, t.timescaleVideoHz);
    DurationMeaning(t.ptsUnitList, t.timescaleVideoHz, i);
    SeriesMeaning(t.ptsDurationSecList, i);
  }

  lemma DurationMeaning(pts: seq<Int32>, timescale: Uint32, i: nat)
    requires timescale > 0 && i + 1 < |pts|
    ensures i < |Durations(pts, timescale)|
    ensures Durations(pts, timescale)[i] * timescale as real == ToInt32(pts[i + 1] as int - pts[i] as int) as real
  {
    hide Seconds, VectorDeltas, SubInt32Wraparound, ToInt32;
    DeltaAt(pts, i);
    SubInt32WraparoundExact(pts[i + 1], pts[i]);
    DurationAt(VectorDeltas(pts), timescale, i);
    SecondsMeaning(VectorDeltas(pts)[i], timescale);
  }

  lemma SeriesMeaning(durations: seq<real>, i: nat)
    requires i < |durations|
    ensures Average(durations).Finite?
    ensures |DeltasToMean(durations)| == |InstantRates(durations)| == |Rates(durations)| == |durations|
    ensures DeltasToMean(durations)[i] + Average(durations).v == durations[i]
    ensures var duration := durations[i];
      if duration == 0.0 then InstantRates(durations)[i] == NaN && Rates(durations)[i] == 0.0
      else
        && InstantRates(durations)[i].Finite? && InstantRates(durations)[i].v * duration == 1.0
        && Rates(durations)[i] * duration == 1.0
  {
    assert Average(durations) == Finite(Mean(durations));
    assert DeltasToMean(durations)[i] == durations[i] - Mean(durations);
    RatesMeaning(durations, i);
    InstantRateMeaning(durations[i]);
  }

  lemma InstantRateMeaning(duration: real)
    ensures if duration == 0.0 then InstantRate(duration) == NaN
            else InstantRate(duration).Finite? && InstantRate(duration).v * duration == 1.0
  {
  }

  /** The two averages and the reverse average of an analysed track. */
  lemma TrackAverages(t: TimingInformation)
    requires t.Derived([]) && t.ptsDurationSecList != []
    ensures var n := |t.ptsDurationSecList| as real;
      && t.ptsDurationSecAverage.Finite? && t.ptsDurationSecAverage.v * n == Sum(t.ptsDurationSecList)
      && t.frameRateFpsAverage.Finite? && t.frameRateFpsAverage.v * n == Sum(t.frameRateFpsList)
    ensures var average, reverse := t.ptsDurationSecAverage.v, t.frameRateFpsReverseAverage;
      if average == 0.0 then reverse == PosInf else reverse.Finite? && reverse.v * average == 1.0
  {
    hide Median, MedianAbsoluteDeviation, IsStandardDeviation, Sum, Durations, Average, ReverseAverage;
    AverageMeaning(t.ptsDurationSecList);
    AverageMeaning(t.frameRateFpsList);
    ReverseAverageMeaning(t.ptsDurationSecAverage);
  }

  /** Key frames and the audio/video comparison of an analysed track: a freeze is
      more than 21 audio seconds for every 20 video seconds. */
  lemma TrackRatios(t: TimingInformation)
    requires t.Derived([])
    ensures |t.keyframeSampleNumberList| <= INT_MAX ==> t.numVideoKeyframes == |t.keyframeSampleNumberList|
    ensures if t.numVideoKeyframes > 0 then t.keyFrameRatio * t.numVideoKeyframes as real == t.numVideoFrames as real
            else t.keyFrameRatio == 0.0
    ensures var video, audio := t.durationVideoSec, t.durationAudioSec;
      if video >= 2.0 && audio != -1.0 then
        && t.audioVideoRatio * video == audio
        && (t.videoFreeze <==> 20.0 * audio > 21.0 * video)
      else t.audioVideoRatio == -1.0 && !t.videoFreeze
  {
    hide TimingInformation.DurationsDerived, TimingInformation.StatisticsDerived,
         TimingInformation.FrameRatesDerived, TimingInformation.DropsDerived;
  }

  /** The two medians of an analysed track are the means of the two middle
      elements in rank. */
  lemma TrackMedians(t: TimingInformation, lo: real, hi: real, low: real, high: real)
    requires t.Derived([]) && t.ptsDurationSecList != []
    requires var n := |t.ptsDurationSecList|;
      && IsOrderStatistic(t.ptsDurationSecList, (n - 1) / 2, lo)
      && IsOrderStatistic(t.ptsDurationSecList, n / 2, hi)
      && IsOrderStatistic(t.frameRateFpsList, (n - 1) / 2, low)
      && IsOrderStatistic(t.frameRateFpsList, n / 2, high)
    ensures t.ptsDurationSecMedian == (lo + hi) / 2.0 && t.frameRateFpsMedian == (low + high) / 2.0
  {
    hide Median, MedianAbsoluteDeviation, IsStandardDeviation, IsOrderStatistic, Durations;
    MedianIsMidpoint(t.ptsDurationSecList, lo, hi);
    MedianIsMidpoint(t.frameRateFpsList, low, high);
  }

  /** n(n - 1) times x, for n the real number r. */
  function TimesPairs(r: real, x: real): real {
    r * ((r - 1.0) * x)
  }

  /** The two standard deviations of an analysed track, from the squared
      differences of all pairs; 0 for a single duration. */
  lemma TrackSpreads(t: TimingInformation, r: real)
    requires t.Derived([]) && t.ptsDurationSecList != [] && r == |t.ptsDurationSecList| as real
    ensures t.ptsDurationSecStddev >= 0.0 && t.frameRateFpsStddev >= 0.0
    ensures TimesPairs(r, Square(t.ptsDurationSecStddev)) == PairSquares(t.ptsDurationSecList)
    ensures TimesPairs(r, Square(t.frameRateFpsStddev)) == PairSquares(t.frameRateFpsList)
    ensures r == 1.0 ==> t.ptsDurationSecStddev == 0.0 == t.frameRateFpsStddev
  {
    hide Median, MedianAbsoluteDeviation, Variance, Durations, Rates, PairSquares, Square, TimesPairs,
         TimingInformation.DropsDerived, TimingInformation.AudioVideoDerived, TimingInformation.KeyframesDerived;
    SpreadMeaning(t.ptsDurationSecList, r, t.ptsDurationSecStddev);
    SpreadMeaning(t.frameRateFpsList, r, t.frameRateFpsStddev);
  }

  lemma SpreadMeaning(list: seq<real>, r: real, stddev: real)
    requires list != [] && r == |list| as real && IsStandardDeviation(list, stddev)
    ensures stddev >= 0.0 && TimesPairs(r, Square(stddev)) == PairSquares(list)
    ensures r == 1.0 ==> stddev == 0.0
  {
    hide Variance;
    if |list| == 1 {
      NoGapForOne(list);
      ZeroRoot(stddev);
      assert list[..0] == [] && PairSquares(list) == 0.0;
    } else {
      VarianceFromPairs(list, r);
    }
  }

  lemma ZeroRoot(x: real)
    requires Square(x) == 0.0
    ensures x == 0.0
  {
    if x != 0.0 { PositiveSquare(x); }
  }

  /** The MAD of an analysed track is the mean of the two middle distances in
      rank from its median, and at most any distance that covers a majority. */
  lemma TrackMad(t: TimingInformation, lo: real, hi: real, s: real)
    requires t.Derived([]) && t.ptsDurationSecList != []
    requires var durations := t.ptsDurationSecList;
      && IsDistanceStatistic(durations, t.ptsDurationSecMedian, (|durations| - 1) / 2, lo)
      && IsDistanceStatistic(durations, t.ptsDurationSecMedian, |durations| / 2, hi)
    ensures t.ptsDurationSecMad == (lo + hi) / 2.0
    ensures var durations, median := t.ptsDurationSecList, t.ptsDurationSecMedian;
      2 * CountIn(durations, median - s, median + s) > |durations| ==> t.ptsDurationSecMad <= s
  {
    hide Median, MedianAbsoluteDeviation, IsStandardDeviation, IsDistanceStatistic, CountIn, Durations;
    var durations, median := t.ptsDurationSecList, t.ptsDurationSecMedian;
    MadIsMidpoint(durations, lo, hi);
    if 2 * CountIn(durations, median - s, median + s) > |durations| { MadBelowMajorityDistance(durations, s); }
  }

  /** The drops of an analysed track are its durations above 1.5 medians, in the
      order of the frames. */
  lemma TrackDropPositions(t: TimingInformation) returns (positions: seq<nat>)
    requires t.Derived([])
    ensures ListsAt(t.frameDropLengthSecList, t.ptsDurationSecList, positions)
    ensures forall i: nat :: i < |t.ptsDurationSecList| ==>
      (i in positions <==> t.ptsDurationSecList[i] > 1.5 * t.ptsDurationSecMedian)
  {
    hide Median, Drops, DropRatio, DropCount, NormalizedDropLength, Durations, ListsAt;
    assert t.frameDropLengthSecList == Drops(t.ptsDurationSecList, t.ptsDurationSecMedian);
    positions := DropsInOrder(t.ptsDurationSecList, t.ptsDurationSecMedian);
  }

  /** The figures about the drops of an analysed track: the ratio of their extra
      time, the count, which is ratio times frames taken toward zero, and their
      mean length in medians. */
  lemma TrackDropFigures(t: TimingInformation)
    requires t.Derived([])
    ensures var extra, total := ExtraTime(t.frameDropLengthSecList, t.ptsDurationSecMedian), Sum(t.ptsDurationSecList);
      if total != 0.0 then t.frameDropRatio.Finite? && t.frameDropRatio.v * total == extra
      else t.frameDropRatio == if extra > 0.0 then PosInf else if extra < 0.0 then NegInf else NaN
    ensures match t.frameDropRatio
      case Finite(ratio) =>
        var x, count := ratio * t.numVideoFrames as real, t.frameDropCount as real;
        if INT_MIN as real < x < INT_MAX as real then
          && (x >= 0.0 ==> count <= x < count + 1.0)
          && (x < 0.0 ==> count - 1.0 < x <= count)
        else t.frameDropCount == 0
      case _ => t.frameDropCount == 0
    ensures var drops, median, length := t.frameDropLengthSecList, t.ptsDurationSecMedian,
                                         t.normalizedFrameDropAverageLength;
      && (drops == [] ==> length == Finite(0.0))
      && (drops != [] && median != 0.0 ==>
            length.Finite? && (length.v * median) * |drops| as real == Sum(drops))
      && (drops != [] && median == 0.0 ==> length == PosInf)
  {
    hide TimingInformation.DurationsDerived, TimingInformation.StatisticsDerived,
         TimingInformation.KeyframesDerived, TimingInformation.AudioVideoDerived,
         TimingInformation.FrameRatesDerived, Drops, DropRatio, DropCount, NormalizedDropLength, ExtraTime, Sum;
    var durations, median := t.ptsDurationSecList, t.ptsDurationSecMedian;
    assert t.frameDropLengthSecList == Drops(durations, median);
    DropRatioMeaning(t.frameDropLengthSecList, median, Sum(durations));
    DropCountMeaning(t.frameDropRatio, t.numVideoFrames);
    NormalizedLengthMeaning(durations, median);
  }

  /** A track of at most one frame has no durations, and no figures from them. */
  lemma TrackWithoutDurations(t: TimingInformation)
    requires t.Derived([]) && |t.ptsUnitList| <= 1
    ensures t.ptsDurationSecList == [] && t.frameDropLengthSecList == [] && t.frameRateFpsList == []
    ensures t.ptsDurationSecAverage == NaN && t.frameRateFpsAverage == NaN && t.frameRateFpsReverseAverage == NaN
    ensures t.ptsDurationSecMedian == 0.0 && t.frameRateFpsMedian == 0.0 && t.ptsDurationSecMad == 0.0
    ensures t.ptsDurationSecStddev == 0.0 && t.frameRateFpsStddev == 0.0
    ensures t.frameDropRatio == NaN && t.frameDropCount == 0
    ensures t.normalizedFrameDropAverageLength == Finite(0.0)
  {
    hide Median, MedianAbsoluteDeviation, Average, Variance, Sort;
    DurationCount(t.ptsUnitList, t.timescaleVideoHz);
    assert t.ptsDurationSecList == [] && Rates([]) == [];
    StatisticsOfNothing();
    StandardDeviationIsUnique([], t.ptsDurationSecStddev, 0.0);
    StandardDeviationIsUnique([], t.frameRateFpsStddev, 0.0);
  }

  /** An analysed track, sorted, without a gap of 2^31 units: that is exactly
      when no duration is negative. Times in range leave no such gap. */
  lemma TrackDropBounds(t: TimingInformation, stts: SttsTable, ctts: Option<CttsTable>)
    requires t.timescaleVideoHz > 0 && t.InOrder(stts, ctts, true) && t.Derived([])
    ensures AllNonnegative(t.ptsDurationSecList) <==> NoWideGap(stts, ctts, t.frameNumOrigList)
    ensures TimesInRange(stts, ctts) ==> NoWideGap(stts, ctts, t.frameNumOrigList)
    ensures NoWideGap(stts, ctts, t.frameNumOrigList) ==>
      && 2 * |t.frameDropLengthSecList| <= |t.ptsDurationSecList|
      && (Sum(t.ptsDurationSecList) > 0.0 ==>
            && t.frameDropRatio.Finite? && 0.0 <= t.frameDropRatio.v <= 1.0
            && 0 <= t.frameDropCount <= t.numVideoFrames)
      && (SummariesAreDual(t.frameDropLengthSecList, t.ptsDurationSecMedian)
          <==> t.frameDropLengthSecList != [])
      && PercentilesNondecreasing(t.frameDropLengthSecList, t.ptsDurationSecMedian)
  {
    hide Median, Drops, DropRatio, DropCount, Sum, Durations, TimesInRange, NoWideGap, IsStableOrder,
         SummariesAreDual, PercentilesNondecreasing, InOneBand, AllEqual, AllNonnegative;
    var durations, median := t.ptsDurationSecList, t.ptsDurationSecMedian;
    assert t.frameDropLengthSecList == Drops(durations, median);
    SortedDurationsNonnegative(stts, ctts, t.timescaleVideoHz, t.frameNumOrigList);
    if TimesInRange(stts, ctts) { InRangeHasNoWideGap(stts, ctts, t.frameNumOrigList); }
    if NoWideGap(stts, ctts, t.frameNumOrigList) {
      SortedDropBounds(stts, ctts, t.timescaleVideoHz, t.frameNumOrigList);
      DualExactly(durations, median);
      PercentilesNondecreasingExactly(durations, median);
    }
  }

  /** The drops of any analysed track, sorted or not: on which side of one half
      they are, when the two summaries of them are dual and the percentiles do
      not decrease, and that ratio and normalized length account for the same
      time. */
  lemma TrackDrops(t: TimingInformation)
    requires t.Derived([])
    ensures var drops, median := t.frameDropLengthSecList, t.ptsDurationSecMedian;
      && (median >= 0.0 ==> 2 * |drops| <= |t.ptsDurationSecList| && Measurable(drops, median))
      && (median < 0.0 ==> 2 * |drops| >= |t.ptsDurationSecList|)
      && (SummariesAreDual(drops, median) <==> drops != [] && (median >= 0.0 || InOneBand(drops, median)))
      && (PercentilesNondecreasing(drops, median) <==> median >= 0.0 || AllEqual(drops))
    ensures var drops, median, total := t.frameDropLengthSecList, t.ptsDurationSecMedian, Sum(t.ptsDurationSecList);
      var ratio, length := t.frameDropRatio, t.normalizedFrameDropAverageLength;
      median != 0.0 && drops != [] ==>
        && length.Finite? && (length.v > 1.5 <==> median > 0.0)
        && (total != 0.0 ==>
              && ratio.Finite?
              && ratio.v * total == |drops| as real * median * (length.v - 1.0))
  {
    hide Median, Drops, DropRatio, DropCount, NormalizedDropLength, Sum, Durations, SummariesAreDual,
         PercentilesNondecreasing, InOneBand, AllEqual, Measurable;
    var durations, median := t.ptsDurationSecList, t.ptsDurationSecMedian;
    assert t.frameDropLengthSecList == Drops(durations, median);
    DropsAndHalf(durations);
    DualExactly(durations, median);
    PercentilesNondecreasingExactly(durations, median);
    if median >= 0.0 { DropsAreMeasurable(durations, median); }
    if median != 0.0 && t.frameDropLengthSecList != [] { DropAccounting(durations, median); }
  }

  /** An unsorted track of four frames at 4, 2, 0 and 0, whose median duration is
      negative and whose drops lie in two bands: the summaries are not dual, and
      the percentiles fall. */
  lemma UnsortedTrackIsNotDual(t: TimingInformation, stts: SttsTable, ctts: CttsTable)
    requires stts == [Run(4, 0)] && ctts == [Run(1, 4), Run(1, 2), Run(2, 0)]
    requires t.timescaleVideoHz == 1 && t.InOrder(stts, Some(ctts), false) && t.Derived([])
    ensures t.ptsUnitList == [4, 2, 0, 0]
    ensures t.ptsDurationSecList == t.frameDropLengthSecList == [-2.0, -2.0, 0.0]
    ensures t.ptsDurationSecMedian == -2.0
    ensures !SummariesAreDual(t.frameDropLengthSecList, t.ptsDurationSecMedian)
    ensures !PercentilesInOrder(t.frameDropLengthSecList, t.ptsDurationSecMedian, 0.0, 90.0)
  {
    hide SummariesAreDual, PercentilesInOrder, PercentilesNondecreasing, TimingInformation.Derived,
         TimingInformation.InOrder;
    UnsortedTrackDrops(t, stts, ctts);
    DualityFailsBelowZero(t.ptsDurationSecList);
    PercentilesFallBelowZero(t.ptsDurationSecList);
  }

  lemma UnsortedTrackDrops(t: TimingInformation, stts: SttsTable, ctts: CttsTable)
    requires stts == [Run(4, 0)] && ctts == [Run(1, 4), Run(1, 2), Run(2, 0)]
    requires t.timescaleVideoHz == 1 && t.InOrder(stts, Some(ctts), false) && t.Derived([])
    ensures t.ptsUnitList == [4, 2, 0, 0]
    ensures t.ptsDurationSecList == t.frameDropLengthSecList == [-2.0, -2.0, 0.0]
    ensures t.ptsDurationSecMedian == -2.0
  {
    hide Median, Drops, DropRatio, DropCount, NormalizedDropLength, Sum, Durations, PtsUnits;
    FourFrames(stts, ctts);
    ReorderedByIdentity(PtsUnits(stts, Some(ctts), 4));
    FourFramesDurations(t.ptsUnitList);
    DualityFailsBelowZero(t.ptsDurationSecList);
  }

  lemma FourFrames(stts: SttsTable, ctts: CttsTable)
    requires stts == [Run(4, 0)] && ctts == [Run(1, 4), Run(1, 2), Run(2, 0)]
    ensures TotalSamples(stts) == 4 && PtsUnits(stts, Some(ctts), 4) == [4, 2, 0, 0]
  {
    hide PtsUnits, EntryAt;
    assert stts[..0] == [] && ctts[..0] == [];
    assert ctts[..1] == [Run(1, 4)] && ctts[..2] == [Run(1, 4), Run(1, 2)];
    assert ctts[..1][..0] == [] && ctts[..2][..1] == ctts[..1];
    OffsetInRun(ctts, 0, 0);
    OffsetInRun(ctts, 1, 0);
    OffsetInRun(ctts, 2, 0);
    OffsetInRun(ctts, 2, 1);
    forall i: nat | i < 4 ensures DT(stts, i) == 0 { ZeroDT(stts, i); }
    forall i: nat | i < 4 ensures PtsUnits(stts, Some(ctts), 4)[i] == CttsAt(ctts, i) {
      PtsUnitsAt(stts, Some(ctts), 4, i);
    }
  }

  lemma {:induction false} ZeroDT(stts: SttsTable, i: nat)
    requires stts == [Run(4, 0)] && i <= TotalSamples(stts)
    ensures DT(stts, i) == 0
  {
    if i == 0 {
    } else {
      ZeroDT(stts, i - 1);
      assert stts[..0] == [];
      EntryInRun(stts, 0, i - 1);
    }
  }

  lemma FourFramesDurations(pts: seq<Int32>)
    requires pts == [4, 2, 0, 0]
    ensures Durations(pts, 1) == [-2.0, -2.0, 0.0]
  {
    DeltaAt(pts, 0);
    DeltaAt(pts, 1);
    DeltaAt(pts, 2);
    DurationAt(VectorDeltas(pts), 1, 0);
    DurationAt(VectorDeltas(pts), 1, 1);
    DurationAt(VectorDeltas(pts), 1, 2);
  }

  /** The statistics of any analysed track with two frames or more. */
  lemma TrackStatistics(t: TimingInformation)
    requires t.Derived([]) && t.ptsDurationSecList != []
    ensures t.ptsDurationSecAverage.Finite?
    ensures Abs(t.ptsDurationSecAverage.v - t.ptsDurationSecMedian) <= t.ptsDurationSecStddev
    ensures t.ptsDurationSecMad >= 0.0
    ensures var median, mad := t.ptsDurationSecMedian, t.ptsDurationSecMad;
      2 * CountIn(t.ptsDurationSecList, median - mad, median + mad) >= |t.ptsDurationSecList|
    ensures AllPositive(t.ptsDurationSecList) ==>
      && t.frameRateFpsAverage.Finite? && t.frameRateFpsReverseAverage.Finite?
      && t.frameRateFpsAverage.v >= t.frameRateFpsReverseAverage.v
      && (t.frameRateFpsAverage.v == t.frameRateFpsReverseAverage.v
          <==> AllEqualTo(t.ptsDurationSecList, t.ptsDurationSecAverage.v))
      && t.ptsDurationSecMedian > 0.0
      && t.frameRateFpsMedian >= 1.0 / t.ptsDurationSecMedian
      && var up, n := Sort(t.ptsDurationSecList), |t.ptsDurationSecList|;
         (t.frameRateFpsMedian == 1.0 / t.ptsDurationSecMedian <==> up[(n - 1) / 2] == up[n / 2])
  {
    hide Median, IsStandardDeviation, MedianAbsoluteDeviation, Rates, ReverseAverage, Sum, Durations,
         Square, AllPositive, AllEqualTo, CountIn, Sort;
    var durations := t.ptsDurationSecList;
    MeanMedianWithinStddev(durations);
    MadCoversHalf(durations);
    if AllPositive(durations) {
      AverageRateAboveReverseAverage(durations);
      MedianRateAboveMedianReciprocal(durations);
    }
  }
}
