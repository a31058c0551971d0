/** The per-frame timing lists of the video track: filled from the sample
    tables, optionally sorted by presentation time, and summarised. */
module Timing {
  import opened MachineInts
  import opened Doubles
  import opened Reals
  import opened Sorting
  import opened Deltas
  import opened SampleTables
  import opened Statistics
  import opened FrameRates
  import opened FrameDrops
  import opened Wrappers

  lemma {:induction false} TotalFitsInUint64(stts: seq<Run<Uint32>>)
    ensures TotalSamples(stts) <= |stts| * (TWO_32 - 1)
  {
    if stts == [] {
    } else {
      TotalFitsInUint64(stts[..|stts| - 1]);
    }
  }

  /** The sample total, accumulated as a uint64_t. */
  method TotalSampleCount(stts: SttsTable) returns (total: int)
    ensures total == TotalSamples(stts)
  {
    total := 0;
    for i := 0 to |stts|
      invariant total == TotalSamples(stts[..i])
    {
      assert stts[..i + 1][..i] == stts[..i];
      TotalFitsInUint64(stts[..i + 1]);
      total := (total + stts[i].count) % TWO_64;
    }
    assert stts[..|stts|] == stts;
  }

  lemma AddCount(numFrames: Int32, count: Uint32)
    requires 0 <= numFrames && numFrames + count <= INT_MAX
    ensures ToInt32(ToUint32(numFrames) + count) == numFrames + count
  {
  }

  /** One more sample extends each list by its value at that sample. */
  lemma NextSample(stts: SttsTable, timescale: Uint32, n: nat, dts: Uint32)
    requires timescale > 0 && n < TotalSamples(stts)
    requires dts == ToUint32(ToUint32(DT(stts, n)) + SttsAt(stts, n))
    ensures dts == ToUint32(DT(stts, n + 1))
    ensures SttsUnits(stts, n + 1) == SttsUnits(stts, n) + [SttsAt(stts, n)]
    ensures DtsSecs(stts, timescale, n + 2) == DtsSecs(stts, timescale, n + 1) + [Seconds(dts, timescale)]
    ensures PtsUnits(stts, None, n + 2) == PtsUnits(stts, None, n + 1) + [ToInt32(dts)]
  {
    NextDts(stts, n);
    ToInt32OfToUint32(DT(stts, n + 1));
    NextPts(stts, n + 1);
  }

  lemma NextDts(stts: SttsTable, n: nat)
    requires n < TotalSamples(stts)
    ensures ToUint32(ToUint32(DT(stts, n)) + SttsAt(stts, n)) == ToUint32(DT(stts, n + 1))
  {
  }

  lemma NextPts(stts: SttsTable, n: nat)
    requires n <= TotalSamples(stts)
    ensures PtsUnits(stts, None, n + 1) == PtsUnits(stts, None, n) + [ToInt32(DT(stts, n))]
  {
  }

  lemma FirstSample(stts: SttsTable, timescale: Uint32)
    requires timescale > 0
    ensures SttsUnits(stts, 0) == []
    ensures DtsSecs(stts, timescale, 1) == [0.0] && PtsUnits(stts, None, 1) == [0]
  {
  }

  lemma DropNextFrame(stts: SttsTable, timescale: Uint32, n: nat)
    requires timescale > 0 && n <= TotalSamples(stts)
    ensures DtsSecs(stts, timescale, n + 1)[..n] == DtsSecs(stts, timescale, n)
    ensures PtsUnits(stts, None, n + 1)[..n] == PtsUnits(stts, None, n)
  {
  }

  /** A list whose first elements have been rewritten in place. */
  function Rewritten<T>(done: seq<T>, all: seq<T>): seq<T>
    requires |done| <= |all|
  {
    done + all[|done|..]
  }

  lemma RewriteNext<T>(done: seq<T>, all: seq<T>, x: T)
    requires |done| < |all|
    ensures Rewritten(done, all)[|done|] == all[|done|]
    ensures Rewritten(done, all)[|done| := x] == Rewritten(done + [x], all)
  {
  }

  /** The wrapped sum of the stored dts and the offset is the int32 image of the
      composition time. */
  lemma AdjustedPts(stts: SttsTable, ctts: CttsTable, n: nat, i: nat)
    requires i < n <= TotalSamples(stts)
    ensures AddInt32Wraparound(PtsUnits(stts, None, n)[i], CttsAt(ctts, i))
         == ToInt32(CT(stts, Some(ctts), i))
  {
    var offset := CttsAt(ctts, i);
    PtsUnitsAt(stts, None, n, i);
    AddInt32WraparoundExact(ToInt32(DT(stts, i)), offset);
    ToInt32Congruent(DT(stts, i));
    CongruentSum(ToInt32(DT(stts, i)), DT(stts, i), offset, offset);
    CongruentToInt32(ToInt32(DT(stts, i)) + offset, DT(stts, i) + offset);
  }

  // ----- the derived lists -----

  function DurationSecs(deltas: seq<Int32>, timescale: Uint32): (secs: seq<real>)
    requires timescale > 0
    ensures |secs| == |deltas|
  {
    if deltas == [] then []
    else DurationSecs(deltas[..|deltas| - 1], timescale) + [Seconds(deltas[|deltas| - 1], timescale)]
  }

  /** The inter-frame distances of a list of presentation times. */
  function Durations(ptsUnits: seq<Int32>, timescale: Uint32): seq<real>
    requires timescale > 0
  {
    DurationSecs(VectorDeltas(ptsUnits), timescale)
  }

  /** The instantaneous frame rate, NaN for a duration of 0. */
  function InstantRate(duration: real): Double {
    if duration == 0.0 then NaN else Finite(1.0 / duration)
  }

  function InstantRates(durations: seq<real>): seq<Double> {
    seq(|durations|, i requires 0 <= i < |durations| => InstantRate(durations[i]))
  }

  function DeltasToMean(durations: seq<real>): seq<real> {
    seq(|durations|, i requires 0 <= i < |durations| => durations[i] - Mean(durations))
  }

  lemma UpdateNext<T>(list: seq<T>, i: nat, x: T)
    requires i < |list|
    ensures list[i := x][..i + 1] == list[..i] + [x]
  {
  }

  /** Step 3.1: the inter-frame distances, in seconds. */
  method DurationsInSeconds(ptsUnits: seq<Int32>, timescale: Uint32) returns (secs: seq<real>)
    requires timescale > 0
    ensures secs == Durations(ptsUnits, timescale)
  {
    var deltas := CalculateVectorDeltas(ptsUnits);
    secs := seq(|deltas|, _ => 0.0);
    for i := 0 to |deltas|
      invariant |secs| == |deltas|
      invariant secs[..i] == DurationSecs(deltas[..i], timescale)
    {
      assert deltas[..i + 1][..i] == deltas[..i];
      UpdateNext(secs, i, Seconds(deltas[i], timescale));
      secs := secs[i := Seconds(deltas[i], timescale)];
    }
    assert deltas[..|deltas|] == deltas && secs[..|deltas|] == secs;
  }

  /** Steps 7 and 8: the durations above the threshold. */
  method SelectDrops(durations: seq<real>, median: real) returns (drops: seq<real>)
    ensures drops == Drops(durations, median)
  {
    var threshold := median * 0.75 * 2.0;
    drops := [];
    for i := 0 to |durations|
      invariant drops == Drops(durations[..i], median)
    {
      assert durations[..i + 1][..i] == durations[..i];
      if durations[i] > threshold {
        drops := drops + [durations[i]];
      }
    }
    assert durations[..|durations|] == durations;
  }

  /** Steps 9 to 12: the ratio, count and normalized length of the drops. */
  method SummariseDrops(drops: seq<real>, durations: seq<real>, median: real, numFrames: int)
    returns (ratio: Double, count: int, normalizedLength: Double)
    ensures ratio == DropRatio(drops, median, Sum(durations))
    ensures count == DropCount(ratio, numFrames)
    ensures normalizedLength == NormalizedDropLength(drops, median)
  {
    var dropLengths := Accumulate(drops);
    var dropLengthDuration := dropLengths - median * |drops| as real;
    var totalDuration := Accumulate(durations);
    ratio := Quotient(dropLengthDuration, totalDuration);
    count := 0;
    if ratio.Finite? {
      var frameDropCount := ratio.v * numFrames as real;
      if INT_MIN as real < frameDropCount < INT_MAX as real {
        count := Truncate(frameDropCount);
      }
    }
    normalizedLength := Finite(0.0);
    if |drops| > 0 {
      normalizedLength := Quotient(dropLengths / |drops| as real, median);
    }
  }

  /** The loop that fills pts_duration_delta_sec_list. */
  method FillDurationDeltas(durations: seq<real>, average: Double) returns (deltas: seq<real>)
    requires average == Average(durations)
    ensures deltas == DeltasToMean(durations)
  {
    assert durations != [] ==> average == Finite(Mean(durations));
    deltas := seq(|durations|, _ => 0.0);
    for i := 0 to |durations|
      invariant |deltas| == |durations|
      invariant forall k :: 0 <= k < i ==> deltas[k] == durations[k] - average.v
    {
      deltas := deltas[i := durations[i] - average.v];
    }
  }

  /** The loop that fills pts_framerate_list. */
  method FillInstantRates(durations: seq<real>) returns (rates: seq<Double>)
    ensures rates == InstantRates(durations)
  {
    rates := seq(|durations|, _ => NaN);
    for i := 0 to |durations|
      invariant |rates| == |durations|
      invariant forall k :: 0 <= k < i ==> rates[k] == InstantRate(durations[k])
    {
      rates := rates[i := if durations[i] == 0.0 then NaN else Finite(1.0 / durations[i])];
    }
  }

  /** The std::transform that fills frame_rate_fps_list. */
  method TransformToRates(durations: seq<real>) returns (rates: seq<real>)
    ensures rates == Rates(durations)
  {
    rates := seq(|durations|, _ => 0.0);
    for i := 0 to |durations|
      invariant |rates| == |durations|
      invariant forall k :: 0 <= k < i ==> rates[k] == Rate(durations[k])
    {
      rates := rates[i := if durations[i] != 0.0 then 1.0 / durations[i] else 0.0];
    }
  }

  /** More audio than this, relative to the video, counts as a freeze. */
  const MAX_AUDIO_VIDEO_RATIO := 1.05

  lemma RatioExceeds(x: real, y: real, limit: real)
    requires y > 0.0
    ensures (x / y) * y == x
    ensures x / y > limit <==> x > limit * y
  {
    var q := x / y;
    assert q * y == x;
    if q > limit {
      PositiveProduct(q - limit, y);
    } else {
      NonnegativeProduct(limit - q, y);
    }
  }

  /** A list reordered so that element i becomes element order[i]. */
  function Reordered<T>(list: seq<T>, order: seq<nat>): (result: seq<T>)
    requires Indices(order, |list|)
    ensures |result| == |order|
  {
    seq(|order|, i requires 0 <= i < |order| => list[order[i]])
  }

  /** An empty list needs no reordering; any other must have one entry per frame. */
  predicate Fits<T>(list: seq<T>, order: seq<nat>) {
    list == [] || |list| == |order|
  }

  function ReorderedIf<T>(reached: bool, list: seq<T>, order: seq<nat>): seq<T>
    requires Indices(order, |order|)
  {
    if !reached || list == [] || |list| != |order| then list else Reordered(list, order)
  }

  /** reorder_by_index: the new list, and -1 when the sizes do not match. */
  method ReorderByIndex<T>(list: seq<T>, order: seq<nat>) returns (result: seq<T>, ret: int)
    requires Indices(order, |order|)
    ensures result == ReorderedIf(true, list, order)
    ensures ret == if Fits(list, order) then 0 else -1
    ensures list == [] ==> result == [] && ret == 0
    ensures list != [] && |list| != |order| ==> result == list && ret == -1
    ensures |list| == |order| ==>
      ret == 0 && |result| == |list| && forall i :: 0 <= i < |list| ==> result[i] == list[order[i]]
  {
    if list == [] {
      return list, 0;
    }
    if |list| != |order| {
      return list, -1;
    }
    var listAlt := list;
    for i := 0 to |order|
      invariant |listAlt| == |list|
      invariant forall k :: 0 <= k < i ==> listAlt[k] == list[order[k]]
    {
      listAlt := listAlt[i := list[order[i]]];
    }
    assert listAlt == Reordered(list, order);
    result, ret := listAlt, 0;
  }

  class TimingInformation {
    var numVideoFrames: Int32
    var timescaleVideoHz: Uint32
    var frameNumOrigList: seq<nat>
    var sttsUnitList: seq<Uint32>
    var cttsUnitList: seq<Int32>
    var dtsSecList: seq<real>
    var ptsUnitList: seq<Int32>
    var ptsSecList: seq<real>
    var keyframeSampleNumberList: seq<Uint32>
    var numVideoKeyframes: Int32
    var keyFrameRatio: real
    var durationVideoSec: real
    var durationAudioSec: real
    var audioVideoRatio: real
    var videoFreeze: bool
    var ptsDurationSecList: seq<real>
    var ptsDurationDeltaSecList: seq<real>
    var ptsFramerateList: seq<Double>
    var ptsDurationSecAverage: Double
    var ptsDurationSecMedian: real
    var ptsDurationSecStddev: real
    var ptsDurationSecMad: real
    var frameRateFpsList: seq<real>
    var frameRateFpsMedian: real
    var frameRateFpsAverage: Double
    var frameRateFpsReverseAverage: Double
    var frameRateFpsStddev: real
    var frameDropLengthSecList: seq<real>
    var frameDropCount: int
    var frameDropRatio: Double
    var normalizedFrameDropAverageLength: Double

    /** The lists as they stand before the tables are read: the first frame is
        at time 0. */
    ghost predicate Initialised()
      reads this
    {
      && numVideoFrames == 0
      && sttsUnitList == [] && cttsUnitList == []
      && dtsSecList == [0.0] && ptsUnitList == [0] && ptsSecList == [0.0]
    }

    /** The durations are those of the boxes, or -1.0 where there is none. */
    constructor (videoSec: real, audioSec: real)
      ensures frameDropLengthSecList == []
      ensures durationVideoSec == videoSec && durationAudioSec == audioSec
    {
      frameDropLengthSecList := [];
      durationVideoSec, durationAudioSec := videoSec, audioSec;
    }

    method InitTimingInformation(timescaleTrackHz: Uint32)
      modifies this`numVideoFrames, this`timescaleVideoHz, this`sttsUnitList, this`cttsUnitList,
               this`dtsSecList, this`ptsUnitList, this`ptsSecList
      ensures Initialised() && timescaleVideoHz == timescaleTrackHz
    {
      timescaleVideoHz := timescaleTrackHz;
      numVideoFrames := 0;
      dtsSecList, ptsUnitList, ptsSecList := [], [], [];
      sttsUnitList, cttsUnitList := [], [];
      dtsSecList := dtsSecList + [0.0];
      ptsUnitList := ptsUnitList + [0];
      ptsSecList := ptsSecList + [0.0];
    }

    /** The lists describe the first n samples, and the dts and pts lists also
        have the start of the next frame. */
    ghost predicate Holds(stts: SttsTable, timescale: Uint32, n: nat)
      requires timescale > 0
      reads this
    {
      && n <= TotalSamples(stts)
      && sttsUnitList == SttsUnits(stts, n)
      && dtsSecList == ptsSecList == DtsSecs(stts, timescale, n + 1)
      && ptsUnitList == PtsUnits(stts, None, n + 1)
    }

    /** The inner loop over the samples of one stts entry. */
    method RunSttsEntry(stts: SttsTable, i: nat, lastDts: Uint32, timescaleTrackHz: Uint32)
      returns (lastDtsUnit: Uint32)
      requires i < |stts| && timescaleTrackHz > 0
      requires TotalSamples(stts[..i]) + stts[i].count <= TotalSamples(stts)
      requires Holds(stts, timescaleTrackHz, TotalSamples(stts[..i]))
      requires lastDts == ToUint32(DT(stts, TotalSamples(stts[..i])))
      modifies this`sttsUnitList, this`dtsSecList, this`ptsUnitList, this`ptsSecList
      ensures Holds(stts, timescaleTrackHz, TotalSamples(stts[..i]) + stts[i].count)
      ensures lastDtsUnit == ToUint32(DT(stts, TotalSamples(stts[..i]) + stts[i].count))
    {
      var sampleCount, sampleOffset := stts[i].count, stts[i].value;
      ghost var start := TotalSamples(stts[..i]);
      lastDtsUnit := lastDts;
      for sample := 0 to sampleCount
        invariant Holds(stts, timescaleTrackHz, start + sample)
        invariant lastDtsUnit == ToUint32(DT(stts, start + sample))
      {
        EntryInRun(stts, i, sample);
        sttsUnitList := sttsUnitList + [sampleOffset];
        var dtsUnit := ToUint32(lastDtsUnit + sampleOffset);
        NextSample(stts, timescaleTrackHz, start + sample, dtsUnit);
        var dtsSec := Seconds(dtsUnit, timescaleTrackHz);
        dtsSecList := dtsSecList + [dtsSec];
        ptsUnitList := ptsUnitList + [ToInt32(dtsUnit)];
        ptsSecList := ptsSecList + [dtsSec];
        lastDtsUnit := dtsUnit;
      }
    }

    /** Step 2.2: expand the stts table into the stts, dts and pts lists. */
    method RunSttsTable(stts: SttsTable, timescaleTrackHz: Uint32)
      requires Initialised() && timescaleTrackHz > 0 && TotalSamples(stts) <= INT_MAX
      modifies this`numVideoFrames, this`sttsUnitList, this`dtsSecList, this`ptsUnitList, this`ptsSecList
      ensures numVideoFrames == TotalSamples(stts)
      ensures var n := TotalSamples(stts);
              && sttsUnitList == SttsUnits(stts, n)
              && dtsSecList == ptsSecList == DtsSecs(stts, timescaleTrackHz, n)
              && ptsUnitList == PtsUnits(stts, None, n)
    {
      var lastDtsUnit: Uint32 := 0;
      FirstSample(stts, timescaleTrackHz);
      for i := 0 to |stts|
        invariant numVideoFrames == TotalSamples(stts[..i])
        invariant Holds(stts, timescaleTrackHz, TotalSamples(stts[..i]))
        invariant lastDtsUnit == ToUint32(DT(stts, TotalSamples(stts[..i])))
      {
        TotalOfNextPrefix(stts, i);
        AddCount(numVideoFrames, stts[i].count);
        numVideoFrames := ToInt32(ToUint32(numVideoFrames) + stts[i].count);
        lastDtsUnit := RunSttsEntry(stts, i, lastDtsUnit, timescaleTrackHz);
      }
      assert stts[..|stts|] == stts;
      DropNextFrame(stts, timescaleTrackHz, TotalSamples(stts));
      // the last elements point at the start of the next frame, which does not exist
      dtsSecList := dtsSecList[..|dtsSecList| - 1];
      ptsUnitList := ptsUnitList[..|ptsUnitList| - 1];
      ptsSecList := ptsSecList[..|ptsSecList| - 1];
    }

    /** The first `cur` of n frames have their composition offset applied. */
    ghost predicate Adjusted(stts: SttsTable, ctts: CttsTable, timescale: Uint32, cur: nat)
      requires timescale > 0
      reads this
    {
      var n := TotalSamples(stts);
      && cur <= n
      && cttsUnitList == CttsUnits(ctts, cur)
      && ptsUnitList == Rewritten(PtsUnits(stts, Some(ctts), cur), PtsUnits(stts, None, n))
      && ptsSecList == Rewritten(PtsSecs(stts, Some(ctts), timescale, cur), DtsSecs(stts, timescale, n))
    }

    /** The statements that both ctts loops run for one frame. */
    method AdjustFrame(ghost stts: SttsTable, ghost ctts: CttsTable, timescaleTrackHz: Uint32,
                       curVideoFrame: nat, sampleOffset: Int32)
      requires timescaleTrackHz > 0 && curVideoFrame < TotalSamples(stts)
      requires Adjusted(stts, ctts, timescaleTrackHz, curVideoFrame)
      requires sampleOffset == CttsAt(ctts, curVideoFrame)
      modifies this`cttsUnitList, this`ptsUnitList, this`ptsSecList
      ensures Adjusted(stts, ctts, timescaleTrackHz, curVideoFrame + 1)
    {
      ghost var n := TotalSamples(stts);
      AdjustedPts(stts, ctts, n, curVideoFrame);
      ghost var pts := ToInt32(CT(stts, Some(ctts), curVideoFrame));
      RewriteNext(PtsUnits(stts, Some(ctts), curVideoFrame), PtsUnits(stts, None, n), pts);
      RewriteNext(PtsSecs(stts, Some(ctts), timescaleTrackHz, curVideoFrame),
                  DtsSecs(stts, timescaleTrackHz, n), Seconds(pts, timescaleTrackHz));
      cttsUnitList := cttsUnitList + [sampleOffset];
      ptsUnitList := ptsUnitList[curVideoFrame :=
        AddInt32Wraparound(ptsUnitList[curVideoFrame], sampleOffset)];
      ptsSecList := ptsSecList[curVideoFrame := Seconds(ptsUnitList[curVideoFrame], timescaleTrackHz)];
    }

    /** Step 3: apply the ctts table, ignoring extra samples and repeating the
        last offset for missing ones. */
    method ApplyCttsTable(ghost stts: SttsTable, ctts: CttsTable, timescaleTrackHz: Uint32)
      requires timescaleTrackHz > 0 && Adjusted(stts, ctts, timescaleTrackHz, 0)
      modifies this`cttsUnitList, this`ptsUnitList, this`ptsSecList
      ensures Adjusted(stts, ctts, timescaleTrackHz, TotalSamples(stts))
    {
      hide CttsAt, CttsUnits, PtsUnits, PtsSecs, DtsSecs;
      var lastCttsSampleOffsetUnit: Int32 := 0;
      var numFrames := |ptsUnitList|;
      var curVideoFrame := 0;
      for i := 0 to |ctts|
        invariant numFrames == TotalSamples(stts)
        invariant curVideoFrame == Min(TotalSamples(ctts[..i]), numFrames)
        invariant lastCttsSampleOffsetUnit == if i == 0 then 0 else ctts[i - 1].value
        invariant Adjusted(stts, ctts, timescaleTrackHz, curVideoFrame)
      {
        TotalOfNextPrefix(ctts, i);
        var sampleCount, sampleOffset := ctts[i].count, ctts[i].value;
        lastCttsSampleOffsetUnit := sampleOffset;
        var sample := 0;
        while sample < sampleCount && curVideoFrame < numFrames
          invariant sample <= sampleCount
          invariant curVideoFrame == Min(TotalSamples(ctts[..i]) + sample, numFrames)
          invariant Adjusted(stts, ctts, timescaleTrackHz, curVideoFrame)
        {
          OffsetInRun(ctts, i, sample);
          AdjustFrame(stts, ctts, timescaleTrackHz, curVideoFrame, sampleOffset);
          curVideoFrame := curVideoFrame + 1;
          sample := sample + 1;
        }
      }
      assert ctts[..|ctts|] == ctts;
      while curVideoFrame < numFrames
        invariant curVideoFrame <= numFrames
        invariant curVideoFrame < numFrames ==> TotalSamples(ctts) <= curVideoFrame
        invariant Adjusted(stts, ctts, timescaleTrackHz, curVideoFrame)
      {
        OffsetPastEnd(ctts, curVideoFrame);
        AdjustFrame(stts, ctts, timescaleTrackHz, curVideoFrame, lastCttsSampleOffsetUnit);
        curVideoFrame := curVideoFrame + 1;
      }
    }

    /** The per-frame lists are those of the tables, unsorted. */
    ghost predicate ReadFrom(stts: SttsTable, ctts: Option<CttsTable>, timescale: Uint32)
      requires timescale > 0
      reads this`numVideoFrames, this`sttsUnitList, this`cttsUnitList, this`dtsSecList,
            this`ptsUnitList, this`ptsSecList
    {
      var n := TotalSamples(stts);
      && numVideoFrames == n
      && sttsUnitList == SttsUnits(stts, n)
      && cttsUnitList == CttsList(ctts, n)
      && dtsSecList == DtsSecs(stts, timescale, n)
      && ptsUnitList == PtsUnits(stts, ctts, n)
      && ptsSecList == PtsSecs(stts, ctts, timescale, n)
    }

    /** parse_timing_information: the boxes are options, as either may be
        missing. A refused table leaves every list as it was. */
    method ParseTimingInformation(stts: Option<SttsTable>, ctts: Option<CttsTable>,
                                  timescaleTrackHz: Uint32, maxNumFrames: Uint32) returns (ret: int)
      requires Initialised() && timescaleTrackHz > 0
      modifies this`numVideoFrames, this`sttsUnitList, this`cttsUnitList, this`dtsSecList,
               this`ptsUnitList, this`ptsSecList
      ensures ret == 0 || ret == -1
      ensures ret == 0 <==>
        stts.Some? && TotalSamples(stts.value) <= maxNumFrames && TotalSamples(stts.value) <= 0x7fff_ffff
      ensures ret == -1 ==> Initialised()
      ensures ret == 0 ==> ReadFrom(stts.value, ctts, timescaleTrackHz)
    {
      if stts == None {
        return -1;
      }
      var totalSampleCount := TotalSampleCount(stts.value);
      if totalSampleCount > maxNumFrames || totalSampleCount > INT_MAX {
        return -1;
      }
      RunSttsTable(stts.value, timescaleTrackHz);
      PtsSecsWithoutCtts(stts.value, timescaleTrackHz, TotalSamples(stts.value));
      if ctts.Some? {
        ApplyCttsTable(stts.value, ctts.value, timescaleTrackHz);
      }
      ret := 0;
    }

    /** parse_keyframe_information: a missing stss box leaves no key frames. */
    method ParseKeyframeInformation(stss: Option<seq<Uint32>>) returns (ret: int)
      modifies this`keyframeSampleNumberList
      ensures ret == 0
      ensures keyframeSampleNumberList == match stss case Some(numbers) => numbers case None => []
    {
      keyframeSampleNumberList := [];
      if stss.Some? {
        for i := 0 to |stss.value|
          invariant keyframeSampleNumberList == stss.value[..i]
        {
          keyframeSampleNumberList := keyframeSampleNumberList + [stss.value[i]];
        }
      }
      ret := 0;
    }

    /** What steps 1 and 2 of derive_timing_info do. The lists are reordered one
        after the other, up to the first that does not have one entry per frame;
        that one makes the result -1. */
    ghost predicate FramesSorted(sortByPts: bool, ret: int, stts: seq<Uint32>, ctts: seq<Int32>,
                                 dts: seq<real>, ptsUnits: seq<Int32>, ptsSecs: seq<real>)
      reads this`frameNumOrigList, this`sttsUnitList, this`cttsUnitList, this`dtsSecList,
            this`ptsUnitList, this`ptsSecList
    {
      if sortByPts then
        var order := frameNumOrigList;
        var sttsFits := Fits(stts, order);
        var cttsFits := sttsFits && Fits(ctts, order);
        var dtsFits := cttsFits && Fits(dts, order);
        var ptsFits := dtsFits && Fits(ptsUnits, order);
        && IsStableOrder(ptsSecs, order)
        && sttsUnitList == ReorderedIf(true, stts, order)
        && cttsUnitList == ReorderedIf(sttsFits, ctts, order)
        && dtsSecList == ReorderedIf(cttsFits, dts, order)
        && ptsUnitList == ReorderedIf(dtsFits, ptsUnits, order)
        && ptsSecList == ReorderedIf(ptsFits, ptsSecs, order)
        && ret == (if ptsFits then 0 else -1)
      else
        && ret == 0
        && frameNumOrigList == Identity(|ptsSecs|)
        && sttsUnitList == stts && cttsUnitList == ctts && dtsSecList == dts
        && ptsUnitList == ptsUnits && ptsSecList == ptsSecs
    }

    method SortFrames(sortByPts: bool) returns (ret: int)
      modifies this`frameNumOrigList, this`sttsUnitList, this`cttsUnitList, this`dtsSecList,
               this`ptsUnitList, this`ptsSecList
      ensures FramesSorted(sortByPts, ret, old(sttsUnitList), old(cttsUnitList), old(dtsSecList),
                           old(ptsUnitList), old(ptsSecList))
    {
      frameNumOrigList := Identity(|ptsSecList|);
      if sortByPts {
        frameNumOrigList := StableSort(frameNumOrigList, ptsSecList);
        var order := frameNumOrigList;
        sttsUnitList, ret := ReorderByIndex(sttsUnitList, order);
        if ret < 0 { return -1; }
        cttsUnitList, ret := ReorderByIndex(cttsUnitList, order);
        if ret < 0 { return -1; }
        dtsSecList, ret := ReorderByIndex(dtsSecList, order);
        if ret < 0 { return -1; }
        ptsUnitList, ret := ReorderByIndex(ptsUnitList, order);
        if ret < 0 { return -1; }
        ptsSecList, ret := ReorderByIndex(ptsSecList, order);
        if ret < 0 { return -1; }
      }
      ret := 0;
    }

    // ----- what each step of the derivation leaves behind -----

    ghost predicate DurationsDerived()
      reads this`timescaleVideoHz, this`ptsUnitList, this`ptsDurationSecList
    {
      timescaleVideoHz > 0 && ptsDurationSecList == Durations(ptsUnitList, timescaleVideoHz)
    }

    ghost predicate StatisticsDerived()
      reads this`ptsDurationSecList, this`ptsDurationSecAverage, this`ptsDurationSecMedian,
            this`ptsDurationSecStddev, this`ptsDurationSecMad, this`ptsDurationDeltaSecList,
            this`ptsFramerateList
    {
      && ptsDurationSecAverage == Average(ptsDurationSecList)
      && ptsDurationSecMedian == Median(ptsDurationSecList)
      && IsStandardDeviation(ptsDurationSecList, ptsDurationSecStddev)
      && ptsDurationSecMad == MedianAbsoluteDeviation(ptsDurationSecList)
      && ptsDurationDeltaSecList == DeltasToMean(ptsDurationSecList)
      && ptsFramerateList == InstantRates(ptsDurationSecList)
    }

    /** Step 4 by what it means: frames per key frame, 0.0 without key frames. */
    ghost predicate KeyframesDerived()
      reads this`numVideoFrames, this`keyframeSampleNumberList, this`numVideoKeyframes, this`keyFrameRatio
    {
      && numVideoKeyframes == ToInt32(|keyframeSampleNumberList|)
      && if numVideoKeyframes > 0 then keyFrameRatio * numVideoKeyframes as real == numVideoFrames as real
         else keyFrameRatio == 0.0
    }

    /** Step 5 by what it means: audio seconds per video second, and whether that
        exceeds the limit. */
    ghost predicate AudioVideoDerived()
      reads this`durationVideoSec, this`durationAudioSec, this`audioVideoRatio, this`videoFreeze
    {
      var usable := durationAudioSec != -1.0 && durationVideoSec >= 2.0;
      && (if usable then audioVideoRatio * durationVideoSec == durationAudioSec else audioVideoRatio == -1.0)
      && (videoFreeze <==> usable && durationAudioSec > 1.05 * durationVideoSec)
    }

    ghost predicate FrameRatesDerived()
      reads this`ptsDurationSecList, this`ptsDurationSecAverage, this`frameRateFpsList,
            this`frameRateFpsMedian, this`frameRateFpsAverage, this`frameRateFpsReverseAverage,
            this`frameRateFpsStddev
    {
      && frameRateFpsList == Rates(ptsDurationSecList)
      && frameRateFpsMedian == Median(frameRateFpsList)
      && frameRateFpsAverage == Average(frameRateFpsList)
      && frameRateFpsReverseAverage == ReverseAverage(ptsDurationSecAverage)
      && IsStandardDeviation(frameRateFpsList, frameRateFpsStddev)
    }

    ghost predicate DropsDerived(previousDrops: seq<real>)
      reads this`numVideoFrames, this`ptsDurationSecList, this`ptsDurationSecMedian,
            this`frameDropLengthSecList, this`frameDropRatio, this`frameDropCount,
            this`normalizedFrameDropAverageLength
    {
      && frameDropLengthSecList == previousDrops + Drops(ptsDurationSecList, ptsDurationSecMedian)
      && frameDropRatio
      == DropRatio(frameDropLengthSecList, ptsDurationSecMedian, Sum(ptsDurationSecList))
      && frameDropCount == DropCount(frameDropRatio, numVideoFrames)
      && normalizedFrameDropAverageLength
      == NormalizedDropLength(frameDropLengthSecList, ptsDurationSecMedian)
    }

    /** Step 3.1: durations between consecutive frames. */
    method DeriveDurations()
      requires timescaleVideoHz > 0
      modifies this`ptsDurationSecList
      ensures DurationsDerived()
    {
      ptsDurationSecList := DurationsInSeconds(ptsUnitList, timescaleVideoHz);
    }

    /** Steps 3.2 to 3.5: the statistics of the durations. */
    method DeriveDurationStatistics(sqrt: real -> real)
      requires IsSquareRoot(sqrt)
      modifies this`ptsDurationDeltaSecList, this`ptsFramerateList, this`ptsDurationSecAverage,
               this`ptsDurationSecMedian, this`ptsDurationSecStddev, this`ptsDurationSecMad
      ensures StatisticsDerived()
    {
      hide Median, MedianAbsoluteDeviation, IsStandardDeviation, DeltasToMean, InstantRates;
      ptsDurationSecAverage := CalculateAverage(ptsDurationSecList);
      ptsDurationSecMedian := CalculateMedian(ptsDurationSecList);
      ptsDurationSecStddev := CalculateStandardDeviation(ptsDurationSecList, sqrt);
      ptsDurationSecMad := CalculateMedianAbsoluteDeviation(ptsDurationSecList);
      ptsDurationDeltaSecList := FillDurationDeltas(ptsDurationSecList, ptsDurationSecAverage);
      ptsFramerateList := FillInstantRates(ptsDurationSecList);
    }

    /** Step 4: key frames. */
    method DeriveKeyframes()
      modifies this`numVideoKeyframes, this`keyFrameRatio
      ensures KeyframesDerived()
    {
      numVideoKeyframes := ToInt32(|keyframeSampleNumberList|);
      keyFrameRatio := 0.0;
      if numVideoKeyframes > 0 {
        keyFrameRatio := numVideoFrames as real / numVideoKeyframes as real;
      }
    }

    /** Step 5: the audio/video ratio and the freeze flag. */
    method DeriveAudioVideo()
      modifies this`audioVideoRatio, this`videoFreeze
      ensures AudioVideoDerived()
    {
      audioVideoRatio := -1.0;
      videoFreeze := false;
      if durationVideoSec != -1.0 && durationAudioSec != -1.0 && durationVideoSec >= 2.0 {
        RatioExceeds(durationAudioSec, durationVideoSec, MAX_AUDIO_VIDEO_RATIO);
        audioVideoRatio := durationAudioSec / durationVideoSec;
        videoFreeze := audioVideoRatio > MAX_AUDIO_VIDEO_RATIO;
      }
    }

    /** Step 6: frame rates and their statistics. */
    method DeriveFrameRates(sqrt: real -> real)
      requires IsSquareRoot(sqrt)
      modifies this`frameRateFpsList, this`frameRateFpsMedian, this`frameRateFpsAverage,
               this`frameRateFpsReverseAverage, this`frameRateFpsStddev
      ensures FrameRatesDerived()
    {
      hide Median, Average, IsStandardDeviation;
      frameRateFpsList := TransformToRates(ptsDurationSecList);
      frameRateFpsMedian := CalculateMedian(frameRateFpsList);
      frameRateFpsAverage := CalculateAverage(frameRateFpsList);
      frameRateFpsReverseAverage := ReverseAverage(ptsDurationSecAverage);
      frameRateFpsStddev := CalculateStandardDeviation(frameRateFpsList, sqrt);
    }

    /** Steps 7 to 12: the drops, appended to the list of drops, and the ratio,
        count and normalized length over that list. */
    method DeriveFrameDrops()
      modifies this`frameDropLengthSecList, this`frameDropRatio, this`frameDropCount,
               this`normalizedFrameDropAverageLength
      ensures DropsDerived(old(frameDropLengthSecList))
    {
      var drops := SelectDrops(ptsDurationSecList, ptsDurationSecMedian);
      frameDropLengthSecList := frameDropLengthSecList + drops;
      frameDropRatio, frameDropCount, normalizedFrameDropAverageLength :=
        SummariseDrops(frameDropLengthSecList, ptsDurationSecList, ptsDurationSecMedian, numVideoFrames);
    }

    method DeriveSteps3To5(sqrt: real -> real)
      requires timescaleVideoHz > 0 && IsSquareRoot(sqrt)
      modifies this`ptsDurationSecList, this`ptsDurationDeltaSecList, this`ptsFramerateList,
               this`ptsDurationSecAverage, this`ptsDurationSecMedian, this`ptsDurationSecStddev,
               this`ptsDurationSecMad, this`numVideoKeyframes, this`keyFrameRatio, this`audioVideoRatio,
               this`videoFreeze
      ensures DurationsDerived() && StatisticsDerived() && KeyframesDerived() && AudioVideoDerived()
    {
      hide DurationsDerived, StatisticsDerived, KeyframesDerived, AudioVideoDerived, IsSquareRoot;
      DeriveDurations();
      DeriveDurationStatistics(sqrt);
      DeriveKeyframes();
      DeriveAudioVideo();
    }

    /** What a successful derivation leaves in the derived fields. */
    ghost predicate Derived(previousDrops: seq<real>)
      reads this
    {
      && DurationsDerived() && StatisticsDerived() && KeyframesDerived() && AudioVideoDerived()
      && FrameRatesDerived() && DropsDerived(previousDrops)
    }

    /** Steps 3 to 12. */
    method DeriveFields(sqrt: real -> real)
      requires timescaleVideoHz > 0 && IsSquareRoot(sqrt)
      modifies this`ptsDurationSecList, this`ptsDurationDeltaSecList, this`ptsFramerateList,
               this`ptsDurationSecAverage, this`ptsDurationSecMedian, this`ptsDurationSecStddev,
               this`ptsDurationSecMad, this`numVideoKeyframes, this`keyFrameRatio, this`audioVideoRatio,
               this`videoFreeze, this`frameRateFpsList, this`frameRateFpsMedian,
               this`frameRateFpsAverage, this`frameRateFpsReverseAverage, this`frameRateFpsStddev,
               this`frameDropLengthSecList, this`frameDropRatio, this`frameDropCount,
               this`normalizedFrameDropAverageLength
      ensures Derived(old(frameDropLengthSecList))
    {
      hide DurationsDerived, StatisticsDerived, KeyframesDerived, AudioVideoDerived, FrameRatesDerived,
           DropsDerived, IsSquareRoot;
      DeriveSteps3To5(sqrt);
      DeriveFrameRates(sqrt);
      DeriveFrameDrops();
    }

    method DeriveTimingInfo(sortByPts: bool, sqrt: real -> real) returns (ret: int)
      requires timescaleVideoHz > 0 && IsSquareRoot(sqrt)
      modifies this
      ensures unchanged(this`numVideoFrames, this`timescaleVideoHz, this`keyframeSampleNumberList,
                        this`durationVideoSec, this`durationAudioSec)
      ensures FramesSorted(sortByPts, ret, old(sttsUnitList), old(cttsUnitList), old(dtsSecList),
                           old(ptsUnitList), old(ptsSecList))
      ensures ret == 0 ==> Derived(old(frameDropLengthSecList))
      ensures ret != 0 ==>
        unchanged(this`ptsDurationSecList, this`ptsDurationDeltaSecList, this`ptsFramerateList,
                  this`ptsDurationSecAverage, this`ptsDurationSecMedian, this`ptsDurationSecStddev,
                  this`ptsDurationSecMad, this`numVideoKeyframes, this`keyFrameRatio, this`audioVideoRatio,
                  this`videoFreeze, this`frameRateFpsList, this`frameRateFpsMedian,
                  this`frameRateFpsAverage, this`frameRateFpsReverseAverage, this`frameRateFpsStddev,
                  this`frameDropLengthSecList, this`frameDropRatio, this`frameDropCount,
                  this`normalizedFrameDropAverageLength)
    {
      hide Derived, ReorderedIf, IsStableOrder, Identity;
      ret := SortFrames(sortByPts);
      if ret == 0 {
        DeriveFields(sqrt);
      }
    }

    /** The lists, as read from the tables, in presentation order if asked for. */
    ghost predicate InOrder(stts: SttsTable, ctts: Option<CttsTable>, sortByPts: bool)
      requires timescaleVideoHz > 0
      reads this
    {
      var n, order := TotalSamples(stts), frameNumOrigList;
      && numVideoFrames == n
      && (if sortByPts then IsStableOrder(PtsSecs(stts, ctts, timescaleVideoHz, n), order)
          else order == Identity(n))
      && |order| == n && Indices(order, n)
      && sttsUnitList == Reordered(SttsUnits(stts, n), order)
      && cttsUnitList == (if ctts == None then [] else Reordered(CttsList(ctts, n), order))
      && dtsSecList == Reordered(DtsSecs(stts, timescaleVideoHz, n), order)
      && ptsUnitList == Reordered(PtsUnits(stts, ctts, n), order)
      && ptsSecList == Reordered(PtsSecs(stts, ctts, timescaleVideoHz, n), order)
    }

    /** On lists read from tables the derivation never fails: the error return
        for inconsistent list sizes is unreachable. */
    method DeriveFromTables(ghost stts: SttsTable, ghost ctts: Option<CttsTable>, sortByPts: bool,
                            sqrt: real -> real)
      returns (ret: int)
      requires timescaleVideoHz > 0 && ReadFrom(stts, ctts, timescaleVideoHz) && IsSquareRoot(sqrt)
      modifies this
      ensures unchanged(this`timescaleVideoHz, this`keyframeSampleNumberList, this`durationVideoSec,
                        this`durationAudioSec)
      ensures ret == 0 && InOrder(stts, ctts, sortByPts) && Derived(old(frameDropLengthSecList))
    {
      hide Derived, InOrder, FramesSorted;
      ret := DeriveTimingInfo(sortByPts, sqrt);
      SortingSucceeds(this, stts, ctts, sortByPts, ret);
    }

    /** calculate_percentile_list: sorts the list of drops in place. The source
        reads past the list unless every position is inside it. */
    method CalculatePercentileList(percentileList: seq<real>) returns (percentiles: seq<Double>)
      requires frameDropLengthSecList != [] ==>
        forall i :: 0 <= i < |percentileList| ==>
          0 <= Position(percentileList[i], |frameDropLengthSecList|) < |frameDropLengthSecList|
      modifies this`frameDropLengthSecList
      ensures frameDropLengthSecList == Sort(old(frameDropLengthSecList))
      ensures |percentiles| == |percentileList|
      ensures old(frameDropLengthSecList) == [] ==> forall p :: p in percentiles ==> p == Finite(0.0)
      ensures forall i :: 0 <= i < |percentileList| ==>
        percentiles[i] == Percentile(old(frameDropLengthSecList), ptsDurationSecMedian, percentileList[i])
    {
      hide Sort, Position, Quotient;
      percentiles := [];
      var size := |frameDropLengthSecList|;
      if size > 0 {
        frameDropLengthSecList := Sort(frameDropLengthSecList);
        for i := 0 to |percentileList|
          invariant |percentiles| == i
          invariant frameDropLengthSecList == Sort(old(frameDropLengthSecList))
          invariant forall k :: 0 <= k < i ==>
            percentiles[k] == Percentile(old(frameDropLengthSecList), ptsDurationSecMedian, percentileList[k])
        {
          var position := Position(percentileList[i], size);
          percentiles := percentiles + [Quotient(frameDropLengthSecList[position], ptsDurationSecMedian)];
        }
      } else {
        percentiles := seq(|percentileList|, _ => Finite(0.0));
      }
    }

    /** calculate_consecutive_list: one pass over the drops, each counted for
        every length it reaches. */
    method CalculateConsecutiveList(consecutiveList: seq<int>) returns (counts: seq<int>)
      ensures |counts| == |consecutiveList|
      ensures forall i :: 0 <= i < |consecutiveList| ==>
        counts[i] == Consecutive(frameDropLengthSecList, ptsDurationSecMedian, consecutiveList[i])
    {
      counts := seq(|consecutiveList|, _ => 0);
      for j := 0 to |frameDropLengthSecList|
        invariant |counts| == |consecutiveList|
        invariant forall k :: 0 <= k < |counts| ==>
          counts[k] == Consecutive(frameDropLengthSecList[..j], ptsDurationSecMedian, consecutiveList[k])
      {
        assert frameDropLengthSecList[..j + 1][..j] == frameDropLengthSecList[..j];
        var dropLength := Quotient(frameDropLengthSecList[j], ptsDurationSecMedian);
        for i := 0 to |consecutiveList|
          invariant |counts| == |consecutiveList|
          invariant forall k :: 0 <= k < |counts| ==>
            counts[k] == Consecutive(frameDropLengthSecList[..if k < i then j + 1 else j],
                                     ptsDurationSecMedian, consecutiveList[k])
        {
          if LessEqual(Finite(consecutiveList[i] as real), dropLength) {
            counts := counts[i := counts[i] + 1];
          }
        }
      }
      assert frameDropLengthSecList[..|frameDropLengthSecList|] == frameDropLengthSecList;
    }

    /** The two summaries as the tools ask for them, percentiles first: both
        describe the list of drops as it was before the first call sorted it. */
    method SummariseDropLengths(percentileList: seq<real>, consecutiveList: seq<int>)
      returns (percentiles: seq<Double>, counts: seq<int>)
      requires forall i :: 0 <= i < |percentileList| ==> 0.0 <= percentileList[i] < 100.0
      modifies this`frameDropLengthSecList
      ensures frameDropLengthSecList == Sort(old(frameDropLengthSecList))
      ensures |percentiles| == |percentileList| && |counts| == |consecutiveList|
      ensures forall i :: 0 <= i < |percentileList| ==>
        var drops, p := old(frameDropLengthSecList), percentileList[i];
        && (drops != [] ==> 0 <= Position(p, |drops|) < |drops|)
        && percentiles[i] == Percentile(drops, ptsDurationSecMedian, p)
      ensures forall i :: 0 <= i < |consecutiveList| ==>
        counts[i] == Consecutive(old(frameDropLengthSecList), ptsDurationSecMedian, consecutiveList[i])
      ensures var drops, median := old(frameDropLengthSecList), ptsDurationSecMedian;
        drops != [] && (Measurable(drops, median) || (median != 0.0 && InOneBand(drops, median))) ==>
          forall i, k :: 0 <= i < |percentileList| && 0 <= k < |consecutiveList| ==>
            (LessEqual(Finite(consecutiveList[k] as real), percentiles[i])
             <==> counts[k] >= |drops| - Position(percentileList[i], |drops|))
    {
      ghost var drops, median := frameDropLengthSecList, ptsDurationSecMedian;
      if drops != [] {
        forall i | 0 <= i < |percentileList| ensures 0 <= Position(percentileList[i], |drops|) < |drops| {
          PositionInRange(percentileList[i], |drops|);
        }
      }
      percentiles := CalculatePercentileList(percentileList);
      counts := CalculateConsecutiveList(consecutiveList);
      forall k | 0 <= k < |consecutiveList|
        ensures counts[k] == Consecutive(drops, median, consecutiveList[k])
      {
        ConsecutiveIgnoresSort(drops, median, consecutiveList[k]);
      }
      if drops != [] && (Measurable(drops, median) || (median != 0.0 && InOneBand(drops, median))) {
        forall i, k | 0 <= i < |percentileList| && 0 <= k < |consecutiveList|
          ensures LessEqual(Finite(consecutiveList[k] as real), percentiles[i])
             <==> counts[k] >= |drops| - Position(percentileList[i], |drops|)
        {
          DualUnder(drops, median, percentileList[i], consecutiveList[k]);
        }
      }
    }
  }

  lemma ReorderedIfFits<T>(list: seq<T>, order: seq<nat>)
    requires Indices(order, |order|) && |list| == |order|
    ensures ReorderedIf(true, list, order) == Reordered(list, order)
  {
  }

  lemma ReorderedByIdentity<T>(list: seq<T>)
    ensures Reordered(list, Identity(|list|)) == list
  {
  }

  /** Lists that all come from the same tables always fit the order, so sorting
      them never fails. */
  lemma SortingSucceeds(t: TimingInformation, stts: SttsTable, ctts: Option<CttsTable>,
                        sortByPts: bool, ret: int)
    requires t.timescaleVideoHz > 0 && t.numVideoFrames == TotalSamples(stts)
    requires var n := TotalSamples(stts);
      t.FramesSorted(sortByPts, ret, SttsUnits(stts, n), CttsList(ctts, n),
                     DtsSecs(stts, t.timescaleVideoHz, n), PtsUnits(stts, ctts, n),
                     PtsSecs(stts, ctts, t.timescaleVideoHz, n))
    ensures ret == 0 && t.InOrder(stts, ctts, sortByPts)
  {
    var n, order := TotalSamples(stts), t.frameNumOrigList;
    var hz := t.timescaleVideoHz;
    if sortByPts {
      ReorderedIfFits(SttsUnits(stts, n), order);
      if ctts.Some? { ReorderedIfFits(CttsUnits(ctts.value, n), order); }
      ReorderedIfFits(DtsSecs(stts, hz, n), order);
      ReorderedIfFits(PtsUnits(stts, ctts, n), order);
      ReorderedIfFits(PtsSecs(stts, ctts, hz, n), order);
    } else {
      ReorderedByIdentity(SttsUnits(stts, n));
      if ctts.Some? { ReorderedByIdentity(CttsUnits(ctts.value, n)); }
      ReorderedByIdentity(DtsSecs(stts, hz, n));
      ReorderedByIdentity(PtsUnits(stts, ctts, n));
      ReorderedByIdentity(PtsSecs(stts, ctts, hz, n));
    }
  }

  /** Steps 10 to 14 of parse, for one video track: null when the tables are
      missing or refused, or when one of the steps about frame information,
      whose outcomes are parameters, fails; and otherwise the whole analysis of
      the tables. */
  method AnalyzeVideoTrack(stts: Option<SttsTable>, ctts: Option<CttsTable>, stss: Option<seq<Uint32>>,
                           timescaleTrackHz: Uint32, videoSec: real, audioSec: real,
                           maxNumFrames: Uint32, sortByPts: bool, sqrt: real -> real,
                           frameInformationParsed: bool, frameInformationDerived: bool)
    returns (timing: TimingInformation?)
    requires timescaleTrackHz > 0 && IsSquareRoot(sqrt)
    ensures timing != null <==>
      && stts.Some? && TotalSamples(stts.value) <= maxNumFrames && TotalSamples(stts.value) <= 0x7fff_ffff
      && frameInformationParsed && frameInformationDerived
    ensures timing != null ==>
      && fresh(timing) && timing.timescaleVideoHz == timescaleTrackHz
      && timing.keyframeSampleNumberList == (match stss case Some(numbers) => numbers case None => [])
      && timing.durationVideoSec == videoSec && timing.durationAudioSec == audioSec
      && timing.InOrder(stts.value, ctts, sortByPts)
      && timing.Derived([])
  {
    hide TimingInformation.Derived, TimingInformation.InOrder, TimingInformation.ReadFrom, IsSquareRoot;
    timing := new TimingInformation(videoSec, audioSec);
    timing.InitTimingInformation(timescaleTrackHz);
    var ret := timing.ParseTimingInformation(stts, ctts, timescaleTrackHz, maxNumFrames);
    if ret < 0 {
      return null;
    }
    ret := timing.ParseKeyframeInformation(stss);
    if ret < 0 {
      assert false;  // where the source returns null
    }
    if !frameInformationParsed {
      return null;
    }
    ret := timing.DeriveFromTables(stts.value, ctts, sortByPts, sqrt);
    if ret < 0 {
      assert false;  // where the source returns null
    }
    if !frameInformationDerived {
      return null;
    }
  }
}
