/** The run-length time tables of a track and their meaning in sections 8.6.1.2
    and 8.6.1.3 of ISO/IEC 14496-12, stated without any 32-bit arithmetic. */
module SampleTables {
  import opened MachineInts
  import opened Wrappers

  /** `count` consecutive samples that share one value. */
  datatype Run<+T> = Run(count: Uint32, value: T)

  type SttsTable = t: seq<Run<Uint32>> | |t| < TWO_32
  type CttsTable = t: seq<Run<Int32>> | |t| < TWO_32

  /** The number of samples a table describes. */
  function TotalSamples<T>(runs: seq<Run<T>>): nat {
    if runs == [] then 0 else TotalSamples(runs[..|runs| - 1]) + runs[|runs| - 1].count
  }

  /** The table entry of sample n once the table is uncompressed. */
  function EntryAt<T>(runs: seq<Run<T>>, n: nat): Option<T> {
    if runs == [] then None
    else
      var init, last := runs[..|runs| - 1], runs[|runs| - 1];
      if n < TotalSamples(init) then EntryAt(init, n)
      else if n < TotalSamples(init) + last.count then Some(last.value)
      else None
  }

  lemma {:induction false} EntryExists<T>(runs: seq<Run<T>>, n: nat)
    ensures EntryAt(runs, n).Some? <==> n < TotalSamples(runs)
  {
    if runs == [] {
    } else {
      EntryExists(runs[..|runs| - 1], n);
    }
  }

  lemma {:induction false} TotalOfPrefix<T>(runs: seq<Run<T>>, i: nat)
    requires i <= |runs|
    ensures TotalSamples(runs[..i]) <= TotalSamples(runs)
  {
    if i < |runs| {
      assert runs[..|runs| - 1][..i] == runs[..i];
      TotalOfPrefix(runs[..|runs| - 1], i);
    } else {
      assert runs[..i] == runs;
    }
  }

  lemma TotalOfNextPrefix<T>(runs: seq<Run<T>>, i: nat)
    requires i < |runs|
    ensures TotalSamples(runs[..i + 1]) == TotalSamples(runs[..i]) + runs[i].count <= TotalSamples(runs)
  {
    assert runs[..i + 1][..i] == runs[..i];
    TotalOfPrefix(runs, i + 1);
  }

  /** The samples of run i are the count ones after those of the earlier runs. */
  lemma {:induction false} EntryInRun<T>(runs: seq<Run<T>>, i: nat, sample: nat)
    requires i < |runs| && sample < runs[i].count
    ensures TotalSamples(runs[..i]) + sample < TotalSamples(runs)
    ensures EntryAt(runs, TotalSamples(runs[..i]) + sample) == Some(runs[i].value)
  {
    var init := runs[..|runs| - 1];
    if i < |init| {
      assert init[..i] == runs[..i];
      EntryInRun(init, i, sample);
    } else {
      assert runs[..i] == init;
    }
  }

  /** STTS(n): the decode delta of sample n. */
  function SttsAt(stts: SttsTable, n: nat): Uint32
    requires n < TotalSamples(stts)
  {
    EntryExists(stts, n);
    EntryAt(stts, n).value
  }

  /** CTTS(n): the composition offset of sample n. A table that describes fewer
      samples than the track has repeats its last offset. */
  function CttsAt(ctts: CttsTable, n: nat): Int32 {
    match EntryAt(ctts, n)
    case Some(offset) => offset
    case None => if ctts == [] then 0 else ctts[|ctts| - 1].value
  }

  lemma OffsetInRun(ctts: CttsTable, i: nat, sample: nat)
    requires i < |ctts| && sample < ctts[i].count
    ensures CttsAt(ctts, TotalSamples(ctts[..i]) + sample) == ctts[i].value
  {
    EntryInRun(ctts, i, sample);
  }

  lemma OffsetPastEnd(ctts: CttsTable, n: nat)
    requires n >= TotalSamples(ctts)
    ensures CttsAt(ctts, n) == if ctts == [] then 0 else ctts[|ctts| - 1].value
  {
    EntryExists(ctts, n);
  }

  /** DT(n), with DT(0) = 0 and DT(n + 1) = DT(n) + STTS(n). */
  function DT(stts: SttsTable, n: nat): nat
    requires n <= TotalSamples(stts)
  {
    if n == 0 then 0 else DT(stts, n - 1) + SttsAt(stts, n - 1)
  }

  /** CT(n) = DT(n) + CTTS(n); without a ctts table, CT(n) = DT(n). */
  function CT(stts: SttsTable, ctts: Option<CttsTable>, n: nat): int
    requires n <= TotalSamples(stts)
  {
    match ctts
    case None => DT(stts, n)
    case Some(table) => DT(stts, n) + CttsAt(table, n)
  }

  // ----- the per-frame lists that the tables define -----

  function Seconds(units: int, timescale: Uint32): real
    requires timescale > 0
  {
    units as real / timescale as real
  }

  /** Seconds times the timescale are the units. */
  lemma SecondsMeaning(units: int, timescale: Uint32)
    requires timescale > 0
    ensures Seconds(units, timescale) * timescale as real == units as real
  {
  }

  /** The value of a per-frame list at each of the first n frames. */
  function SttsUnits(stts: SttsTable, n: nat): (list: seq<Uint32>)
    requires n <= TotalSamples(stts)
    ensures |list| == n
  {
    if n == 0 then [] else SttsUnits(stts, n - 1) + [SttsAt(stts, n - 1)]
  }

  function CttsUnits(ctts: CttsTable, n: nat): (list: seq<Int32>)
    ensures |list| == n
  {
    if n == 0 then [] else CttsUnits(ctts, n - 1) + [CttsAt(ctts, n - 1)]
  }

  /** ctts_unit_list: empty without a ctts table. */
  function CttsList(ctts: Option<CttsTable>, n: nat): seq<Int32> {
    match ctts
    case None => []
    case Some(table) => CttsUnits(table, n)
  }

  function DtsSecs(stts: SttsTable, timescale: Uint32, n: nat): (list: seq<real>)
    requires timescale > 0 && n <= TotalSamples(stts) + 1
    ensures |list| == n
  {
    if n == 0 then []
    else DtsSecs(stts, timescale, n - 1) + [Seconds(ToUint32(DT(stts, n - 1)), timescale)]
  }

  function PtsUnits(stts: SttsTable, ctts: Option<CttsTable>, n: nat): (list: seq<Int32>)
    requires n <= TotalSamples(stts) + 1
    ensures |list| == n
  {
    if n == 0 then []
    else PtsUnits(stts, ctts, n - 1) + [ToInt32(CT(stts, ctts, n - 1))]
  }

  /** The units behind the pts in seconds: without ctts the unsigned dts, with
      ctts the signed pts. */
  function PtsKey(stts: SttsTable, ctts: Option<CttsTable>, n: nat): int
    requires n <= TotalSamples(stts)
  {
    if ctts == None then ToUint32(DT(stts, n)) else ToInt32(CT(stts, ctts, n))
  }

  function PtsSecs(stts: SttsTable, ctts: Option<CttsTable>, timescale: Uint32, n: nat): (list: seq<real>)
    requires timescale > 0 && n <= TotalSamples(stts) + 1
    ensures |list| == n
  {
    if n == 0 then []
    else
      PtsSecs(stts, ctts, timescale, n - 1) + [Seconds(PtsKey(stts, ctts, n - 1), timescale)]
  }

  lemma {:induction false} SttsUnitsAt(stts: SttsTable, n: nat, i: nat)
    requires i < n <= TotalSamples(stts)
    ensures SttsUnits(stts, n)[i] == SttsAt(stts, i)
  {
    if i == n - 1 {
    } else {
      SttsUnitsAt(stts, n - 1, i);
    }
  }

  function SumInts(s: seq<int>): int {
    if s == [] then 0 else SumInts(s[..|s| - 1]) + s[|s| - 1]
  }

  /** DT(n) is the sum of the first n expanded deltas. */
  lemma {:induction false} DTIsSum(stts: SttsTable, n: nat)
    requires n <= TotalSamples(stts)
    ensures DT(stts, n) == SumInts(SttsUnits(stts, n))
  {
    if n == 0 {
    } else {
      DTIsSum(stts, n - 1);
      assert SttsUnits(stts, n)[..n - 1] == SttsUnits(stts, n - 1);
    }
  }

  lemma {:induction false} CttsUnitsAt(ctts: CttsTable, n: nat, i: nat)
    requires i < n
    ensures CttsUnits(ctts, n)[i] == CttsAt(ctts, i)
  {
    if i == n - 1 {
    } else {
      CttsUnitsAt(ctts, n - 1, i);
    }
  }

  lemma {:induction false} DtsSecsAt(stts: SttsTable, timescale: Uint32, n: nat, i: nat)
    requires timescale > 0 && i < n <= TotalSamples(stts) + 1
    ensures DtsSecs(stts, timescale, n)[i] == Seconds(ToUint32(DT(stts, i)), timescale)
  {
    if i == n - 1 {
    } else {
      DtsSecsAt(stts, timescale, n - 1, i);
    }
  }

  lemma {:induction false} PtsUnitsAt(stts: SttsTable, ctts: Option<CttsTable>, n: nat, i: nat)
    requires i < n <= TotalSamples(stts) + 1
    ensures PtsUnits(stts, ctts, n)[i] == ToInt32(CT(stts, ctts, i))
  {
    if i == n - 1 {
    } else {
      PtsUnitsAt(stts, ctts, n - 1, i);
    }
  }

  lemma {:induction false} PtsSecsAt(stts: SttsTable, ctts: Option<CttsTable>, timescale: Uint32, n: nat, i: nat)
    requires timescale > 0 && i < n <= TotalSamples(stts) + 1
    ensures PtsSecs(stts, ctts, timescale, n)[i] == Seconds(PtsKey(stts, ctts, i), timescale)
  {
    if i == n - 1 {
    } else {
      PtsSecsAt(stts, ctts, timescale, n - 1, i);
    }
  }

  lemma {:induction false} PtsSecsWithoutCtts(stts: SttsTable, timescale: Uint32, n: nat)
    requires timescale > 0 && n <= TotalSamples(stts) + 1
    ensures PtsSecs(stts, None, timescale, n) == DtsSecs(stts, timescale, n)
  {
    if n == 0 {
    } else {
      PtsSecsWithoutCtts(stts, timescale, n - 1);
    }
  }

  /** A stored pts is the exact composition time exactly when that time fits. */
  lemma PtsIsExactWhenItFits(stts: SttsTable, ctts: Option<CttsTable>, i: nat)
    requires i < TotalSamples(stts)
    ensures var pts := PtsUnits(stts, ctts, TotalSamples(stts))[i];
            && Congruent(pts, CT(stts, ctts, i))
            && (pts == CT(stts, ctts, i) <==> FitsInt32(CT(stts, ctts, i)))
  {
    PtsUnitsAt(stts, ctts, TotalSamples(stts), i);
    ToInt32Congruent(CT(stts, ctts, i));
  }
}
