/** Wraparound differences of a list of presentation times. */
module Deltas {
  import opened MachineInts

  /** The n - 1 differences of a list of n values. */
  function VectorDeltas(s: seq<Int32>): (deltas: seq<Int32>)
    ensures |deltas| == if s == [] then 0 else |s| - 1
  {
    if |s| <= 1 then []
    else VectorDeltas(s[..|s| - 1]) + [SubInt32Wraparound(s[|s| - 1], s[|s| - 2])]
  }

  /** calculate_vector_deltas_int32_t. */
  method CalculateVectorDeltas(input: seq<Int32>) returns (out: seq<Int32>)
    ensures out == VectorDeltas(input)
  {
    out := [];
    var i := 1;
    while i < |input|
      invariant 1 <= i && (input == [] || i <= |input|)
      invariant out == if input == [] then [] else VectorDeltas(input[..i])
    {
      assert input[..i + 1][..i] == input[..i];
      out := out + [SubInt32Wraparound(input[i], input[i - 1])];
      i := i + 1;
    }
    assert input != [] ==> input[..|input|] == input;
  }

  /** Starting value and wraparound prefix sums of the differences. */
  function Rebuild(first: Int32, deltas: seq<Int32>): (s: seq<Int32>)
    ensures |s| == |deltas| + 1
  {
    if deltas == [] then [first]
    else
      var init := Rebuild(first, deltas[..|deltas| - 1]);
      init + [AddInt32Wraparound(init[|init| - 1], deltas[|deltas| - 1])]
  }

  lemma RebuildAppend(first: Int32, deltas: seq<Int32>, d: Int32)
    ensures var init := Rebuild(first, deltas);
            Rebuild(first, deltas + [d]) == init + [AddInt32Wraparound(init[|init| - 1], d)]
  {
    assert (deltas + [d])[..|deltas|] == deltas;
  }

  lemma RoundTripStep(init: seq<Int32>, last: Int32, d: Int32)
    requires init != [] && Rebuild(init[0], VectorDeltas(init)) == init
    requires AddInt32Wraparound(init[|init| - 1], d) == last
    ensures Rebuild(init[0], VectorDeltas(init) + [d]) == init + [last]
  {
    RebuildAppend(init[0], VectorDeltas(init), d);
  }

  lemma DeltasStep(s: seq<Int32>, init: seq<Int32>)
    requires |s| > 1 && init == s[..|s| - 1] && Rebuild(init[0], VectorDeltas(init)) == init
    ensures Rebuild(s[0], VectorDeltas(s)) == s
  {
    var last := s[|s| - 1];
    AddUndoesSub(last, init[|init| - 1]);
    RoundTripStep(init, last, SubInt32Wraparound(last, init[|init| - 1]));
    assert s == init + [last];
  }

  /** The differences and the first value give back the whole list, whichever
      of the differences wrapped. */
  lemma {:induction false} DeltasRoundTrip(s: seq<Int32>)
    requires s != []
    ensures Rebuild(s[0], VectorDeltas(s)) == s
  {
    if |s| == 1 {
    } else {
      DeltasRoundTrip(s[..|s| - 1]);
      DeltasStep(s, s[..|s| - 1]);
    }
  }

  lemma {:induction false} DeltaAt(s: seq<Int32>, i: nat)
    requires i + 1 < |s|
    ensures VectorDeltas(s)[i] == SubInt32Wraparound(s[i + 1], s[i])
  {
    if i + 2 == |s| {
    } else {
      DeltaAt(s[..|s| - 1], i);
    }
  }
}
