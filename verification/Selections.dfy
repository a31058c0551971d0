/** Choosing some elements of a list and keeping their order, stated by the
    positions of the chosen ones. */
module Selections {
  /** Positions below n, in increasing order. */
  predicate Increasing(positions: seq<nat>, n: nat) {
    && (forall k :: 0 <= k < |positions| ==> positions[k] < n)
    && (forall j, k :: 0 <= j < k < |positions| ==> positions[j] < positions[k])
  }

  /** The result lists the elements of the source at those positions. */
  predicate ListsAt<T(==)>(result: seq<T>, source: seq<T>, positions: seq<nat>) {
    && Increasing(positions, |source|)
    && |result| == |positions|
    && forall k :: 0 <= k < |result| ==> result[k] == source[positions[k]]
  }

  /** The positions are exactly those where the flag is set. */
  predicate AreFlagged(positions: seq<nat>, flags: seq<bool>) {
    forall i: nat :: i < |flags| ==> (i in positions <==> flags[i])
  }

  lemma NothingChosen<T>()
    ensures ListsAt<T>([], [], []) && AreFlagged([], [])
  {
  }

  lemma ListsIncreasing<T>(result: seq<T>, source: seq<T>, positions: seq<nat>)
    requires ListsAt(result, source, positions)
    ensures Increasing(positions, |source|)
  {
  }

  lemma AppendChosen<T>(result: seq<T>, source: seq<T>, positions: seq<nat>, x: T)
    requires ListsAt(result, source, positions)
    ensures ListsAt(result, source + [x], positions)
    ensures ListsAt(result + [x], source + [x], positions + [|source|])
  {
  }

  lemma AppendFlag(positions: seq<nat>, flags: seq<bool>)
    requires Increasing(positions, |flags|) && AreFlagged(positions, flags)
    ensures AreFlagged(positions, flags + [false])
    ensures AreFlagged(positions + [|flags|], flags + [true])
  {
    assert |flags| !in positions;
  }

  /** Every position one further on. */
  function Shifted(positions: seq<nat>): (shifted: seq<nat>)
    ensures |shifted| == |positions| && forall k :: 0 <= k < |positions| ==> shifted[k] == positions[k] + 1
  {
    seq(|positions|, k requires 0 <= k < |positions| => positions[k] + 1)
  }

  lemma PrependChosen<T>(result: seq<T>, source: seq<T>, positions: seq<nat>, x: T)
    requires ListsAt(result, source, positions)
    ensures ListsAt(result, [x] + source, Shifted(positions))
    ensures ListsAt([x] + result, [x] + source, [0] + Shifted(positions))
  {
  }

  lemma ShiftedContains(positions: seq<nat>, i: nat)
    ensures i + 1 in Shifted(positions) <==> i in positions
    ensures 0 !in Shifted(positions)
  {
    if i in positions {
      var k :| 0 <= k < |positions| && positions[k] == i;
      assert Shifted(positions)[k] == i + 1;
    }
  }

  lemma PrependFlag(positions: seq<nat>, flags: seq<bool>)
    requires AreFlagged(positions, flags)
    ensures AreFlagged(Shifted(positions), [false] + flags)
    ensures AreFlagged([0] + Shifted(positions), [true] + flags)
  {
    forall i: nat | i < |flags| ensures i + 1 in Shifted(positions) <==> flags[i] {
      ShiftedContains(positions, i);
    }
    ShiftedContains(positions, 0);
    forall i: nat | i < |flags| + 1
      ensures i in Shifted(positions) <==> ([false] + flags)[i]
      ensures i in [0] + Shifted(positions) <==> ([true] + flags)[i]
    {
      if i > 0 { assert (i - 1) + 1 in Shifted(positions) <==> flags[i - 1]; }
    }
  }
}
