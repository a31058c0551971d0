/** The two library sorts that the timing code calls. `std::sort` on doubles is
    determined by its contract, and so is `std::stable_sort` on an index vector:
    SortedUnique and StableOrderUnique show that no other result is possible,
    so the insertion sorts written here stand for any implementation. */
module Sorting {
  predicate Sorted(s: seq<real>) {
    forall i, j :: 0 <= i < j < |s| ==> s[i] <= s[j]
  }

  lemma AppendGreatest(t: seq<real>, u: seq<real>, last: real)
    requires Sorted(t) && multiset(t) == multiset(u)
    requires forall i :: 0 <= i < |u| ==> u[i] <= last
    ensures Sorted(t + [last])
  {
    forall i | 0 <= i < |t| ensures t[i] <= last {
      assert t[i] in multiset(u);
    }
  }

  function Insert(s: seq<real>, x: real): (t: seq<real>)
    requires Sorted(s)
    ensures Sorted(t)
    ensures multiset(t) == multiset(s) + multiset{x}
  {
    if s == [] || s[|s| - 1] <= x then
      s + [x]
    else
      var last := s[|s| - 1];
      assert s == s[..|s| - 1] + [last];
      var t := Insert(s[..|s| - 1], x);
      AppendGreatest(t, s[..|s| - 1] + [x], last);
      t + [last]
  }

  /** The vector after `std::sort(v.begin(), v.end())`. */
  function Sort(s: seq<real>): (t: seq<real>)
    ensures Sorted(t)
    ensures multiset(t) == multiset(s)
    ensures |t| == |s|
  {
    if s == [] then []
    else
      assert s == s[..|s| - 1] + [s[|s| - 1]];
      var t := Insert(Sort(s[..|s| - 1]), s[|s| - 1]);
      assert |t| == |multiset(t)| == |multiset(s)| == |s|;
      t
  }

  lemma MultisetDropLast(s: seq<real>)
    requires s != []
    ensures multiset(s[..|s| - 1]) == multiset(s) - multiset{s[|s| - 1]}
  {
    assert s == s[..|s| - 1] + [s[|s| - 1]];
  }

  lemma LastIsGreatest(s: seq<real>, t: seq<real>)
    requires Sorted(s) && multiset(s) == multiset(t) && s != [] && |t| == |s|
    ensures t[|t| - 1] <= s[|s| - 1]
  {
    assert t[|t| - 1] in multiset(s);
  }

  /** A list has only one sorted permutation. */
  lemma {:induction false} SortedUnique(s: seq<real>, t: seq<real>)
    requires Sorted(s) && Sorted(t) && multiset(s) == multiset(t)
    ensures s == t
  {
    assert |s| == |multiset(s)| == |multiset(t)| == |t|;
    if s == [] {
    } else {
      var n := |s| - 1;
      LastIsGreatest(s, t);
      LastIsGreatest(t, s);
      MultisetDropLast(s);
      MultisetDropLast(t);
      SortedUnique(s[..n], t[..n]);
      forall i | 0 <= i < |s| ensures s[i] == t[i] {
        assert i < n ==> s[i] == s[..n][i] && t[i] == t[..n][i];
      }
    }
  }

  // ----- the stable sort of an index vector -----

  /** Frame `a` comes strictly before frame `b`: a smaller key, or the same key
      and an earlier position in the vector being sorted. */
  predicate Before(keys: seq<real>, a: nat, b: nat)
    requires a < |keys| && b < |keys|
  {
    keys[a] < keys[b] || (keys[a] == keys[b] && a < b)
  }

  predicate Indices(order: seq<nat>, n: nat) {
    forall k :: 0 <= k < |order| ==> order[k] < n
  }

  ghost predicate StrictlyOrdered(keys: seq<real>, order: seq<nat>) {
    && Indices(order, |keys|)
    && (forall i, j :: 0 <= i < j < |order| ==> Before(keys, order[i], order[j]))
  }

  /** `order` lists each of 0..n-1 once, by increasing key, ties in their
      original order: what a stable sort makes of the identity vector. */
  ghost predicate IsStableOrder(keys: seq<real>, order: seq<nat>) {
    && |order| == |keys|
    && StrictlyOrdered(keys, order)
    && (forall f: nat :: f < |keys| ==> f in order)
  }

  lemma {:induction false} StrictOrderUnique(keys: seq<real>, a: seq<nat>, b: seq<nat>)
    requires StrictlyOrdered(keys, a) && StrictlyOrdered(keys, b)
    requires forall f :: f in a <==> f in b
    ensures a == b
    decreases |a|
  {
    if a == [] && b == [] {
    } else {
      assert a != [] ==> a[0] in b;
      assert b != [] ==> b[0] in a;
      assert a[0] == b[0];
      forall f ensures f in a[1..] <==> f in b[1..] {
        if f in a[1..] { assert f in b; }
        if f in b[1..] { assert f in a; }
      }
      StrictOrderUnique(keys, a[1..], b[1..]);
    }
  }

  /** The stable order of a list of keys is unique. */
  lemma StableOrderUnique(keys: seq<real>, a: seq<nat>, b: seq<nat>)
    requires IsStableOrder(keys, a) && IsStableOrder(keys, b)
    ensures a == b
  {
    StrictOrderUnique(keys, a, b);
  }

  function Identity(n: nat): (frames: seq<nat>)
    ensures |frames| == n && forall i :: 0 <= i < n ==> frames[i] == i
  {
    seq(n, i requires 0 <= i < n => i)
  }

  lemma InsertKeepsOrder(keys: seq<real>, order: seq<nat>, p: nat, f: nat)
    requires StrictlyOrdered(keys, order) && p <= |order| && f < |keys|
    requires forall k :: 0 <= k < p ==> Before(keys, order[k], f)
    requires forall k :: p <= k < |order| ==> Before(keys, f, order[k])
    ensures StrictlyOrdered(keys, order[..p] + [f] + order[p..])
  {
  }

  lemma EarlierKeysAreBefore(keys: seq<real>, order: seq<nat>, p: nat, f: nat)
    requires StrictlyOrdered(keys, order) && p <= |order| && f < |keys|
    requires forall k :: 0 <= k < |order| ==> order[k] < f
    requires p > 0 ==> keys[order[p - 1]] <= keys[f]
    ensures forall k :: 0 <= k < p ==> Before(keys, order[k], f)
  {
    forall k | 0 <= k < p ensures Before(keys, order[k], f) {
      assert k < p - 1 ==> Before(keys, order[k], order[p - 1]);
    }
  }

  /** `std::stable_sort` of the vector 0..n-1 by key. */
  method StableSort(frames: seq<nat>, keys: seq<real>) returns (order: seq<nat>)
    requires frames == Identity(|keys|)
    ensures IsStableOrder(keys, order)
  {
    order := [];
    for i := 0 to |frames|
      invariant |order| == i && StrictlyOrdered(keys, order)
      invariant forall f: nat :: f < i <==> f in order
    {
      var p: int := |order|;
      while p > 0 && keys[i] < keys[order[p - 1]]
        invariant 0 <= p <= |order|
        invariant forall k :: p <= k < |order| ==> keys[i] < keys[order[k]]
      {
        p := p - 1;
      }
      assert forall k :: 0 <= k < |order| ==> order[k] in order;
      EarlierKeysAreBefore(keys, order, p, i);
      InsertKeepsOrder(keys, order, p, i);
      InsertAddsElement(order, p, i);
      order := order[..p] + [i] + order[p..];
    }
  }

  lemma InsertAddsElement(order: seq<nat>, p: nat, f: nat)
    requires p <= |order|
    ensures forall g :: g in order[..p] + [f] + order[p..] <==> g == f || g in order
  {
    assert order == order[..p] + order[p..];
  }
}
