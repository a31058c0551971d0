/** Sums and counts over lists of doubles. Both read the list front to back,
    as the loops of the library do, so they recurse on the last element. */
module Reals {
  function Abs(x: real): real {
    if x < 0.0 then -x else x
  }

  /** n copies of d added up, so that inductions stay linear. */
  function Times(n: nat, d: real): real {
    if n == 0 then 0.0 else Times(n - 1, d) + d
  }

  lemma {:induction false} TimesIsProduct(n: nat, r: real, d: real)
    requires r == n as real
    ensures Times(n, d) == r * d
  {
    if n == 0 {
    } else {
      TimesIsProduct(n - 1, r - 1.0, d);
    }
  }

  lemma {:induction false} TimesMonotone(m: nat, n: nat, d: real)
    requires m <= n && d >= 0.0
    ensures Times(m, d) <= Times(n, d)
  {
    if m == n {
    } else {
      TimesMonotone(m, n - 1, d);
    }
  }

  function Square(x: real): real {
    x * x
  }

  lemma NonnegativeProduct(a: real, b: real)
    requires a >= 0.0 && b >= 0.0
    ensures a * b >= 0.0
  {
  }

  lemma PositiveProduct(a: real, b: real)
    requires a > 0.0 && b > 0.0
    ensures a * b > 0.0
  {
  }

  lemma PositiveSquare(g: real)
    requires g != 0.0
    ensures Square(g) > 0.0
  {
    assert Square(g) / g == g;
  }

  lemma QuotientIs(q: real, p: real, x: real)
    requires p != 0.0 && q * p == x
    ensures q == x / p
  {
  }

  lemma SquareMonotone(x: real, a: real)
    requires Abs(x) <= a
    ensures Square(x) <= Square(a)
  {
    NonnegativeProduct(a - x, a + x);
  }

  function Sum(s: seq<real>): real {
    if s == [] then 0.0 else Sum(s[..|s| - 1]) + s[|s| - 1]
  }

  function AbsDeviations(s: seq<real>, c: real): (t: seq<real>)
    ensures |t| == |s|
  {
    seq(|s|, i requires 0 <= i < |s| => Abs(s[i] - c))
  }

  /** The total distance of the elements from the point `c`. */
  function TotalDeviation(s: seq<real>, c: real): real {
    if s == [] then 0.0 else TotalDeviation(s[..|s| - 1], c) + Abs(s[|s| - 1] - c)
  }

  function SumSquares(s: seq<real>, c: real): real {
    if s == [] then 0.0
    else SumSquares(s[..|s| - 1], c) + Square(s[|s| - 1] - c)
  }

  /** How many elements are at most `x`. */
  function CountLe(s: seq<real>, x: real): nat {
    if s == [] then 0
    else CountLe(s[..|s| - 1], x) + if s[|s| - 1] <= x then 1 else 0
  }

  /** How many elements are at least `x`. */
  function CountGe(s: seq<real>, x: real): nat {
    if s == [] then 0
    else CountGe(s[..|s| - 1], x) + if s[|s| - 1] >= x then 1 else 0
  }

  /** How many elements lie in the closed interval from `a` to `b`. */
  function CountIn(s: seq<real>, a: real, b: real): nat {
    if s == [] then 0
    else CountIn(s[..|s| - 1], a, b) + if a <= s[|s| - 1] <= b then 1 else 0
  }

  lemma {:induction false} SumAppend(s: seq<real>, t: seq<real>)
    ensures Sum(s + t) == Sum(s) + Sum(t)
  {
    if t == [] {
      assert s + t == s;
    } else {
      assert (s + t)[..|s + t| - 1] == s + t[..|t| - 1];
      SumAppend(s, t[..|t| - 1]);
    }
  }

  lemma {:induction false} CountAppendOne(s: seq<real>, y: real, x: real)
    ensures CountLe(s + [y], x) == CountLe(s, x) + if y <= x then 1 else 0
    ensures CountGe(s + [y], x) == CountGe(s, x) + if y >= x then 1 else 0
  {
    assert (s + [y])[..|s + [y]| - 1] == s;
  }

  /** Bounds on a count when the elements before, or from, position k are known. */
  lemma {:induction false} CountLeBounds(s: seq<real>, k: nat, x: real)
    requires k <= |s|
    ensures CountLe(s, x) <= |s|
    ensures (forall i :: 0 <= i < k ==> s[i] <= x) ==> CountLe(s, x) >= k
    ensures (forall i :: k <= i < |s| ==> s[i] > x) ==> CountLe(s, x) <= k
  {
    if s == [] {
    } else {
      CountLeBounds(s[..|s| - 1], if k < |s| then k else k - 1, x);
    }
  }

  lemma {:induction false} CountGeBounds(s: seq<real>, k: nat, x: real)
    requires k <= |s|
    ensures CountGe(s, x) <= |s|
    ensures (forall i :: k <= i < |s| ==> s[i] >= x) ==> CountGe(s, x) >= |s| - k
    ensures (forall i :: 0 <= i < k ==> s[i] < x) ==> CountGe(s, x) <= |s| - k
  {
    if s == [] {
    } else {
      CountGeBounds(s[..|s| - 1], if k < |s| then k else k - 1, x);
    }
  }
}
