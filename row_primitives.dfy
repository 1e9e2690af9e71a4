/** The numpy row operations the rank transform is assembled from: adjacent
    differences, cumulative counts of a boolean row and the positions of its true
    entries. */
module RowPrimitives {

  /** np.diff(dc) != 0 on one row: entry q says whether dc[q+1] differs from dc[q]. */
  function NonZeroDiffs(dc: seq<real>): (d: seq<bool>)
    ensures |d| == if |dc| == 0 then 0 else |dc| - 1
  {
    seq(if |dc| == 0 then 0 else |dc| - 1, q requires 0 <= q < |dc| - 1 => dc[q + 1] - dc[q] != 0.0)
  }

  /** np.c_[True, np.diff(dc) != 0]: true exactly where a new run of equal values
      starts in dc. */
  function Boundaries(dc: seq<real>): (b: seq<bool>)
    ensures |b| == if |dc| == 0 then 1 else |dc|
    ensures b[0]
    ensures forall q {:trigger b[q]} | 0 < q < |dc| :: b[q] <==> dc[q] != dc[q - 1]
  {
    [true] + NonZeroDiffs(dc)
  }

  /** The number of true entries among b[0], ..., b[n-1]. */
  function TrueBefore(b: seq<bool>, n: nat): (c: nat)
    requires n <= |b|
    ensures c <= n
  {
    if n == 0 then 0 else TrueBefore(b, n - 1) + (if b[n - 1] then 1 else 0)
  }

  /** np.count_nonzero on a boolean row. */
  function CountTrue(b: seq<bool>): (n: nat)
    ensures n <= |b|
  {
    TrueBefore(b, |b|)
  }

  lemma {:induction false} TrueBeforeMonotone(b: seq<bool>, i: nat, j: nat)
    requires i <= j <= |b|
    ensures TrueBefore(b, i) <= TrueBefore(b, j)
    decreases j - i
  {
    if i < j {
      TrueBeforeMonotone(b, i, j - 1);
    }
  }

  /** np.cumsum of a boolean row: entry p counts the true entries in b[0..p].
      When b starts with a true entry every cumulative count is at least 1. */
  function CumCount(b: seq<bool>): (cs: seq<nat>)
    ensures |cs| == |b|
    ensures forall p | 0 <= p < |b| :: cs[p] == TrueBefore(b, p + 1)
    ensures forall p | 0 <= p < |b| :: cs[p] <= CountTrue(b)
    ensures |b| > 0 && b[0] ==> forall p | 0 <= p < |b| :: 1 <= cs[p]
  {
    var cs := seq(|b|, p requires 0 <= p < |b| => TrueBefore(b, p + 1));
    forall p | 0 <= p < |b| ensures cs[p] <= CountTrue(b) && (b[0] ==> 1 <= cs[p]) {
      TrueBeforeMonotone(b, p + 1, |b|);
      TrueBeforeMonotone(b, 1, p + 1);
    }
    cs
  }

  /** The positions of the true entries among b[0..n), in increasing order. */
  function TruePositions(b: seq<bool>, n: nat): (f: seq<nat>)
    requires n <= |b|
    ensures |f| == TrueBefore(b, n)
    ensures forall m | 0 <= m < |f| :: f[m] < n && b[f[m]] && TrueBefore(b, f[m]) == m
  {
    if n == 0 then []
    else TruePositions(b, n - 1) + (if b[n - 1] then [n - 1] else [])
  }

  /** np.flatnonzero on a boolean row: the positions of its true entries, in
      increasing order. Entry m is the position before which exactly m true
      entries stand. */
  function FlatNonZero(b: seq<bool>): (f: seq<nat>)
    ensures |f| == CountTrue(b)
    ensures forall m | 0 <= m < |f| :: f[m] < |b| && b[f[m]] && TrueBefore(b, f[m]) == m
  {
    TruePositions(b, |b|)
  }

  /** Between two prefixes with the same count of true entries every entry is false. */
  lemma NoTrueBetween(b: seq<bool>, i: nat, j: nat)
    requires i <= j <= |b| && TrueBefore(b, i) == TrueBefore(b, j)
    ensures forall q | i <= q < j :: !b[q]
  {
    forall q | i <= q < j ensures !b[q] {
      TrueBeforeMonotone(b, i, q);
      TrueBeforeMonotone(b, q + 1, j);
    }
  }

  /** The run of b containing position p starts at f[m-1], where m is the
      cumulative count of p and f = FlatNonZero(b). */
  lemma RunStart(b: seq<bool>, p: nat, m: nat, f: seq<nat>)
    requires p < |b| && b[0]
    requires m == TrueBefore(b, p + 1) && f == FlatNonZero(b)
    ensures 1 <= m <= |f|
    ensures f[m - 1] <= p && b[f[m - 1]]
    ensures forall q | f[m - 1] < q <= p :: !b[q]
  {
    TrueBeforeMonotone(b, 1, p + 1);
    TrueBeforeMonotone(b, p + 1, |b|);
    var s := f[m - 1];
    if s > p {
      TrueBeforeMonotone(b, p + 1, s);
    }
    NoTrueBetween(b, s + 1, p + 1);
  }

  /** The run after the one containing p starts at g[m], where g is FlatNonZero(b)
      with |b| appended: everything strictly between p and g[m] is false. */
  lemma RunEnd(b: seq<bool>, p: nat, m: nat, g: seq<nat>)
    requires p < |b| && b[0]
    requires m == TrueBefore(b, p + 1) && g == FlatNonZero(b) + [|b|]
    ensures 1 <= m < |g|
    ensures p < g[m] <= |b| && (g[m] < |b| ==> b[g[m]])
    ensures forall q | p < q < g[m] :: !b[q]
  {
    var f := FlatNonZero(b);
    TrueBeforeMonotone(b, 1, p + 1);
    TrueBeforeMonotone(b, p + 1, |b|);
    var e := g[m];
    if m < |f| {
      if e <= p {
        TrueBeforeMonotone(b, e + 1, p + 1);
      }
    }
    NoTrueBetween(b, p + 1, e);
  }
}
