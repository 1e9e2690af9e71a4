/** The reference definition of tie-aware ("average") ranks within one row and
    the properties the rank transform promises. */
module RankReference {
  import opened Counting

  /** Twice the average rank of value v in row x. The entries tied with v occupy
      the 1-based sorted positions L+1 .. L+E, where L counts the entries below v
      and E those tied with it, and their mean is L + (E+1)/2. */
  function DoubledRankOf(x: seq<real>, v: real): nat {
    2 * Count(x, v, Below) + Count(x, v, Tied) + 1
  }

  /** The average rank of entry k of x. */
  function AverageRank(x: seq<real>, k: nat): real
    requires k < |x|
  {
    DoubledRankOf(x, x[k]) as real / 2.0
  }

  /** The whole row of average ranks. */
  function AverageRanks(x: seq<real>): (r: seq<real>)
    ensures |r| == |x|
  {
    seq(|x|, k requires 0 <= k < |x| => AverageRank(x, k))
  }

  /** Sum of a row of reals. */
  function Sum(s: seq<real>): real {
    if s == [] then 0.0 else Sum(s[..|s| - 1]) + s[|s| - 1]
  }

  /** Sum of the 1-based positions lo+1 .. hi. */
  function PositionSum(lo: nat, hi: nat): nat
    requires lo <= hi
    decreases hi - lo
  {
    if lo == hi then 0 else PositionSum(lo, hi - 1) + hi
  }

  lemma {:induction false} PositionSumClosedForm(lo: nat, hi: nat)
    requires lo <= hi
    ensures 2 * PositionSum(lo, hi) == (hi - lo) * (lo + hi + 1)
    decreases hi - lo
  {
    if lo < hi {
      PositionSumClosedForm(lo, hi - 1);
      assert (hi - lo) * (lo + hi + 1) == (hi - 1 - lo) * (lo + hi) + 2 * hi;
    }
  }

  /** Every rank lies in [1, |x|]. */
  lemma RankBounds(x: seq<real>, k: nat)
    requires k < |x|
    ensures 1.0 <= AverageRank(x, k) <= |x| as real
  {
    CountTiedMember(x, k);
    CountAtMostSplits(x, x[k]);
  }

  lemma MeanOfRun(lo: nat, e: nat)
    ensures (2 * lo + e + 1) * e == 2 * PositionSum(lo, lo + e)
  {
    PositionSumClosedForm(lo, lo + e);
    assert lo + e - lo == e;
  }

  /** The rank is the mean of the 1-based positions P+1 .. P+E that the tie group
      of x[k] occupies once the row is sorted (P the entries below, E the ties):
      E times the rank is the sum of those positions (both sides doubled). */
  lemma RankIsMeanOfTiePositions(x: seq<real>, k: nat)
    requires k < |x|
    ensures Count(x, x[k], Tied) >= 1
    ensures DoubledRankOf(x, x[k]) * Count(x, x[k], Tied)
         == 2 * PositionSum(Count(x, x[k], Below), Count(x, x[k], Below) + Count(x, x[k], Tied))
  {
    CountTiedMember(x, k);
    MeanOfRun(Count(x, x[k], Below), Count(x, x[k], Tied));
  }

  /** Strict order is preserved: a smaller value gets a strictly smaller rank. */
  lemma StrictOrderPreserved(x: seq<real>, a: nat, b: nat)
    requires a < |x| && b < |x| && x[a] < x[b]
    ensures AverageRank(x, a) < AverageRank(x, b)
  {
    CountMonotone(x, x[a], x[b]);
    CountAtMostSplits(x, x[a]);
    CountTiedMember(x, a);
    CountTiedMember(x, b);
  }

  /** A row whose entries are all equal ranks every entry (C+1)/2. */
  lemma ConstantRowRanksMiddle(x: seq<real>, k: nat)
    requires k < |x|
    requires forall j | 0 <= j < |x| :: x[j] == x[0]
    ensures AverageRank(x, k) == (|x| + 1) as real / 2.0
  {
    CountThreshold(x, x[k], Below, 0);
    CountThreshold(x, x[k], Tied, |x|);
  }

  /** Ranks depend on nothing but the order relations within the row: two rows
      with the same pattern of "below" and "tied" have the same ranks. */
  lemma RanksDependOnlyOnOrder(x: seq<real>, y: seq<real>)
    requires |x| == |y|
    requires forall j, k | 0 <= j < |x| && 0 <= k < |x| :: (x[j] < x[k] <==> y[j] < y[k])
    requires forall j, k | 0 <= j < |x| && 0 <= k < |x| :: (x[j] == x[k] <==> y[j] == y[k])
    ensures AverageRanks(x) == AverageRanks(y)
  {
    forall k | 0 <= k < |x| ensures AverageRank(x, k) == AverageRank(y, k) {
      CountTransfer(x, x[k], y, y[k], Below);
      CountTransfer(x, x[k], y, y[k], Tied);
    }
  }

  /** Re-ranking a row of ranks returns the same ranks. */
  lemma RerankingIsIdentity(x: seq<real>)
    ensures AverageRanks(AverageRanks(x)) == AverageRanks(x)
  {
    var r := AverageRanks(x);
    forall j, k | 0 <= j < |x| && 0 <= k < |x|
      ensures (x[j] < x[k] <==> r[j] < r[k]) && (x[j] == x[k] <==> r[j] == r[k])
    {
      if x[j] < x[k] {
        StrictOrderPreserved(x, j, k);
      } else if x[k] < x[j] {
        StrictOrderPreserved(x, k, j);
      }
    }
    RanksDependOnlyOnOrder(x, r);
  }

  /** The row with f applied to every entry. */
  function MapValues(f: real -> real, x: seq<real>): (y: seq<real>)
    ensures |y| == |x|
  {
    seq(|x|, j requires 0 <= j < |x| => f(x[j]))
  }

  /** A strictly increasing transform of the values leaves the ranks unchanged. */
  lemma MonotoneTransformKeepsRanks(f: real -> real, x: seq<real>)
    requires forall a, b | a < b :: f(a) < f(b)
    ensures AverageRanks(MapValues(f, x)) == AverageRanks(x)
  {
    var y := MapValues(f, x);
    forall j, k | 0 <= j < |x| && 0 <= k < |x|
      ensures (x[j] < x[k] <==> y[j] < y[k]) && (x[j] == x[k] <==> y[j] == y[k])
    {
      if x[k] < x[j] {
        assert f(x[k]) < f(x[j]);
      } else if x[j] < x[k] {
        assert f(x[j]) < f(x[k]);
      }
    }
    RanksDependOnlyOnOrder(y, x);
  }

  // Sum of ranks of the values in ws measured against the row pool, doubled.
  function DoubledRankSum(pool: seq<real>, ws: seq<real>): nat {
    if ws == [] then 0
    else DoubledRankSum(pool, ws[..|ws| - 1]) + DoubledRankOf(pool, ws[|ws| - 1])
  }

  /** Adding v to the pool raises each measured value's doubled rank by 2 when it
      is above v and by 1 when it is tied with v. */
  lemma {:induction false} GrowPool(pool: seq<real>, v: real, ws: seq<real>)
    ensures DoubledRankSum(pool + [v], ws)
         == DoubledRankSum(pool, ws) + 2 * (|ws| - Count(ws, v, AtMost)) + Count(ws, v, Tied)
  {
    if ws != [] {
      var ws' := ws[..|ws| - 1];
      var w := ws[|ws| - 1];
      GrowPool(pool, v, ws');
      CountSnoc(pool, v, w, Below);
      CountSnoc(pool, v, w, Tied);
      assert ws == ws' + [w];
      CountSnoc(ws', w, v, AtMost);
      CountSnoc(ws', w, v, Tied);
      assert Count(ws', v, AtMost) <= |ws'|;
    }
  }

  lemma {:induction false} DoubledRankSumTotal(x: seq<real>)
    ensures DoubledRankSum(x, x) == |x| * (|x| + 1)
  {
    if x != [] {
      var x' := x[..|x| - 1];
      var v := x[|x| - 1];
      var n := |x'|;
      assert x == x' + [v];
      DoubledRankSumTotal(x');
      GrowPool(x', v, x');
      CountSnoc(x', v, v, Below);
      CountSnoc(x', v, v, Tied);
      CountAtMostSplits(x', v);
      assert DoubledRankSum(x, x) == n * (n + 1) + 2 * n + 2;
      assert n * (n + 1) + 2 * n + 2 == (n + 1) * (n + 2);
    }
  }

  lemma {:induction false} HalvedSum(pool: seq<real>, ws: seq<real>)
    ensures Sum(seq(|ws|, k requires 0 <= k < |ws| => DoubledRankOf(pool, ws[k]) as real / 2.0))
         == DoubledRankSum(pool, ws) as real / 2.0
  {
    if ws != [] {
      var ws' := ws[..|ws| - 1];
      HalvedSum(pool, ws');
      var h := seq(|ws|, k requires 0 <= k < |ws| => DoubledRankOf(pool, ws[k]) as real / 2.0);
      var h' := seq(|ws'|, k requires 0 <= k < |ws'| => DoubledRankOf(pool, ws'[k]) as real / 2.0);
      assert h[..|h| - 1] == h';
    }
  }

  /** The ranks of a row of C entries always sum to C(C+1)/2, whatever the ties. */
  lemma RankSumIsTriangular(x: seq<real>)
    ensures Sum(AverageRanks(x)) == (|x| * (|x| + 1)) as real / 2.0
  {
    HalvedSum(x, x);
    DoubledRankSumTotal(x);
    assert AverageRanks(x) == seq(|x|, k requires 0 <= k < |x| => DoubledRankOf(x, x[k]) as real / 2.0);
  }
}
