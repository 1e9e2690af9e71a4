/** rankdata_average: tie-aware average ranks of every row of a matrix, computed
    the way the source computes them (argsort, run boundaries, cumulative counts,
    run starts) and proved equal to the reference ranks of module RankReference. */
module RankTransform {
  import opened Counting
  import opened Permutations
  import opened RankReference
  import opened RowPrimitives

  /** obs of rankdata_average: where a new run of equal values starts once the
      row is put in the order given by sorter. */
  function RunBoundaries(x: seq<real>, sorter: seq<nat>): (obs: seq<bool>)
    requires IsPermutation(sorter, |x|)
    ensures |obs| == if |x| == 0 then 1 else |x|
    ensures obs[0]
  {
    Boundaries(Gather(x, sorter))
  }

  /** dense of rankdata_average: for entry k, the 1-based number of the run that
      holds x[k] in sorted order (the cumulative boundary counts gathered back
      through the inverse permutation). */
  function DenseRanks(x: seq<real>, sorter: seq<nat>): (dense: seq<nat>)
    requires IsPermutation(sorter, |x|)
    ensures |dense| == |x|
    ensures forall p | 0 <= p < |x| :: dense[sorter[p]] == TrueBefore(RunBoundaries(x, sorter), p + 1)
    ensures forall k | 0 <= k < |x| :: 1 <= dense[k] <= CountTrue(RunBoundaries(x, sorter))
  {
    var cs := CumCount(RunBoundaries(x, sorter));
    var dense := Gather(cs, Inverse(sorter));
    assert forall p | 0 <= p < |x| :: dense[sorter[p]] == cs[p];
    dense
  }

  /** count of rankdata_average: the position where each run starts, closed by
      the row length. */
  function RunStarts(x: seq<real>, sorter: seq<nat>): (count: seq<nat>)
    requires IsPermutation(sorter, |x|)
    ensures |count| == CountTrue(RunBoundaries(x, sorter)) + 1
    ensures count[|count| - 1] == |RunBoundaries(x, sorter)|
  {
    var obs := RunBoundaries(x, sorter);
    FlatNonZero(obs) + [|obs|]
  }

  /** The rank rankdata_average gives an entry of run number d (1-based):
      0.5 * (start of the next run + start of run d + 1). */
  function RankOfRun(count: seq<nat>, d: nat): (r: real)
    requires 1 <= d < |count|
    ensures count[d - 1] < count[d] ==> (count[d - 1] + 1) as real <= r <= count[d] as real
  {
    0.5 * ((count[d] + count[d - 1] + 1) as real)
  }

  /** A run starting at b with t entries gets rank (2b + t + 1) / 2. */
  lemma RankOfRunValue(count: seq<nat>, d: nat, b: nat, t: nat)
    requires 1 <= d < |count| && count[d - 1] == b && count[d] == b + t
    ensures RankOfRun(count, d) == (2 * b + t + 1) as real / 2.0
  {
  }

  /** One row of rankdata_average, with the index order of np.argsort passed in as
      sorter. */
  function RowRanksWith(x: seq<real>, sorter: seq<nat>): (r: seq<real>)
    requires IsPermutation(sorter, |x|)
    ensures |r| == |x|
  {
    var dense := DenseRanks(x, sorter);
    var count := RunStarts(x, sorter);
    seq(|x|, k requires 0 <= k < |x| => RankOfRun(count, dense[k]))
  }

  /** Inside a run of equal neighbours the first and the last value agree. */
  lemma {:induction false} SameRun(dc: seq<real>, i: nat, j: nat)
    requires i <= j < |dc|
    requires forall q | i < q <= j :: dc[q] == dc[q - 1]
    ensures dc[i] == dc[j]
    decreases j - i
  {
    if i < j {
      SameRun(dc, i, j - 1);
    }
  }

  /** In a sorted row, the positions holding value v are exactly
      [#below v, #below v + #tied with v). */
  lemma SortedTiePositions(dc: seq<real>, v: real)
    requires Sorted(dc)
    ensures Count(dc, v, AtMost) == Count(dc, v, Below) + Count(dc, v, Tied)
    ensures forall q | 0 <= q < |dc| :: dc[q] < v <==> q < Count(dc, v, Below)
    ensures forall q | 0 <= q < |dc| :: dc[q] <= v <==> q < Count(dc, v, AtMost)
  {
    SortedCountIsPrefix(dc, v, Below);
    SortedCountIsPrefix(dc, v, AtMost);
    CountAtMostSplits(dc, v);
  }

  /** Where no new run starts between i and j, dc[i] and dc[j] agree. */
  lemma FlatRun(dc: seq<real>, i: nat, j: nat)
    requires i <= j < |dc|
    requires forall q | i < q <= j :: !Boundaries(dc)[q]
    ensures dc[i] == dc[j]
  {
    forall q | i < q <= j ensures dc[q] == dc[q - 1] {
      assert !Boundaries(dc)[q];
    }
    SameRun(dc, i, j);
  }

  /** A maximal run [s, e) of equal values in a sorted row starts at #below its
      value and ends at #(at most its value). */
  lemma MaximalRunCounts(dc: seq<real>, s: nat, p: nat, e: nat)
    requires Sorted(dc) && s <= p < e <= |dc|
    requires dc[s] == dc[p] && dc[e - 1] == dc[p]
    requires s > 0 ==> dc[s - 1] != dc[s]
    requires e < |dc| ==> dc[e] != dc[e - 1]
    ensures s == Count(dc, dc[p], Below) && e == Count(dc, dc[p], AtMost)
  {
    SortedTiePositions(dc, dc[p]);
    if s > 0 {
      SortedPair(dc, s - 1, s);
    }
    if e < |dc| {
      SortedPair(dc, e - 1, e);
    }
  }

  /** The run of equal values around position p of dc, as rankdata_average finds
      it, starts at count[m-1], where m is the cumulative boundary count at p. */
  lemma RunFirst(dc: seq<real>, p: nat, m: nat, count: seq<nat>)
    requires p < |dc|
    requires m == TrueBefore(Boundaries(dc), p + 1)
    requires count == FlatNonZero(Boundaries(dc)) + [|Boundaries(dc)|]
    ensures 1 <= m < |count| && count[m - 1] <= p
    ensures dc[count[m - 1]] == dc[p]
    ensures count[m - 1] > 0 ==> dc[count[m - 1] - 1] != dc[count[m - 1]]
  {
    var obs := Boundaries(dc);
    RunStart(obs, p, m, FlatNonZero(obs));
    FlatRun(dc, count[m - 1], p);
  }

  /** The run of equal values around position p of dc ends just before
      count[m], where the next run starts. */
  lemma RunLast(dc: seq<real>, p: nat, m: nat, count: seq<nat>)
    requires p < |dc|
    requires m == TrueBefore(Boundaries(dc), p + 1)
    requires count == FlatNonZero(Boundaries(dc)) + [|Boundaries(dc)|]
    ensures 1 <= m < |count| && p < count[m] <= |dc|
    ensures dc[count[m] - 1] == dc[p]
    ensures count[m] < |dc| ==> dc[count[m]] != dc[count[m] - 1]
  {
    var obs := Boundaries(dc);
    RunEnd(obs, p, m, count);
    FlatRun(dc, p, count[m] - 1);
  }

  /** In a sorted row, the run of dc[p] starts at #below dc[p] and the next run
      starts at #(at most dc[p]): the two run starts rankdata_average reads. */
  lemma SortedRunLimits(dc: seq<real>, p: nat, m: nat, count: seq<nat>)
    requires Sorted(dc) && p < |dc|
    requires m == TrueBefore(Boundaries(dc), p + 1)
    requires count == FlatNonZero(Boundaries(dc)) + [|Boundaries(dc)|]
    ensures 1 <= m < |count|
    ensures count[m - 1] == Count(dc, dc[p], Below)
    ensures count[m] == Count(dc, dc[p], AtMost)
  {
    RunFirst(dc, p, m, count);
    RunLast(dc, p, m, count);
    MaximalRunCounts(dc, count[m - 1], p, count[m]);
  }

  /** Reordering keeps the "below" and "at most" counts rankdata_average reads. */
  lemma GatheredCounts(x: seq<real>, sorter: seq<nat>, v: real)
    requires IsPermutation(sorter, |x|)
    ensures Count(Gather(x, sorter), v, Below) == Count(x, v, Below)
    ensures Count(Gather(x, sorter), v, AtMost) == Count(x, v, Below) + Count(x, v, Tied)
  {
    CountAtMostSplits(Gather(x, sorter), v);
    GatherPreservesCounts(x, sorter, v, Below);
    GatherPreservesCounts(x, sorter, v, Tied);
  }

  /** The two run starts entry k of the source's row computation reads are
      #below x[k] and #(at most x[k]). */
  lemma RunStartsOfEntry(x: seq<real>, sorter: seq<nat>, p: nat, m: nat, count: seq<nat>)
    requires IsArgSort(x, sorter) && p < |x|
    requires m == DenseRanks(x, sorter)[sorter[p]] && count == RunStarts(x, sorter)
    ensures 1 <= m < |count|
    ensures count[m - 1] == Count(x, x[sorter[p]], Below)
    ensures count[m] == Count(x, x[sorter[p]], Below) + Count(x, x[sorter[p]], Tied)
  {
    var dc := Gather(x, sorter);
    var obs := Boundaries(dc);
    assert count == FlatNonZero(obs) + [|obs|];
    SortedRunLimits(dc, p, m, count);
    GatheredCounts(x, sorter, dc[p]);
  }

  /** Entry sorter[p] of the source's row computation equals the reference
      average rank, whichever sorting permutation argsort returned. */
  lemma RowRanksWithEntry(x: seq<real>, sorter: seq<nat>, p: nat)
    requires IsArgSort(x, sorter) && p < |x|
    ensures RowRanksWith(x, sorter)[sorter[p]] == AverageRank(x, sorter[p])
  {
    var k := sorter[p];
    var m := DenseRanks(x, sorter)[k];
    var count := RunStarts(x, sorter);
    var b, t := Count(x, x[k], Below), Count(x, x[k], Tied);
    RunStartsOfEntry(x, sorter, p, m, count);
    assert RowRanksWith(x, sorter)[k] == RankOfRun(count, m);
    RankOfRunValue(count, m, b, t);
  }

  /** The source's row computation yields the reference average ranks for every
      sorting permutation, so also for the one argsort picks. */
  lemma RowRanksWithCorrect(x: seq<real>, sorter: seq<nat>)
    requires IsArgSort(x, sorter)
    ensures RowRanksWith(x, sorter) == AverageRanks(x)
  {
    forall k | 0 <= k < |x| ensures RowRanksWith(x, sorter)[k] == AverageRanks(x)[k] {
      var p := IndexOf(sorter, k);
      RowRanksWithEntry(x, sorter, p);
    }
  }

  /** rankdata_average on one row: the source's computation with argsort's order,
      which yields the reference average ranks. */
  function RowRanks(x: seq<real>): (r: seq<real>)
    ensures r == AverageRanks(x)
  {
    RowRanksWithCorrect(x, ArgSort(x));
    RowRanksWith(x, ArgSort(x))
  }

  /** In sorted order the tie group of x[k] occupies exactly the positions
      [#below, #below + #tied), whichever sorting permutation is used. */
  lemma TieGroupPositions(x: seq<real>, sorter: seq<nat>, k: nat)
    requires IsArgSort(x, sorter) && k < |x|
    ensures forall q | 0 <= q < |x| ::
      x[sorter[q]] == x[k] <==>
        Count(x, x[k], Below) <= q < Count(x, x[k], Below) + Count(x, x[k], Tied)
  {
    var dc := Gather(x, sorter);
    SortedTiePositions(dc, x[k]);
    GatherPreservesCounts(x, sorter, x[k], Below);
    GatherPreservesCounts(x, sorter, x[k], Tied);
    assert forall q | 0 <= q < |x| :: dc[q] == x[sorter[q]];
  }

  /** A row of distinct values ranks to a permutation of 1..C: the entry at
      sorted position p gets rank p+1, and no two entries share a rank. */
  lemma DistinctRowRanksArePermutation(x: seq<real>, sorter: seq<nat>)
    requires IsArgSort(x, sorter)
    requires forall a, b | 0 <= a < b < |x| :: x[a] != x[b]
    ensures forall p | 0 <= p < |x| :: AverageRank(x, sorter[p]) == (p + 1) as real
    ensures forall a, b | 0 <= a < b < |x| :: AverageRank(x, a) != AverageRank(x, b)
  {
    forall p | 0 <= p < |x| ensures AverageRank(x, sorter[p]) == (p + 1) as real {
      var k := sorter[p];
      TieGroupPositions(x, sorter, k);
      CountTiedDistinct(x, k);
    }
    forall a, b | 0 <= a < b < |x| ensures AverageRank(x, a) != AverageRank(x, b) {
      if x[a] < x[b] {
        StrictOrderPreserved(x, a, b);
      } else {
        StrictOrderPreserved(x, b, a);
      }
    }
  }

  /** rankdata_average on a whole matrix: each row ranked on its own. */
  function RankMatrix(rows: seq<seq<real>>): (r: seq<seq<real>>)
    ensures |r| == |rows|
    ensures forall i | 0 <= i < |rows| :: r[i] == AverageRanks(rows[i])
  {
    seq(|rows|, i requires 0 <= i < |rows| => RowRanks(rows[i]))
  }

  /** The rows of a matrix as values. */
  function Rows(a: array2<real>): (rows: seq<seq<real>>)
    reads a
    ensures |rows| == a.Length0
    ensures forall i | 0 <= i < a.Length0 :: |rows[i]| == a.Length1
    ensures forall i, k | 0 <= i < a.Length0 && 0 <= k < a.Length1 :: rows[i][k] == a[i, k]
  {
    seq(a.Length0, i requires 0 <= i < a.Length0 reads a =>
      seq(a.Length1, k requires 0 <= k < a.Length1 reads a => a[i, k]))
  }

  /** np.count_nonzero(obs) for one row: the number of runs of equal values once
      the row is sorted. The source groups rows by this number. */
  function RunCount(x: seq<real>): (n: nat)
    ensures 1 <= n <= if |x| == 0 then 1 else |x|
  {
    var cs := CumCount(Boundaries(Gather(x, ArgSort(x))));
    assert 1 <= cs[0];
    CountTrue(Boundaries(Gather(x, ArgSort(x))))
  }

  /** A number above every entry of s. */
  function Bound(s: seq<nat>): (n: nat)
    ensures forall i | 0 <= i < |s| :: s[i] < n
  {
    if s == [] then 0
    else
      var b := Bound(s[..|s| - 1]);
      if s[|s| - 1] < b then b else s[|s| - 1] + 1
  }

  function UniqueBelow(s: seq<nat>, n: nat): (u: seq<nat>)
    ensures forall i, j | 0 <= i < j < |u| :: u[i] < u[j]
    ensures forall v: nat :: v in u <==> v < n && v in s
  {
    if n == 0 then []
    else
      var u := UniqueBelow(s, n - 1);
      assert forall i | 0 <= i < |u| :: u[i] in u;
      u + (if n - 1 in s then [n - 1] else [])
  }

  /** np.unique on a row of counts: its distinct values in increasing order. */
  function Unique(s: seq<nat>): (u: seq<nat>)
    ensures forall i, j | 0 <= i < j < |u| :: u[i] < u[j]
    ensures forall v: nat :: v in u <==> v in s
  {
    UniqueBelow(s, Bound(s))
  }

  /** np.where(s == v)[0]: the positions holding v, in increasing order. */
  function Where(s: seq<nat>, v: nat): (idx: seq<nat>)
    ensures forall t, t' | 0 <= t < t' < |idx| :: idx[t] < idx[t']
    ensures forall t | 0 <= t < |idx| :: idx[t] < |s| && s[idx[t]] == v
    ensures forall i: nat :: i in idx <==> i < |s| && s[i] == v
  {
    if s == [] then []
    else
      var idx := Where(s[..|s| - 1], v);
      assert forall t | 0 <= t < |idx| :: idx[t] in idx;
      idx + (if s[|s| - 1] == v then [|s| - 1] else [])
  }

  lemma PrefixSnoc<T>(s: seq<T>, h: nat)
    requires h < |s|
    ensures s[..h + 1] == s[..h] + [s[h]]
  {
  }

  /** final_ranks[indices] = result: every row listed in indices is overwritten
      with result, which holds that row of target; every other row keeps its
      values. */
  method WriteGroup(a: array2<real>, indices: seq<nat>, result: seq<seq<real>>, target: seq<seq<real>>)
    requires |target| == a.Length0 && forall i | 0 <= i < |target| :: |target[i]| == a.Length1
    requires |result| == |indices|
    requires forall t | 0 <= t < |indices| :: indices[t] < a.Length0 && result[t] == target[indices[t]]
    modifies a
    ensures forall i, k | 0 <= i < a.Length0 && 0 <= k < a.Length1 ::
      a[i, k] == if i in indices then target[i][k] else old(a[i, k])
  {
    for t := 0 to |indices|
      invariant forall i, k | 0 <= i < a.Length0 && 0 <= k < a.Length1 ::
        a[i, k] == if i in indices[..t] then target[i][k] else old(a[i, k])
    {
      var i := indices[t];
      for k := 0 to a.Length1
        invariant forall i', k' | 0 <= i' < a.Length0 && 0 <= k' < a.Length1 ::
          a[i', k'] ==
            if i' in indices[..t] || (i' == i && k' < k) then target[i'][k'] else old(a[i', k'])
      {
        a[i, k] := result[t][k];
      }
      assert indices[..t + 1] == indices[..t] + [i];
    }
    assert indices[..|indices|] == indices;
  }

  /** The first loop of rankdata_average: for each distinct run count, the rows
      with that count and their ranks. */
  method RankGroups(rows: seq<seq<real>>, nonzero: seq<nat>, uniqueNonzero: seq<nat>)
    returns (ranksList: seq<(seq<nat>, seq<seq<real>>)>)
    requires |nonzero| == |rows|
    ensures |ranksList| == |uniqueNonzero|
    ensures forall h | 0 <= h < |ranksList| :: ranksList[h].0 == Where(nonzero, uniqueNonzero[h])
    ensures forall h | 0 <= h < |ranksList| :: |ranksList[h].1| == |ranksList[h].0|
    ensures forall h, t | 0 <= h < |ranksList| && 0 <= t < |ranksList[h].0| ::
      ranksList[h].0[t] < |rows| && ranksList[h].1[t] == RankMatrix(rows)[ranksList[h].0[t]]
  {
    ranksList := [];
    for g := 0 to |uniqueNonzero|
      invariant |ranksList| == g
      invariant forall h | 0 <= h < g :: ranksList[h].0 == Where(nonzero, uniqueNonzero[h])
      invariant forall h | 0 <= h < g :: |ranksList[h].1| == |ranksList[h].0|
      invariant forall h, t | 0 <= h < g && 0 <= t < |ranksList[h].0| ::
        ranksList[h].0[t] < |rows| && ranksList[h].1[t] == RankMatrix(rows)[ranksList[h].0[t]]
    {
      var indices := Where(nonzero, uniqueNonzero[g]);
      var result := seq(|indices|, t requires 0 <= t < |indices| => RowRanks(rows[indices[t]]));
      ranksList := ranksList + [(indices, result)];
    }
  }

  /** How many times the first h groups of ranks_list write row i: once for
      every occurrence of i in each group's index list. */
  function Writes(ranksList: seq<(seq<nat>, seq<seq<real>>)>, i: nat, h: nat): nat
    requires h <= |ranksList|
  {
    if h == 0 then 0 else Writes(ranksList, i, h - 1) + multiset(ranksList[h - 1].0)[i]
  }

  /** A strictly increasing list holds each value at most once. */
  lemma {:induction false} IncreasingOccursOnce(s: seq<nat>, x: nat)
    requires forall t, t' | 0 <= t < t' < |s| :: s[t] < s[t']
    ensures multiset(s)[x] == if x in s then 1 else 0
  {
    if s != [] {
      IncreasingOccursOnce(s[1..], x);
      assert s == [s[0]] + s[1..];
      if x == s[0] {
        forall j | 0 <= j < |s[1..]| ensures s[1..][j] != x {
          assert s[1..][j] == s[j + 1];
        }
      }
    }
  }

  /** np.where(s == v)[0] lists row i once when s[i] == v, and not at all otherwise. */
  lemma WhereOccursOnce(s: seq<nat>, v: nat, i: nat)
    requires i < |s|
    ensures multiset(Where(s, v))[i] == if s[i] == v then 1 else 0
  {
    IncreasingOccursOnce(Where(s, v), i);
  }

  /** In a strictly increasing list, x lies in the first h entries exactly when it
      lies in the first h - 1 or is entry h - 1, and not both. */
  lemma PrefixMembership(u: seq<nat>, h: nat, x: nat)
    requires forall j, j' | 0 <= j < j' < |u| :: u[j] < u[j']
    requires 0 < h <= |u|
    ensures x in u[..h] <==> x in u[..h - 1] || x == u[h - 1]
    ensures !(x in u[..h - 1] && x == u[h - 1])
  {
    assert u[..h] == u[..h - 1] + [u[h - 1]];
    if x in u[..h - 1] {
      var j :| 0 <= j < h - 1 && u[..h - 1][j] == x;
      assert u[j] < u[h - 1];
    }
  }

  /** The first h groups write row i once if x, its run count, is among the first
      h distinct counts, and not at all otherwise. */
  lemma {:induction false} WritesPrefix(uniqueNonzero: seq<nat>, ranksList: seq<(seq<nat>, seq<seq<real>>)>,
                                        i: nat, x: nat, h: nat)
    requires forall j, j' | 0 <= j < j' < |uniqueNonzero| :: uniqueNonzero[j] < uniqueNonzero[j']
    requires |ranksList| == |uniqueNonzero| && h <= |ranksList|
    requires forall g | 0 <= g < |ranksList| ::
      multiset(ranksList[g].0)[i] == if x == uniqueNonzero[g] then 1 else 0
    ensures Writes(ranksList, i, h) == if x in uniqueNonzero[..h] then 1 else 0
  {
    if h > 0 {
      WritesPrefix(uniqueNonzero, ranksList, i, x, h - 1);
      PrefixMembership(uniqueNonzero, h, x);
    }
  }

  /** Row i is written exactly once when its run count is one of the strictly
      increasing distinct counts and group g lists the rows with count g. */
  lemma RowWrittenOnce(nonzero: seq<nat>, uniqueNonzero: seq<nat>,
                       ranksList: seq<(seq<nat>, seq<seq<real>>)>, i: nat)
    requires forall j, j' | 0 <= j < j' < |uniqueNonzero| :: uniqueNonzero[j] < uniqueNonzero[j']
    requires i < |nonzero| && nonzero[i] in uniqueNonzero
    requires |ranksList| == |uniqueNonzero|
    requires forall h | 0 <= h < |ranksList| :: ranksList[h].0 == Where(nonzero, uniqueNonzero[h])
    ensures Writes(ranksList, i, |ranksList|) == 1
  {
    forall g | 0 <= g < |ranksList|
      ensures multiset(ranksList[g].0)[i] == if nonzero[i] == uniqueNonzero[g] then 1 else 0
    {
      WhereOccursOnce(nonzero, uniqueNonzero[g], i);
    }
    WritesPrefix(uniqueNonzero, ranksList, i, nonzero[i], |ranksList|);
    assert uniqueNonzero[..|ranksList|] == uniqueNonzero;
  }

  /** Grouping rows by distinct run count writes every row of final_ranks exactly
      once: its count lies in exactly one group, and a group lists it once. */
  lemma EachRowWrittenOnce(nonzero: seq<nat>, uniqueNonzero: seq<nat>,
                           ranksList: seq<(seq<nat>, seq<seq<real>>)>)
    requires uniqueNonzero == Unique(nonzero)
    requires |ranksList| == |uniqueNonzero|
    requires forall h | 0 <= h < |ranksList| :: ranksList[h].0 == Where(nonzero, uniqueNonzero[h])
    ensures forall i | 0 <= i < |nonzero| :: Writes(ranksList, i, |ranksList|) == 1
  {
    forall i | 0 <= i < |nonzero| ensures Writes(ranksList, i, |ranksList|) == 1 {
      assert nonzero[i] in nonzero;
      RowWrittenOnce(nonzero, uniqueNonzero, ranksList, i);
    }
  }

  /** Lines 24-35 of rankdata_average: the run count of every row, the distinct
      counts, and for each of them the rows with that count and their ranks.
      Every row's count is among the distinct ones, so every row is in a group;
      EachRowWrittenOnce shows that the groups write every row exactly once. */
  method GroupRows(rows: seq<seq<real>>)
    returns (nonzero: seq<nat>, uniqueNonzero: seq<nat>, ranksList: seq<(seq<nat>, seq<seq<real>>)>)
    ensures |nonzero| == |rows| && forall i | 0 <= i < |rows| :: nonzero[i] == RunCount(rows[i])
    ensures uniqueNonzero == Unique(nonzero)
    ensures forall i | 0 <= i < |nonzero| :: nonzero[i] in uniqueNonzero
    ensures |ranksList| == |uniqueNonzero|
    ensures forall h | 0 <= h < |ranksList| :: ranksList[h].0 == Where(nonzero, uniqueNonzero[h])
    ensures forall h | 0 <= h < |ranksList| :: |ranksList[h].1| == |ranksList[h].0|
    ensures forall h, t | 0 <= h < |ranksList| && 0 <= t < |ranksList[h].0| ::
      ranksList[h].0[t] < |rows| && ranksList[h].1[t] == RankMatrix(rows)[ranksList[h].0[t]]
  {
    nonzero := seq(|rows|, i requires 0 <= i < |rows| => RunCount(rows[i]));
    uniqueNonzero := Unique(nonzero);
    forall i | 0 <= i < |nonzero| ensures nonzero[i] in uniqueNonzero {
      assert nonzero[i] in nonzero;
    }
    ranksList := RankGroups(rows, nonzero, uniqueNonzero);
  }

  /** The second loop of rankdata_average: each group of ranksList written into a.
      When every row's run count is one of uniqueNonzero, every row ends up
      holding its target ranks. */
  method WriteGroups(a: array2<real>, nonzero: seq<nat>, uniqueNonzero: seq<nat>,
                     ranksList: seq<(seq<nat>, seq<seq<real>>)>, target: seq<seq<real>>)
    requires |target| == a.Length0 && |nonzero| == a.Length0
    requires forall i | 0 <= i < |target| :: |target[i]| == a.Length1
    requires forall i | 0 <= i < |nonzero| :: nonzero[i] in uniqueNonzero
    requires |ranksList| == |uniqueNonzero|
    requires forall h | 0 <= h < |ranksList| :: ranksList[h].0 == Where(nonzero, uniqueNonzero[h])
    requires forall h | 0 <= h < |ranksList| :: |ranksList[h].1| == |ranksList[h].0|
    requires forall h, t | 0 <= h < |ranksList| && 0 <= t < |ranksList[h].0| ::
      ranksList[h].0[t] < |target| && ranksList[h].1[t] == target[ranksList[h].0[t]]
    modifies a
    ensures forall i, k | 0 <= i < a.Length0 && 0 <= k < a.Length1 :: a[i, k] == target[i][k]
  {
    for h := 0 to |ranksList|
      invariant forall i, k | 0 <= i < a.Length0 && 0 <= k < a.Length1 ::
        a[i, k] == if nonzero[i] in uniqueNonzero[..h] then target[i][k] else old(a[i, k])
    {
      WriteGroup(a, ranksList[h].0, ranksList[h].1, target);
      PrefixSnoc(uniqueNonzero, h);
    }
    assert uniqueNonzero[..|ranksList|] == uniqueNonzero;
  }

  /** rankdata_average on the rows as values: rows are grouped by their number of
      runs of equal values, each group's ranks are computed, and then every group
      is written into a zero-initialised n0 x n1 output, whose row i is then the
      average ranks of rows[i]. */
  method FillRanks(rows: seq<seq<real>>, n0: nat, n1: nat) returns (finalRanks: array2<real>)
    requires |rows| == n0 && forall i | 0 <= i < n0 :: |rows[i]| == n1
    ensures fresh(finalRanks)
    ensures finalRanks.Length0 == n0 && finalRanks.Length1 == n1
    ensures forall i, k | 0 <= i < n0 && 0 <= k < n1 :: finalRanks[i, k] == RankMatrix(rows)[i][k]
  {
    var target := RankMatrix(rows);
    var nonzero, uniqueNonzero, ranksList := GroupRows(rows);
    finalRanks := new real[n0, n1]((i, k) => 0.0);
    WriteGroups(finalRanks, nonzero, uniqueNonzero, ranksList, target);
  }

  /** rankdata_average: every entry of the output is the average rank of the
      corresponding entry of the input within its row. A matrix without rows
      makes apply_along_axis raise, so at least one row is required. */
  method RankData(data: array2<real>) returns (finalRanks: array2<real>)
    requires data.Length0 >= 1
    ensures fresh(finalRanks)
    ensures finalRanks.Length0 == data.Length0 && finalRanks.Length1 == data.Length1
    ensures forall i, k | 0 <= i < data.Length0 && 0 <= k < data.Length1 ::
      finalRanks[i, k] == RankMatrix(Rows(data))[i][k]
    ensures forall i, k | 0 <= i < data.Length0 && 0 <= k < data.Length1 ::
      finalRanks[i, k] == AverageRank(Rows(data)[i], k)
  {
    finalRanks := FillRanks(Rows(data), data.Length0, data.Length1);
  }
}
