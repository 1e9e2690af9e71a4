/** The permutation test for one attribute type: the observed Spearman coefficients,
    the null store filled by permutation tasks, the p-values read back from it
    and their clip before -log10. */
module Pipeline {
  import opened Stats
  import opened Permutations
  import opened RankReference
  import opened RankTransform
  import opened Spearman
  import opened NullDistribution
  import opened Significance

  /** worker: the effect sizes reordered by shuffle (standing in for
      np.random.permutation), then runCorrelation. A shape that does not broadcast
      raises inside the task and is caught. */
  function Worker(rows: seq<seq<real>>, cols: nat, y: seq<real>, corrType: string, corr: Correlation, shuffle: seq<nat>)
    : (o: TaskOutcome)
    requires IsMatrix(rows, cols) && IsPermutation(shuffle, |y|)
    ensures o.Raised? <==> !Broadcastable(cols, |y|)
    ensures o.Completed? ==> |o.coeffs| == |rows|
    ensures o.Completed? ==> forall i | 0 <= i < |rows| ::
      o.coeffs[i] == corr(AverageRanks(rows[i]), AverageRanks(Gather(y, shuffle)))
  {
    var shuffled := Gather(y, shuffle);
    if Broadcastable(cols, |shuffled|) then Completed(RunCorrelation(rows, cols, shuffled, corrType, corr).0)
    else Raised
  }

  /** Every shuffle is a permutation of the effect sizes. */
  predicate Shuffles(shuffles: seq<seq<nat>>, m: nat) {
    forall k | 0 <= k < |shuffles| :: IsPermutation(shuffles[k], m)
  }

  /** The null coefficients of row i: entry k is what task k puts in row i of the
      store. When the shapes broadcast it is the Spearman coefficient of row i
      against the effect sizes as shuffle k reorders them. */
  function NullRow(rows: seq<seq<real>>, cols: nat, y: seq<real>, corrType: string, corr: Correlation,
                   shuffles: seq<seq<nat>>, i: nat): (r: seq<Stat>)
    requires IsMatrix(rows, cols) && Shuffles(shuffles, |y|) && i < |rows|
    ensures |r| == |shuffles|
    ensures forall k | 0 <= k < |shuffles| :: r[k] == WorkerOutput(Worker(rows, cols, y, corrType, corr, shuffles[k]), |rows|)[i]
    ensures Broadcastable(cols, |y|) ==> forall k | 0 <= k < |shuffles| ::
      r[k] == corr(AverageRanks(rows[i]), AverageRanks(Gather(y, shuffles[k])))
  {
    seq(|shuffles|, k requires 0 <= k < |shuffles| =>
      WorkerOutput(Worker(rows, cols, y, corrType, corr, shuffles[k]), |rows|)[i])
  }

  /** The shuffle that leaves the effect sizes where they are. */
  function Identity(m: nat): (s: seq<nat>)
    ensures IsPermutation(s, m)
    ensures forall p | 0 <= p < m :: s[p] == p
  {
    var s := seq(m, p requires 0 <= p < m => p);
    forall k: nat | k < m ensures k in s {
      assert s[k] == k;
    }
    s
  }

  /** Gathering by the identity shuffle gives the effect sizes back. */
  lemma IdentityGather(y: seq<real>)
    ensures Gather(y, Identity(|y|)) == y
  {
  }

  /** If one of the shuffles is the identity, a defined observed coefficient meets
      itself in the null row, so its p-value is at least 1/P. */
  lemma IdentityShuffleCountsItself(rows: seq<seq<real>>, cols: nat, y: seq<real>, corrType: string, corr: Correlation,
                                    shuffles: seq<seq<nat>>, i: nat, k0: nat)
    requires IsMatrix(rows, cols) && Broadcastable(cols, |y|) && Shuffles(shuffles, |y|) && i < |rows|
    requires k0 < |shuffles| && shuffles[k0] == Identity(|y|)
    requires SpearmanRow(rows, cols, y, corr)[i].Num?
    ensures PValue(NullRow(rows, cols, y, corrType, corr, shuffles, i), SpearmanRow(rows, cols, y, corr)[i]).v
         >= 1.0 / |shuffles| as real
  {
    var row := NullRow(rows, cols, y, corrType, corr, shuffles, i);
    var observed := SpearmanRow(rows, cols, y, corr)[i];
    IdentityGather(y);
    assert row[k0] == corr(AverageRanks(rows[i]), AverageRanks(Gather(y, shuffles[k0])));
    assert observed == corr(AverageRanks(rows[i]), AverageRanks(y));
    PValueAtLeastOneOverP(row, observed, k0);
  }

  /** Row i of a store whose column k holds task k's output is the null row of i. */
  lemma StoreRowIsNullRow(store: NullStore, rows: seq<seq<real>>, cols: nat, y: seq<real>, corrType: string,
                          corr: Correlation, shuffles: seq<seq<nat>>, i: nat)
    requires IsMatrix(rows, cols) && Shuffles(shuffles, |y|) && i < |rows|
    requires store.Valid() && store.numRows == |rows| && store.numCols == |shuffles|
    requires forall k | 0 <= k < |shuffles| ::
      store.cells[i, k] == WorkerOutput(Worker(rows, cols, y, corrType, corr, shuffles[k]), |rows|)[i]
    ensures store.Row(i) == NullRow(rows, cols, y, corrType, corr, shuffles, i)
  {
  }

  /** parallel_process for these tasks: task k is worker under shuffle k, and row
      i of the resulting store is the null row of i. */
  method BuildNullStore(rows: seq<seq<real>>, cols: nat, y: seq<real>, corrType: string, corr: Correlation,
                        shuffles: seq<seq<nat>>, permBatchSize: nat)
    returns (store: NullStore)
    requires IsMatrix(rows, cols) && |shuffles| >= 1 && Shuffles(shuffles, |y|) && permBatchSize >= 1
    ensures fresh(store) && store.Valid() && store.numRows == |rows| && store.numCols == |shuffles|
    ensures forall i | 0 <= i < |rows| :: store.Row(i) == NullRow(rows, cols, y, corrType, corr, shuffles, i)
  {
    var outcomes := seq(|shuffles|, k requires 0 <= k < |shuffles| =>
      Worker(rows, cols, y, corrType, corr, shuffles[k]));
    store := ParallelProcess(outcomes, |rows|, permBatchSize);
    forall i | 0 <= i < |rows| ensures store.Row(i) == NullRow(rows, cols, y, corrType, corr, shuffles, i) {
      StoreRowIsNullRow(store, rows, cols, y, corrType, corr, shuffles, i);
    }
  }

  /** Lines 216-222 given the observed coefficients: the null store of
      |shuffles| permutations in batches of permBatchSize, the p-values in chunks
      of percentileBatchSize rows, and the clip. Entry i is the clipped p-value of
      observed[i] against the null row of i. */
  method NullPValues(rows: seq<seq<real>>, cols: nat, y: seq<real>, corrType: string, corr: Correlation,
                     shuffles: seq<seq<nat>>, observed: seq<Stat>, permBatchSize: nat, percentileBatchSize: nat)
    returns (clippedP: seq<Stat>)
    requires IsMatrix(rows, cols) && |observed| == |rows|
    requires |shuffles| >= 1 && Shuffles(shuffles, |y|)
    requires permBatchSize >= 1 && percentileBatchSize >= 1
    ensures |clippedP| == |rows|
    ensures forall i | 0 <= i < |rows| ::
      clippedP[i] == ClipP(PValue(NullRow(rows, cols, y, corrType, corr, shuffles, i), observed[i]))
  {
    var store := BuildNullStore(rows, cols, y, corrType, corr, shuffles, permBatchSize);
    ghost var writes;
    var pValues;
    pValues, writes := ComputePValues(store, observed, percentileBatchSize);
    clippedP := ClipAll(pValues);
  }

  /** Lines 209-222 for one attribute type: the observed coefficients, then the
      clipped p-values of NullPValues. Entry i of the result is the clipped
      fraction of permutations whose coefficient for row i reaches the observed
      one. */
  method PermutationTest(data: array2<real>, y: seq<real>, corrType: string, corr: Correlation,
                         shuffles: seq<seq<nat>>, permBatchSize: nat, percentileBatchSize: nat)
    returns (allCoeffs: seq<Stat>, clippedP: seq<Stat>)
    requires data.Length0 >= 1
    requires Broadcastable(data.Length1, |y|)
    requires |shuffles| >= 1 && Shuffles(shuffles, |y|)
    requires permBatchSize >= 1 && percentileBatchSize >= 1
    ensures IsMatrix(Rows(data), data.Length1)
    ensures allCoeffs == SpearmanRow(Rows(data), data.Length1, y, corr)
    ensures |clippedP| == data.Length0
    ensures forall i | 0 <= i < data.Length0 ::
      clippedP[i] == ClipP(PValue(NullRow(Rows(data), data.Length1, y, corrType, corr, shuffles, i), allCoeffs[i]))
  {
    allCoeffs := SpearmanRowOf(data, y, corr);
    clippedP := NullPValues(Rows(data), data.Length1, y, corrType, corr, shuffles, allCoeffs,
                            permBatchSize, percentileBatchSize);
  }
}
