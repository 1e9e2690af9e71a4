/** worker and parallel_process: the permutation tasks, the zero column a failed
    task contributes, and the R x P store of null coefficients filled one batch of
    columns at a time. */
module NullDistribution {
  import opened Stats
  import opened Batching

  /** What one permutation task produced: its R coefficients, or an exception. */
  datatype TaskOutcome = Completed(coeffs: seq<Stat>) | Raised

  /** The column worker hands back: the coefficients of a task that completed, and
      numRows zeros (numRows being the matrix's row count) for one that raised. */
  function WorkerOutput(o: TaskOutcome, numRows: nat): (col: seq<Stat>)
    ensures o.Completed? ==> col == o.coeffs
    ensures o.Raised? ==> |col| == numRows && forall i | 0 <= i < numRows :: col[i] == Zero
  {
    match o
    case Completed(coeffs) => coeffs
    case Raised => seq(numRows, i => Zero)
  }

  /** The memory-mapped R x P array of null coefficients: entry (i, k) is the
      coefficient of row i under permutation k. */
  class NullStore {
    const numRows: nat
    const numCols: nat
    const cells: array2<Stat>

    ghost predicate Valid() {
      cells.Length0 == numRows && cells.Length1 == numCols
    }

    /** open_memmap(mode='w+'): a new numRows x numCols array of zeros. */
    constructor (numRows: nat, numCols: nat)
      ensures Valid() && fresh(cells)
      ensures this.numRows == numRows && this.numCols == numCols
      ensures forall i, k | 0 <= i < numRows && 0 <= k < numCols :: cells[i, k] == Zero
    {
      this.numRows := numRows;
      this.numCols := numCols;
      cells := new Stat[numRows, numCols]((i, k) => Zero);
    }

    /** Row i: the null coefficients of row i under every permutation. */
    function Row(i: nat): (r: seq<Stat>)
      requires Valid() && i < numRows
      reads cells
      ensures |r| == numCols && forall k | 0 <= k < numCols :: r[k] == cells[i, k]
    {
      seq(numCols, k requires 0 <= k < numCols reads cells => cells[i, k])
    }

    /** mmap_file[:, start:start + |block|] = block, block given as a list of columns:
        column start + t becomes block[t] and every other column keeps its value. */
    method WriteColumns(start: nat, block: seq<seq<Stat>>)
      requires Valid() && start + |block| <= numCols
      requires forall t | 0 <= t < |block| :: |block[t]| == numRows
      modifies cells
      ensures forall i, k | 0 <= i < numRows && 0 <= k < numCols ::
        cells[i, k] == if start <= k < start + |block| then block[k - start][i] else old(cells[i, k])
    {
      for t := 0 to |block|
        invariant forall i, k | 0 <= i < numRows && 0 <= k < numCols ::
          cells[i, k] == if start <= k < start + t then block[k - start][i] else old(cells[i, k])
      {
        for i := 0 to numRows
          invariant forall i', k | 0 <= i' < numRows && 0 <= k < numCols ::
            cells[i', k] == if start <= k < start + t || (k == start + t && i' < i) then block[k - start][i']
                            else old(cells[i', k])
        {
          cells[i, start + t] := block[t][i];
        }
      }
    }
  }

  /** The columns batch i writes: the outputs of tasks [start, end), in task order
      as pool.map returns them. */
  function BatchBlock(outcomes: seq<TaskOutcome>, numRows: nat, start: nat, end: nat): (block: seq<seq<Stat>>)
    requires start <= end <= |outcomes|
    ensures |block| == end - start
    ensures forall t | 0 <= t < end - start :: block[t] == WorkerOutput(outcomes[start + t], numRows)
  {
    seq(end - start, t requires 0 <= t < end - start => WorkerOutput(outcomes[start + t], numRows))
  }

  /** parallel_process with task k's outcome given as outcomes[k] (the shuffle and
      the correlation happen inside the task). The row count is taken from the
      output of the first task, the store is created, and each batch of columns is
      written in turn. Afterwards column k holds task k's output. */
  method ParallelProcess(outcomes: seq<TaskOutcome>, matrixRows: nat, batchSize: nat) returns (store: NullStore)
    requires |outcomes| >= 1 && batchSize >= 1
    requires forall k | 0 <= k < |outcomes| :: outcomes[k].Completed? ==> |outcomes[k].coeffs| == matrixRows
    ensures fresh(store) && fresh(store.cells) && store.Valid()
    ensures store.numRows == matrixRows && store.numCols == |outcomes|
    ensures forall i, k | 0 <= i < matrixRows && 0 <= k < |outcomes| ::
      store.cells[i, k] == WorkerOutput(outcomes[k], matrixRows)[i]
  {
    var nPermutations := |outcomes|;
    var numBatches := NumBatches(nPermutations, batchSize);
    var sample := WorkerOutput(outcomes[0], matrixRows);
    var numRows := |sample|;
    assert numRows == matrixRows;
    store := new NullStore(numRows, nPermutations);
    var done := 0;
    for b := 0 to numBatches
      invariant store.Valid() && fresh(store.cells)
      invariant store.numRows == matrixRows && store.numCols == nPermutations
      invariant b < numBatches ==> done == BatchStart(b, batchSize)
      invariant b == numBatches ==> done == nPermutations
      invariant done <= nPermutations
      invariant forall i, k | 0 <= i < numRows && 0 <= k < done ::
        store.cells[i, k] == WorkerOutput(outcomes[k], numRows)[i]
    {
      BatchShape(b, batchSize, nPermutations);
      BatchesAreContiguous(b, batchSize, nPermutations);
      var batchEnd := BatchEnd(b, batchSize, nPermutations);
      var block := BatchBlock(outcomes, numRows, done, batchEnd);
      store.WriteColumns(done, block);
      done := batchEnd;
    }
  }
}
