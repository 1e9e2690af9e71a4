/** The batch arithmetic shared by the permutation loop of parallel_process (batches
    of task indices) and the row loop of read_mmap_file_and_compute_pvalues (chunks
    of rows): ceil(n/size) half-open ranges [i*size, min((i+1)*size, n)). */
module Batching {

  /** (n + size - 1) // size: the number of batches. */
  function NumBatches(n: nat, size: nat): nat
    requires size >= 1
  {
    (n + size - 1) / size
  }

  /** i * size: where batch i starts. */
  function BatchStart(i: nat, size: nat): nat {
    i * size
  }

  /** min((i + 1) * size, n): where batch i ends (exclusive). */
  function BatchEnd(i: nat, size: nat, n: nat): nat {
    if (i + 1) * size < n then (i + 1) * size else n
  }

  /** NumBatches is the ceiling of n / size: the fewest batches of size entries
      that hold n entries. */
  lemma NumBatchesIsCeiling(n: nat, size: nat)
    requires size >= 1
    ensures NumBatches(n, size) * size >= n
    ensures NumBatches(n, size) == 0 || (NumBatches(n, size) - 1) * size < n
  {
    var b := NumBatches(n, size);
    var r := (n + size - 1) % size;
    assert n + size - 1 == b * size + r && 0 <= r < size;
    if b > 0 {
      assert (b - 1) * size == b * size - size;
    }
  }

  /** Every batch is non-empty, lies within [0, n) and holds at most size entries. */
  lemma BatchShape(i: nat, size: nat, n: nat)
    requires size >= 1 && i < NumBatches(n, size)
    ensures BatchStart(i, size) < BatchEnd(i, size, n) <= n
    ensures BatchEnd(i, size, n) - BatchStart(i, size) <= size
  {
    NumBatchesIsCeiling(n, size);
    assert i * size <= (NumBatches(n, size) - 1) * size;
    assert (i + 1) * size == i * size + size;
  }

  /** Consecutive batches meet without gap or overlap, and the last one ends at n. */
  lemma BatchesAreContiguous(i: nat, size: nat, n: nat)
    requires size >= 1 && i < NumBatches(n, size)
    ensures i + 1 < NumBatches(n, size) ==> BatchEnd(i, size, n) == BatchStart(i + 1, size)
    ensures i + 1 == NumBatches(n, size) ==> BatchEnd(i, size, n) == n
  {
    NumBatchesIsCeiling(n, size);
    if i + 1 < NumBatches(n, size) {
      assert (i + 1) * size <= (NumBatches(n, size) - 1) * size;
    }
  }

  /** Multiplying by a common size keeps the order. */
  lemma MulMonotone(a: nat, b: nat, size: nat)
    requires a <= b
    ensures a * size <= b * size
  {
    assert b * size == a * size + (b - a) * size;
  }

  /** Entry k of [0, n) lies in batch k / size. */
  lemma BatchOf(k: nat, size: nat, n: nat)
    requires size >= 1 && k < n
    ensures k / size < NumBatches(n, size)
    ensures BatchStart(k / size, size) <= k < BatchEnd(k / size, size, n)
  {
    var q := k / size;
    assert q * size <= k < q * size + size;
    assert (q + 1) * size == q * size + size;
    NumBatchesIsCeiling(n, size);
    if NumBatches(n, size) <= q {
      MulMonotone(NumBatches(n, size), q, size);
    }
  }

  /** No other batch holds entry k: the batches are disjoint. */
  lemma BatchUnique(k: nat, i: nat, size: nat, n: nat)
    requires size >= 1 && BatchStart(i, size) <= k < BatchEnd(i, size, n)
    ensures i == k / size
  {
    var q := k / size;
    assert q * size <= k < q * size + size;
    if q < i {
      MulMonotone(q + 1, i, size);
    }
  }
}
