/** read_mmap_file_and_compute_pvalues and the clip before -log10: the one-sided
    empirical p-value of every observed coefficient against its row of null
    coefficients, computed chunk of rows by chunk of rows. */
module Significance {
  import opened Stats
  import opened Batching
  import opened NullDistribution

  /** np.sum(row >= v): how many entries are at least v. Comparisons with an
      undefined value are false, so they never count. */
  function CountAtLeast(row: seq<Stat>, v: Stat): (c: nat)
    ensures c <= |row|
  {
    if row == [] then 0
    else CountAtLeast(row[..|row| - 1], v) + (if AtLeast(row[|row| - 1], v) then 1 else 0)
  }

  /** The empirical p-value: the fraction of null coefficients at least as large
      as the observed one (ties included, no pseudo-count). With no columns the
      division is 0/0 and the result is undefined. */
  function PValue(row: seq<Stat>, observed: Stat): (p: Stat)
    ensures p.NaN? <==> |row| == 0
    ensures p.Num? ==> 0.0 <= p.v <= 1.0
    ensures p.Num? ==> p.v * |row| as real == CountAtLeast(row, observed) as real
  {
    if |row| == 0 then NaN
    else
      var c := CountAtLeast(row, observed);
      assert c as real / |row| as real <= 1.0 by {
        assert c as real <= |row| as real;
      }
      Num(c as real / |row| as real)
  }

  lemma {:induction false} CountAtLeastAll(row: seq<Stat>, v: Stat)
    ensures CountAtLeast(row, v) == |row| <==> forall j | 0 <= j < |row| :: AtLeast(row[j], v)
  {
    if row != [] {
      var front := row[..|row| - 1];
      CountAtLeastAll(front, v);
      assert forall j | 0 <= j < |front| :: front[j] == row[j];
    }
  }

  lemma {:induction false} CountAtLeastNone(row: seq<Stat>, v: Stat)
    ensures CountAtLeast(row, v) == 0 <==> forall j | 0 <= j < |row| :: !AtLeast(row[j], v)
  {
    if row != [] {
      var front := row[..|row| - 1];
      CountAtLeastNone(front, v);
      assert forall j | 0 <= j < |front| :: front[j] == row[j];
    }
  }

  /** When only entry j0 is at least v, the count is 1. */
  lemma {:induction false} CountAtLeastOne(row: seq<Stat>, v: Stat, j0: nat)
    requires j0 < |row| && AtLeast(row[j0], v)
    requires forall j | 0 <= j < |row| && j != j0 :: !AtLeast(row[j], v)
    ensures CountAtLeast(row, v) == 1
  {
    var front := row[..|row| - 1];
    assert forall j | 0 <= j < |front| :: front[j] == row[j];
    if j0 == |row| - 1 {
      CountAtLeastNone(front, v);
    } else {
      CountAtLeastOne(front, v, j0);
    }
  }

  /** A larger observed value is met by no more null entries. */
  lemma {:induction false} CountAtLeastAntitone(row: seq<Stat>, a: real, b: real)
    requires a <= b
    ensures CountAtLeast(row, Num(b)) <= CountAtLeast(row, Num(a))
  {
    if row != [] {
      CountAtLeastAntitone(row[..|row| - 1], a, b);
    }
  }

  /** Dividing by a common positive number keeps the order. */
  lemma DivMonotone(a: real, b: real, n: real)
    requires a <= b && n > 0.0
    ensures a / n <= b / n
  {
    assert b / n - a / n == (b - a) / n;
  }

  /** A larger positive denominator gives a smaller reciprocal. */
  lemma ReciprocalAntitone(n: real, m: real)
    requires 0.0 < n <= m
    ensures 1.0 / m <= 1.0 / n
  {
    assert 1.0 / n - 1.0 / m == (m - n) / (n * m);
  }

  /** p = 1 exactly when every null coefficient is at least the observed one. */
  lemma PValueIsOneIff(row: seq<Stat>, observed: Stat)
    requires |row| > 0
    ensures PValue(row, observed) == Num(1.0) <==> forall j | 0 <= j < |row| :: AtLeast(row[j], observed)
  {
    CountAtLeastAll(row, observed);
  }

  /** p = 0 exactly when no null coefficient reaches the observed one; in
      particular an undefined observed coefficient always gets p = 0. */
  lemma PValueIsZeroIff(row: seq<Stat>, observed: Stat)
    requires |row| > 0
    ensures PValue(row, observed) == Num(0.0) <==> forall j | 0 <= j < |row| :: !AtLeast(row[j], observed)
    ensures observed.NaN? ==> PValue(row, observed) == Num(0.0)
  {
    CountAtLeastNone(row, observed);
  }

  /** If one null coefficient equals the observed one and none of the others
      reaches it, p = 1/P. */
  lemma SingleTieGivesOneOverP(row: seq<Stat>, observed: Stat, j0: nat)
    requires j0 < |row| && observed.Num? && row[j0] == observed
    requires forall j | 0 <= j < |row| && j != j0 :: !AtLeast(row[j], observed)
    ensures PValue(row, observed) == Num(1.0 / |row| as real)
  {
    CountAtLeastOne(row, observed, j0);
  }

  /** The p-value falls (weakly) as the observed coefficient grows. */
  lemma PValueAntitone(row: seq<Stat>, a: real, b: real)
    requires |row| > 0 && a <= b
    ensures PValue(row, Num(b)).v <= PValue(row, Num(a)).v
  {
    CountAtLeastAntitone(row, a, b);
    var n := |row| as real;
    var cb, ca := CountAtLeast(row, Num(b)) as real, CountAtLeast(row, Num(a)) as real;
    DivMonotone(cb, ca, n);
  }

  /** An entry at least v makes the count positive. */
  lemma {:induction false} CountAtLeastMember(row: seq<Stat>, v: Stat, j0: nat)
    requires j0 < |row| && AtLeast(row[j0], v)
    ensures CountAtLeast(row, v) >= 1
  {
    var front := row[..|row| - 1];
    if j0 < |row| - 1 {
      assert front[j0] == row[j0];
      CountAtLeastMember(front, v, j0);
    }
  }

  /** One null coefficient reaching the observed one already makes p >= 1/P. */
  lemma PValueAtLeastOneOverP(row: seq<Stat>, observed: Stat, j0: nat)
    requires j0 < |row| && AtLeast(row[j0], observed)
    ensures PValue(row, observed).Num? && PValue(row, observed).v >= 1.0 / |row| as real
  {
    CountAtLeastMember(row, observed, j0);
    DivMonotone(1.0, CountAtLeast(row, observed) as real, |row| as real);
  }

  /** A row filled by tasks that all raised holds only zeros: its p-value is 1 for
      an observed coefficient at most 0 and 0 otherwise. */
  lemma AllRaisedPValue(row: seq<Stat>, observed: Stat)
    requires |row| > 0 && forall j | 0 <= j < |row| :: row[j] == Zero
    ensures PValue(row, observed) == if observed.Num? && observed.v <= 0.0 then Num(1.0) else Num(0.0)
  {
    CountAtLeastAll(row, observed);
    CountAtLeastNone(row, observed);
    assert row[0] == Zero;
  }

  /** All p-values of a store, unbatched: entry i is the p-value of row i. */
  function PValues(store: NullStore, observed: seq<Stat>): (ps: seq<Stat>)
    requires store.Valid() && |observed| >= store.numRows
    reads store.cells
    ensures |ps| == store.numRows
    ensures forall i | 0 <= i < store.numRows :: ps[i] == PValue(store.Row(i), observed[i])
  {
    seq(store.numRows, i requires 0 <= i < store.numRows reads store.cells => PValue(store.Row(i), observed[i]))
  }

  /** np.sum(batch[i, :] >= orig_value) for row i of the store. */
  method CountRowAtLeast(store: NullStore, i: nat, v: Stat) returns (count: nat)
    requires store.Valid() && i < store.numRows
    ensures count == CountAtLeast(store.Row(i), v)
  {
    count := 0;
    for j := 0 to store.numCols
      invariant count == CountAtLeast(store.Row(i)[..j], v)
    {
      assert store.Row(i)[..j + 1][..j] == store.Row(i)[..j];
      if AtLeast(store.cells[i, j], v) {
        count := count + 1;
      }
    }
    assert store.Row(i)[..store.numCols] == store.Row(i);
  }

  /** p_value for row i: the count at least v divided by num_cols. */
  method RowPValue(store: NullStore, i: nat, v: Stat) returns (p: Stat)
    requires store.Valid() && i < store.numRows
    ensures p == PValue(store.Row(i), v)
  {
    var count := CountRowAtLeast(store, i, v);
    p := if store.numCols == 0 then NaN else Num(count as real / store.numCols as real);
  }

  /** The inner loop over one chunk of rows [startRow, endRow): each row's p-value
      goes to its own index, once; nothing outside the chunk changes. */
  method ReduceChunk(store: NullStore, observed: seq<Stat>, p: array<Stat>, startRow: nat, endRow: nat,
                     ghost writes: seq<nat>)
    returns (ghost writes': seq<nat>)
    requires store.Valid() && |observed| >= store.numRows && p.Length == store.numRows
    requires startRow <= endRow <= store.numRows && |writes| == store.numRows
    modifies p
    ensures |writes'| == store.numRows
    ensures forall r | 0 <= r < store.numRows ::
      if startRow <= r < endRow then p[r] == PValue(store.Row(r), observed[r]) && writes'[r] == writes[r] + 1
      else p[r] == old(p[r]) && writes'[r] == writes[r]
  {
    writes' := writes;
    for i := 0 to endRow - startRow
      invariant |writes'| == store.numRows
      invariant forall r | 0 <= r < store.numRows ::
        if startRow <= r < startRow + i then p[r] == PValue(store.Row(r), observed[r]) && writes'[r] == writes[r] + 1
        else p[r] == old(p[r]) && writes'[r] == writes[r]
    {
      var origValue := observed[startRow + i];
      var pValue := RowPValue(store, startRow + i, origValue);
      p[startRow + i] := pValue;
      writes' := writes'[startRow + i := writes'[startRow + i] + 1];
    }
  }

  /** read_mmap_file_and_compute_pvalues: rows are taken in chunks of batchSize
      and each chunk is reduced in turn. The result is the unbatched PValues
      whatever the chunk size, and every index is written exactly once (writes[i]
      counts the writes to index i). */
  method ComputePValues(store: NullStore, observed: seq<Stat>, batchSize: nat)
    returns (pValues: seq<Stat>, ghost writes: seq<nat>)
    requires store.Valid() && |observed| >= store.numRows && batchSize >= 1
    ensures pValues == PValues(store, observed)
    ensures |writes| == store.numRows && forall i | 0 <= i < store.numRows :: writes[i] == 1
  {
    var numRows := store.numRows;
    var p := new Stat[numRows];
    writes := seq(numRows, i => 0);
    var numBatches := NumBatches(numRows, batchSize);
    var done := 0;
    for c := 0 to numBatches
      invariant |writes| == numRows
      invariant c < numBatches ==> done == BatchStart(c, batchSize)
      invariant c == numBatches ==> done == numRows
      invariant done <= numRows
      invariant forall r | 0 <= r < numRows ::
        if r < done then p[r] == PValue(store.Row(r), observed[r]) && writes[r] == 1 else writes[r] == 0
    {
      BatchShape(c, batchSize, numRows);
      BatchesAreContiguous(c, batchSize, numRows);
      var endRow := BatchEnd(c, batchSize, numRows);
      writes := ReduceChunk(store, observed, p, done, endRow, writes);
      done := endRow;
    }
    pValues := p[..];
  }

  /** The floor np.clip puts under every p-value before -log10. */
  const PFloor: real := 0.0000000001

  /** np.clip(p, 1e-10, None) on one value: max(p, 1e-10), an undefined value
      staying undefined. */
  function ClipP(p: Stat): (c: Stat)
    ensures c.NaN? <==> p.NaN?
    ensures c.Num? ==> c.v >= PFloor && (c.v == p.v || c.v == PFloor)
    ensures p.Num? && p.v >= PFloor ==> c == p
  {
    match p
    case NaN => NaN
    case Num(v) => Num(if v < PFloor then PFloor else v)
  }

  /** np.clip on the whole p-value vector. */
  function ClipAll(ps: seq<Stat>): (cs: seq<Stat>)
    ensures |cs| == |ps|
    ensures forall i | 0 <= i < |ps| :: cs[i] == ClipP(ps[i])
  {
    seq(|ps|, i requires 0 <= i < |ps| => ClipP(ps[i]))
  }

  /** Clipping keeps the order of p-values and is idempotent. */
  lemma ClipMonotoneIdempotent(a: Stat, b: Stat)
    requires a.Num? && b.Num? && a.v <= b.v
    ensures ClipP(a).v <= ClipP(b).v
    ensures ClipP(ClipP(a)) == ClipP(a)
  {
  }

  /** With at most 10^10 permutations the clip changes a p-value only when it is
      0: any null coefficient reaching the observed one already makes p at least
      1/P >= 1e-10. */
  lemma ClipChangesOnlyZero(row: seq<Stat>, observed: Stat)
    requires 0 < |row| <= 10000000000
    ensures PValue(row, observed) != Num(0.0) ==> ClipP(PValue(row, observed)) == PValue(row, observed)
    ensures PValue(row, observed) == Num(0.0) ==> ClipP(PValue(row, observed)) == Num(PFloor)
  {
    var c := CountAtLeast(row, observed);
    if c > 0 {
      var n := |row| as real;
      DivMonotone(1.0, c as real, n);
      ReciprocalAntitone(n, 10000000000.0);
    }
  }
}
