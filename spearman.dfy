/** spearman_row and runCorrelation: the Spearman coefficient of every row of a
    matrix against one effect-size vector, composed from the average ranks of both
    sides and a correlation of two rows that the model keeps abstract. */
module Spearman {
  import opened Stats
  import opened RankReference
  import opened RankTransform

  /** compute_corr on one pair of rows. Its float32 means, products, square root and
      division (NaN on zero variance) are not modelled. */
  type Correlation = (seq<real>, seq<real>) -> Stat

  /** rows is an R x cols matrix. */
  predicate IsMatrix(rows: seq<seq<real>>, cols: nat) {
    forall i | 0 <= i < |rows| :: |rows[i]| == cols
  }

  /** The elementwise product of an R x cols array with a 1 x m array broadcasts
      only when the trailing lengths agree or one of them is 1; otherwise numpy
      raises. */
  predicate Broadcastable(cols: nat, m: nat) {
    cols == m || cols == 1 || m == 1
  }

  /** spearman_row: coefficient i correlates the average ranks of row i with the
      average ranks of the effect sizes. */
  function SpearmanRow(rows: seq<seq<real>>, cols: nat, y: seq<real>, corr: Correlation): (r: seq<Stat>)
    requires IsMatrix(rows, cols) && Broadcastable(cols, |y|)
    ensures |r| == |rows|
    ensures forall i | 0 <= i < |rows| :: r[i] == corr(AverageRanks(rows[i]), AverageRanks(y))
  {
    var rx := RankMatrix(rows);
    var ry := RowRanks(y);
    seq(|rows|, i requires 0 <= i < |rows| => corr(rx[i], ry))
  }

  /** runCorrelation: the coefficients, plus the constant 1 the source returns in
      place of p-values. The correlation type is not consulted. */
  function RunCorrelation(rows: seq<seq<real>>, cols: nat, y: seq<real>, corrType: string, corr: Correlation)
    : (r: (seq<Stat>, int))
    requires IsMatrix(rows, cols) && Broadcastable(cols, |y|)
    ensures r.1 == 1
    ensures |r.0| == |rows|
    ensures forall i | 0 <= i < |rows| :: r.0[i] == corr(AverageRanks(rows[i]), AverageRanks(y))
  {
    (SpearmanRow(rows, cols, y, corr), 1)
  }

  /** Every row of the matrix with f applied to each entry. */
  function MapRows(f: real -> real, rows: seq<seq<real>>): (r: seq<seq<real>>)
    ensures |r| == |rows|
    ensures forall i | 0 <= i < |rows| :: r[i] == MapValues(f, rows[i])
  {
    seq(|rows|, i requires 0 <= i < |rows| => MapValues(f, rows[i]))
  }

  /** The coefficients depend on the effect sizes only through their order: a
      strictly increasing transform of them changes no coefficient. */
  lemma EffectSizeTransformInvariant(rows: seq<seq<real>>, cols: nat, y: seq<real>, corr: Correlation, f: real -> real)
    requires IsMatrix(rows, cols) && Broadcastable(cols, |y|)
    requires forall a, b | a < b :: f(a) < f(b)
    ensures SpearmanRow(rows, cols, MapValues(f, y), corr) == SpearmanRow(rows, cols, y, corr)
  {
    MonotoneTransformKeepsRanks(f, y);
  }

  /** Likewise for the matrix: a strictly increasing transform of every entry
      changes no coefficient. */
  lemma MatrixTransformInvariant(rows: seq<seq<real>>, cols: nat, y: seq<real>, corr: Correlation, f: real -> real)
    requires IsMatrix(rows, cols) && Broadcastable(cols, |y|)
    requires forall a, b | a < b :: f(a) < f(b)
    ensures IsMatrix(MapRows(f, rows), cols)
    ensures SpearmanRow(MapRows(f, rows), cols, y, corr) == SpearmanRow(rows, cols, y, corr)
  {
    forall i | 0 <= i < |rows| ensures AverageRanks(MapValues(f, rows[i])) == AverageRanks(rows[i]) {
      MonotoneTransformKeepsRanks(f, rows[i]);
    }
  }

  /** Handing already ranked inputs to spearman_row gives the same coefficients. */
  lemma RankedInputsInvariant(rows: seq<seq<real>>, cols: nat, y: seq<real>, corr: Correlation)
    requires IsMatrix(rows, cols) && Broadcastable(cols, |y|)
    ensures IsMatrix(RankMatrix(rows), cols)
    ensures SpearmanRow(RankMatrix(rows), cols, AverageRanks(y), corr) == SpearmanRow(rows, cols, y, corr)
  {
    RerankingIsIdentity(y);
    forall i | 0 <= i < |rows| ensures AverageRanks(RankMatrix(rows)[i]) == AverageRanks(rows[i]) {
      RerankingIsIdentity(rows[i]);
    }
  }

  /** rankdata_average(effectSize[None, :]): the effect sizes as a 1 x m array,
      ranked, read back as one row. */
  method RankVector(y: seq<real>) returns (ry: seq<real>)
    ensures ry == AverageRanks(y)
  {
    var yArray := new real[1, |y|]((i, k) requires 0 <= k < |y| => y[k]);
    assert Rows(yArray)[0] == y;
    var ranked := RankData(yArray);
    ry := seq(|y|, k requires 0 <= k < |y| reads ranked => ranked[0, k]);
  }

  /** A matrix whose every entry is the average rank of its row of data, read as
      rows, is the ranked matrix. */
  lemma RankedRows(data: array2<real>, ranked: array2<real>)
    requires ranked.Length0 == data.Length0 && ranked.Length1 == data.Length1
    requires forall i, k | 0 <= i < data.Length0 && 0 <= k < data.Length1 ::
      ranked[i, k] == RankMatrix(Rows(data))[i][k]
    ensures Rows(ranked) == RankMatrix(Rows(data))
  {
    forall i | 0 <= i < data.Length0 ensures Rows(ranked)[i] == RankMatrix(Rows(data))[i] {
    }
  }

  /** spearman_row on arrays: the matrix and the effect sizes go through
      rankdata_average, and row i of the ranked matrix is correlated with the
      ranked effect sizes. */
  method SpearmanRowOf(data: array2<real>, y: seq<real>, corr: Correlation) returns (coeffs: seq<Stat>)
    requires data.Length0 >= 1
    requires Broadcastable(data.Length1, |y|)
    ensures IsMatrix(Rows(data), data.Length1)
    ensures coeffs == SpearmanRow(Rows(data), data.Length1, y, corr)
  {
    var rx := RankData(data);
    var ry := RankVector(y);
    RankedRows(data, rx);
    var rxRows := Rows(rx);
    coeffs := seq(data.Length0, i requires 0 <= i < data.Length0 => corr(rxRows[i], ry));
  }
}
