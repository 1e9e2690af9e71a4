/** Scalar statistics as they travel through the significance pipeline. */
module Stats {

  /** A correlation coefficient or a p-value: a number, or the undefined value a
      zero-variance row (or a division by zero columns) produces. */
  datatype Stat = Num(v: real) | NaN

  /** The zero a failed permutation task contributes to the null store. */
  const Zero: Stat := Num(0.0)

  /** Elementwise `a >= b` as the array comparison evaluates it: false whenever
      either side is undefined. */
  predicate AtLeast(a: Stat, b: Stat) {
    a.Num? && b.Num? && a.v >= b.v
  }
}
