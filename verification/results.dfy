/** Failure-carrying values shared by the whole model: the Java `null`,
    the unchecked exceptions the analysis can raise, and IEEE doubles
    reduced to the three shapes the analysis can produce. */
module Results {

  /** A value that may be absent (Java's `null`). */
  datatype Option<+T> = None | Some(value: T)

  /** The unchecked exceptions the analysis layer can throw, plus the
      explicit "no path" failure of the corrected shortest-path query. */
  datatype Failure =
    | NoSuchElement   // first element of an empty collection
    | NullPointer     // `equals` called on a missing field value
    | NoPath          // the target is on none of the BFS paths

  /** Either a computed value or the exception that ended the query. */
  datatype Result<+T> = Ok(value: T) | Err(failure: Failure)

  /** A Java `double` without rounding: a finite real, an infinity, or NaN. */
  datatype Double = Finite(value: real) | Infinite(positive: bool) | NaN

  /** IEEE division of two finite operands, computed exactly. */
  function Divide(a: real, b: real): (q: Double)
    ensures b != 0.0 ==> q == Finite(a / b)
    ensures b == 0.0 ==> (q.NaN? <==> a == 0.0)
    ensures q.Infinite? ==> b == 0.0 && q.positive == (a > 0.0)
    ensures q.Finite? ==> q.value * b == a
    ensures q.Finite? && 0.0 <= a <= b ==> 0.0 <= q.value <= 1.0
  {
    if b != 0.0 then Finite(a / b)
    else if a == 0.0 then NaN
    else Infinite(a > 0.0)
  }

  /** Dividing a sum by a larger count `n` instead of by `l` rescales the
      quotient by `l / n`, which never lets it exceed `l / n`. */
  lemma DivideRescale(sum: real, l: real, n: real)
    requires 0.0 <= sum <= l <= n && 0.0 < l
    ensures Divide(sum, n).Finite? && Divide(sum, l).Finite?
    ensures Divide(sum, n).value == Divide(sum, l).value * (l / n)
    ensures Divide(sum, n).value <= l / n
  {
    assert (sum / l) * (l / n) == sum / n;
    ScaleAtMost(sum / l, l / n, sum / n);
  }

  /** Scaling a non-negative number `y` by a factor between 0 and 1
      never increases it. */
  lemma ScaleAtMost(x: real, y: real, w: real)
    requires 0.0 <= x <= 1.0 && 0.0 <= y && w == x * y
    ensures w <= y
  {
  }
}
