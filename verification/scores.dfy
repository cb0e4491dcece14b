/**
  Dissimilarity scores as the chaining logic sees them.

  The source keeps scores in `f64`. Only three kinds of value ever reach the
  matrix: a finite percentage, the `f64::MAX` sentinel written on the
  diagonal, and NaN (the quotient 0/0 produced for a frame with no pixels).
  Rounding is not modelled: finite scores are exact reals.
 */
module Scores {

  datatype Score = Value(v: real) | Max | NaN

  /** The `f64` comparison `a < b`: NaN is unordered, the sentinel is above every finite score. */
  predicate Less(a: Score, b: Score) {
    match (a, b)
    case (Value(x), Value(y)) => x < y
    case (Value(_), Max) => true
    case _ => false
  }

  /** The `f64` test `s > threshold`, for a threshold strictly below `f64::MAX`. */
  predicate Exceeds(s: Score, threshold: real) {
    match s
    case Value(x) => x > threshold
    case Max => true
    case NaN => false
  }

  /**
    The score passed the threshold test as a finite value: it is neither NaN
    nor the sentinel, and it is at most the threshold.
   */
  predicate Within(s: Score, threshold: real) {
    s.Value? && s.v <= threshold
  }

  /** `Less` is a strict order: irreflexive, transitive, and total on the non-NaN scores. */
  lemma LessIsStrictOrder(a: Score, b: Score, c: Score)
    ensures !Less(a, a)
    ensures Less(a, b) && Less(b, c) ==> Less(a, c)
    ensures !a.NaN? && !b.NaN? ==> Less(a, b) || a == b || Less(b, a)
  {
  }

  /** A finite score at or below the threshold passes the test and is strictly below any score that fails it. */
  lemma BelowThresholdIsLess(a: Score, b: Score, threshold: real)
    requires Within(a, threshold)
    requires Exceeds(b, threshold)
    ensures !Exceeds(a, threshold)
    ensures Less(a, b)
  {
  }
}
