/** Failure-carrying values shared by every module of the model. */
module Common {

  /** A value that may be absent (a C null pointer, a Python None). */
  datatype Option<T> = None | Some(value: T)

  /** The outcome of an operation that can raise: hoc_execerror, RxDException, an assert. */
  datatype Result<T> = Ok(value: T) | Err(msg: string)

  /** xs[a] + ... + xs[b - 1], taken from the end so that a running total
      extends one element at a time. */
  function Sum(xs: seq<int>, a: int, b: int): int
    requires 0 <= a <= b <= |xs|
    decreases b - a
  {
    if a == b then 0 else Sum(xs, a, b - 1) + xs[b - 1]
  }

  /** A sum of non-negative terms is non-negative and at least each term. */
  lemma {:induction false} SumBounds(xs: seq<int>, a: int, b: int)
    requires 0 <= a <= b <= |xs| && forall i :: a <= i < b ==> xs[i] >= 0
    ensures 0 <= Sum(xs, a, b) && forall k :: a <= k < b ==> xs[k] <= Sum(xs, a, b)
    decreases b - a
  {
    if a < b {
      SumBounds(xs, a, b - 1);
    }
  }

  /** Raising one term by one raises the sum by one. */
  lemma {:induction false} SumBump(xs: seq<int>, a: int, b: int, k: int)
    requires 0 <= a <= k < b <= |xs|
    ensures Sum(xs[k := xs[k] + 1], a, b) == Sum(xs, a, b) + 1
    decreases b - a
  {
    if k < b - 1 {
      SumBump(xs, a, b - 1, k);
    } else {
      SumFrame(xs, xs[k := xs[k] + 1], a, b - 1);
    }
  }

  /** The sum over a range depends only on the terms in that range. */
  lemma {:induction false} SumFrame(xs: seq<int>, ys: seq<int>, a: int, b: int)
    requires 0 <= a <= b <= |xs| && b <= |ys| && forall i :: a <= i < b ==> xs[i] == ys[i]
    ensures Sum(xs, a, b) == Sum(ys, a, b)
    decreases b - a
  {
    if a < b {
      SumFrame(xs, ys, a, b - 1);
    }
  }

  /** A range of zeros sums to zero. */
  lemma {:induction false} SumZero(xs: seq<int>, a: int, b: int)
    requires 0 <= a <= b <= |xs| && forall i :: a <= i < b ==> xs[i] == 0
    ensures Sum(xs, a, b) == 0
    decreases b - a
  {
    if a < b {
      SumZero(xs, a, b - 1);
    }
  }

  /** With non-negative terms, a longer range from the same start sums to
      at least as much. */
  lemma {:induction false} SumMonotone(xs: seq<int>, a: int, b: int, c: int)
    requires 0 <= a <= b <= c <= |xs| && forall i :: b <= i < c ==> xs[i] >= 0
    ensures Sum(xs, a, b) <= Sum(xs, a, c)
    decreases c - b
  {
    if b < c {
      SumMonotone(xs, a, b, c - 1);
    }
  }

  /** The C cast `(int)x`: truncation toward zero. */
  function Trunc(x: real): (k: int)
    ensures x >= 0.0 ==> k as real <= x < k as real + 1.0
    ensures x < 0.0 ==> k as real - 1.0 < x <= k as real
  {
    if x >= 0.0 then x.Floor else -((-x).Floor)
  }

  /** The cast undoes the conversion of an int to a double. */
  lemma TruncOfInt(k: int)
    ensures Trunc(k as real) == k
  {
  }
}
