/** Small shared vocabulary: optional and failing results, sums, and the ceiling of a real. */
module Basics {

  datatype Option<+T> = None | Some(value: T)

  datatype Result<+T, +E> = Ok(value: T) | Err(error: E)

  function Min(a: int, b: int): int {
    if a <= b then a else b
  }

  function Max(a: int, b: int): int {
    if a >= b then a else b
  }

  function Sum(xs: seq<int>): int {
    if xs == [] then 0 else xs[0] + Sum(xs[1..])
  }

  lemma {:induction false} SumOfConcat(xs: seq<int>, ys: seq<int>)
    ensures Sum(xs + ys) == Sum(xs) + Sum(ys)
  {
    if xs == [] {
      assert xs + ys == ys;
    } else {
      assert (xs + ys)[1..] == xs[1..] + ys;
      SumOfConcat(xs[1..], ys);
    }
  }

  function Ceil(x: real): int {
    -((-x).Floor)
  }

  lemma CeilBounds(x: real)
    ensures (Ceil(x) - 1) as real < x <= Ceil(x) as real
  {
  }

  lemma CeilMonotone(x: real, y: real)
    requires x <= y
    ensures Ceil(x) <= Ceil(y)
  {
    CeilBounds(x);
    CeilBounds(y);
  }

  /** Rounding a sum up never exceeds the sum of the rounded-up parts. */
  lemma CeilSubadditive(x: real, y: real)
    ensures Ceil(x + y) <= Ceil(x) + Ceil(y)
  {
    CeilBounds(x);
    CeilBounds(y);
    CeilBounds(x + y);
    assert (Ceil(x + y) - 1) as real < (Ceil(x) + Ceil(y)) as real;
  }

  lemma ScaleMonotone(x: real, y: real, m: real)
    requires x <= y && m >= 0.0
    ensures x * m <= y * m
  {
    assert (y - x) * m >= 0.0;
  }

  lemma ScaleStrict(x: real, m: real, n: real)
    requires x > 0.0 && m < n
    ensures x * m < x * n
  {
    assert x * (n - m) > 0.0;
  }

  /** The elements of `xs` occur in `ys` in the same order. */
  predicate IsSubsequence<T(==)>(xs: seq<T>, ys: seq<T>) {
    xs == [] || (ys != [] && ((xs[0] == ys[0] && IsSubsequence(xs[1..], ys[1..])) || IsSubsequence(xs, ys[1..])))
  }

  lemma {:induction false} SubsequenceOfSnoc<T>(xs: seq<T>, ys: seq<T>, y: T)
    requires IsSubsequence(xs, ys)
    ensures IsSubsequence(xs, ys + [y]) && IsSubsequence(xs + [y], ys + [y])
    decreases ys
  {
    var longer := ys + [y];
    if ys == [] {
      assert xs == [] && xs + [y] == [y] && longer == [y] && [y][1..] == [];
    } else {
      assert longer[0] == ys[0] && longer[1..] == ys[1..] + [y];
      if xs == [] {
        SubsequenceOfSnoc(xs, ys[1..], y);
      } else if xs[0] == ys[0] && IsSubsequence(xs[1..], ys[1..]) {
        SubsequenceOfSnoc(xs[1..], ys[1..], y);
        assert (xs + [y])[0] == xs[0] && (xs + [y])[1..] == xs[1..] + [y];
      } else {
        SubsequenceOfSnoc(xs, ys[1..], y);
      }
    }
  }
}
