/** Option and Result, and the few facts about sequences that several modules share. */
module Wrappers {

  datatype Option<+T> = None | Some(value: T)

  datatype Result<+T, +E> = Ok(value: T) | Err(error: E) {
    predicate IsFailure() {
      Err?
    }

    function PropagateFailure<U>(): Result<U, E>
      requires Err?
    {
      Err(error)
    }

    function Extract(): T
      requires Ok?
    {
      value
    }
  }

  /** No element occurs at two positions. */
  ghost predicate Distinct<T>(xs: seq<T>) {
    forall i, j :: 0 <= i < j < |xs| ==> xs[i] != xs[j]
  }

  function Min(a: nat, b: nat): nat {
    if a <= b then a else b
  }

  /** The first n elements, or all of them when there are fewer: `Vec::truncate` and `Iterator::take`. */
  function Take<T>(n: nat, xs: seq<T>): seq<T> {
    if n <= |xs| then xs[..n] else xs
  }

  lemma DistinctCons<T>(x: T, xs: seq<T>)
    ensures Distinct([x] + xs) <==> x !in xs && Distinct(xs)
  {
    var ys := [x] + xs;
    assert forall i :: 0 <= i < |xs| ==> ys[i + 1] == xs[i];
    if Distinct(ys) {
      forall i | 0 <= i < |xs| ensures x != xs[i] {
        assert ys[0] != ys[i + 1];
      }
      forall i, j | 0 <= i < j < |xs| ensures xs[i] != xs[j] {
        assert ys[i + 1] != ys[j + 1];
      }
    }
  }
}
