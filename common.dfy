/** Vocabulary shared by the search pipeline: results that may carry the error
    the Python code would raise, in-order subsequences, and exact products. */
module Common {

  /** The outcome of an operation that can raise: its value, or the error it raised. */
  datatype Result<+T, +E> = Ok(value: T) | Err(error: E)

  /** `xs` occurs in `ys` in the same order, possibly with gaps.
      Matching greedily from the end is complete for subsequences. */
  predicate Subsequence<T(==)>(xs: seq<T>, ys: seq<T>)
    decreases |ys|
  {
    if xs == [] then true
    else if ys == [] then false
    else if xs[|xs| - 1] == ys[|ys| - 1] then Subsequence(xs[..|xs| - 1], ys[..|ys| - 1])
    else Subsequence(xs, ys[..|ys| - 1])
  }

  /** `numpy.prod` over unbounded integers: the product of the entries, 1 for none. */
  function Prod(xs: seq<int>): int
  {
    if xs == [] then 1 else xs[0] * Prod(xs[1..])
  }

  lemma {:induction false} ProdNonNegative(xs: seq<int>)
    requires forall i :: 0 <= i < |xs| ==> xs[i] >= 0
    ensures Prod(xs) >= 0
  {
    if xs != [] {
      ProdNonNegative(xs[1..]);
    }
  }

  /** One zero factor makes the whole product zero. */
  lemma {:induction false} ProdZero(xs: seq<int>, k: nat)
    requires k < |xs| && xs[k] == 0
    ensures Prod(xs) == 0
  {
    if k > 0 {
      ProdZero(xs[1..], k - 1);
    }
  }

  /** The product is monotone in each non-negative factor. */
  lemma {:induction false} ProdMonotone(xs: seq<int>, ys: seq<int>)
    requires |xs| == |ys|
    requires forall i :: 0 <= i < |xs| ==> 0 <= xs[i] <= ys[i]
    ensures 0 <= Prod(xs) <= Prod(ys)
  {
    if xs != [] {
      ProdMonotone(xs[1..], ys[1..]);
      var a, b, c, d := xs[0], Prod(xs[1..]), ys[0], Prod(ys[1..]);
      assert a * b <= c * b by {
        assert (c - a) * b >= 0;
      }
      assert c * b <= c * d by {
        assert c * (d - b) >= 0;
      }
    }
  }

  /** No element occurs twice. */
  ghost predicate NoDuplicates<T(!new)>(xs: seq<T>)
  {
    forall x :: multiset(xs)[x] <= 1
  }

  /** Without duplicates no two positions hold the same element. */
  lemma NoDuplicatesPositions<T(!new)>(xs: seq<T>, i: nat, j: nat)
    requires NoDuplicates(xs) && i < j < |xs|
    ensures xs[i] != xs[j]
  {
    var front, back := xs[..j], xs[j..];
    assert xs == front + back;
    assert xs[i] == front[i] && xs[j] == back[0];
    assert multiset(xs)[xs[j]] == multiset(front)[xs[j]] + multiset(back)[xs[j]];
    assert multiset(back)[xs[j]] >= 1;
  }
}
