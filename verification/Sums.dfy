/** Sums of a measure over a sequence. */
module Sums {

  function SumOver<T>(xs: seq<T>, f: T -> nat): nat {
    if xs == [] then 0 else SumOver(xs[..|xs| - 1], f) + f(xs[|xs| - 1])
  }

  lemma {:induction false} SumConcat<T>(xs: seq<T>, ys: seq<T>, f: T -> nat)
    ensures SumOver(xs + ys, f) == SumOver(xs, f) + SumOver(ys, f)
    decreases |ys|
  {
    if ys == [] {
      assert xs + ys == xs;
    } else {
      var m := |ys| - 1;
      assert (xs + ys)[..|xs + ys| - 1] == xs + ys[..m];
      SumConcat(xs, ys[..m], f);
    }
  }

  lemma SumSingle<T>(x: T, f: T -> nat)
    ensures SumOver([x], f) == f(x)
  {
    assert [x][..0] == [];
  }

  lemma {:induction false} SumUpdate<T>(xs: seq<T>, i: nat, x: T, f: T -> nat)
    requires i < |xs|
    ensures SumOver(xs[i := x], f) + f(xs[i]) == SumOver(xs, f) + f(x)
  {
    var m := |xs| - 1;
    if i == m {
      assert xs[i := x][..m] == xs[..m];
    } else {
      assert xs[i := x][..m] == xs[..m][i := x];
      SumUpdate(xs[..m], i, x, f);
    }
  }

  lemma {:induction false} SumPart<T>(xs: seq<T>, i: nat, f: T -> nat)
    requires i < |xs|
    ensures f(xs[i]) <= SumOver(xs, f)
  {
    var m := |xs| - 1;
    if i < m {
      SumPart(xs[..m], i, f);
    }
  }

  lemma {:induction false} SumZero<T>(xs: seq<T>, f: T -> nat)
    requires forall i :: 0 <= i < |xs| ==> f(xs[i]) == 0
    ensures SumOver(xs, f) == 0
  {
    if xs != [] {
      SumZero(xs[..|xs| - 1], f);
    }
  }
}
