/** Sums of a measure over a sequence, used to count. */
module Sums {
  function Sum<T>(xs: seq<T>, f: T -> nat): nat {
    if xs == [] then 0 else Sum(xs[..|xs| - 1], f) + f(xs[|xs| - 1])
  }

  lemma {:induction false} SumUpdate<T>(xs: seq<T>, f: T -> nat, i: nat, x: T)
    requires i < |xs|
    ensures Sum(xs[i := x], f) + f(xs[i]) == Sum(xs, f) + f(x)
  {
    var last := |xs| - 1;
    if i == last {
      assert xs[i := x][..last] == xs[..last];
    } else {
      assert xs[i := x][..last] == xs[..last][i := x];
      SumUpdate(xs[..last], f, i, x);
    }
  }

  lemma {:induction false} SumSnoc<T>(xs: seq<T>, f: T -> nat, x: T)
    ensures Sum(xs + [x], f) == Sum(xs, f) + f(x)
  {
    assert (xs + [x])[..|xs|] == xs;
  }

  /** A sum is at least each of its terms. */
  lemma {:induction false} SumAtLeast<T>(xs: seq<T>, f: T -> nat, i: nat)
    requires i < |xs|
    ensures f(xs[i]) <= Sum(xs, f)
  {
    if i < |xs| - 1 { SumAtLeast(xs[..|xs| - 1], f, i); }
  }

  lemma {:induction false} SumZero<T>(xs: seq<T>, f: T -> nat)
    requires forall i :: 0 <= i < |xs| ==> f(xs[i]) == 0
    ensures Sum(xs, f) == 0
  {
    if xs != [] { SumZero(xs[..|xs| - 1], f); }
  }

  /** A sum is at least any two of its terms. */
  lemma {:induction false} SumTwo<T>(xs: seq<T>, f: T -> nat, i: nat, j: nat)
    requires i < j < |xs|
    ensures f(xs[i]) + f(xs[j]) <= Sum(xs, f)
  {
    if j < |xs| - 1 { SumTwo(xs[..|xs| - 1], f, i, j); } else { SumAtLeast(xs[..j], f, i); }
  }

  lemma {:induction false} SumPrefix<T>(xs: seq<T>, ys: seq<T>, f: T -> nat)
    requires xs <= ys
    ensures Sum(xs, f) <= Sum(ys, f)
  {
    if |xs| < |ys| { SumPrefix(xs, ys[..|ys| - 1], f); } else { assert xs == ys; }
  }

  lemma {:induction false} SumAtMost<T>(xs: seq<T>, f: T -> nat, g: T -> nat)
    requires forall i :: 0 <= i < |xs| ==> f(xs[i]) <= g(xs[i])
    ensures Sum(xs, f) <= Sum(xs, g)
  {
    if xs != [] { SumAtMost(xs[..|xs| - 1], f, g); }
  }

  /** At most one term is not zero, and none exceeds one. */
  lemma {:induction false} SumAtMostOne<T>(xs: seq<T>, f: T -> nat)
    requires forall i :: 0 <= i < |xs| ==> f(xs[i]) <= 1
    requires forall i, j :: 0 <= i < j < |xs| && f(xs[i]) != 0 ==> f(xs[j]) == 0
    ensures Sum(xs, f) <= 1
  {
    if xs != [] {
      var last := |xs| - 1;
      if f(xs[last]) == 0 { SumAtMostOne(xs[..last], f); } else { SumZero(xs[..last], f); }
    }
  }
}
