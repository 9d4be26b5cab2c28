/** List helpers: Python's `list(s)` for a `set` of strings, and the
    position of the first element passing a test (a `for` loop that
    `break`s on the first hit).

    The iteration order of a set is unspecified, so `ListOfSet` lets the
    order be any: each step takes an arbitrary element not yet listed. */
module Lists {

  predicate Distinct(r: seq<string>) {
    forall i, j :: 0 <= i < j < |r| ==> r[i] != r[j]
  }

  /** `list(s)`: every element of `s` exactly once, in some order. */
  method ListOfSet(s: set<string>) returns (r: seq<string>)
    ensures |r| == |s|
    ensures forall x :: x in r <==> x in s
    ensures Distinct(r)
  {
    r := [];
    var rest := s;
    while rest != {}
      invariant rest <= s
      invariant forall x :: x in r <==> x in s && x !in rest
      invariant Distinct(r)
      invariant |r| + |rest| == |s|
      decreases |rest|
    {
      var x :| x in rest;
      r := r + [x];
      rest := rest - {x};
    }
  }

  /** A prefix of a list without repeats has none either. */
  lemma PrefixDistinct(r: seq<string>, n: nat)
    requires Distinct(r) && n <= |r|
    ensures Distinct(r[..n])
  {
  }

  /** The first position at or after `i` whose element passes `ok`, or
      `|xs|` when none does. */
  function FirstWhere<T>(xs: seq<T>, ok: T -> bool, i: nat): (k: nat)
    requires i <= |xs|
    ensures i <= k <= |xs|
    ensures forall j :: i <= j < k ==> !ok(xs[j])
    ensures k < |xs| ==> ok(xs[k])
    decreases |xs| - i
  {
    if i == |xs| || ok(xs[i]) then i else FirstWhere(xs, ok, i + 1)
  }

  /** Two tests that agree on every element find the same first position. */
  lemma {:induction false} FirstWhereAgree<T>(xs: seq<T>, ok1: T -> bool, ok2: T -> bool, i: nat)
    requires i <= |xs|
    requires forall j :: i <= j < |xs| ==> ok1(xs[j]) == ok2(xs[j])
    ensures FirstWhere(xs, ok1, i) == FirstWhere(xs, ok2, i)
    decreases |xs| - i
  {
    if i < |xs| && !ok1(xs[i]) {
      FirstWhereAgree(xs, ok1, ok2, i + 1);
    }
  }
}
