/** List comprehensions with a condition (`[x for x in xs if p(x)]`) and the
    order-preserving sub-list relation they produce. */
module Sequences {

  /** `r` is obtained from `xs` by dropping some elements and keeping the rest
      in their order. */
  predicate Subsequence<T(==)>(r: seq<T>, xs: seq<T>)
    decreases |xs|
  {
    if r == [] then true
    else if xs == [] then false
    else Subsequence(r, xs[1..]) || (r[0] == xs[0] && Subsequence(r[1..], xs[1..]))
  }

  /** `[x for x in xs if p(x)]`: exactly the elements that satisfy `p`, in
      their original order. */
  function Filter<T(==)>(xs: seq<T>, p: T -> bool): (r: seq<T>)
    ensures |r| <= |xs|
    ensures forall i :: 0 <= i < |r| ==> r[i] in xs && p(r[i])
    ensures forall i :: 0 <= i < |xs| && p(xs[i]) ==> xs[i] in r
    ensures Subsequence(r, xs)
    ensures forall i :: 0 <= i < |xs| ==> multiset(r)[xs[i]] == if p(xs[i]) then multiset(xs)[xs[i]] else 0
  {
    if xs == [] then []
    else
      var rest := Filter(xs[1..], p);
      var r := if p(xs[0]) then [xs[0]] + rest else rest;
      FilterCountStep(xs, rest, r, p);
      r
  }

  /** The step of `Filter`'s count clause: what the filtered tail keeps of each
      element, the filtered list keeps of each element of the whole list. */
  lemma FilterCountStep<T>(xs: seq<T>, rest: seq<T>, r: seq<T>, p: T -> bool)
    requires xs != [] && r == if p(xs[0]) then [xs[0]] + rest else rest
    requires forall i :: 0 <= i < |rest| ==> rest[i] in xs[1..]
    requires forall i :: 0 <= i < |xs[1..]| ==>
      multiset(rest)[xs[1..][i]] == if p(xs[1..][i]) then multiset(xs[1..])[xs[1..][i]] else 0
    ensures forall i :: 0 <= i < |xs| ==> multiset(r)[xs[i]] == if p(xs[i]) then multiset(xs)[xs[i]] else 0
  {
    var tail := xs[1..];
    assert xs == [xs[0]] + tail;
    assert multiset(r) == (if p(xs[0]) then multiset([xs[0]]) else multiset{}) + multiset(rest);
    forall i | 0 <= i < |xs|
      ensures multiset(r)[xs[i]] == if p(xs[i]) then multiset(xs)[xs[i]] else 0
    {
      var x := xs[i];
      assert multiset(xs)[x] == multiset([xs[0]])[x] + multiset(tail)[x];
      if x in tail {
        var m :| 0 <= m < |tail| && tail[m] == x;
        assert multiset(rest)[x] == if p(x) then multiset(tail)[x] else 0;
      } else {
        assert x !in rest;
        assert i == 0;
      }
    }
  }

  lemma {:induction false} FilterAppend<T>(a: seq<T>, b: seq<T>, p: T -> bool)
    ensures Filter(a + b, p) == Filter(a, p) + Filter(b, p)
  {
    if a == [] {
      assert a + b == b;
    } else {
      assert (a + b)[0] == a[0] && (a + b)[1..] == a[1..] + b;
      FilterAppend(a[1..], b, p);
    }
  }

  /** Taking one more element of `xs` extends the filtered list by that element
      when it qualifies. */
  lemma FilterSnoc<T>(xs: seq<T>, i: nat, p: T -> bool)
    requires i < |xs|
    ensures Filter(xs[..i + 1], p) == Filter(xs[..i], p) + (if p(xs[i]) then [xs[i]] else [])
  {
    assert xs[..i + 1] == xs[..i] + [xs[i]];
    FilterAppend(xs[..i], [xs[i]], p);
  }

  /** A sub-list of a list whose elements have pairwise different keys has
      pairwise different keys too. */
  lemma {:induction false} SubsequenceKeepsDistinct<T, K>(r: seq<T>, xs: seq<T>, key: T -> K)
    requires Subsequence(r, xs)
    requires forall i, j :: 0 <= i < j < |xs| ==> key(xs[i]) != key(xs[j])
    ensures forall i, j :: 0 <= i < j < |r| ==> key(r[i]) != key(r[j])
    decreases |xs|
  {
    if r != [] {
      SubsequenceElements(r, xs);
      if Subsequence(r, xs[1..]) {
        SubsequenceKeepsDistinct(r, xs[1..], key);
      } else {
        SubsequenceKeepsDistinct(r[1..], xs[1..], key);
        SubsequenceElements(r[1..], xs[1..]);
        forall j | 0 < j < |r|
          ensures key(r[0]) != key(r[j])
        {
          assert r[j] == r[1..][j - 1];
          var m :| 0 <= m < |xs[1..]| && xs[1..][m] == r[j];
          assert xs[m + 1] == r[j] && xs[0] == r[0];
        }
      }
    }
  }

  /** Every element of a sub-list is an element of the list. */
  lemma {:induction false} SubsequenceElements<T>(r: seq<T>, xs: seq<T>)
    requires Subsequence(r, xs)
    ensures forall i :: 0 <= i < |r| ==> r[i] in xs
    decreases |xs|
  {
    if r != [] {
      if Subsequence(r, xs[1..]) {
        SubsequenceElements(r, xs[1..]);
      } else {
        SubsequenceElements(r[1..], xs[1..]);
        assert forall i :: 0 < i < |r| ==> r[i] == r[1..][i - 1];
      }
    }
  }
}
