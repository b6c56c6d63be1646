/** Array.prototype.filter and Array.prototype.map over Dafny sequences. */
module Lists {

  /** The elements of `xs` that satisfy `keep`, in their original order. */
  function Filter<T>(xs: seq<T>, keep: T -> bool): (r: seq<T>)
    ensures |r| <= |xs|
    ensures forall i :: 0 <= i < |r| ==> r[i] in xs && keep(r[i])
    ensures forall i :: 0 <= i < |xs| && keep(xs[i]) ==> xs[i] in r
  {
    if xs == [] then []
    else if keep(xs[0]) then [xs[0]] + Filter(xs[1..], keep)
    else Filter(xs[1..], keep)
  }

  /** `f` applied to every element of `xs`, in order. */
  function Map<T, U>(xs: seq<T>, f: T -> U): (r: seq<U>)
    ensures |r| == |xs|
    ensures forall i :: 0 <= i < |xs| ==> r[i] == f(xs[i])
  {
    if xs == [] then [] else [f(xs[0])] + Map(xs[1..], f)
  }

  /** Whatever holds of every element of `xs` holds of every element `Filter` keeps. */
  lemma {:induction false} FilterKeepsProperty<T>(xs: seq<T>, keep: T -> bool, holds: T -> bool)
    requires forall i :: 0 <= i < |xs| ==> holds(xs[i])
    ensures forall i :: 0 <= i < |Filter(xs, keep)| ==> holds(Filter(xs, keep)[i])
  {
    if xs != [] {
      FilterKeepsProperty(xs[1..], keep, holds);
    }
  }

  /** Filters whose predicates agree on every element of `xs` keep the same elements. */
  lemma {:induction false} FilterAgree<T>(xs: seq<T>, keep: T -> bool, keep': T -> bool)
    requires forall i :: 0 <= i < |xs| ==> keep(xs[i]) == keep'(xs[i])
    ensures Filter(xs, keep) == Filter(xs, keep')
  {
    if xs != [] {
      FilterAgree(xs[1..], keep, keep');
    }
  }

  /** Filtering is done element by element: it distributes over concatenation. */
  lemma {:induction false} FilterConcat<T>(a: seq<T>, b: seq<T>, keep: T -> bool)
    ensures Filter(a + b, keep) == Filter(a, keep) + Filter(b, keep)
  {
    if a == [] {
      assert a + b == b;
    } else {
      assert (a + b)[0] == a[0] && (a + b)[1..] == a[1..] + b;
      FilterConcat(a[1..], b, keep);
    }
  }

  /**
   * On one element, `Filter` keeps it exactly when `keep` holds of it. With
   * `FilterConcat` this fixes the result of any filter: the kept elements, each as
   * often as it occurs, in their original order.
   */
  lemma FilterSingle<T>(x: T, keep: T -> bool)
    ensures Filter([x], keep) == if keep(x) then [x] else []
  {
    assert [x][1..] == [];
  }

  /** Mapping is done element by element: it distributes over concatenation. */
  lemma {:induction false} MapConcat<T, U>(a: seq<T>, b: seq<T>, f: T -> U)
    ensures Map(a + b, f) == Map(a, f) + Map(b, f)
  {
    if a == [] {
      assert a + b == b;
    } else {
      assert (a + b)[1..] == a[1..] + b;
      MapConcat(a[1..], b, f);
    }
  }

  /** A filter whose predicate holds of every element changes nothing. */
  lemma {:induction false} FilterAll<T>(xs: seq<T>, keep: T -> bool)
    requires forall i :: 0 <= i < |xs| ==> keep(xs[i])
    ensures Filter(xs, keep) == xs
  {
    if xs != [] {
      FilterAll(xs[1..], keep);
    }
  }

  /** A filter whose predicate holds of no element keeps nothing. */
  lemma {:induction false} FilterNone<T>(xs: seq<T>, keep: T -> bool)
    requires forall i :: 0 <= i < |xs| ==> !keep(xs[i])
    ensures Filter(xs, keep) == []
  {
    if xs != [] {
      FilterNone(xs[1..], keep);
    }
  }
}
