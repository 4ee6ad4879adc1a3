/**
 * `Array.prototype.filter` and `Array.prototype.map` over sequences.
 */
module Seqs {

  /** The elements of `xs` that satisfy `p`, in their original order. */
  function Filter<T>(xs: seq<T>, p: T -> bool): (r: seq<T>)
    ensures |r| <= |xs|
    decreases |xs|
  {
    if xs == [] then []
    else (if p(xs[0]) then [xs[0]] else []) + Filter(xs[1..], p)
  }

  /** `f` applied to each element of `xs`. */
  function Map<T, U>(xs: seq<T>, f: T -> U): (r: seq<U>)
    ensures |r| == |xs|
    decreases |xs|
  {
    if xs == [] then [] else [f(xs[0])] + Map(xs[1..], f)
  }

  /** The element at each index is `f` of the element there. */
  lemma {:induction false} MapIndex<T, U>(xs: seq<T>, f: T -> U)
    ensures forall k :: 0 <= k < |xs| ==> Map(xs, f)[k] == f(xs[k])
    decreases |xs|
  {
    if xs != [] {
      MapIndex(xs[1..], f);
      var r := Map(xs, f);
      forall k | 0 <= k < |xs| ensures r[k] == f(xs[k]) {
        if k > 0 { assert r[k] == Map(xs[1..], f)[k - 1]; }
      }
    }
  }

  /** Filtering the first element and then the rest. */
  lemma {:induction false} FilterCons<T>(x: T, xs: seq<T>, p: T -> bool)
    ensures Filter([x] + xs, p) == (if p(x) then [x] else []) + Filter(xs, p)
  {
    assert ([x] + xs)[1..] == xs;
  }

  /** Filtering distributes over concatenation. */
  lemma {:induction false} FilterAppend<T>(xs: seq<T>, ys: seq<T>, p: T -> bool)
    ensures Filter(xs + ys, p) == Filter(xs, p) + Filter(ys, p)
    decreases |xs|
  {
    if xs != [] {
      assert (xs + ys)[1..] == xs[1..] + ys;
      FilterAppend(xs[1..], ys, p);
      FilterCons(xs[0], xs[1..] + ys, p);
      assert xs + ys == [xs[0]] + (xs[1..] + ys);
    } else {
      assert xs + ys == ys;
    }
  }

  /** A filter that every element passes keeps the whole sequence. */
  lemma {:induction false} FilterKeepsAll<T>(xs: seq<T>, p: T -> bool)
    requires forall k :: 0 <= k < |xs| ==> p(xs[k])
    ensures Filter(xs, p) == xs
    decreases |xs|
  {
    if xs != [] {
      FilterKeepsAll(xs[1..], p);
    }
  }

  /** Mapping the first element and then the rest. */
  lemma {:induction false} MapCons<T, U>(x: T, xs: seq<T>, f: T -> U)
    ensures Map([x] + xs, f) == [f(x)] + Map(xs, f)
  {
    assert ([x] + xs)[1..] == xs;
  }

  /** Mapping a sequence extended by one element. */
  lemma {:induction false} MapSnoc<T, U>(xs: seq<T>, x: T, f: T -> U)
    ensures Map(xs + [x], f) == Map(xs, f) + [f(x)]
  {
    var l, r := Map(xs + [x], f), Map(xs, f) + [f(x)];
    MapIndex(xs + [x], f);
    MapIndex(xs, f);
    forall k | 0 <= k < |l| ensures l[k] == r[k] {
      if k < |xs| { assert (xs + [x])[k] == xs[k]; }
    }
  }

  /** Mapping a single element. */
  lemma {:induction false} MapSingle<T, U>(x: T, f: T -> U)
    ensures Map([x], f) == [f(x)]
  {
    assert [x][1..] == [];
  }
}
