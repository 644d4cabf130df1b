/**
 * Order-preserving filtering. Every loop of the pipeline that walks a list and
 * pushes some of its (possibly transformed) elements onto a fresh array is an
 * instance of `FilterMap`: `f` returns `Some(y)` to push `y` and `None` to skip.
 */
module Seqs {
  import opened Wrappers

  /** The elements `f` keeps, in input order. Defined on the last element, as the
      source's loops build their result by appending. */
  function FilterMap<T, U>(f: T -> Option<U>, xs: seq<T>): (r: seq<U>)
    ensures |r| <= |xs|
    decreases |xs|
  {
    if |xs| == 0 then []
    else
      var init := FilterMap(f, xs[..|xs| - 1]);
      match f(xs[|xs| - 1])
      case Some(y) => init + [y]
      case None => init
  }

  /** The keep-or-drop function of a plain filter by predicate `p`. */
  function Keep<T>(p: T -> bool): T -> Option<T> {
    x => if p(x) then Some(x) else None
  }

  /** The elements of `xs` satisfying `p`, in order. */
  function Filter<T>(p: T -> bool, xs: seq<T>): seq<T> {
    FilterMap(Keep(p), xs)
  }

  /** Every `idx[k]` is a position of `xs` that `f` maps to `Some(r[k])`. */
  ghost predicate Images<T, U>(idx: seq<nat>, f: T -> Option<U>, xs: seq<T>, r: seq<U>) {
    && |idx| == |r|
    && forall k :: 0 <= k < |idx| ==> idx[k] < |xs| && f(xs[idx[k]]) == Some(r[k])
  }

  ghost predicate Increasing(idx: seq<nat>) {
    forall k, l :: 0 <= k < l < |idx| ==> idx[k] < idx[l]
  }

  /** Every position `f` keeps is listed. */
  ghost predicate CoversKept<T, U>(idx: seq<nat>, f: T -> Option<U>, xs: seq<T>) {
    forall i :: 0 <= i < |xs| && f(xs[i]).Some? ==> i in idx
  }

  /** `idx` lists, in strictly increasing order, exactly the positions of `xs` that
      `f` keeps, and `r[k]` is what `f` makes of the element at position `idx[k]`. */
  ghost predicate Enumerates<T, U>(idx: seq<nat>, f: T -> Option<U>, xs: seq<T>, r: seq<U>) {
    Images(idx, f, xs, r) && Increasing(idx) && CoversKept(idx, f, xs)
  }

  /** The positions of `xs` that `f` keeps. Its contract says that the result of
      `FilterMap` is the kept elements' images as an order-preserving subsequence,
      with nothing dropped that `f` keeps and nothing kept that `f` drops. */
  function KeptIndices<T, U>(f: T -> Option<U>, xs: seq<T>): (idx: seq<nat>)
    ensures Enumerates(idx, f, xs, FilterMap(f, xs))
    decreases |xs|
  {
    if |xs| == 0 then []
    else
      var n := |xs| - 1;
      var init := KeptIndices(f, xs[..n]);
      match f(xs[n])
      case Some(y) =>
        EnumerationSnoc(f, xs, init, FilterMap(f, xs[..n]), y);
        init + [n]
      case None =>
        EnumerationSkip(f, xs, init, FilterMap(f, xs[..n]));
        init
  }

  /** An enumeration for all but the last element, extended by the last position
      when `f` keeps the last element. */
  lemma EnumerationSnoc<T, U>(f: T -> Option<U>, xs: seq<T>, init: seq<nat>, r0: seq<U>, y: U)
    requires |xs| > 0 && f(xs[|xs| - 1]) == Some(y)
    requires Enumerates(init, f, xs[..|xs| - 1], r0)
    ensures Enumerates(init + [|xs| - 1], f, xs, r0 + [y])
  {
  }

  /** An enumeration for all but the last element, unchanged when `f` drops the last
      element. */
  lemma EnumerationSkip<T, U>(f: T -> Option<U>, xs: seq<T>, init: seq<nat>, r0: seq<U>)
    requires |xs| > 0 && f(xs[|xs| - 1]).None?
    requires Enumerates(init, f, xs[..|xs| - 1], r0)
    ensures Enumerates(init, f, xs, r0)
  {
  }

  /** `FilterMap` is determined by its enumeration property: any sequence that is the
      kept images of `xs` in order is the result of `FilterMap`. */
  lemma {:induction false} EnumerationDeterminesResult<T, U>(f: T -> Option<U>, xs: seq<T>, idx: seq<nat>, r: seq<U>)
    requires Enumerates(idx, f, xs, r)
    ensures r == FilterMap(f, xs)
    decreases |xs|
  {
    if |xs| > 0 {
      var n := |xs| - 1;
      var pre := xs[..n];
      if f(xs[n]).Some? {
        var last := EnumerationUnsnoc(f, xs, idx, r);
        EnumerationDeterminesResult(f, pre, idx[..last], r[..last]);
        assert r == r[..last] + [r[last]];
      } else {
        EnumerationUnskip(f, xs, idx, r);
        EnumerationDeterminesResult(f, pre, idx, r);
      }
    } else {
      IncreasingBelowIsShort(idx, 0);
    }
  }

  /** When the last element is kept, the enumeration ends with its position, and
      without it enumerates the rest. */
  lemma EnumerationUnsnoc<T, U>(f: T -> Option<U>, xs: seq<T>, idx: seq<nat>, r: seq<U>) returns (last: nat)
    requires Enumerates(idx, f, xs, r)
    requires |xs| > 0 && f(xs[|xs| - 1]).Some?
    ensures last == |idx| - 1 && idx[last] == |xs| - 1 && f(xs[|xs| - 1]) == Some(r[last])
    ensures Enumerates(idx[..last], f, xs[..|xs| - 1], r[..last])
  {
    var n := |xs| - 1;
    var pre := xs[..n];
    assert n in idx;
    last := |idx| - 1;
    forall k | 0 <= k < |idx|
      ensures idx[k] <= idx[last]
    {
      if k < last {
        assert idx[k] < idx[last];
      }
    }
    var idx', r' := idx[..last], r[..last];
    forall k | 0 <= k < last
      ensures idx'[k] < n && f(pre[idx'[k]]) == Some(r'[k])
    {
      assert idx[k] < idx[last];
      assert pre[idx[k]] == xs[idx[k]];
    }
    forall i | 0 <= i < n && f(pre[i]).Some?
      ensures i in idx'
    {
      assert pre[i] == xs[i];
      var m :| 0 <= m < |idx| && idx[m] == i;
      assert idx'[m] == i;
    }
  }

  /** When the last element is dropped, the same enumeration covers the rest. */
  lemma EnumerationUnskip<T, U>(f: T -> Option<U>, xs: seq<T>, idx: seq<nat>, r: seq<U>)
    requires Enumerates(idx, f, xs, r)
    requires |xs| > 0 && f(xs[|xs| - 1]).None?
    ensures Enumerates(idx, f, xs[..|xs| - 1], r)
  {
    var n := |xs| - 1;
    var pre := xs[..n];
    forall k | 0 <= k < |idx|
      ensures idx[k] < n && f(pre[idx[k]]) == Some(r[k])
    {
      assert pre[idx[k]] == xs[idx[k]];
    }
    forall i | 0 <= i < n && f(pre[i]).Some?
      ensures i in idx
    {
      assert pre[i] == xs[i];
    }
  }

  /** A strictly increasing sequence of naturals below `n` has at most `n` elements. */
  lemma {:induction false} IncreasingBelowIsShort(idx: seq<nat>, n: nat)
    requires Increasing(idx)
    requires forall k :: 0 <= k < |idx| ==> idx[k] < n
    ensures |idx| <= n
    decreases |idx|
  {
    if |idx| > 0 {
      var last := |idx| - 1;
      var init := idx[..last];
      forall k | 0 <= k < |init|
        ensures init[k] < idx[last]
      {
        assert init[k] == idx[k];
      }
      IncreasingBelowIsShort(init, idx[last]);
    }
  }

  /** Filtering a concatenation filters each part independently. */
  lemma {:induction false} FilterMapAppend<T, U>(f: T -> Option<U>, xs: seq<T>, ys: seq<T>)
    ensures FilterMap(f, xs + ys) == FilterMap(f, xs) + FilterMap(f, ys)
    decreases |ys|
  {
    if |ys| == 0 {
      assert xs + ys == xs;
    } else {
      var zs := xs + ys;
      var m := |ys| - 1;
      assert zs[..|zs| - 1] == xs + ys[..m];
      assert zs[|zs| - 1] == ys[m];
      FilterMapAppend(f, xs, ys[..m]);
    }
  }

  /** The result is empty exactly when `f` drops every element. */
  lemma FilterMapEmpty<T, U>(f: T -> Option<U>, xs: seq<T>)
    ensures FilterMap(f, xs) == [] <==> forall i :: 0 <= i < |xs| ==> f(xs[i]).None?
  {
  }

  /** A filter that keeps every element unchanged is the identity. */
  lemma {:induction false} FilterMapIdentity<T>(f: T -> Option<T>, xs: seq<T>)
    requires forall i :: 0 <= i < |xs| ==> f(xs[i]) == Some(xs[i])
    ensures FilterMap(f, xs) == xs
    decreases |xs|
  {
    if |xs| > 0 {
      var n := |xs| - 1;
      assert forall i :: 0 <= i < n ==> xs[..n][i] == xs[i];
      FilterMapIdentity(f, xs[..n]);
      assert xs == xs[..n] + [xs[n]];
    }
  }

  /** Everything `Filter` keeps satisfies the predicate and comes from the input. */
  lemma FilterSound<T>(p: T -> bool, xs: seq<T>)
    ensures forall k :: 0 <= k < |Filter(p, xs)| ==> p(Filter(p, xs)[k]) && Filter(p, xs)[k] in xs
  {
    var r := Filter(p, xs);
    var idx := KeptIndices(Keep(p), xs);
    forall k | 0 <= k < |r|
      ensures p(r[k]) && r[k] in xs
    {
      assert Keep(p)(xs[idx[k]]) == Some(r[k]);
    }
  }
}
