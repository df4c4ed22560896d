/** Optional values and the filter-map over sequences that both the name-status
    parser and the diff classifier of the change extractor are instances of. */
module Wrappers {

  /** Python's `None` / a present value. */
  datatype Option<+T> = None | Some(value: T)

  /** Applies `f` to every element in order and keeps the present results:
      the shape of a Python loop that appends to a list only in some branches. */
  function FilterMap<A, B>(f: A -> Option<B>, xs: seq<A>): (ys: seq<B>)
    ensures |ys| <= |xs|
  {
    if xs == [] then []
    else
      match f(xs[0])
      case Some(y) => [y] + FilterMap(f, xs[1..])
      case None => FilterMap(f, xs[1..])
  }

  /** The filter-map of a concatenation is the concatenation of the filter-maps:
      results keep the order of the elements that produced them. */
  lemma {:induction false} FilterMapConcat<A, B>(f: A -> Option<B>, xs: seq<A>, zs: seq<A>)
    ensures FilterMap(f, xs + zs) == FilterMap(f, xs) + FilterMap(f, zs)
  {
    if xs == [] {
      assert xs + zs == zs;
    } else {
      assert (xs + zs)[0] == xs[0];
      assert (xs + zs)[1..] == xs[1..] + zs;
      FilterMapConcat(f, xs[1..], zs);
    }
  }

  /** One more element at the end adds at most its own result at the end. */
  lemma FilterMapSnoc<A, B>(f: A -> Option<B>, xs: seq<A>, x: A)
    ensures FilterMap(f, xs + [x]) ==
            FilterMap(f, xs) + (if f(x).Some? then [f(x).value] else [])
  {
    FilterMapConcat(f, xs, [x]);
    assert [x][1..] == [];
  }

  /** When `f` keeps every element, the output is element-wise the image of the input. */
  lemma {:induction false} FilterMapTotal<A, B>(f: A -> Option<B>, xs: seq<A>)
    requires forall i :: 0 <= i < |xs| ==> f(xs[i]).Some?
    ensures |FilterMap(f, xs)| == |xs|
    ensures forall i :: 0 <= i < |xs| ==> FilterMap(f, xs)[i] == f(xs[i]).value
  {
    if xs != [] {
      FilterMapTotal(f, xs[1..]);
    }
  }

  /** Every output element is the result of some input element. */
  lemma {:induction false} FilterMapFrom<A, B>(f: A -> Option<B>, xs: seq<A>, y: B)
    requires y in FilterMap(f, xs)
    ensures exists x :: x in xs && f(x) == Some(y)
  {
    if xs != [] {
      if f(xs[0]) == Some(y) {
        assert xs[0] in xs;
      } else {
        FilterMapFrom(f, xs[1..], y);
        var x :| x in xs[1..] && f(x) == Some(y);
        assert x in xs;
      }
    }
  }
}
