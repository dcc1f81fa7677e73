/**
 * The two list shapes the parsers build by appending as they scan: a `List<T>` that
 * receives zero or one item per input (`FilterMap`), and one that receives a run of
 * items per input (`FlatMap`). Both are defined left to right, as the loops append.
 */
module Lists {
  import opened Wrappers

  /** A slice grows by one element at its right end. */
  lemma SliceNext<T>(xs: seq<T>, a: int, i: int)
    requires 0 <= a <= i < |xs|
    ensures xs[a..i + 1] == xs[a..i] + [xs[i]]
  {
  }

  /** The present results of `f` over `xs`, in order. */
  function FilterMap<T, U>(f: T -> Option<U>, xs: seq<T>): seq<U> {
    if xs == [] then []
    else
      FilterMap(f, xs[..|xs| - 1])
        + match f(xs[|xs| - 1])
          case None => []
          case Some(y) => [y]
  }

  /** One more input adds its result, if any, at the end. */
  lemma FilterMapNext<T, U>(f: T -> Option<U>, xs: seq<T>, i: int)
    requires 0 <= i < |xs|
    ensures FilterMap(f, xs[..i + 1]) ==
      FilterMap(f, xs[..i]) + match f(xs[i]) case None => [] case Some(y) => [y]
  {
    assert xs[..i + 1][..i] == xs[..i];
  }

  /** An item is in the result exactly when some input maps to it. */
  lemma {:induction false} FilterMapMembers<T, U>(f: T -> Option<U>, xs: seq<T>, y: U)
    ensures y in FilterMap(f, xs) <==> exists k :: 0 <= k < |xs| && f(xs[k]) == Some(y)
  {
    if xs != [] {
      var p, x := xs[..|xs| - 1], xs[|xs| - 1];
      FilterMapMembers(f, p, y);
      var own := match f(x) case None => [] case Some(z) => [z];
      assert FilterMap(f, xs) == FilterMap(f, p) + own;
      assert y in own <==> f(x) == Some(y);
      if exists k :: 0 <= k < |p| && f(p[k]) == Some(y) {
        var k :| 0 <= k < |p| && f(p[k]) == Some(y);
        assert xs[k] == p[k];
      }
      if exists k :: 0 <= k < |xs| && f(xs[k]) == Some(y) {
        var k :| 0 <= k < |xs| && f(xs[k]) == Some(y);
        if k < |p| {
          assert p[k] == xs[k];
        }
      }
    }
  }

  /** The results over two inputs in a row are the results over each, in order. */
  lemma {:induction false} FilterMapAppend<T, U>(f: T -> Option<U>, a: seq<T>, b: seq<T>)
    ensures FilterMap(f, a + b) == FilterMap(f, a) + FilterMap(f, b)
    decreases |b|
  {
    if b == [] {
      assert a + b == a;
    } else {
      var p := b[..|b| - 1];
      FilterMapAppend(f, a, p);
      assert (a + b)[..|a + b| - 1] == a + p;
      assert (a + b)[|a + b| - 1] == b[|b| - 1];
    }
  }

  /** The results of `f` over `xs`, concatenated in order. */
  function FlatMap<T, U>(f: T -> seq<U>, xs: seq<T>): seq<U> {
    if xs == [] then [] else FlatMap(f, xs[..|xs| - 1]) + f(xs[|xs| - 1])
  }

  lemma FlatMapNext<T, U>(f: T -> seq<U>, xs: seq<T>, i: int)
    requires 0 <= i < |xs|
    ensures FlatMap(f, xs[..i + 1]) == FlatMap(f, xs[..i]) + f(xs[i])
  {
    assert xs[..i + 1][..i] == xs[..i];
  }

  /** An item is in the result exactly when it is in the result of some input. */
  lemma {:induction false} FlatMapMembers<T, U>(f: T -> seq<U>, xs: seq<T>, y: U)
    ensures y in FlatMap(f, xs) <==> exists k :: 0 <= k < |xs| && y in f(xs[k])
  {
    if xs != [] {
      var p, x := xs[..|xs| - 1], xs[|xs| - 1];
      FlatMapMembers(f, p, y);
      if exists k :: 0 <= k < |p| && y in f(p[k]) {
        var k :| 0 <= k < |p| && y in f(p[k]);
        assert xs[k] == p[k];
      }
      if exists k :: 0 <= k < |xs| && y in f(xs[k]) {
        var k :| 0 <= k < |xs| && y in f(xs[k]);
        if k < |p| {
          assert p[k] == xs[k];
        }
      }
    }
  }
}
