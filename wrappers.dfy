/** Optional values and results, used where the source returns None, or raises. */
module Wrappers {
  datatype Option<+T> = None | Some(value: T)

  datatype Result<+T, +E> = Ok(value: T) | Err(error: E)

  /** The values `f` gives for the elements it accepts, in order: a loop appending on a match. */
  function FilterMap<A, B>(f: A -> Option<B>, xs: seq<A>): seq<B>
  {
    if xs == [] then []
    else FilterMap(f, xs[..|xs| - 1]) + (match f(xs[|xs| - 1]) case Some(y) => [y] case None => [])
  }

  /** A value is kept exactly when some element gives it. */
  lemma {:induction false} FilterMapFrom<A, B>(f: A -> Option<B>, xs: seq<A>, y: B)
    ensures y in FilterMap(f, xs) <==> exists i :: 0 <= i < |xs| && f(xs[i]) == Some(y)
  {
    if xs != [] {
      var n := |xs| - 1;
      FilterMapFrom(f, xs[..n], y);
      FilterMapSnoc(f, xs, n);
      assert xs[..n + 1] == xs;
      GivesSnoc(f, xs, xs[..n], y);
    }
  }

  /** Some element gives `y` when an earlier one does or the last one does. */
  lemma GivesSnoc<A, B>(f: A -> Option<B>, xs: seq<A>, init: seq<A>, y: B)
    requires xs != [] && init == xs[..|xs| - 1]
    ensures (exists i :: 0 <= i < |xs| && f(xs[i]) == Some(y))
        <==> (exists i :: 0 <= i < |init| && f(init[i]) == Some(y)) || f(xs[|xs| - 1]) == Some(y)
  {
    if exists i :: 0 <= i < |xs| && f(xs[i]) == Some(y) {
      var i :| 0 <= i < |xs| && f(xs[i]) == Some(y);
      if i < |init| {
        assert init[i] == xs[i];
      }
    }
    if exists i :: 0 <= i < |init| && f(init[i]) == Some(y) {
      var i :| 0 <= i < |init| && f(init[i]) == Some(y);
      assert init[i] == xs[i];
    }
  }

  /** One more element adds its value, if `f` gives one. */
  lemma FilterMapSnoc<A, B>(f: A -> Option<B>, xs: seq<A>, i: nat)
    requires i < |xs|
    ensures FilterMap(f, xs[..i + 1]) == FilterMap(f, xs[..i]) + (match f(xs[i]) case Some(y) => [y] case None => [])
  {
    assert xs[..i + 1][..i] == xs[..i];
  }

  /** When `f` gives back every element unchanged, nothing is dropped or altered. */
  lemma {:induction false} FilterMapAll<A>(f: A -> Option<A>, xs: seq<A>)
    requires forall i :: 0 <= i < |xs| ==> f(xs[i]) == Some(xs[i])
    ensures FilterMap(f, xs) == xs
  {
    if xs != [] {
      var init := xs[..|xs| - 1];
      assert forall i :: 0 <= i < |init| ==> init[i] == xs[i];
      FilterMapAll(f, init);
      assert xs == init + [xs[|xs| - 1]];
    }
  }

  /** `f` applied to each element in order, stopping at the first error: a loop that can raise. */
  function TryMap<A, B, E>(f: A -> Result<B, E>, xs: seq<A>): (r: Result<seq<B>, E>)
    ensures r.Ok? ==> |r.value| == |xs|
  {
    if xs == [] then Ok([])
    else
      match TryMap(f, xs[..|xs| - 1])
      case Err(e) => Err(e)
      case Ok(ys) =>
        match f(xs[|xs| - 1])
        case Err(e) => Err(e)
        case Ok(y) => Ok(ys + [y])
  }

  /** Without an error, each value is its element's. */
  lemma {:induction false} TryMapAt<A, B, E>(f: A -> Result<B, E>, xs: seq<A>)
    requires TryMap(f, xs).Ok?
    ensures forall j :: 0 <= j < |xs| ==> f(xs[j]) == Ok(TryMap(f, xs).value[j])
  {
    if xs != [] {
      var n := |xs| - 1;
      TryMapAt(f, xs[..n]);
      assert forall j :: 0 <= j < n ==> xs[..n][j] == xs[j];
    }
  }

  /** One more element: its value appended, or its error. */
  lemma TryMapSnoc<A, B, E>(f: A -> Result<B, E>, xs: seq<A>, i: nat, ys: seq<B>)
    requires i < |xs| && TryMap(f, xs[..i]) == Ok(ys)
    ensures TryMap(f, xs[..i + 1]) == (match f(xs[i]) case Err(e) => Err(e) case Ok(y) => Ok(ys + [y]))
  {
    assert xs[..i + 1][..i] == xs[..i];
  }

  /** Once a prefix fails, the whole fails with the same error. */
  lemma {:induction false} TryMapErrExtends<A, B, E>(f: A -> Result<B, E>, xs: seq<A>, i: nat)
    requires i <= |xs| && TryMap(f, xs[..i]).Err?
    ensures TryMap(f, xs) == TryMap(f, xs[..i])
    decreases |xs| - i
  {
    if i < |xs| {
      assert xs[..i + 1][..i] == xs[..i];
      TryMapErrExtends(f, xs, i + 1);
    } else {
      assert xs[..i] == xs;
    }
  }

  /** The elements `keep` accepts, in their order: a loop that writes or appends on a match. */
  function Filter<T>(xs: seq<T>, keep: T -> bool): (r: seq<T>)
    ensures |r| <= |xs|
  {
    if xs == [] then []
    else Filter(xs[..|xs| - 1], keep) + (if keep(xs[|xs| - 1]) then [xs[|xs| - 1]] else [])
  }

  /** One more element is kept at the end when it is accepted. */
  lemma FilterSnoc<T>(xs: seq<T>, keep: T -> bool, i: nat)
    requires i < |xs|
    ensures Filter(xs[..i + 1], keep) == Filter(xs[..i], keep) + (if keep(xs[i]) then [xs[i]] else [])
  {
    assert xs[..i + 1][..i] == xs[..i];
  }

  /** An element survives exactly when it was there and is accepted. */
  lemma {:induction false} FilterMembers<T>(xs: seq<T>, keep: T -> bool, x: T)
    ensures x in Filter(xs, keep) <==> x in xs && keep(x)
  {
    if xs != [] {
      var init := xs[..|xs| - 1];
      FilterMembers(init, keep, x);
      assert xs == init + [xs[|xs| - 1]];
    }
  }

  /** Filtering distributes over concatenation, so the survivors keep their order. */
  lemma {:induction false} FilterConcat<T>(a: seq<T>, b: seq<T>, keep: T -> bool)
    ensures Filter(a + b, keep) == Filter(a, keep) + Filter(b, keep)
    decreases |b|
  {
    if b == [] {
      assert a + b == a;
    } else {
      var n := |b| - 1;
      assert (a + b)[..|a + b| - 1] == a + b[..n];
      FilterConcat(a, b[..n], keep);
    }
  }

  /** A second pass with the same test changes nothing. */
  lemma {:induction false} FilterIdempotent<T>(xs: seq<T>, keep: T -> bool)
    ensures Filter(Filter(xs, keep), keep) == Filter(xs, keep)
  {
    if xs != [] {
      var init := xs[..|xs| - 1];
      var last := xs[|xs| - 1];
      FilterIdempotent(init, keep);
      var tail := if keep(last) then [last] else [];
      FilterConcat(Filter(init, keep), tail, keep);
      if keep(last) {
        assert Filter(tail, keep) == Filter([], keep) + [last] by {
          assert tail[..0] == [];
        }
      }
    }
  }

  /** When every element is accepted nothing is dropped. */
  lemma {:induction false} FilterAll<T>(xs: seq<T>, keep: T -> bool)
    requires forall i :: 0 <= i < |xs| ==> keep(xs[i])
    ensures Filter(xs, keep) == xs
  {
    if xs != [] {
      FilterAll(xs[..|xs| - 1], keep);
    }
  }

  /** Two tests that agree on every element filter alike. */
  lemma {:induction false} FilterAgree<T>(xs: seq<T>, f: T -> bool, g: T -> bool)
    requires forall i :: 0 <= i < |xs| ==> f(xs[i]) == g(xs[i])
    ensures Filter(xs, f) == Filter(xs, g)
  {
    if xs != [] {
      FilterAgree(xs[..|xs| - 1], f, g);
    }
  }

  /** The set of values `f` gives for the elements it accepts: a loop adding to a set on a match. */
  function Gather<A, B>(f: A -> Option<B>, xs: seq<A>): set<B>
  {
    if xs == [] then {}
    else Gather(f, xs[..|xs| - 1]) + (match f(xs[|xs| - 1]) case Some(y) => {y} case None => {})
  }

  /** A value is gathered exactly when some element gives it. */
  lemma {:induction false} GatherFrom<A, B>(f: A -> Option<B>, xs: seq<A>, y: B)
    ensures y in Gather(f, xs) <==> exists i :: 0 <= i < |xs| && f(xs[i]) == Some(y)
  {
    if xs != [] {
      var init := xs[..|xs| - 1];
      GatherFrom(f, init, y);
      if exists i :: 0 <= i < |xs| && f(xs[i]) == Some(y) {
        var i :| 0 <= i < |xs| && f(xs[i]) == Some(y);
        if i < |init| {
          assert init[i] == xs[i];
        }
      }
      if exists i :: 0 <= i < |init| && f(init[i]) == Some(y) {
        var i :| 0 <= i < |init| && f(init[i]) == Some(y);
        assert init[i] == xs[i];
      }
    }
  }

  /** One more element: its value added, if it gives one. */
  lemma GatherSnoc<A, B>(f: A -> Option<B>, xs: seq<A>, i: nat)
    requires i < |xs|
    ensures Gather(f, xs[..i + 1]) == Gather(f, xs[..i]) + (match f(xs[i]) case Some(y) => {y} case None => {})
  {
    assert xs[..i + 1][..i] == xs[..i];
  }
}
