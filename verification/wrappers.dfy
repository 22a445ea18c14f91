/** Option and Result, the two failure-carrying shapes the model returns. */
module Wrappers {

  datatype Option<+T> = None | Some(value: T) {
    function GetOr(default: T): T {
      match this
      case Some(v) => v
      case None => default
    }
  }

  datatype Result<+T, +E> = Ok(value: T) | Err(error: E)

  /** `xs` followed by the sequence carried by `r`; an error is passed through unchanged. */
  function Prepend<T, E>(xs: seq<T>, r: Result<seq<T>, E>): Result<seq<T>, E> {
    match r
    case Ok(ys) => Ok(xs + ys)
    case Err(e) => Err(e)
  }

  /** Runs `first`, then appends whatever `rest` carries; the first error wins. */
  function Chain<T, E>(first: Result<seq<T>, E>, rest: Result<seq<T>, E>): Result<seq<T>, E> {
    match first
    case Ok(xs) => Prepend(xs, rest)
    case Err(e) => Err(e)
  }

  /** Prepending nothing, or to nothing, changes nothing. */
  lemma PrependNothing<T, E>(xs: seq<T>, r: Result<seq<T>, E>)
    ensures Prepend([], r) == r
    ensures Prepend<T, E>(xs, Ok([])) == Ok(xs)
  {
    assert xs + [] == xs;
    if r.Ok? {
      assert [] + r.value == r.value;
    }
  }

  lemma PrependTwice<T, E>(xs: seq<T>, ys: seq<T>, r: Result<seq<T>, E>)
    ensures Prepend(xs, Prepend(ys, r)) == Prepend(xs + ys, r)
  {
    if r.Ok? {
      assert xs + (ys + r.value) == (xs + ys) + r.value;
    }
  }

  lemma ChainPrepend<T, E>(xs: seq<T>, r1: Result<seq<T>, E>, r2: Result<seq<T>, E>)
    ensures Chain(Prepend(xs, r1), r2) == Prepend(xs, Chain(r1, r2))
  {
    if r1.Ok? && r2.Ok? {
      assert (xs + r1.value) + r2.value == xs + (r1.value + r2.value);
    }
  }

  /** Applies `f` to each element in order; the first error stops the run. */
  function Traverse<A, B, E>(f: A -> Result<B, E>, xs: seq<A>): Result<seq<B>, E> {
    if xs == [] then Ok([])
    else match f(xs[0])
      case Err(e) => Err(e)
      case Ok(y) => Prepend([y], Traverse(f, xs[1..]))
  }

  /**
   * A run succeeds exactly when every application does, and then yields their
   * results in order; a failed run reports the first failing application.
   */
  lemma {:induction false} TraverseExact<A, B, E>(f: A -> Result<B, E>, xs: seq<A>)
    ensures Traverse(f, xs).Ok? <==> forall i :: 0 <= i < |xs| ==> f(xs[i]).Ok?
    ensures Traverse(f, xs).Ok? ==>
              |Traverse(f, xs).value| == |xs|
              && forall i :: 0 <= i < |xs| ==> Traverse(f, xs).value[i] == f(xs[i]).value
    ensures Traverse(f, xs).Err? ==>
              exists k :: 0 <= k < |xs| && f(xs[k]).Err? && Traverse(f, xs).error == f(xs[k]).error
                && forall i :: 0 <= i < k ==> f(xs[i]).Ok?
  {
    if xs != [] {
      TraverseExact(f, xs[1..]);
      assert forall i :: 1 <= i < |xs| ==> xs[1..][i - 1] == xs[i];
      if f(xs[0]).Ok? && Traverse(f, xs[1..]).Err? {
        var k :| 0 <= k < |xs[1..]| && f(xs[1..][k]).Err? && Traverse(f, xs[1..]).error == f(xs[1..][k]).error
                 && forall i :: 0 <= i < k ==> f(xs[1..][i]).Ok?;
        assert f(xs[k + 1]).Err?;
      }
    }
  }
}
