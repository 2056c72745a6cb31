/** Failure-compatible wrappers used by both converters. */
module Wrappers {

  /** A value that may be absent. */
  datatype Option<+T> = None | Some(value: T) {

    predicate IsFailure() {
      None?
    }

    function PropagateFailure<U>(): Option<U>
      requires None?
    {
      None
    }

    function Extract(): T
      requires Some?
    {
      value
    }
  }

  /** Either a computed value or the error that aborted the computation. */
  datatype Result<+T, +E> = Ok(value: T) | Err(error: E) {

    predicate IsFailure() {
      Err?
    }

    function PropagateFailure<U>(): Result<U, E>
      requires Err?
    {
      Err(error)
    }

    function Extract(): T
      requires Ok?
    {
      value
    }
  }

  /** A reader's absent result turned into the given error, as a conversion that
      raises on text it cannot read. */
  function OrFail<T, E>(o: Option<T>, e: E): (r: Result<T, E>)
    ensures r.Ok? <==> o.Some?
    ensures r.Ok? ==> r.value == o.value
    ensures r.Err? ==> r.error == e
  {
    match o
    case Some(v) => Ok(v)
    case None => Err(e)
  }

  /** Applies `f` to each element in order and stops at the first failure, as
      a Python loop over the elements stops at the first exception. */
  function MapResults<X, T, E>(xs: seq<X>, f: X -> Result<T, E>): (r: Result<seq<T>, E>)
    ensures r.Ok? <==> forall i :: 0 <= i < |xs| ==> f(xs[i]).Ok?
    ensures r.Ok? ==> |r.value| == |xs| && forall i :: 0 <= i < |xs| ==> r.value[i] == f(xs[i]).value
    ensures r.Err? ==> exists i :: 0 <= i < |xs| && f(xs[i]).Err? && r.error == f(xs[i]).error
                          && forall j :: 0 <= j < i ==> f(xs[j]).Ok?
  {
    if |xs| == 0 then Ok([])
    else
      var head :- f(xs[0]);
      var tail :- MapResults(xs[1..], f);
      assert forall i :: 1 <= i < |xs| ==> xs[i] == xs[1..][i - 1];
      Ok([head] + tail)
  }

  /** `MapResults` returns exactly the given results when every element maps to its own. */
  lemma MapResultsPointwise<X, T, E>(xs: seq<X>, f: X -> Result<T, E>, ys: seq<T>)
    requires |xs| == |ys|
    requires forall i :: 0 <= i < |xs| ==> f(xs[i]) == Ok(ys[i])
    ensures MapResults(xs, f) == Ok(ys)
  {
    var r := MapResults(xs, f);
    assert r.Ok?;
    assert r.value == ys;
  }
}

/** The ways a conversion aborts. In the converters these are uncaught Python
    exceptions; here each carries the text that could not be handled. */
module Errors {

  datatype ParseError =
    /** A clause or token did not split into the number of fields the code unpacks or indexes. */
    | MalformedClause(text: string)
    /** A text that had to be a numeric literal (or a display of them) is not one. */
    | InvalidLiteral(text: string)
    /** A required key of a key=value configuration is absent. */
    | MissingKey(key: string)
}
