/** The two failure-compatible shapes the model uses in place of Python's
    `None` returns and raised exceptions. */
module Wrappers {

  /** `None` or a value, as a Python function annotated `-> T | None`. */
  datatype Option<+T> = None | Some(value: T)

  /** The value a call returns, or the exception it raises. */
  datatype Result<+T, +E> = Success(value: T) | Failure(error: E) {

    predicate IsFailure() {
      Failure?
    }

    function PropagateFailure<U>(): Result<U, E>
      requires Failure?
    {
      Failure(error)
    }

    function Extract(): T
      requires Success?
    {
      value
    }
  }

  /** `f` fails on `xs[i]` and on no element before it. */
  predicate FirstFailureAt<X, T, E>(xs: seq<X>, f: X -> Result<T, E>, i: int) {
    0 <= i < |xs| && f(xs[i]).Failure? && forall j :: 0 <= j < i ==> f(xs[j]).Success?
  }

  /** Applies `f` to each element in turn, stopping at the first failure:
      a loop whose body may raise. */
  function MapAll<X, T, E(==)>(xs: seq<X>, f: X -> Result<T, E>): (r: Result<seq<T>, E>)
    ensures r.Success? <==> forall i :: 0 <= i < |xs| ==> f(xs[i]).Success?
    ensures r.Success? ==> |r.value| == |xs| && forall i :: 0 <= i < |xs| ==> r.value[i] == f(xs[i]).value
    ensures r.Failure? ==> exists i :: FirstFailureAt(xs, f, i) && r.error == f(xs[i]).error
  {
    if |xs| == 0 then Success([])
    else
      var first := f(xs[0]);
      if first.Failure? then
        assert FirstFailureAt(xs, f, 0);
        Failure(first.error)
      else
        var rest := MapAll(xs[1..], f);
        assert forall i :: 1 <= i < |xs| ==> xs[i] == xs[1..][i - 1];
        if rest.Failure? then
          assert forall k :: FirstFailureAt(xs[1..], f, k) ==> FirstFailureAt(xs, f, k + 1) by {
            forall k | FirstFailureAt(xs[1..], f, k)
              ensures FirstFailureAt(xs, f, k + 1)
            {
              forall j | 0 <= j < k + 1
                ensures f(xs[j]).Success?
              {
                if j > 0 {
                  assert xs[j] == xs[1..][j - 1];
                }
              }
            }
          }
          Failure(rest.error)
        else
          var r := [first.value] + rest.value;
          assert forall i :: 0 <= i < |xs| ==> r[i] == f(xs[i]).value by {
            forall i | 0 <= i < |xs|
              ensures r[i] == f(xs[i]).value
            {
              if i > 0 {
                assert r[i] == rest.value[i - 1];
              }
            }
          }
          Success(r)
  }
}
