/** Optional values and success/failure results, standing in for JavaScript's
    `undefined` and for thrown exceptions. */
module Results {

  /** `None` plays the part of JavaScript's `undefined`. */
  datatype Option<+T> = None | Some(value: T)

  /** `Failure` plays the part of a thrown exception. */
  datatype Result<+R, +E> = Success(value: R) | Failure(error: E)

  /** Element `i` is the first of `xs` on which `f` fails. */
  predicate FirstFailure<A, B, E>(xs: seq<A>, f: A -> Result<B, E>, i: nat)
    requires i < |xs|
  {
    f(xs[i]).Failure? && forall j :: 0 <= j < i ==> f(xs[j]).Success?
  }

  /** `xs.map(f)` for a callback that may throw: every element mapped in
      order; the first element on which `f` fails aborts the whole map with
      that failure. */
  function TryMap<A, B, E>(xs: seq<A>, f: A -> Result<B, E>): (r: Result<seq<B>, E>)
    ensures r.Success? <==> forall i :: 0 <= i < |xs| ==> f(xs[i]).Success?
    ensures r.Success? ==> |r.value| == |xs|
    ensures r.Success? ==> forall i :: 0 <= i < |xs| ==> f(xs[i]).Success? && r.value[i] == f(xs[i]).value
    ensures r.Failure? ==> exists i :: 0 <= i < |xs| && FirstFailure(xs, f, i) && r.error == f(xs[i]).error
  {
    if xs == [] then Success([])
    else
      var first := f(xs[0]);
      if first.Failure? then
        assert FirstFailure(xs, f, 0);
        Failure(first.error)
      else
        var rest := TryMap(xs[1..], f);
        if rest.Failure? then
          ghost var i :| 0 <= i < |xs| - 1 && FirstFailure(xs[1..], f, i) && rest.error == f(xs[1..][i]).error;
          assert FirstFailure(xs, f, i + 1) by {
            forall j | 0 <= j < i + 1 ensures f(xs[j]).Success? {
              if j > 0 { assert xs[j] == xs[1..][j - 1]; }
            }
          }
          Failure(rest.error)
        else
          var ys := [first.value] + rest.value;
          assert forall i :: 0 <= i < |xs| ==> f(xs[i]).Success? && ys[i] == f(xs[i]).value by {
            forall i | 0 <= i < |xs| ensures f(xs[i]).Success? && ys[i] == f(xs[i]).value {
              if i > 0 { assert xs[i] == xs[1..][i - 1]; }
            }
          }
          Success(ys)
  }
}
