/** Failure-compatible Option and Result types. The modelled JavaScript throws
    exceptions; every operation here returns a Result instead. */
module Wrappers {

  datatype Option<+T> = None | Some(value: T) {

    predicate IsFailure() {
      None?
    }

    function PropagateFailure<U>(): Option<U>
      requires None?
    {
      None
    }

    function Extract(): T
      requires Some?
    {
      value
    }
  }

  datatype Result<+R, +E> = Success(value: R) | Failure(error: E) {

    predicate IsFailure() {
      Failure?
    }

    function PropagateFailure<U>(): Result<U, E>
      requires Failure?
    {
      Failure(error)
    }

    function Extract(): R
      requires Success?
    {
      value
    }
  }

  /** The values of `rs` in order when every one is a success; otherwise the
      first failure. This is what mapping a throwing function over a list
      does. */
  function AllOf<T, E>(rs: seq<Result<T, E>>): (r: Result<seq<T>, E>)
    ensures r.Success? ==> |r.value| == |rs|
    decreases |rs|
  {
    if |rs| == 0 then Success([])
    else
      var v :- rs[0];
      var rest :- AllOf(rs[1..]);
      Success([v] + rest)
  }

  /** The results combine to a success exactly when each is one, value `k`
      coming from result `k`; otherwise the error is that of the first
      failure. */
  lemma {:induction false} AllOfSpec<T, E>(rs: seq<Result<T, E>>)
    ensures AllOf(rs).Success? <==> forall k | 0 <= k < |rs| :: rs[k].Success?
    ensures AllOf(rs).Success? ==> forall k | 0 <= k < |rs| :: rs[k] == Success(AllOf(rs).value[k])
    ensures AllOf(rs).Failure? ==> exists k | 0 <= k < |rs| ::
      && rs[k] == Failure(AllOf(rs).error)
      && forall m | 0 <= m < k :: rs[m].Success?
    decreases |rs|
  {
    if |rs| > 0 {
      var r := AllOf(rs);
      var tail := rs[1..];
      var rest := AllOf(tail);
      AllOfSpec(tail);
      assert forall k | 1 <= k < |rs| :: rs[k] == tail[k - 1];
      if rs[0].Failure? {
        assert r == Failure(rs[0].error);
      } else if rest.Failure? {
        assert r == Failure(rest.error);
        var k :| 0 <= k < |tail| && tail[k] == Failure(rest.error)
          && forall m | 0 <= m < k :: tail[m].Success?;
        assert rs[k + 1] == Failure(r.error);
        forall m | 0 <= m < k + 1
          ensures rs[m].Success?
        {
          if m > 0 {
            assert rs[m] == tail[m - 1];
          }
        }
      } else {
        assert r == Success([rs[0].value] + rest.value);
        forall k | 0 <= k < |rs|
          ensures rs[k] == Success(r.value[k])
        {
          if k > 0 {
            assert r.value[k] == rest.value[k - 1];
          }
        }
      }
    }
  }
}
