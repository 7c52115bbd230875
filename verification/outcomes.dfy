/** Failure-carrying results shared by the whole model. The pipeline signals
    failure by raising (an empty tensor's `max`, a failed `assert`, an index
    error); here those become explicit values. */
module Outcomes {

  /** Something that may be undefined: a raised error or a division by zero. */
  datatype Option<+T> = None | Some(value: T)

  /** A computation that either yields a value or names why it failed. */
  datatype Result<+T, +E> = Ok(value: T) | Err(error: E) {
    predicate IsFailure() { Err? }

    function PropagateFailure<U>(): Result<U, E>
      requires Err?
    {
      Err(error)
    }

    function Extract(): T
      requires Ok?
    {
      value
    }
  }

  /** Runs a sequence of steps that may each fail, as a loop that raises
      at the first failing step: all values when every step succeeds,
      otherwise the error of the first step that failed. */
  function Collect<T, E(==)>(rs: seq<Result<T, E>>): (r: Result<seq<T>, E>)
    ensures r.Ok? <==> forall i :: 0 <= i < |rs| ==> rs[i].Ok?
    ensures r.Ok? ==> |r.value| == |rs| && forall i :: 0 <= i < |rs| ==> r.value[i] == rs[i].value
    ensures r.Err? ==> exists i :: FirstFailure(rs, i) && r.error == rs[i].error
  {
    if |rs| == 0 then Ok([])
    else if rs[0].Err? then
      assert FirstFailure(rs, 0);
      Err(rs[0].error)
    else
      var tail := Collect(rs[1..]);
      if tail.Err? then
        assert exists i :: FirstFailure(rs, i) && tail.error == rs[i].error by {
          var i :| FirstFailure(rs[1..], i) && tail.error == rs[1..][i].error;
          assert rs[i + 1] == rs[1..][i];
          forall j | 0 <= j < i + 1 ensures rs[j].Ok? {
            if j > 0 {
              assert rs[j] == rs[1..][j - 1];
            }
          }
          assert FirstFailure(rs, i + 1);
        }
        Err(tail.error)
      else
        Ok([rs[0].value] + tail.value)
  }

  /** Step `i` is the first one to fail. */
  predicate FirstFailure<T, E>(rs: seq<Result<T, E>>, i: int)
  {
    0 <= i < |rs| && rs[i].Err? && forall j :: 0 <= j < i ==> rs[j].Ok?
  }
}
