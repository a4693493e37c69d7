/** Failure-carrying results shared by every module. */
module Wrappers {

  datatype Option<+T> = None | Some(value: T)

  datatype Result<+T, +E> = Ok(value: T) | Err(error: E)

  // All the values, or the first failure.
  function Collected<T, E>(results: seq<Result<T, E>>): Result<seq<T>, E> {
    if results == [] then Ok([])
    else
      match Collected(results[..|results| - 1])
      case Err(e) => Err(e)
      case Ok(values) =>
        match results[|results| - 1]
        case Err(e) => Err(e)
        case Ok(value) => Ok(values + [value])
  }

  lemma {:induction false} CollectedOk<T, E>(results: seq<Result<T, E>>)
    ensures Collected(results).Ok? <==> forall i :: 0 <= i < |results| ==> results[i].Ok?
    ensures Collected(results).Ok? ==> |Collected(results).value| == |results|
    ensures Collected(results).Ok? ==> forall i :: 0 <= i < |results| ==> results[i] == Ok(Collected(results).value[i])
  {
    if results == [] {
    } else {
      var most := results[..|results| - 1];
      CollectedOk(most);
      assert forall i :: 0 <= i < |most| ==> results[i] == most[i];
    }
  }

  lemma CollectedMore<T, E>(results: seq<Result<T, E>>, n: nat)
    requires n < |results| && Collected(results[..n]).Ok? && results[n].Ok?
    ensures Collected(results[..n + 1]) == Ok(Collected(results[..n]).value + [results[n].value])
  {
    assert results[..n + 1][..n] == results[..n];
  }

  lemma {:induction false} CollectedFails<T, E>(results: seq<Result<T, E>>, n: nat)
    requires n < |results| && Collected(results[..n]).Ok? && results[n].Err?
    ensures Collected(results) == Err(results[n].error)
  {
    var most := results[..|results| - 1];
    if n == |results| - 1 {
      assert results[..n] == most;
    } else {
      assert most[..n] == results[..n];
      CollectedFails(most, n);
    }
  }
}
