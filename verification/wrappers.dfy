/** Failure-carrying result types used across the model.
    The source signals its error cases with Python exceptions; the model
    returns them as values instead. */
module Wrappers {

  datatype Option<+T> = None | Some(value: T)

  /** The Python exception a source operation would raise. */
  datatype Fault =
    | IndexError         // list or array index out of range
    | KeyError           // missing dictionary key
    | ValueError         // sampling or max() over an empty collection, negative array size
    | ZeroDivisionError  // integer division by zero

  datatype Result<+T> = Success(value: T) | Failure(fault: Fault)

  /** The values of a list of outcomes, or the first failure among them. */
  function Collect<T>(rs: seq<Result<T>>): (r: Result<seq<T>>)
    ensures r.Success? ==> |r.value| == |rs|
  {
    if rs == [] then Success([])
    else
      match rs[0]
      case Failure(f) => Failure(f)
      case Success(first) =>
        match Collect(rs[1..])
        case Failure(f) => Failure(f)
        case Success(rest) => Success([first] + rest)
  }

  /** `Collect` succeeds exactly when every outcome does, and then lists their
      values in order; otherwise it reports the first failure. */
  lemma {:induction false} CollectSpec<T>(rs: seq<Result<T>>)
    ensures Collect(rs).Success? <==> forall j :: 0 <= j < |rs| ==> rs[j].Success?
    ensures Collect(rs).Success? ==> forall j :: 0 <= j < |rs| ==> rs[j] == Success(Collect(rs).value[j])
    ensures Collect(rs).Failure? ==> exists j :: 0 <= j < |rs| && rs[j] == Failure(Collect(rs).fault)
                                       && forall i :: 0 <= i < j ==> rs[i].Success?
  {
    if rs != [] {
      var tail := rs[1..];
      CollectSpec(tail);
      assert forall j :: 0 < j < |rs| ==> rs[j] == tail[j - 1];
      if rs[0].Success? && Collect(tail).Failure? {
        var j :| 0 <= j < |tail| && tail[j] == Failure(Collect(tail).fault)
                 && forall i :: 0 <= i < j ==> tail[i].Success?;
        assert rs[j + 1] == tail[j];
      }
    }
  }
}
