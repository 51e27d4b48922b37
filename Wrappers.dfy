/** Option, Result and Outcome: the program's exceptions become values. */
module Wrappers {

  datatype Option<+T> = None | Some(value: T)

  datatype Result<+R, +E> = Success(value: R) | Failure(error: E)

  /** The result of an operation that only changes state: it either ran to the end or stopped with an error. */
  datatype Outcome<+E> = Pass | Fail(error: E)

  /** The index of the first None, if any. */
  function FirstNone<T>(xs: seq<Option<T>>): (r: Option<nat>)
    ensures r.Some? ==> r.value < |xs| && xs[r.value].None?
    ensures r.Some? ==> forall j :: 0 <= j < r.value ==> xs[j].Some?
    ensures r.None? ==> forall j :: 0 <= j < |xs| ==> xs[j].Some?
    decreases |xs|
  {
    if xs == [] then None
    else
      var last := |xs| - 1;
      assert forall j :: 0 <= j < last ==> xs[..last][j] == xs[j];
      match FirstNone(xs[..last])
      case Some(i) => Some(i)
      case None => if xs[last].None? then Some(last) else None
  }
}
