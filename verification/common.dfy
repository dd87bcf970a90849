/**
 * Result types shared by the exercises: `Option` for a value that may be
 * missing (a `null` or a not-found sentinel in the Java code) and `Result`
 * for an operation that either succeeds or is rejected with an exception.
 */
module Common {

  datatype Option<T> = None | Some(value: T)

  /** `Err` stands for the exception the Java method throws; `e` says which one. */
  datatype Result<T, E> = Ok(value: T) | Err(error: E)

  /**
   * Applies `f` to every element in order and stops at the first `Err`, as a
   * Java loop does when the call in its body throws.
   */
  function MapUntilError<T, U, E>(f: T -> Result<U, E>, xs: seq<T>): (r: Result<seq<U>, E>)
    ensures r.Ok? ==> |r.value| == |xs|
  {
    if xs == [] then Ok([])
    else
      match f(xs[0])
      case Err(e) => Err(e)
      case Ok(first) =>
        match MapUntilError(f, xs[1..])
        case Err(e) => Err(e)
        case Ok(tail) => Ok([first] + tail)
  }

  /** The map succeeds exactly when `f` succeeds on every element, and then holds each element's value. */
  lemma {:induction false} MapUntilErrorOk<T, U, E>(f: T -> Result<U, E>, xs: seq<T>)
    ensures MapUntilError(f, xs).Ok? <==> forall i :: 0 <= i < |xs| ==> f(xs[i]).Ok?
    ensures MapUntilError(f, xs).Ok? ==> forall i :: 0 <= i < |xs| ==> f(xs[i]) == Ok(MapUntilError(f, xs).value[i])
  {
    if xs != [] {
      var tail := xs[1..];
      MapUntilErrorOk(f, tail);
      assert forall i :: 1 <= i < |xs| ==> xs[i] == tail[i - 1];
    }
  }

  /** A failed map reports the error of the first element on which `f` fails. */
  lemma {:induction false} MapUntilErrorFirst<T, U, E>(f: T -> Result<U, E>, xs: seq<T>)
    requires MapUntilError(f, xs).Err?
    ensures exists i :: 0 <= i < |xs| && f(xs[i]) == Err(MapUntilError(f, xs).error) &&
              forall j :: 0 <= j < i ==> f(xs[j]).Ok?
  {
    var e := MapUntilError(f, xs).error;
    if f(xs[0]).Err? {
      assert f(xs[0]) == Err(e);
    } else {
      var tail := xs[1..];
      MapUntilErrorFirst(f, tail);
      var i :| 0 <= i < |tail| && f(tail[i]) == Err(e) && forall j :: 0 <= j < i ==> f(tail[j]).Ok?;
      assert xs[i + 1] == tail[i];
      forall j | 0 <= j < i + 1
        ensures f(xs[j]).Ok?
      {
        if j > 0 {
          assert xs[j] == tail[j - 1];
        }
      }
    }
  }
}
