/** Option and Result types used throughout the model.

    A Python `None` becomes `None`; a raised exception (RuntimeError, KeyError,
    AttributeError, IndexError) becomes `Err` carrying the message text. Both
    types are failure-compatible, so `:-` propagates an error the way an
    uncaught exception propagates through the original call chain.
 */
module Wrappers {

  datatype Option<+T> = None | Some(value: T) {

    function GetOr(default: T): T {
      match this
      case Some(v) => v
      case None => default
    }
  }

  datatype Result<+T> = Ok(value: T) | Err(msg: string) {

    predicate IsFailure() {
      Err?
    }

    function PropagateFailure<U>(): Result<U>
      requires Err?
    {
      Err(msg)
    }

    function Extract(): T
      requires Ok?
    {
      value
    }
  }

  /** Python's `"%s" % x` for an optional string: `None` renders as the text "None". */
  function PyStr(o: Option<string>): string {
    match o
    case Some(s) => s
    case None => "None"
  }

  /** The argument of a `__getitem__`: an `int`, or a value of some other type (named). */
  datatype PyIndex = IntIndex(i: int) | OtherIndex(typeName: string)

  /** `container[index]` for the list managers: a non-int index raises with its type in the
      message; an int index follows Python list indexing, counting from the end when
      negative and raising IndexError outside the list. */
  function GetItem<T>(s: seq<T>, index: PyIndex, what: string): (r: Result<T>)
    ensures r.Ok? <==> index.IntIndex? && -|s| <= index.i < |s|
    ensures r.Ok? && index.i >= 0 ==> r.value == s[index.i]
    ensures r.Ok? && index.i < 0 ==> r.value == s[|s| + index.i]
    ensures index.OtherIndex? ==> r == Err(what + " index must be an integer, got " + index.typeName)
  {
    match index
    case OtherIndex(t) => Err(what + " index must be an integer, got " + t)
    case IntIndex(i) =>
      if 0 <= i < |s| then Ok(s[i])
      else if -|s| <= i < 0 then Ok(s[|s| + i])
      else Err("IndexError: list index out of range")
  }
}
