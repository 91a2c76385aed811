/** Optional values, the Python exceptions the pipeline lets propagate, and the
    sequential reading of `asyncio.gather`. */
module Outcomes {

  datatype Option<+T> = None | Some(value: T) {
    /** `x if x is not None else default`, or a dict's `.get(key, default)`. */
    function GetOr(default: T): T {
      match this
      case Some(v) => v
      case None => default
    }
  }

  /** The exceptions the modelled code raises and does not catch. */
  datatype PyError =
    | KeyError(key: string)
    | IndexError(index: int)
    | AttributeError(name: string)
    | Base64Error
    | HttpError

  /** A value, or the exception that ended the computation. */
  datatype Result<+T> = Ok(value: T) | Err(error: PyError)

  /** `await asyncio.gather(*tasks)` read sequentially: the task results in task
      order when every task succeeds, otherwise the first task's exception. */
  function Gather<T>(tasks: seq<Result<T>>): (r: Result<seq<T>>)
    ensures r.Ok? <==> forall i :: 0 <= i < |tasks| ==> tasks[i].Ok?
    ensures r.Ok? ==> |r.value| == |tasks| && forall i :: 0 <= i < |tasks| ==> r.value[i] == tasks[i].value
    ensures r.Err? ==> exists i :: 0 <= i < |tasks| && tasks[i] == Err(r.error)
  {
    if tasks == [] then Ok([])
    else match tasks[0]
      case Err(e) => Err(e)
      case Ok(v) =>
        match Gather(tasks[1..])
        case Err(e) => Err(e)
        case Ok(vs) => Ok([v] + vs)
  }

  /** What a loop that has already collected `prefix` ends with when the rest
      of its input gives `r`: `Ok(prefix + rest)`, or the rest's exception. */
  function Prepend<T>(prefix: seq<T>, r: Result<seq<T>>): Result<seq<T>> {
    match r
    case Ok(rest) => Ok(prefix + rest)
    case Err(e) => Err(e)
  }
}
