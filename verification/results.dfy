/** Failure-carrying values used across the model: Python exceptions become
    `Err`/`Fail` values instead of control flow. */
module Results {

  datatype Option<+T> = None | Some(value: T)

  /** Outcome of a call into a collaborator that returns nothing but may raise;
      `message` stands for `str(e)` of the raised exception. */
  datatype Outcome = Pass | Fail(message: string)

  datatype Result<+T, +E> = Ok(value: T) | Err(error: E)

  /** The zero- or one-element sequence holding an optional value. */
  function OptionToSeq<T>(o: Option<T>): (r: seq<T>)
    ensures |r| <= 1
    ensures o.Some? <==> |r| == 1
    ensures o.Some? ==> r[0] == o.value
  {
    match o
    case None => []
    case Some(v) => [v]
  }
}
