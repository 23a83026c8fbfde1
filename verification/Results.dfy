/** Outcomes: the source's `Result<T>` and its status codes. */
module Results {
  datatype Option<+T> = None | Some(value: T)

  datatype Result<+T, +E> = Ok(value: T) | Err(error: E)

  datatype Status =
    | NotFound
    | InvalidArgument
    | StorageError
    /** A read past the end of a file, after which the source would go on with uninitialised variables. */
    | ShortRead

  /** Results already collected in front of what a loop has still to do. */
  function Prepend<T, E>(done: seq<T>, rest: Result<seq<T>, E>): Result<seq<T>, E>
  {
    if rest.Ok? then Ok(done + rest.value) else rest
  }

  lemma PrependNothing<T, E>(r: Result<seq<T>, E>)
    ensures Prepend([], r) == r
  {
    if r.Ok? { assert [] + r.value == r.value; }
  }

  lemma PrependTwice<T, E>(a: seq<T>, b: seq<T>, r: Result<seq<T>, E>)
    ensures Prepend(a, Prepend(b, r)) == Prepend(a + b, r)
  {
    if r.Ok? { assert a + (b + r.value) == a + b + r.value; }
  }
}
