/** Small shared vocabulary: an optional value and integer minimum. */
module Base {

  /** An optional value; `None` stands for JavaScript's `null`/`undefined`. */
  datatype Option<+T> = None | Some(value: T)

  function Min(a: int, b: int): int
  {
    if a <= b then a else b
  }

  /** The answer of a query to the store: an error, or data that may be null. */
  datatype Response<T> = ResponseError | ResponseData(data: Option<T>)
}
