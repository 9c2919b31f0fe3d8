/** Optional values and results with a failure, for the places where the
    plotter's Python code would raise instead of returning. */
module Results {

  datatype Option<+T> = None | Some(value: T)

  datatype Result<+T, +E> = Ok(value: T) | Err(error: E)
}
