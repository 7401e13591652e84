/** Option and Result values: the pipeline's `None` arguments and its `sys.exit(1)` error paths
    are modelled as values rather than as process termination. */
module Results {

  datatype Option<+T> = None | Some(value: T)

  datatype Result<+T, +E> = Ok(value: T) | Err(error: E)
}
