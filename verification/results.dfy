/** Failure-carrying values shared by the storage layer and the service.

    The source signals failures with exceptions: a remote call that fails, an
    interval missing from the timeframe table (an undefined array key, which
    the framework turns into an exception) and a plain insert that hits the
    unique index.  Here each becomes an explicit error value that is
    propagated unchanged to the caller. */
module Results {

  /** The kinds of failure the modelled code can surface. */
  datatype Failure =
    | TransportError    // a remote exchange call failed
    | UnknownInterval   // the interval is not a key of the timeframe table
    | DuplicateKey      // a plain insert met an existing (or repeated) key

  datatype Option<+T> = None | Some(value: T)

  datatype Result<+T> = Ok(value: T) | Err(error: Failure)
}
