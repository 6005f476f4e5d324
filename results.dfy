/** Errors and results of the FRR query helpers, in place of Go's `(value, error)` pairs. */
module Results {

  /** The error values the query helpers produce. `Wrapped` is `fmt.Errorf("<context>: %w", cause)`. */
  datatype Error =
    | UnknownDaemon(daemon: string)          // lookupSocketPath: a name outside the daemon table
    | Io(reason: string)                     // dial, write or read failure on the control socket
    | Unmarshal(reason: string)              // json.Unmarshal rejected the reply
    | Wrapped(context: string, cause: Error) // an error annotated with a context message

  datatype Result<+T> = Ok(value: T) | Err(error: Error)

  const LookupFailed := "failed to lookup socket path"
  const RunFailed := "failed to run command"
  const UnmarshalFailed := "failed to unmarshal json"
}
