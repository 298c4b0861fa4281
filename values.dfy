/** The values the engine passes around, and Go's (out, err) result pair. */
module Values {
  import opened Errors

  datatype Option<+T> = None | Some(value: T)

  /** Every value that reaches a parser, validator or serializer. Go passes
      these as interface{}; the model distinguishes the cases the core looks
      at and keeps every other value opaque.
      - Nil: the untyped nil.
      - Str: a Go string (the external form a time is parsed from).
      - Instant: a time.Time, as nanoseconds from Go's zero time.
      - Omit: the Omit{} marker a serializer returns to drop a field.
      - SkipReadOnly: the envelope that bypasses the read-only guard.
      - Opaque: any other value (numbers, maps, slices, ...), by identity. */
  datatype Value =
    | Nil
    | Str(s: string)
    | Instant(nanos: int)
    | Omit
    | SkipReadOnly(value: Value)
    | Opaque(id: nat)

  /** What Parse, Validate and Serialize return: an output and an optional error. */
  datatype Result = Result(out: Value, err: Option<Error>)

  /** A success carrying v. */
  function Ok(v: Value): Result {
    Result(v, None)
  }

  /** A failure as the package reports it: a nil output and the error. */
  function Fail(e: Error): Result {
    Result(Nil, Some(e))
  }
}
