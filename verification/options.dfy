/** Values that may be missing: an argument list not given, a state key not yet
    written, a count not yet read, a conversion that raised. */
module Options {

  datatype Option<T> = None | Some(value: T)

  /** What `o` holds, falling back to `fallback` when it holds nothing. */
  function ValueOr<T>(o: Option<T>, fallback: T): T {
    if o.Some? then o.value else fallback
  }
}
