/** Results of the engine. The Go code reports every failure by panicking;
    here a panic is a value, tagged with what the Go runtime would complain about. */
module Wrappers {

  datatype Option<T> = None | Some(value: T)

  /** Why a Go call would panic. */
  datatype Cause =
    | BadInteger        // strconv.Atoi returned an error
    | DuplicateAnchor   // checkActions found two actions with the same Page()
    | IndexOutOfRange   // a slice expression or index outside its bounds
    | LengthOutOfRange  // make() asked for a negative length

  datatype Result<T> = Ok(value: T) | Panic(cause: Cause)
}
