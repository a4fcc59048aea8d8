/** Optional values and panicking results, the two ways the library reports
    that an operation could not produce a value. */
module Outcomes {

  /** `Option<T>`: what the non-panicking `get` operations return. */
  datatype Option<+T> = None | Some(value: T)

  /** The two programmer-contract violations the library panics on. */
  datatype PanicReason =
    | IndexOutOfBounds        // "Index out of bounds. Length = .., Index = .."
    | IndexNotOnStorageBound  // "Index not on storage bound. Storage size = .., Index = .."

  /** The outcome of an operation that may panic. */
  datatype Result<+T> = Ok(value: T) | Panicked(reason: PanicReason)
}
