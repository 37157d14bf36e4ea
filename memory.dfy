/**
 * Values shared by the allocator and the collector models: a machine pointer
 * that may be NULL, and an optional result.
 */
module Memory {
  /** A pointer: NULL, or a byte address (an offset from the start of its region). */
  datatype Ptr = Null | Addr(a: nat)

  datatype Option<T> = None | Some(value: T)
}
