/** Definitions shared by the device and CPU models. */
module Base {
  /** A simulator address (gem5's `Addr`, a 64-bit unsigned integer). */
  type Addr = bv64

  /** A value that may be absent. */
  datatype Option<T> = None | Some(value: T)
}
