/** Datatypes shared by every module. */
module Common {
  datatype Option<+T> = None | Some(value: T)

  /** The database clock and the process clock, in nanoseconds. */
  type Time = int

  function Min(a: int, b: int): int {
    if a < b then a else b
  }
}
