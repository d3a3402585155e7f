/** How a routine may end, and values that may be missing. */
module Results {

  datatype Option<+T> = None | Some(value: T)

  /** `Panicked` is a kpanic, `Faulted` an access through a null pointer. */
  datatype Status = Ok | Panicked | Faulted
}
