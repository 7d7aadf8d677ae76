/** A value or its absence; stands for the source's NULL pointers. */
module Optional {
  datatype Option<+T> = None | Some(value: T)
}
