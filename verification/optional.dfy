/** The value-or-nothing type that stands for Java's nullable references. */
module Optional {

  datatype Option<+T> = None | Some(value: T)
}
