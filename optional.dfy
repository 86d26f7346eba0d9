/** The value-or-nothing type used where the Java code returns `null`
    ("no change") or where a reference may be `null`. */
module Optional {
  datatype Option<+T> = None | Some(value: T)
}
