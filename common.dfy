/** Values shared by the service's components. */
module Common {

  datatype Option<+T> = None | Some(value: T)

  /** A value stored in a metadata dictionary (Python `str`, `int`,
      `float` or `bool`). */
  datatype Value = Str(s: string) | Int(i: int) | Real(r: real) | Bool(b: bool)

  /** A Python dict from string keys to metadata values. */
  type Metadata = map<string, Value>
}
