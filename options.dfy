/** An optional value: a PHP array key that may be absent, a regular
    expression that may not match. */
module Options {
  datatype Option<T> = None | Some(value: T)
}
