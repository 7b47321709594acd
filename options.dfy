/** An optional value: `None` stands for the missing value pandas writes as NaN. */
module Options {
  datatype Option<T> = None | Some(value: T)
}
