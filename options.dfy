/** An optional value: `None` stands for JavaScript's NaN / null where the
    source lets one flow through. */
module Options {
  datatype Option<+T> = None | Some(value: T)
}
