/** An optional value: `None` stands for a JavaScript property that is absent (`undefined`). */
module Options {
  datatype Option<+T> = None | Some(value: T)
}
