/** An optional value: the stores' lookups answer with a record or with
    nothing (the application's `null` or `false`). */
module Options {

  datatype Option<T> = None | Some(value: T)
}
