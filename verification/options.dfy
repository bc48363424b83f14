/** An optional value: the model's stand-in for an `Optional[int]` argument
    and for "no sleep was needed". */
module Options {

  datatype Option<+T> = None | Some(value: T)
}
