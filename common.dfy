/** Optional values: the model's stand-in for C#'s `null` and `int?`. */
module Common {

  datatype Option<+T> = None | Some(value: T)
}
