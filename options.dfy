/** The value a pandas/numpy aggregation has when it is defined, or none. */
module Options {

  datatype Option<+T> = None | Some(value: T)
}
