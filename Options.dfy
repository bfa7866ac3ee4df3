/** The optional value that stands for the source's "bool result plus output pointer" pairs. */
module Options {
  datatype Option<+T> = None | Some(value: T)
}
