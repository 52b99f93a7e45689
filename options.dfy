/** The optional value used where the C code returns NULL for "none". */
module Options {

  datatype Option<+T> = None | Some(value: T)

}
