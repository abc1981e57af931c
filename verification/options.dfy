/** The optional value used for criteria that may be absent and for file
    contents that may fail to read. */
module Options {

  datatype Option<+T> = None | Some(value: T)

}
