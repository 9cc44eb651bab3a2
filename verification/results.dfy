/** The optional value used wherever the program can come back empty-handed. */
module Results {

  datatype Option<+T> = None | Some(value: T)
}
