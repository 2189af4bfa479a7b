/** A nullable cell of a table: `None` is pandas' missing value (NaN/None). */
module Optional {

  datatype Option<+T> = None | Some(value: T)

}
