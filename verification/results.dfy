/** Option and Result values shared by the parser and the formatter. */
module Results {

  datatype Option<+T> = None | Some(value: T)

  /** The outcome of parsing a size string: a value, or the crate's single
      parse error ("Parse Error. Invalid byte format."). */
  datatype Result<+T> = Ok(value: T) | InvalidFormat
}
