/** The optional value the scraper returns in place of Python's `None`. */
module Options {

  datatype Option<+T> = None | Some(value: T)
}
