/** The optional value used wherever the scraper stores `None`. */
module Wrappers {

  datatype Option<+T> = None | Some(value: T)
}
