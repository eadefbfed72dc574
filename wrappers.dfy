/** The optional value the parser and the formatter return: `None` stands for
    Python's `None`, which every failed parse and every out-of-range
    timestamp produces. */
module Wrappers {

  datatype Option<+T> = None | Some(value: T)

}
