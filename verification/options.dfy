/** The optional value the parsers return: a failed `re.match` is `None`. */
module Options {

  datatype Option<+T> = None | Some(value: T)
}
