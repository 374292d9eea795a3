/** The optional value used for every operation of the bot that can fail
    (a Python exception caught or raised by the source). */
module Options {
  datatype Option<+T> = None | Some(value: T)
}
