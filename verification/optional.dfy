/** The Python `None` / object-or-None fields of the game, as a value. */
module Optional {
  datatype Option<+T> = None | Some(value: T)
}
