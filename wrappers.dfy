/** The optional value the game uses for "no word loaded" and "no image chosen". */
module Wrappers {

  datatype Option<+T> = None | Some(value: T)
}
