/** The optional value used for the frame that is, or is not, handed to the serial port. */
module Wrappers {

  datatype Option<+T> = None | Some(value: T)
}
