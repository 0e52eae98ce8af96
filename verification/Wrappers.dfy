/** Outcome types shared by every component. */
module Wrappers {

  datatype Option<+T> = None | Some(value: T)

  /** One octet of a byte string, written as the character with that code. */
  type Octet = c: char | c as int < 256 witness 'a'

  type Bytes = seq<Octet>
}
