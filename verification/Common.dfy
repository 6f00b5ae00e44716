/** Types shared by the codecs and the tables. */
module Common {

  type byte = x: nat | x < 256

  datatype Option<+T> = None | Some(value: T)
}
