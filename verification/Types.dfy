/** Types shared by the modules. */
module Types {
  type byte = x: nat | x < 256

  datatype Option<+T> = None | Some(value: T)
}
