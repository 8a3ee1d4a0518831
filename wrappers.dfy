/** Option type shared by the models: `None` stands for a null result or a thrown lookup failure. */
module Wrappers {
  datatype Option<T> = None | Some(value: T)
}
