/** The optional value that stands for C#'s null results (`FirstOrDefault`, `UserDto?`, `string?`). */
module Wrappers {

  datatype Option<+T> = None | Some(value: T)
}
