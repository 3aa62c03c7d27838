/**
 * The engine's failure taxonomy. Each C++ exception (or undefined-behaviour
 * guard) that the core can raise is one constructor; operations that can
 * fail return a `Result`, absent lookups return an `Option`.
 */
module Errors {
  import opened Machine

  datatype Error =
    | UnknownId(id: Uint32)              // UnknownIDException("Unknown object id.", id)
    | UnknownClassType(typeName: string) // UnknownClassTypeException("Unknown class type.", type)
    | OutOfRange                         // HarakaException: interpolation fraction outside [0, 1]
    | UnknownAttribute                   // std::out_of_range from map::at on an attribute name
    | TypeMismatch                       // the failed downcast guarded by GameValue::cast
    | EmptyQueue                         // std::runtime_error thrown by the deque when it is empty

  datatype Result<T> = Ok(value: T) | Err(error: Error)

  datatype Option<T> = None | Some(value: T)
}
