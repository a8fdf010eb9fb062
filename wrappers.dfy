/** Failure-carrying results and the builder's error kinds. */
module Wrappers {

  datatype Option<+T> = None | Some(value: T)

  /** The runtime_error conditions the builder raises. */
  datatype Error =
    | DuplicateVarName(name: string)  // register_var_name on a taken name
    | NullProgram                     // push_program(nullptr)
    | NullScopeProgram                // Scope(nullptr)
    | EmptyStack                      // pop_program on an empty stack
    | NoActiveProgram                 // current_program on an empty stack

  /** Outcome of an operation that returns nothing but may throw. */
  datatype Outcome = Pass | Fail(error: Error)

  /** Outcome of an operation that returns a value but may throw. */
  datatype Result<+T> = Success(value: T) | Failure(error: Error)
}
