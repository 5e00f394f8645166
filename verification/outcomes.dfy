/**
 * Failure-carrying datatypes shared by the whole model.
 *
 * PHP exceptions become `Err` values. When the PHP code has already mutated
 * some state before it throws (exceptions do not roll anything back), the
 * operation returns a `Step`, which carries the state reached together with
 * the outcome.
 */
module Outcomes {

  datatype Option<+T> = None | Some(value: T)

  /** The exceptions the modelled code raises, one constructor per cause. */
  datatype Error =
    | ReadOnlyProperty      // User::__set on `id` or `removed`
    | UnknownProperty       // User::__get / __set on a name that is not a column
    | InvalidValue          // a setter's type or format check failed
    | PasswordTooShort      // setPassword with fewer than 6 bytes
    | UnsavedChanges        // loadById on an instance with dirty fields
    | AlreadyLoaded         // loadByUsername on a dirty or already loaded instance
    | InvalidEmail          // loadByUsername with a malformed e-mail
    | NotFound              // no matching row
    | NotLoaded             // loadedCheck, or a meta write without a user id
    | MissingUsername       // create() without a username
    | StorageFailure        // the insert did not yield an id, or the query was rejected
    | TypeMismatch          // a PHP TypeError (strict_types)
    | Uninitialized         // a typed property read before assignment
    | PasswordRequired      // settings: current password missing
    | PasswordIncorrect     // settings: current password wrong
    | PasswordMismatch      // settings: confirmation differs
    | UsernameTaken         // settings: new username already used
    | UserNotFound          // CLI: --user does not resolve
    | UnexpectedRight       // CLI: checkRight saw the opposite of what it expected
    | UndefinedFunction     // PHP Error: a string invoked as a function that does not exist
    | MalformedJwt          // GoogleJwt constructor failure

  datatype Result<+T> = Ok(value: T) | Err(error: Error) {
    predicate IsFailure() { Err? }

    function PropagateFailure<U>(): Result<U>
      requires Err?
    {
      Err(error)
    }

    function Extract(): T
      requires Ok?
    {
      value
    }
  }

  /** The state an operation reached, and whether it returned or threw. */
  datatype Step<+S, +T> = Step(state: S, result: Result<T>)
}
