/** Failure-compatible wrappers shared by the whole model, and the ways the
    modelled C++ code can throw. */
module Results {

  datatype Option<+T> = None | Some(value: T)

  /** The exceptions the modelled code can raise. */
  datatype Error =
    /** std::out_of_range from basic_string::substr: the start position lies past the end. */
    | SubstrOutOfRange(pos: nat, size: nat)
    /** std::out_of_range from unordered_map::at: the key is absent. */
    | KeyNotFound(key: string)
    /** std::runtime_error("File does not exist!") from the file reader. */
    | FileDoesNotExist(name: string)

  datatype Result<+T> = Success(value: T) | Failure(error: Error) {

    predicate IsFailure() {
      Failure?
    }

    function PropagateFailure<U>(): Result<U>
      requires Failure?
    {
      Failure(error)
    }

    function Extract(): T
      requires Success?
    {
      value
    }
  }
}
