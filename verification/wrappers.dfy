/** Failure-compatible result types shared by every module of the model. */
module Wrappers {

  datatype Option<+T> = None | Some(value: T)

  /** `Abort` stands for a run the C++ source does not complete normally: a NULL
      dereference, a read of a field it never initialised, an uncaught `std::stoul`
      exception or a loop that never ends. */
  datatype Result<+T> = Ok(value: T) | Abort(why: string) {

    predicate IsFailure() {
      Abort?
    }

    function PropagateFailure<U>(): Result<U>
      requires Abort?
    {
      Abort(why)
    }

    function Extract(): T
      requires Ok?
    {
      value
    }
  }
}
