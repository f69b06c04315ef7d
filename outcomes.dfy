/** The value-or-error shapes shared by the section routines: a thrown
    `Error` becomes `Failure`, a normal return becomes `Success`, and a
    property that may be absent in JavaScript (`undefined`) becomes `None`. */
module Outcomes {

  datatype Option<+T> = None | Some(value: T)

  datatype Result<+R, +E> = Success(value: R) | Failure(error: E)
}
