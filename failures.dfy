/** The failure kinds the allocation engine and its entities report.
    Each Java exception class becomes one constructor of Error; the message
    strings they carry are dropped. */
module Failures {

  datatype Error =
    | InvalidStage
    | InvalidCredits
    | InvalidCapacity
    | InvalidId
    | IdAlreadySet
    | IdNotSet
    | IdNotRecognised
    | DuplicateStaff
    | StaffNotInSystem
    | StaffNotInvolved
    | ModuleDiscontinued
    | ModuleAtCapacity
    | ModuleStageTooHigh
    | InsufficientAvailableCredits
    | EnrollingWouldPreventHonours
      // not a declared exception: the run-time failure of dereferencing null
    | NullDereference

  /** A `void` operation that may throw. */
  datatype Outcome = Pass | Fail(error: Error)

  /** A value-returning operation that may throw. */
  datatype Result<+T> = Success(value: T) | Failure(error: Error)

  /** A Java reference that may be null. */
  datatype Option<+T> = None | Some(value: T)
}
