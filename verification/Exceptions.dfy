/** The Python exceptions of the application managers, as values. */
module Exceptions {
  import opened Wrappers

  /** What `runc` reports about the container in an error message.  The lifecycle manager
      looks for these phrases in the text; `runc` is taken to tell the truth. */
  datatype Reason = ProcessFinished | NotRunning | NoSuchContainer | OtherReason

  datatype Error =
    | ContainerStateError
    | ContainerAlreadyExistError
    | ContainerCreationError
    | ContainerStartError
    | ContainerKillError(reason: Reason)
    | ContainerDeleteError(reason: Reason)
    | AppStopTimeoutError
    | AppIdError
    | AppInstallError
    | AppUninstallError
    | AppPathInexistent
    | AppNotInstalled
    | ValueError  // a control-data line with more than one colon
    | TypeError   // unpacking the missing result of _get_app_bundle_paths

  /** A normal return, or an exception with its explicit cause (`raise e from cause`). */
  datatype Outcome = Ok | Raised(error: Error, cause: Option<Error>) {
    predicate IsFailure() { Raised? }

    function PropagateFailure(): Outcome
      requires Raised?
    {
      this
    }
  }

  function Raise(error: Error): Outcome { Raised(error, None) }

  /** The exceptions that stopping an application is guarded against. */
  predicate StopFailure(e: Error) {
    e.ContainerKillError? || e.ContainerDeleteError? || e.AppStopTimeoutError?
  }

  /** The exceptions that running an application is guarded against. */
  predicate RunFailure(e: Error) {
    e.ContainerCreationError? || e.ContainerStartError?
  }

  /** The tuple ROLLBACK_EXCEPTIONS. */
  predicate RollbackException(e: Error) {
    StopFailure(e) || RunFailure(e) || e.AppPathInexistent? || e.AppUninstallError?
  }

  predicate MentionsMissingContainer(e: Error) {
    (e.ContainerKillError? || e.ContainerDeleteError?) && e.reason == NoSuchContainer
  }
}
