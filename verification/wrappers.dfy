/** Option and Result types shared by the services, and the service errors
    the backend raises (NestJS NotFoundException / ConflictException). */
module Wrappers {

  datatype Option<+T> = None | Some(value: T) {
    function GetOr(default: T): T {
      match this
      case Some(v) => v
      case None => default
    }
  }

  /** Why a post creation was refused with a ConflictException. */
  datatype ConflictReason =
    | AuthorRequired
    | PlacementRequired
    | CategoryRequired
    | DuplicateSlug

  /** The exceptions the core services throw. */
  datatype ServiceError =
    | NotFound
    | Conflict(reason: ConflictReason)

  datatype Result<+T> = Ok(value: T) | Err(error: ServiceError) {
    predicate IsFailure() {
      Err?
    }

    function PropagateFailure<U>(): Result<U>
      requires Err?
    {
      Err(error)
    }

    function Extract(): T
      requires Ok?
    {
      value
    }
  }
}
