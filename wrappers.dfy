/** Option, Result and Outcome: the optional values, error returns and raised exceptions of the models. */
module Wrappers {

  datatype Option<+T> = None | Some(value: T) {
    /** The wrapped value, or `default` when there is none (a Django field default). */
    function GetOr(default: T): T
    {
      match this
      case Some(v) => v
      case None => default
    }
  }

  datatype Result<+R, +E> = Success(value: R) | Failure(error: E)

  datatype Outcome<+E> = Pass | Fail(error: E)
}

/** The errors the database and the ORM raise for the blog models. */
module Errors {

  datatype Erro =
    /** IntegrityError: a `unique=True` column already holds the value. */
    | DuplicateKey
    /** ValidationError for `unique_for_date`: same slug on the same publication day. */
    | SlugNotUniqueForDate
    /** FieldError: a queryset lookup names something that is not a field. */
    | FieldError(name: string)
}
