/**
 * The exceptions the backend core throws: Nest's `BadRequestException`,
 * the four custom HTTP exceptions of the subjects and competencies modules,
 * and the plain errors that are not HTTP exceptions (an internal
 * consistency error, a failed store query, a `TypeError` from reading a
 * property of a missing value).
 */
module Exceptions {
  import opened JsValues
  import opened JsStrings

  const BAD_REQUEST: int := 400
  const NOT_FOUND: int := 404
  const CONFLICT: int := 409
  const INTERNAL_SERVER_ERROR: int := 500

  datatype Exception =
    | BadRequest(message: string)
    | SubjectNotFound(subjectId: int)
    | SubjectAlreadyExists(name: string)
    | CompetencyNotFound(competencyId: int)
    | CompetencyAlreadyExists(name: string, subjectName: string)
      /** A plain `Error`, thrown when the store breaks an invariant. */
    | InternalError(message: string)
      /** An error raised by the store itself, e.g. a violated constraint. */
    | QueryFailed(message: string)
      /** The `TypeError` the runtime raises when a property of `null` or
          `undefined` is read. */
    | TypeError(message: string)
  {
    /** The exception's `message` property. */
    function Message(): string {
      match this
      case BadRequest(m) => m
      case SubjectNotFound(id) => "Subject with ID " + IntToString(id) + " not found"
      case SubjectAlreadyExists(name) => "Subject with name '" + name + "' already exists"
      case CompetencyNotFound(id) => "Competency with ID " + IntToString(id) + " not found"
      case CompetencyAlreadyExists(name, subjectName) =>
        "Competency with name '" + name + "' already exists in subject '" + subjectName + "'"
      case InternalError(m) => m
      case QueryFailed(m) => m
      case TypeError(m) => m
    }
  }

  /** The result of an operation that may throw one of the exceptions. */
  datatype Result<+T> = Success(value: T) | Failure(error: Exception) {
    predicate IsFailure() {
      Failure?
    }

    function PropagateFailure<U>(): Result<U>
      requires Failure?
    {
      Failure(error)
    }

    function Extract(): T
      requires Success?
    {
      value
    }
  }

  /** What `HttpException.getResponse()` gives: the string passed to the
      constructor, or the object Nest builds for its built-in exceptions. */
  datatype ExceptionResponse = TextResponse(text: string) | ObjectResponse(message: Option<string>)

  /** A thrown value as the global exception filter sees it. */
  datatype Thrown =
    | HttpException(status: int, response: ExceptionResponse, message: string)
    | NonHttpError(message: string)

  /** How each exception reaches the filter. The custom exceptions pass
      their message string and status to `HttpException`; Nest's
      `BadRequestException` wraps its message in a response object; the
      plain errors are not HTTP exceptions at all. */
  function ToThrown(e: Exception): (t: Thrown)
    ensures t.HttpException? <==> !(e.InternalError? || e.QueryFailed? || e.TypeError?)
    ensures t.message == e.Message()
    ensures e.BadRequest? ==> t.status == BAD_REQUEST && t.response == ObjectResponse(Some(e.message))
    ensures e.SubjectNotFound? || e.CompetencyNotFound? ==>
              t.status == NOT_FOUND && t.response == TextResponse(e.Message())
    ensures e.SubjectAlreadyExists? || e.CompetencyAlreadyExists? ==>
              t.status == CONFLICT && t.response == TextResponse(e.Message())
  {
    match e
    case BadRequest(m) => HttpException(BAD_REQUEST, ObjectResponse(Some(m)), m)
    case SubjectNotFound(_) => HttpException(NOT_FOUND, TextResponse(e.Message()), e.Message())
    case CompetencyNotFound(_) => HttpException(NOT_FOUND, TextResponse(e.Message()), e.Message())
    case SubjectAlreadyExists(_) => HttpException(CONFLICT, TextResponse(e.Message()), e.Message())
    case CompetencyAlreadyExists(_, _) => HttpException(CONFLICT, TextResponse(e.Message()), e.Message())
    case InternalError(m) => NonHttpError(m)
    case QueryFailed(m) => NonHttpError(m)
    case TypeError(m) => NonHttpError(m)
  }

  /** Reading `property` of a missing value: a `TypeError` whose message
      names the property. */
  function PropertyReadError<T>(value: Input<T>, property: string): (e: Exception)
    requires !value.Defined?
    ensures e.TypeError? && Includes(e.message, property)
  {
    var prefix := "Cannot read properties of " + (if value.Null? then "null" else "undefined") + " (reading '";
    IncludesInfix(prefix, property, "')");
    TypeError(prefix + property + "')")
  }

  /** The not-found messages name the missing id. */
  lemma NotFoundMessageNamesId(e: Exception)
    requires e.SubjectNotFound? || e.CompetencyNotFound?
    ensures Includes(e.Message(), IntToString(if e.SubjectNotFound? then e.subjectId else e.competencyId))
  {
    if e.SubjectNotFound? {
      IncludesInfix("Subject with ID ", IntToString(e.subjectId), " not found");
    } else {
      IncludesInfix("Competency with ID ", IntToString(e.competencyId), " not found");
    }
  }

  /** The already-exists messages name the duplicate, and for a competency
      also the subject it collides in. */
  lemma AlreadyExistsMessageNamesDuplicate(e: Exception)
    requires e.SubjectAlreadyExists? || e.CompetencyAlreadyExists?
    ensures Includes(e.Message(), e.name)
    ensures e.CompetencyAlreadyExists? ==> Includes(e.Message(), e.subjectName)
  {
    if e.SubjectAlreadyExists? {
      IncludesInfix("Subject with name '", e.name, "' already exists");
    } else {
      var prefix := "Competency with name '";
      var middle := "' already exists in subject '";
      IncludesInfix(prefix, e.name, middle + e.subjectName + "'");
      assert prefix + e.name + (middle + e.subjectName + "'") == e.Message();
      IncludesInfix(prefix + e.name + middle, e.subjectName, "'");
      assert prefix + e.name + middle + e.subjectName + "'" == e.Message();
    }
  }

  /** The services' catch blocks: log, then rethrow the same exception. */
  function HandleServiceError<T>(error: Exception, operation: string): (r: Result<T>)
    ensures r.Failure? && r.error == error
  {
    Failure(error)
  }
}
