/**
 * The global exception filter: every thrown value becomes an HTTP status
 * and a uniform error body; successful controller results are wrapped by
 * `createSuccessResponse`.
 */
module GlobalExceptionFilter {
  import opened JsValues
  import opened JsStrings
  import opened Exceptions

  /** The error body written to the response (the timestamp is left out). */
  datatype ErrorResponse = ErrorResponse(success: bool, message: string, path: string, statusCode: int)

  /** The body of a successful response. */
  datatype SuccessResponse<T> = SuccessResponse(success: bool, data: T, message: string)

  /** The status the filter chooses: an HTTP exception keeps its own, any
      other error is an internal server error. */
  function ErrorStatus(exception: Thrown): (status: int)
    ensures exception.HttpException? ==> status == exception.status
    ensures exception.NonHttpError? ==> status == INTERNAL_SERVER_ERROR
  {
    if exception.HttpException? then exception.status else INTERNAL_SERVER_ERROR
  }

  /** The message the filter chooses: a string response is the message
      itself; a response object contributes its `message` when that is
      truthy, else the exception's own message is used; other errors are
      never shown to the client. */
  function ErrorMessage(exception: Thrown): (message: string)
    ensures exception.NonHttpError? ==> message == "Internal server error"
    ensures exception.HttpException? && exception.response.TextResponse? ==>
              message == exception.response.text
    ensures exception.HttpException? && exception.response.ObjectResponse? ==>
              message == (if exception.response.message.Some? && exception.response.message.value != ""
                          then exception.response.message.value else exception.message)
  {
    match exception
    case NonHttpError(_) => "Internal server error"
    case HttpException(_, TextResponse(text), _) => text
    case HttpException(_, ObjectResponse(m), fallback) =>
      if m.Some? && m.value != "" then m.value else fallback
  }

  /** `catch`: picks the status and message in branches, then writes a
      failure body carrying them and the request URL. */
  method Catch(exception: Thrown, url: string) returns (status: int, body: ErrorResponse)
    ensures status == ErrorStatus(exception)
    ensures body.success == false && body.statusCode == status && body.path == url
    ensures body.message == ErrorMessage(exception)
  {
    var message: string;
    if exception.HttpException? {
      status := exception.status;
      var response := exception.response;
      if response.TextResponse? {
        message := response.text;
      } else if response.message.Some? && response.message.value != "" {
        message := response.message.value;
      } else {
        message := exception.message;
      }
    } else {
      status := INTERNAL_SERVER_ERROR;
      message := "Internal server error";
    }
    body := ErrorResponse(false, message, url, status);
  }

  /** What the client sees for each exception the core throws: 400 with the
      validation message, 404 and 409 with the custom messages, and 500 with
      a generic message for anything that is not an HTTP exception. */
  lemma ResponseForCoreException(e: Exception)
    ensures e.BadRequest? ==> ErrorStatus(ToThrown(e)) == 400 && ErrorMessage(ToThrown(e)) == e.message
    ensures e.SubjectNotFound? || e.CompetencyNotFound? ==>
              ErrorStatus(ToThrown(e)) == 404 && ErrorMessage(ToThrown(e)) == e.Message()
    ensures e.SubjectAlreadyExists? || e.CompetencyAlreadyExists? ==>
              ErrorStatus(ToThrown(e)) == 409 && ErrorMessage(ToThrown(e)) == e.Message()
    ensures e.InternalError? || e.QueryFailed? || e.TypeError? ==>
              ErrorStatus(ToThrown(e)) == 500 && ErrorMessage(ToThrown(e)) == "Internal server error"
  {
  }

  /** `createSuccessResponse(data, message)`: a success body; the message
      defaults to "Operation successful" when the argument is omitted. */
  function CreateSuccessResponse<T>(data: T, message: Option<string>): (r: SuccessResponse<T>)
    ensures r.success && r.data == data
    ensures message.None? ==> r.message == "Operation successful"
    ensures message.Some? ==> r.message == message.value
  {
    SuccessResponse(true, data, if message.Some? then message.value else "Operation successful")
  }
}
