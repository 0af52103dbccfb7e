/** The backend's global exception filter: how anything thrown while
    handling a request becomes the error envelope
    `{success: false, error: {code, message, details?}, timestamp}`, which
    status it is sent with, and how loudly it is logged. The timestamp is
    the clock's and is left out. */
module ExceptionFilter {
  import opened Wrappers
  import opened Text

  /** The `message` of an HTTP exception's response object: absent, a
      string, or a list of validation messages. */
  datatype MessageField = NoMessage | TextMessage(text: string) | ListMessage(items: seq<string>)

  /** What `getResponse()` of an HTTP exception returns. */
  datatype HttpResponse =
    | TextResponse(text: string)
    | ObjectResponse(message: MessageField, error: Option<string>)

  /** Something thrown while handling a request. */
  datatype Thrown =
    | HttpError(status: int, response: HttpResponse, exceptionMessage: string)
    | OtherError

  /** The envelope's message: a string, or the list a validation failure
      carries (which then also appears as `details`). */
  datatype Message = Text(text: string) | Lines(items: seq<string>)

  datatype ErrorBody = ErrorBody(
    success: bool,
    code: string,
    message: Message,
    details: Option<seq<string>>)

  datatype LogLevel = Silent | Warn | Error

  datatype Reply = Reply(status: int, body: ErrorBody, log: LogLevel)

  const UnexpectedMessage: string := "An unexpected error occurred"

  /** The statuses the filter has a name for. */
  predicate Listed(status: int) {
    status in {400, 401, 403, 404, 409, 422, 429, 500, 502, 503}
  }

  /** The code for a status when the exception names no error type: the
      fixed name of each listed status, `UNKNOWN_ERROR` for exactly the
      others. */
  function StatusCode(status: int): (r: string)
    ensures r != []
    ensures NoLowerLetters(r)
    ensures status == 400 ==> r == "BAD_REQUEST"
    ensures status == 401 ==> r == "UNAUTHORIZED"
    ensures status == 403 ==> r == "FORBIDDEN"
    ensures status == 404 ==> r == "NOT_FOUND"
    ensures status == 409 ==> r == "CONFLICT"
    ensures status == 422 ==> r == "VALIDATION_ERROR"
    ensures status == 429 ==> r == "TOO_MANY_REQUESTS"
    ensures status == 500 ==> r == "INTERNAL_SERVER_ERROR"
    ensures status == 502 ==> r == "BAD_GATEWAY"
    ensures status == 503 ==> r == "SERVICE_UNAVAILABLE"
    ensures r == UnknownCode <==> !Listed(status)
  {
    if status < 409 then ClientCode(status)
    else if status < 500 then LaterClientCode(status)
    else ServerCode(status)
  }

  function ClientCode(status: int): (r: string)
    ensures r != []
    ensures NoLowerLetters(r)
  {
    if status == 400 then "BAD_REQUEST"
    else if status == 401 then "UNAUTHORIZED"
    else if status == 403 then "FORBIDDEN"
    else if status == 404 then "NOT_FOUND"
    else UnknownCode
  }

  function LaterClientCode(status: int): (r: string)
    ensures r != []
    ensures NoLowerLetters(r)
  {
    if status == 409 then "CONFLICT"
    else if status == 422 then "VALIDATION_ERROR"
    else if status == 429 then "TOO_MANY_REQUESTS"
    else UnknownCode
  }

  function ServerCode(status: int): (r: string)
    ensures r != []
    ensures NoLowerLetters(r)
  {
    if status == 500 then "INTERNAL_SERVER_ERROR"
    else if status == 502 then "BAD_GATEWAY"
    else if status == 503 then "SERVICE_UNAVAILABLE"
    else UnknownCode
  }

  const UnknownCode: string := "UNKNOWN_ERROR"

  predicate NoLowerLetters(s: string) {
    forall i :: 0 <= i < |s| ==> !IsLowerLetter(s[i])
  }

  /** `getErrorCode`: a non-empty error type wins, upper-cased, whatever the
      status; otherwise the status's fixed code. Either way the code has no
      lower-case letter. */
  function ErrorCode(status: int, errorType: Option<string>): (r: string)
    ensures errorType.Some? && errorType.value != [] ==> r == ToUpper(errorType.value)
    ensures errorType.None? || errorType.value == [] ==> r == StatusCode(status)
    ensures NoLowerLetters(r)
  {
    if errorType.Some? && errorType.value != [] then ToUpper(errorType.value) else StatusCode(status)
  }

  /** Feeding a code back in as the error type gives the same code: the
      code is stable under `toUpperCase`. */
  lemma {:induction false} ErrorCodeStable(status: int, other: int, errorType: Option<string>)
    ensures ErrorCode(other, Some(ErrorCode(status, errorType))) == ErrorCode(status, errorType)
  {
    var c := ErrorCode(status, errorType);
    if errorType.None? || errorType.value == [] {
      assert c != [];
    }
    assert c != [] by {
      if errorType.Some? && errorType.value != [] {
        assert |c| == |errorType.value|;
      }
    }
    assert ToUpper(c) == c by {
      forall i | 0 <= i < |c| ensures ToUpper(c)[i] == c[i] {
        assert !IsLowerLetter(c[i]);
      }
    }
  }

  /** The log level of a status: error from 500, warn from 400, none below. */
  function LevelOf(status: int): (r: LogLevel)
    ensures r == Error <==> status >= 500
    ensures r == Warn <==> 400 <= status < 500
    ensures r == Silent <==> status < 400
  {
    if status >= 500 then Error else if status >= 400 then Warn else Silent
  }

  /** `catch`: builds the reply for anything thrown. */
  function Catch(e: Thrown): (r: Reply)
    ensures !r.body.success
    ensures r.log == LevelOf(r.status)
    ensures e.OtherError? ==>
              && r.status == 500 && r.body.code == "INTERNAL_SERVER_ERROR"
              && r.body.message == Text(UnexpectedMessage) && r.body.details.None?
    ensures e.HttpError? ==> r.status == e.status
    ensures e.HttpError? && e.response.TextResponse? ==>
              && r.body.message == Text(e.response.text) && r.body.code == StatusCode(e.status)
              && r.body.details.None?
    ensures r.body.details.Some? <==> e.HttpError? && e.response.ObjectResponse? && e.response.message.ListMessage?
    ensures r.body.details.Some? ==> r.body.message == Lines(r.body.details.value)
    ensures e.HttpError? && e.response.ObjectResponse? ==> r.body.code == ErrorCode(e.status, e.response.error)
  {
    var (status, code, message, details) :=
      match e
      case OtherError => (500, "INTERNAL_SERVER_ERROR", Text(UnexpectedMessage), None)
      case HttpError(status, TextResponse(text), _) => (status, ErrorCode(status, None), Text(text), None)
      case HttpError(status, ObjectResponse(m, err), fallback) =>
        var message :=
          if m.TextMessage? && m.text != [] then Text(m.text)
          else if m.ListMessage? then Lines(m.items)
          else Text(fallback);
        var details := if m.ListMessage? then Some(m.items) else None;
        (status, ErrorCode(status, err), message, details);
    Reply(status, ErrorBody(false, code, message, details), LevelOf(status))
  }

  /** An object response's message is its own non-empty string or list;
      with no message, or an empty string, the exception's message is used. */
  lemma ObjectResponseMessage(status: int, m: MessageField, err: Option<string>, fallback: string)
    ensures Catch(HttpError(status, ObjectResponse(m, err), fallback)).body.message ==
              (if m.TextMessage? && m.text != [] then Text(m.text)
               else if m.ListMessage? then Lines(m.items)
               else Text(fallback))
  {
  }

  /** An error type given by the exception decides the code whatever the
      status; without one, two errors with the same status get the same
      code. */
  lemma CodeDependsOnTypeOrStatus(s1: int, s2: int, m1: MessageField, m2: MessageField, t: string, f1: string, f2: string)
    requires t != []
    ensures Catch(HttpError(s1, ObjectResponse(m1, Some(t)), f1)).body.code
         == Catch(HttpError(s2, ObjectResponse(m2, Some(t)), f2)).body.code
    ensures Catch(HttpError(s1, ObjectResponse(m1, None), f1)).body.code
         == Catch(HttpError(s1, TextResponse(f2), f1)).body.code
  {
  }
}
