/**
 * The protocol vocabulary the engine uses: request methods, status codes,
 * MIME types, the httpResponseException value and the ways a read or a
 * parse can fail.
 *
 * The enumerations httpMethod, httpStatus and httpMime are not part of this
 * model; only the members the engine touches are given here, with the
 * textual forms of the HTTP/1.1 standard.
 */
module Protocol {
  import opened Common

  datatype Method = GET | PUT | POST | DELETE | HEAD | OPTIONS

  function MethodName(m: Method): string {
    match m
    case GET => "GET"
    case PUT => "PUT"
    case POST => "POST"
    case DELETE => "DELETE"
    case HEAD => "HEAD"
    case OPTIONS => "OPTIONS"
  }

  /** httpMethod.lookup: a case-sensitive match against the method names; anything else is null. */
  function LookupMethod(s: string): (m: Option<Method>)
    ensures m.Some? ==> MethodName(m.value) == s
    ensures (exists x :: MethodName(x) == s) ==> m.Some?
  {
    if s == "GET" then Some(GET)
    else if s == "PUT" then Some(PUT)
    else if s == "POST" then Some(POST)
    else if s == "DELETE" then Some(DELETE)
    else if s == "HEAD" then Some(HEAD)
    else if s == "OPTIONS" then Some(OPTIONS)
    else None
  }

  /** Every method's name looks up to that method. */
  lemma LookupName(x: Method)
    ensures LookupMethod(MethodName(x)) == Some(x)
  {
  }

  datatype Status = Status(code: nat, reason: string)

  const OK := Status(200, "OK")
  const BAD_REQUEST := Status(400, "Bad Request")
  const NOT_FOUND := Status(404, "Not Found")
  const INTERNAL_ERROR := Status(500, "Internal Server Error")

  /** httpStatus.toString: the code and the reason phrase of a status line. */
  function StatusText(s: Status): string {
    Decimal(s.code) + " " + s.reason
  }

  datatype Mime = Mime(text: string)

  const PLAINTEXT := Mime("text/plain")
  /**
   * The type a response gets when none was chosen. NanoHTTPserver inherits
   * this constant from a class that is not part of this model; plain text is
   * assumed.
   */
  const DEFAULT_MIME := PLAINTEXT

  /**
   * httpResponseException: a status and a message. The chained cause of the
   * three- and four-argument constructors only feeds stack traces.
   */
  datatype ResponseException = ResponseException(status: Status, message: string)

  /** httpResponseException(msg) and httpResponseException(msg, cause). */
  function ResponseError(msg: string): ResponseException {
    ResponseException(INTERNAL_ERROR, msg)
  }

  /** httpResponseException(status, msg) and httpResponseException(status, msg, cause). */
  function ResponseErrorWith(status: Status, msg: string): ResponseException {
    ResponseException(status, msg)
  }

  /**
   * Without an explicit status an httpResponseException carries
   * INTERNAL_ERROR; with one it carries that status. The message is kept
   * either way.
   */
  lemma ExceptionStatus(status: Status, msg: string)
    ensures ResponseError(msg) == ResponseErrorWith(INTERNAL_ERROR, msg)
    ensures ResponseError(msg).status == INTERNAL_ERROR && ResponseError(msg).message == msg
    ensures ResponseErrorWith(status, msg).status == status && ResponseErrorWith(status, msg).message == msg
  {
  }

  const SYNTAX_ERROR := ResponseErrorWith(BAD_REQUEST, "BAD REQUEST: Syntax error. Usage: GET /example/file.html")
  const MISSING_URI := ResponseErrorWith(BAD_REQUEST, "BAD REQUEST: Missing URI. Usage: GET /example/file.html")

  /** What can be thrown while a request is read, parsed or served. */
  datatype Failure =
    | SocketTimeout                      // SocketTimeoutException from a read
    | IoFailure                          // any other IOException or runtime exception
    | Rejected(error: ResponseException) // an httpResponseException
    | IllegalArgument                    // URLDecoder given a malformed escape

  /** A value, or the exception thrown instead of producing it. */
  datatype Outcome<+T> = Done(value: T) | Threw(failure: Failure)
}
