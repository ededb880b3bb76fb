/** AbstractHttpResponseValidator: how a web-service response is judged from
    its class (success, client error, server error), its status code and its
    status-code header. The response accessors and the two lookups of a header
    value are given as values; the exceptions the validator throws are the
    Failure values of a Rejected result. */
module HttpResponseValidator {
  import opened Wrappers

  /** The response header that carries the application's status code. */
  const StatusCodeHeader: string := "status-code"

  /** The header value that means no error. */
  const SuccessfulStatusCode: string := "200"

  /** The HTTP status of a gateway timeout. */
  const GatewayTimeout: int := 504

  /** The message of a response without the header. */
  const MissingHeaderMessage: string := "Missing " + StatusCodeHeader + " header."

  /** The message of a header value neither lookup knows, before the value. */
  const UnknownCodePrefix: string := "Unknown Server Status code: "

  /** The error codes the validator names; any other code a lookup returns is
      Other, told apart by its name. */
  datatype ErrorCode =
    | ServerError
    | InternalError
    | InvalidApiVersion
    | InvalidUserToken
    | InvalidCredentials
    | Other(name: string)

  /** What the HttpResponseWrapper answers: its three classes, its status
      code, the status-code header (None when absent) and the message
      logStatusCode returns. */
  datatype Response = Response(
    isSuccess: bool,
    isClientError: bool,
    isServerError: bool,
    statusCode: int,
    statusHeader: Option<string>,
    logMessage: string)

  /** findByStatusCode of the concrete validator, then CommonErrorCode's; None
      stands for null. */
  datatype Lookups = Lookups(own: string -> Option<ErrorCode>, common: string -> Option<ErrorCode>)

  /** The exceptions thrown: a business exception of a code, an application
      exception of a code with a message, InvalidApiVersionException,
      InvalidUserTokenException, and ConnectionException with a message. */
  datatype Failure =
    | BusinessFailure(code: ErrorCode)
    | ApplicationFailure(code: ErrorCode, message: string)
    | InvalidApiVersionFailure
    | InvalidUserTokenFailure
    | ConnectionFailure(message: string)

  /** validateResponse returns normally (Accepted) or throws. */
  datatype Validation = Accepted | Rejected(failure: Failure)

  /** getErrorCode returns null (NoCode), returns a code, or throws. */
  datatype Resolution = NoCode | Code(code: ErrorCode) | Thrown(failure: Failure)

  /** getErrorCode: the code the status-code header names. A missing header
      is a server error whatever the default; "200" names no code; otherwise
      the concrete validator's lookup wins over the common one, and a value
      neither knows is an application failure of the default code. */
  function GetErrorCode(response: Response, lookups: Lookups, defaultErrorCode: ErrorCode): (r: Resolution)
    ensures response.statusHeader.None? <==> r == Thrown(ApplicationFailure(ServerError, MissingHeaderMessage))
    ensures r == NoCode <==> response.statusHeader == Some(SuccessfulStatusCode)
    ensures r.Code? <==>
              response.statusHeader.Some? && response.statusHeader.value != SuccessfulStatusCode &&
              (lookups.own(response.statusHeader.value).Some? || lookups.common(response.statusHeader.value).Some?)
    ensures r.Code? ==>
              var s := response.statusHeader.value;
              if lookups.own(s).Some? then r.code == lookups.own(s).value else r.code == lookups.common(s).value
    ensures r.Thrown? && response.statusHeader.Some? ==>
              r.failure == ApplicationFailure(defaultErrorCode, UnknownCodePrefix + response.statusHeader.value)
  {
    match response.statusHeader
    case None => Thrown(ApplicationFailure(ServerError, MissingHeaderMessage))
    case Some(statusCode) =>
      if statusCode == SuccessfulStatusCode then NoCode
      else match lookups.own(statusCode)
        case Some(errorCode) => Code(errorCode)
        case None =>
          match lookups.common(statusCode)
          case Some(errorCode) => Code(errorCode)
          case None => Thrown(ApplicationFailure(defaultErrorCode, UnknownCodePrefix + statusCode))
  }

  /** validateResponse. */
  function ValidateResponse(response: Response, lookups: Lookups): (v: Validation)
    ensures !response.isSuccess && !response.isClientError && response.isServerError ==>
              v.Rejected? && (v.failure.ConnectionFailure? <==> response.statusCode == GatewayTimeout)
    ensures v.Rejected? && v.failure.ConnectionFailure? ==> v.failure.message == response.logMessage
  {
    var message := response.logMessage;
    if response.isSuccess then
      match GetErrorCode(response, lookups, ServerError)
      case NoCode => Accepted
      case Code(errorCode) => Rejected(BusinessFailure(errorCode))
      case Thrown(failure) => Rejected(failure)
    else if response.isClientError then
      match GetErrorCode(response, lookups, InternalError)
      case NoCode => Accepted
      case Code(errorCode) =>
        if errorCode == InvalidApiVersion then Rejected(InvalidApiVersionFailure)
        else if errorCode == InvalidUserToken then Rejected(InvalidUserTokenFailure)
        else if errorCode == InvalidCredentials then Rejected(BusinessFailure(InvalidCredentials))
        else Accepted
      case Thrown(failure) => Rejected(failure)
    else if response.isServerError then
      if response.statusCode == GatewayTimeout then Rejected(ConnectionFailure(message))
      else Rejected(ApplicationFailure(ServerError, message))
    else Accepted
  }

  /** The code the header names, when it names one. */
  function Resolved(response: Response, lookups: Lookups): Option<ErrorCode>
  {
    match response.statusHeader
    case None => None
    case Some(s) =>
      if s == SuccessfulStatusCode then None
      else if lookups.own(s).Some? then lookups.own(s) else lookups.common(s)
  }

  /** The code the response's class treats as an error of its own. */
  predicate ClientRejects(code: ErrorCode)
  {
    code == InvalidApiVersion || code == InvalidUserToken || code == InvalidCredentials
  }

  /** When a response is let through: a success whose header is "200", a
      client error whose header is "200" or names a code other than the three
      it rejects, and a response of none of the three classes. A server error
      never is. */
  lemma AcceptedWhen(response: Response, lookups: Lookups)
    ensures ValidateResponse(response, lookups) == Accepted <==>
              (response.isSuccess && response.statusHeader == Some(SuccessfulStatusCode)) ||
              (!response.isSuccess && response.isClientError &&
                 (response.statusHeader == Some(SuccessfulStatusCode) ||
                  (Resolved(response, lookups).Some? && !ClientRejects(Resolved(response, lookups).value)))) ||
              (!response.isSuccess && !response.isClientError && !response.isServerError)
  {
    var g := GetErrorCode(response, lookups, if response.isSuccess then ServerError else InternalError);
    assert g.Code? ==> Resolved(response, lookups) == Some(g.code);
    assert g.Code? <==> Resolved(response, lookups).Some?;
  }

  /** A success or client error without the header is rejected as a server
      error, whatever default the class passes. */
  lemma MissingHeaderFails(response: Response, lookups: Lookups)
    requires response.statusHeader.None? && (response.isSuccess || response.isClientError)
    ensures ValidateResponse(response, lookups) == Rejected(ApplicationFailure(ServerError, MissingHeaderMessage))
  {
  }

  /** A header value neither lookup knows is an application failure of the
      class's default code: server error for a success, internal error for a
      client error. */
  lemma UnknownCodeFails(response: Response, lookups: Lookups, s: string)
    requires response.statusHeader == Some(s) && s != SuccessfulStatusCode
    requires lookups.own(s).None? && lookups.common(s).None?
    requires response.isSuccess || response.isClientError
    ensures ValidateResponse(response, lookups) ==
              Rejected(ApplicationFailure(if response.isSuccess then ServerError else InternalError, UnknownCodePrefix + s))
  {
  }

  /** A success whose header names a code is a business failure of that code,
      the concrete validator's code winning over the common one. */
  lemma SuccessWithCodeFails(response: Response, lookups: Lookups)
    requires response.isSuccess && Resolved(response, lookups).Some?
    ensures ValidateResponse(response, lookups) == Rejected(BusinessFailure(Resolved(response, lookups).value))
  {
  }

  /** Only three codes make a client error fail with their own failure. */
  lemma ClientErrorCodes(response: Response, lookups: Lookups)
    requires !response.isSuccess && response.isClientError && Resolved(response, lookups).Some?
    ensures var code := Resolved(response, lookups).value;
            ValidateResponse(response, lookups) ==
              if code == InvalidApiVersion then Rejected(InvalidApiVersionFailure)
              else if code == InvalidUserToken then Rejected(InvalidUserTokenFailure)
              else if code == InvalidCredentials then Rejected(BusinessFailure(InvalidCredentials))
              else Accepted
  {
    var g := GetErrorCode(response, lookups, InternalError);
    assert g.Code? && g.code == Resolved(response, lookups).value;
  }

  /** A server error is judged by its status code and log message alone: the
      header and the lookups are not consulted. */
  lemma ServerErrorIgnoresHeader(response: Response, lookups: Lookups, header: Option<string>, others: Lookups)
    requires !response.isSuccess && !response.isClientError && response.isServerError
    ensures ValidateResponse(response, lookups) == ValidateResponse(response.(statusHeader := header), others)
    ensures ValidateResponse(response, lookups) ==
              if response.statusCode == GatewayTimeout then Rejected(ConnectionFailure(response.logMessage))
              else Rejected(ApplicationFailure(ServerError, response.logMessage))
  {
  }

  /** The class is checked in order: success first, then client error, then
      server error; a response that is none of them passes with no lookup. */
  lemma UnclassifiedAccepted(response: Response, lookups: Lookups)
    requires !response.isSuccess && !response.isClientError && !response.isServerError
    ensures ValidateResponse(response, lookups) == Accepted
  {
  }
}
