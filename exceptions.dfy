/** The error kinds the services raise, the result type that carries them instead of an
    exception, and the translation of each kind into an HTTP error response. */
module Exceptions {

  /** The three failures that reach the exception handler, each with its message. */
  datatype Error =
    | NotFound(message: string)
    | AlreadyExist(message: string)
    | DataIntegrityViolation(message: string)

  /** The outcome of a service operation: a response body, or the error it raised. */
  datatype Result<T> = Ok(value: T) | Err(error: Error)

  /** The body and status of an error response. */
  datatype ErrorResponse = ErrorResponse(status: int, title: string, detail: seq<string>)

  const NotFoundStatus := 404
  const BadRequestStatus := 400
  /** The status named by the annotation on the data-integrity handler; the handler itself
      returns a response with `BadRequestStatus`, and the returned response decides. */
  const InternalServerErrorStatus := 500

  const NotFoundTitle := "Not Found!"
  const AlreadyExistTitle := "Already Exist!"
  const CityInUseTitle := "This city is used by another record. Deletion cannot be performed!"

  /** The handler table: one response per error kind, whose detail list holds exactly the
      error's message. */
  function Handle(e: Error): (response: ErrorResponse)
    ensures response.detail == [e.message]
    ensures response.status == (if e.NotFound? then NotFoundStatus else BadRequestStatus)
  {
    match e
    case NotFound(m) => ErrorResponse(NotFoundStatus, NotFoundTitle, [m])
    case AlreadyExist(m) => ErrorResponse(BadRequestStatus, AlreadyExistTitle, [m])
    case DataIntegrityViolation(m) => ErrorResponse(BadRequestStatus, CityInUseTitle, [m])
  }

  /** The title of a response names the error kind it came from. */
  lemma TitleNamesKind(e: Error)
    ensures Handle(e).title == NotFoundTitle <==> e.NotFound?
    ensures Handle(e).title == AlreadyExistTitle <==> e.AlreadyExist?
    ensures Handle(e).title == CityInUseTitle <==> e.DataIntegrityViolation?
  {
    assert NotFoundTitle != AlreadyExistTitle by { assert |NotFoundTitle| != |AlreadyExistTitle|; }
    assert NotFoundTitle != CityInUseTitle by { assert |NotFoundTitle| != |CityInUseTitle|; }
    assert AlreadyExistTitle != CityInUseTitle by { assert |AlreadyExistTitle| != |CityInUseTitle|; }
  }

  /** No information is lost: the response determines the error, kind and message. */
  lemma HandleInjective(e1: Error, e2: Error)
    ensures Handle(e1) == Handle(e2) <==> e1 == e2
  {
    TitleNamesKind(e1);
    TitleNamesKind(e2);
    if Handle(e1) == Handle(e2) {
      assert [e1.message] == Handle(e1).detail == Handle(e2).detail == [e2.message];
    }
  }

  /** The status on the data-integrity handler's annotation is never the one returned. */
  lemma AnnotatedStatusNeverReturned(e: Error)
    ensures Handle(e).status != InternalServerErrorStatus
  {
  }
}
