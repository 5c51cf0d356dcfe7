/** The error vocabulary of the service: the REST error record with its
    constructors, and the Go `error` values the core produces. */
module Errors {
  import opened Text

  const StatusBadRequest := 400
  const StatusUnauthorized := 401
  const StatusForbidden := 403
  const StatusNotFound := 404
  const StatusInternalServerError := 500

  /** net/http's StatusText for the codes the service uses; Go gives the
      empty string for a code it does not know, and so does this. */
  function StatusText(code: int): string
  {
    if code == StatusBadRequest then "Bad Request"
    else if code == StatusUnauthorized then "Unauthorized"
    else if code == StatusForbidden then "Forbidden"
    else if code == StatusNotFound then "Not Found"
    else if code == StatusInternalServerError then "Internal Server Error"
    else ""
  }

  /** The JSON error body: a human message, the numeric status and its label. */
  datatype RestErr = RestErr(message: string, status: int, error: string)

  /** The record is well labelled when its label is the standard text of its
      status code. */
  predicate WellLabelled(e: RestErr)
  {
    e.error == StatusText(e.status) && e.error != ""
  }

  /** The older package's NewError: builds the record from its three parts as given. */
  function NewRestErr(message: string, status: int, error: string): (r: RestErr)
    ensures r.message == message && r.status == status && r.error == error
  {
    RestErr(message, status, error)
  }

  function BadRequestError(message: string): (r: RestErr)
    ensures r.message == message && r.status == 400 && r.error == "Bad Request"
  {
    RestErr(message, StatusBadRequest, StatusText(StatusBadRequest))
  }

  function UnauthorizedError(message: string): (r: RestErr)
    ensures r.message == message && r.status == 401 && r.error == "Unauthorized"
  {
    RestErr(message, StatusUnauthorized, StatusText(StatusUnauthorized))
  }

  function ForbiddenError(message: string): (r: RestErr)
    ensures r.message == message && r.status == 403 && r.error == "Forbidden"
  {
    RestErr(message, StatusForbidden, StatusText(StatusForbidden))
  }

  function NotFoundError(message: string): (r: RestErr)
    ensures r.message == message && r.status == 404 && r.error == "Not Found"
  {
    RestErr(message, StatusNotFound, StatusText(StatusNotFound))
  }

  function InternalServerError(message: string): (r: RestErr)
    ensures r.message == message && r.status == 500 && r.error == "Internal Server Error"
  {
    RestErr(message, StatusInternalServerError, StatusText(StatusInternalServerError))
  }

  /** Every constructor labels its record with the standard text of its code,
      and each constructor agrees with building that record by NewRestErr. */
  lemma ConstructorsWellLabelled(m: string)
    ensures WellLabelled(BadRequestError(m)) && WellLabelled(UnauthorizedError(m))
    ensures WellLabelled(ForbiddenError(m)) && WellLabelled(NotFoundError(m))
    ensures WellLabelled(InternalServerError(m))
    ensures BadRequestError(m) == NewRestErr(m, 400, StatusText(400))
    ensures UnauthorizedError(m) == NewRestErr(m, 401, StatusText(401))
    ensures ForbiddenError(m) == NewRestErr(m, 403, StatusText(403))
    ensures NotFoundError(m) == NewRestErr(m, 404, StatusText(404))
    ensures InternalServerError(m) == NewRestErr(m, 500, StatusText(500))
  {
  }

  /** Distinct constructors never produce the same record: the status tells
      the kind of failure apart whatever the message. */
  lemma ConstructorsDistinct(m1: string, m2: string)
    ensures BadRequestError(m1) != UnauthorizedError(m2)
    ensures BadRequestError(m1) != ForbiddenError(m2)
    ensures BadRequestError(m1) != NotFoundError(m2)
    ensures BadRequestError(m1) != InternalServerError(m2)
    ensures UnauthorizedError(m1) != ForbiddenError(m2)
    ensures UnauthorizedError(m1) != NotFoundError(m2)
    ensures UnauthorizedError(m1) != InternalServerError(m2)
    ensures ForbiddenError(m1) != NotFoundError(m2)
    ensures ForbiddenError(m1) != InternalServerError(m2)
    ensures NotFoundError(m1) != InternalServerError(m2)
  {
  }

  const MissingMandatoryParamPrefix := "Missing mandatory parameter(s) : "
  const InvalidPasswordMessage := "password should be at least 8 characters long with at least one number, one uppercase letter, one lowercase letter and one special character"
  const PasswordEncryptionPrefix := "password encryption error: "
  const PasswordDecryptionPrefix := "password decryption error: "
  const InvalidEmailMessage := "The email id is not valid."

  /** The generic text of an internal error that hides its cause, as
      interfaces/db/mysql/mysql.go defines it. */
  const InternalServerErrMsg := "Unable to process the request due to an internal error. Please contact the systems administrator"

  /** The Go `error` values of the core, one constructor per concrete type:
      errors.New, MissingMandatoryParamError, the two validation errors of
      the domain package, the fixed InvalidPasswordError, and the two
      wrappers around a failure of the cipher (whose own text is `cause`). */
  datatype GoError =
    | Plain(text: string)
    | MissingMandatoryParam(params: seq<string>)
    | InvalidEmail
    | InvalidStatus(invalidStatus: string, validStatusList: seq<string>)
    | InvalidPassword
    | PasswordEncryption(cause: string)
    | PasswordDecryption(cause: string)
  {
    /** The text Error() renders. */
    function Message(): string
    {
      match this
      case Plain(t) => t
      case MissingMandatoryParam(ps) => MissingMandatoryParamPrefix + GoStringList(ps)
      case InvalidEmail => InvalidEmailMessage
      case InvalidStatus(s, valid) =>
        "Invalid status '" + s + "'. Valid Status's: " + GoStringList(valid)
      case InvalidPassword => InvalidPasswordMessage
      case PasswordEncryption(c) => PasswordEncryptionPrefix + c
      case PasswordDecryption(c) => PasswordDecryptionPrefix + c
    }
  }

  /** errors/errors.go's NewError: a plain error whose text is the message. */
  function NewError(message: string): (e: GoError)
    ensures e.Message() == message
  {
    Plain(message)
  }

  /** The missing-parameter message starts with the fixed prefix and then
      lists the parameters in brackets, separated by single spaces. */
  lemma MissingMandatoryParamMessage(params: seq<string>)
    ensures var m := MissingMandatoryParam(params).Message();
      && |m| > |MissingMandatoryParamPrefix| + 1
      && m[..|MissingMandatoryParamPrefix|] == MissingMandatoryParamPrefix
      && m[|MissingMandatoryParamPrefix|..] == "[" + Join(params, ' ') + "]"
  {
  }

  /** The cipher wrappers put their fixed prefix before the cause's text,
      so the two kinds can never be confused with each other. */
  lemma CipherErrorMessages(cause: string)
    ensures var m := PasswordEncryption(cause).Message();
      m[..|PasswordEncryptionPrefix|] == PasswordEncryptionPrefix && m[|PasswordEncryptionPrefix|..] == cause
    ensures var m := PasswordDecryption(cause).Message();
      m[..|PasswordDecryptionPrefix|] == PasswordDecryptionPrefix && m[|PasswordDecryptionPrefix|..] == cause
    ensures PasswordEncryption(cause).Message() != PasswordDecryption(cause).Message()
  {
    assert PasswordEncryption(cause).Message()[9] != PasswordDecryption(cause).Message()[9];
  }
}
