/** The Express error-handling middleware: from a thrown error to a status and a JSON body. */
module ErrorHandler {
  import opened Errors
  import Text

  /**
   * The properties of a thrown JavaScript error that the middleware reads. A numeric field
   * holding 0 stands for an absent (falsy) one, and an empty string for an absent message.
   */
  datatype ErrorObject = ErrorObject(
    name: string,
    message: string,
    statusCode: int,
    status: int,
    code: int,
    kind: string,
    fieldMessages: seq<string>,
    path: string,
    value: string,
    keyFields: seq<string>)

  datatype ErrorBody = ErrorBody(error: string, status: int)
  datatype ErrorResponse = ErrorResponse(status: int, body: ErrorBody)

  predicate IsTokenError(e: ErrorObject)
  {
    e.name == "JsonWebTokenError" || e.name == "TokenExpiredError"
  }

  predicate IsObjectIdCast(e: ErrorObject)
  {
    e.name == "CastError" && e.kind == "ObjectId"
  }

  /** One of the three error classes the middleware rewrites to 400. */
  predicate IsClientClass(e: ErrorObject)
  {
    e.name == "ValidationError" || IsObjectIdCast(e) || e.code == 11000
  }

  /** `err.statusCode || err.status || 500`. */
  function BaseStatus(e: ErrorObject): int
  {
    if e.statusCode != 0 then e.statusCode else if e.status != 0 then e.status else 500
  }

  /** The message for an error of one of the client classes, in the order the middleware tests them. */
  function ClientMessage(e: ErrorObject): string
    requires IsClientClass(e)
  {
    if e.name == "ValidationError" then Text.Join(e.fieldMessages, ", ")
    else if IsObjectIdCast(e) then "Invalid " + e.path + ": " + e.value + ". Must be a valid ObjectId."
    else "Duplicate field value entered for: " + (if |e.keyFields| > 0 then e.keyFields[0] else "undefined")
  }

  /**
   * The middleware. Token errors give 401 whatever else holds; otherwise the client classes
   * give 400; otherwise the error's own status is kept when it is at least 400 and replaced by
   * 500 when it is not. The body always repeats the status it is sent with.
   */
  function Handle(e: ErrorObject): (r: ErrorResponse)
    ensures r.status >= 400
    ensures r.body.status == r.status
    ensures IsTokenError(e) ==> r.status == 401
    ensures IsTokenError(e) ==> r.body.error == (if e.message == "jwt expired" then "Token expired" else "Invalid Token")
    ensures !IsTokenError(e) && IsClientClass(e) ==> r.status == 400 && r.body.error == ClientMessage(e)
    ensures !IsTokenError(e) && !IsClientClass(e) ==> r.status == (if BaseStatus(e) < 400 then 500 else BaseStatus(e))
    ensures !IsTokenError(e) && !IsClientClass(e) ==> r.body.error == (if e.message != "" then e.message else "Internal Server Error")
  {
    var status0 := BaseStatus(e);
    var message0 := if e.message != "" then e.message else "Internal Server Error";
    var (status1, message1) :=
      if e.name == "ValidationError" then (400, Text.Join(e.fieldMessages, ", "))
      else if IsObjectIdCast(e) then (400, "Invalid " + e.path + ": " + e.value + ". Must be a valid ObjectId.")
      else if e.code == 11000 then (400, ClientMessage(e))
      else (status0, message0);
    var (status2, message2) :=
      if IsTokenError(e) then (401, if e.message == "jwt expired" then "Token expired" else "Invalid Token")
      else (status1, message1);
    var status3 := if status2 < 400 then 500 else status2;
    ErrorResponse(status3, ErrorBody(message2, status3))
  }

  /**
   * For token errors and the client classes the error's own `statusCode`/`status` are
   * irrelevant: two such errors that differ only there are answered identically.
   */
  lemma ClassOverridesOwnStatus(e: ErrorObject, sc: int, st: int)
    requires IsTokenError(e) || IsClientClass(e)
    ensures Handle(e.(statusCode := sc, status := st)) == Handle(e)
  {
  }

  /**
   * Re-throwing what the middleware answered, as a plain error carrying that status, gets
   * the same status again: the mapping is stable on its own output.
   */
  lemma HandleIsStable(e: ErrorObject)
    ensures var r := Handle(e);
      Handle(ErrorObject("Error", r.body.error, r.status, 0, 0, "", [], "", "", [])).status == r.status
  {
  }

  /** How each kind of fault of the model looks to the middleware. */
  function AsThrown(f: Fault): (e: ErrorObject)
    ensures f.Domain? ==> e.name == "Error" && e.message == Message(f.error) && e.statusCode == 0 && e.status == 0
    ensures f.CastToObjectId? ==> IsObjectIdCast(e) && e.path == f.path && e.value == f.value
    ensures f.Validation? ==> e.name == "ValidationError" && e.fieldMessages == f.messages
    ensures f.DuplicateKey? ==> e.code == 11000 && e.keyFields == f.fields
  {
    match f
    case Domain(d) => ErrorObject("Error", Message(d), 0, 0, 0, "", [], "", "", [])
    case CastToObjectId(p, v) =>
      ErrorObject("CastError", "Cast to ObjectId failed for value \"" + v + "\" at path \"" + p + "\"", 0, 0, 0, "ObjectId", [], p, v, [])
    case Validation(ms) => ErrorObject("ValidationError", "Validation failed", 0, 0, 0, "", ms, "", "", [])
    case DuplicateKey(fs) => ErrorObject("MongoServerError", "E11000 duplicate key error", 0, 0, 11000, "", [], "", "", fs)
    case BadObjectId(t) => ErrorObject("BSONError", "input must be a 24 character hex string, 12 byte Uint8Array, or an integer", 0, 0, 0, "", [], "", "", [])
    case NegativeSkip => ErrorObject("MongoServerError", "skip value must be non-negative", 0, 0, 2, "", [], "", "", [])
  }

  /**
   * What reaches the client when a fault is forwarded to the middleware: database-level faults
   * (cast, validation, duplicate key) become 400, while a plain service error, whose object
   * carries no status, becomes 500 with its message.
   */
  lemma ForwardedFaultStatus(f: Fault)
    ensures f.CastToObjectId? || f.Validation? || f.DuplicateKey? ==> Handle(AsThrown(f)).status == 400
    ensures f.Domain? ==> Handle(AsThrown(f)) == ErrorResponse(500, ErrorBody(Message(f.error), 500))
    ensures f.BadObjectId? || f.NegativeSkip? ==> Handle(AsThrown(f)).status == 500
  {
    match f
    case Domain(d) => ServiceErrorStatus(d);
    case CastToObjectId(_, _) =>
    case Validation(_) =>
    case DuplicateKey(fs) => DuplicateKeyStatus(fs);
    case BadObjectId(t) => BadObjectIdStatus(t);
    case NegativeSkip => NegativeSkipStatus();
  }

  /** A plain service error carries no status and a message, so it is answered 500 with that message. */
  lemma ServiceErrorStatus(d: DomainError)
    ensures Handle(AsThrown(Domain(d))) == ErrorResponse(500, ErrorBody(Message(d), 500))
  {
    var e := AsThrown(Domain(d));
    assert !IsTokenError(e) && !IsClientClass(e);
    assert Message(d) != "";
  }

  /** A duplicate-key error is answered 400. */
  lemma DuplicateKeyStatus(fs: seq<string>)
    ensures Handle(AsThrown(DuplicateKey(fs))).status == 400
  {
    var e := AsThrown(DuplicateKey(fs));
    assert !IsTokenError(e) && e.name != "ValidationError" && !IsObjectIdCast(e);
  }

  /** The driver's rejection of a malformed ObjectId carries no status and is answered 500. */
  lemma BadObjectIdStatus(t: string)
    ensures Handle(AsThrown(BadObjectId(t))).status == 500
  {
    var e := AsThrown(BadObjectId(t));
    assert e.name == "BSONError" && e.code == 0 && e.statusCode == 0 && e.status == 0;
    assert !IsTokenError(e) && !IsClientClass(e);
  }

  /** The server's rejection of a negative skip carries no status and is answered 500. */
  lemma NegativeSkipStatus()
    ensures Handle(AsThrown(NegativeSkip)).status == 500
  {
    var e := AsThrown(NegativeSkip);
    assert e.name == "MongoServerError" && e.code == 2 && e.statusCode == 0 && e.status == 0;
    assert !IsTokenError(e) && !IsClientClass(e);
  }
}
