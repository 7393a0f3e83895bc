/**
 * What the services throw. Every service error is a plain `Error` with a fixed message; the
 * controllers answer each message with one status code, and that code is the same in every
 * controller that can see the message, so one table serves them all.
 */
module Errors {

  /** The domain failures, one per distinct message string in the services and controllers. */
  datatype DomainError =
    | NoToken
    | AllFieldsRequired
    | PasswordTooShort
    | EmailInUse
    | UsernameInUse
    | InvalidCredentials
    | UserNotFound
    | InvalidUsernameFormat
    | UsernameTaken
    | BioTooLong
    | UsernameTakenByOther
    | UserIdParamRequired
    | UserIdRequired
    | SelfFollow
    | FollowTargetNotFound
    | AlreadyFollowing
    | FollowAlreadyExists
    | NotFollowing
    | MissingWorkoutFields
    | WorkoutIdRequired
    | InvalidWorkoutId
    | WorkoutNotFound
    | DeleteForbidden
    | DeleteForbiddenMisencoded
    | CommentContentRequired
    | EmptyComment

  /** The message text the source attaches to each failure. */
  function Message(e: DomainError): (m: string)
    ensures m != ""
  {
    match e
    case NoToken => "Unauthorized - No Token Provided"
    case AllFieldsRequired => "All fields are required"
    case PasswordTooShort => "Password must be at least 6 characters"
    case EmailInUse => "Email already in use"
    case UsernameInUse => "Username already in use"
    case InvalidCredentials => "Invalid Credentials"
    case UserNotFound => "User not found"
    case InvalidUsernameFormat => "Username must be 3 to 30 characters containing only letters, numbers, or dashes"
    case UsernameTaken => "Username is already taken"
    case BioTooLong => "Bio must be 200 characters or less"
    case UsernameTakenByOther => "Username is already taken by another user"
    case UserIdParamRequired => "User ID parameter is required"
    case UserIdRequired => "User ID is required"
    case SelfFollow => "You cannot follow yourself."
    case FollowTargetNotFound => "User to follow not found."
    case AlreadyFollowing => "You are already following this user."
    case FollowAlreadyExists => "Follow relationship already exists."
    case NotFollowing => "You are not following this user or user not found."
    case MissingWorkoutFields => "Missing required fields"
    case WorkoutIdRequired => "Workout ID is required"
    case InvalidWorkoutId => "Invalid workout ID format"
    case WorkoutNotFound => "Workout not found"
    case DeleteForbidden => "Forbidden \U{2013} You are not allowed to delete this workout"
    // The service file holds the UTF-8 bytes of the en dash read back as Windows-1252.
    case DeleteForbiddenMisencoded => "Forbidden \U{00E2}\U{20AC}\U{201C} You are not allowed to delete this workout"
    case CommentContentRequired => "Comment content is required"
    case EmptyComment => "Comment content cannot be empty"
  }

  /** A failure that means the addressed record does not exist. */
  predicate IsNotFound(e: DomainError)
  {
    e == UserNotFound || e == FollowTargetNotFound || e == WorkoutNotFound
  }

  /** The ownership check on deletion, in the handler's and in the service's spelling. */
  predicate IsForbidden(e: DomainError)
  {
    e == DeleteForbidden || e == DeleteForbiddenMisencoded
  }

  /**
   * The status code a controller sends for each failure. Missing records give 404, the
   * ownership check 403, the admin's username clash 409, and everything else, including an
   * absent session in `checkAuth` and a duplicate follow, 400.
   */
  function Status(e: DomainError): (code: int)
    ensures 400 <= code < 500
    ensures code == 404 <==> IsNotFound(e)
    ensures code == 403 <==> IsForbidden(e)
    ensures code == 409 <==> e == UsernameTakenByOther
    ensures !IsNotFound(e) && !IsForbidden(e) && e != UsernameTakenByOther ==> code == 400
  {
    if IsNotFound(e) then 404
    else if IsForbidden(e) then 403
    else if e == UsernameTakenByOther then 409
    else 400
  }

  /**
   * Everything an operation of the model can throw: a service error, or an error raised by
   * the database layer that the controllers pass on to the error-handling middleware.
   */
  datatype Fault =
    | Domain(error: DomainError)
    /** A malformed id reached a query on `path`; mongoose raises a CastError of kind ObjectId. */
    | CastToObjectId(path: string, value: string)
    /** Document validation failed on save; one message per offending field. */
    | Validation(messages: seq<string>)
    /** A unique index rejected a write (server error code 11000) on the given key fields. */
    | DuplicateKey(fields: seq<string>)
    /** The ObjectId constructor rejected a malformed exercise reference. */
    | BadObjectId(text: string)
    /** The server rejected a negative `skip`. */
    | NegativeSkip
}
