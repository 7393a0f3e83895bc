/** Identifiers of stored documents, and identifiers as they arrive in a request. */
module Ids {

  type UserId = nat
  type WorkoutId = nat
  type ExerciseId = nat
  type CommentId = nat

  /**
   * An id taken from a request (a path parameter or a body field). `Missing` is a falsy value
   * (absent or the empty string); `Malformed` is a string that the ObjectId validity test
   * rejects; `Valid` is one it accepts, already decoded to the id it denotes. The validity test
   * itself is abstract: which strings are `Malformed` is not modelled.
   */
  datatype IdParam = Missing | Malformed(text: string) | Valid(id: nat)
}
