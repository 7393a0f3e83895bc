/** The Comment document. */
module CommentModel {
  import opened Ids

  /** A stored comment: required author and workout references, content, timestamps. */
  datatype Comment = Comment(
    id: CommentId,
    user: UserId,
    workout: WorkoutId,
    content: string,
    createdAt: int,
    updatedAt: int)

  /** The schema's `required` and `minlength: 1` rule on `content`. */
  predicate ValidComment(c: Comment)
  {
    |c.content| >= 1
  }

  /** An id no stored comment has. */
  function FreshId(cs: seq<Comment>): (id: CommentId)
    ensures forall c :: c in cs ==> c.id < id
  {
    if |cs| == 0 then 0
    else
      var rest := FreshId(cs[1..]);
      assert forall c :: c in cs ==> c == cs[0] || c in cs[1..];
      if cs[0].id < rest then rest else cs[0].id + 1
  }
}
