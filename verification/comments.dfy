/**
 * Comments on workouts: posting a comment (trimmed, on an existing workout) and listing a
 * workout's comments newest first, each with its author's card.
 */
module Comments {
  import opened Wrappers
  import opened Ids
  import opened Errors
  import opened Seqs
  import opened Text
  import opened UserModel
  import opened WorkoutModel
  import opened CommentModel
  import opened Replies

  /** A comment with its `user` populated to a card (null when the author no longer exists). */
  datatype CommentView = CommentView(comment: Comment, author: Option<UserCard>)

  function ViewOf(users: seq<User>, c: Comment): (v: CommentView)
    ensures v.comment == c && v.author == Card(users, c.user)
  {
    CommentView(c, Card(users, c.user))
  }

  /**
   * `createComment`: the workout id must be an object id, the content must not be blank, and
   * the workout must exist, checked in that order. The stored content is the trimmed text.
   * Returns the new comment list and the saved comment with its author.
   */
  function CreateComment(comments: seq<Comment>, ws: seq<Workout>, users: seq<User>, author: UserId,
                         workoutId: IdParam, content: string, now: int)
    : (r: Result<(seq<Comment>, CommentView), Fault>)
    ensures !workoutId.Valid? ==> r == Err(Domain(InvalidWorkoutId))
    ensures workoutId.Valid? && AllSpace(content) ==> r == Err(Domain(EmptyComment))
    ensures workoutId.Valid? && !AllSpace(content) && Find(ws, workoutId.id).None? ==>
      r == Err(Domain(WorkoutNotFound))
    ensures r.Ok? <==> workoutId.Valid? && !AllSpace(content) && Find(ws, workoutId.id).Some?
    ensures r.Ok? ==>
      var c := r.value.1.comment;
      && r.value.0 == comments + [c]
      && (forall d :: d in comments ==> d.id != c.id)
      && c.user == author && c.workout == workoutId.id
      && c.content == Trim(content) && ValidComment(c)
      && c.createdAt == now && c.updatedAt == now
      && r.value.1.author == Card(users, author)
  {
    if !workoutId.Valid? then
      Err(Domain(InvalidWorkoutId))
    else if content == "" || Trim(content) == "" then
      BlankIffAllSpace(content);
      Err(Domain(EmptyComment))
    else if Find(ws, workoutId.id).None? then
      BlankIffAllSpace(content);
      Err(Domain(WorkoutNotFound))
    else
      BlankIffAllSpace(content);
      var c := Comment(CommentModel.FreshId(comments), author, workoutId.id, Trim(content), now, now);
      Ok((comments + [c], ViewOf(users, c)))
  }

  /** The stored content has no leading or trailing whitespace and is never empty. */
  lemma StoredContentIsTrimmed(comments: seq<Comment>, ws: seq<Workout>, users: seq<User>, author: UserId,
                               workoutId: IdParam, content: string, now: int)
    ensures var r := CreateComment(comments, ws, users, author, workoutId, content, now);
      r.Ok? ==>
        var text := r.value.1.comment.content;
        |text| > 0 && !IsSpace(text[0]) && !IsSpace(text[|text| - 1]) && Trim(text) == text
  {
    var r := CreateComment(comments, ws, users, author, workoutId, content, now);
    if r.Ok? {
      var text := r.value.1.comment.content;
      assert text == Trim(content);
      BlankIffAllSpace(content);
      TrimCutsSpace(content);
      TrimIdempotent(content);
    }
  }

  /** Posting keeps every stored comment valid and every comment id distinct. */
  lemma CreateKeepsCommentsValid(comments: seq<Comment>, ws: seq<Workout>, users: seq<User>, author: UserId,
                                 workoutId: IdParam, content: string, now: int)
    requires forall c :: c in comments ==> ValidComment(c)
    requires forall i, j :: 0 <= i < j < |comments| ==> comments[i].id != comments[j].id
    ensures var r := CreateComment(comments, ws, users, author, workoutId, content, now);
      r.Ok? ==>
        && (forall c :: c in r.value.0 ==> ValidComment(c))
        && (forall i, j :: 0 <= i < j < |r.value.0| ==> r.value.0[i].id != r.value.0[j].id)
  {
    var r := CreateComment(comments, ws, users, author, workoutId, content, now);
    if r.Ok? {
      var s := r.value.0;
      assert forall k :: 0 <= k < |comments| ==> s[k] == comments[k] && comments[k] in comments;
    }
  }

  function ViewComments(views: seq<CommentView>): (cs: seq<Comment>)
    ensures |cs| == |views|
    ensures forall i :: 0 <= i < |views| ==> cs[i] == views[i].comment
  {
    Map(views, (v: CommentView) => v.comment)
  }

  function CommentCreatedAt(c: Comment): int
  {
    c.createdAt
  }

  /**
   * `getCommentsForWorkout`: every comment on the workout, newest first, with authors. Only
   * the id's format is checked: a workout that does not exist simply has no comments.
   */
  function GetCommentsForWorkout(comments: seq<Comment>, users: seq<User>, workoutId: IdParam)
    : (r: Result<seq<CommentView>, Fault>)
    ensures r.Err? <==> !workoutId.Valid?
    ensures r.Err? ==> r.error == Domain(InvalidWorkoutId)
    ensures r.Ok? ==> SortedDesc(ViewComments(r.value), CommentCreatedAt)
    ensures r.Ok? ==> forall c :: c in ViewComments(r.value) <==> c in comments && c.workout == workoutId.id
    ensures r.Ok? ==> forall c :: multiset(ViewComments(r.value))[c] == if c.workout == workoutId.id then multiset(comments)[c] else 0
    ensures r.Ok? ==> forall i :: 0 <= i < |r.value| ==> r.value[i].author == Card(users, r.value[i].comment.user)
  {
    match workoutId
    case Valid(id) =>
      var mine := Filter(comments, (c: Comment) => c.workout == id);
      var sorted := SortDesc(mine, CommentCreatedAt);
      SortDescMembers(mine, CommentCreatedAt);
      var views := Map(sorted, (c: Comment) => ViewOf(users, c));
      assert ViewComments(views) == sorted;
      Ok(views)
    case _ => Err(Domain(InvalidWorkoutId))
  }

  /**
   * A comment posted later than every earlier one heads its workout's list; the other
   * comments of that workout follow it.
   */
  lemma NewCommentListedFirst(comments: seq<Comment>, ws: seq<Workout>, users: seq<User>, author: UserId,
                              workoutId: IdParam, content: string, now: int)
    requires forall c :: c in comments ==> c.createdAt < now
    ensures var r := CreateComment(comments, ws, users, author, workoutId, content, now);
      r.Ok? ==>
        var listed := GetCommentsForWorkout(r.value.0, users, workoutId);
        listed.Ok? && |listed.value| > 0 && listed.value[0] == r.value.1
  {
    var r := CreateComment(comments, ws, users, author, workoutId, content, now);
    if r.Ok? {
      var c := r.value.1.comment;
      var stored := r.value.0;
      assert stored == comments + [c];
      forall d | d in stored && d != c
        ensures d.createdAt < c.createdAt
      {
        assert d in comments;
      }
      LatestHeadsWorkoutList(stored, users, workoutId, c);
    }
  }

  /** The comment of a workout that is later than every other stored comment heads that workout's list. */
  lemma LatestHeadsWorkoutList(stored: seq<Comment>, users: seq<User>, workoutId: IdParam, c: Comment)
    requires workoutId.Valid? && c in stored && c.workout == workoutId.id
    requires forall d :: d in stored && d != c ==> d.createdAt < c.createdAt
    ensures var listed := GetCommentsForWorkout(stored, users, workoutId);
      listed.Ok? && |listed.value| > 0 && listed.value[0] == ViewOf(users, c)
  {
    var listed := GetCommentsForWorkout(stored, users, workoutId);
    var cs := ViewComments(listed.value);
    assert c in cs;
    forall d | d in cs && d != c
      ensures d.createdAt < c.createdAt
    {
      assert d in stored;
    }
    LatestHeadsList(cs, c);
  }

  /** In a list sorted newest first, a comment later than all the others is the head. */
  lemma LatestHeadsList(cs: seq<Comment>, c: Comment)
    requires SortedDesc(cs, CommentCreatedAt) && c in cs
    requires forall d :: d in cs && d != c ==> d.createdAt < c.createdAt
    ensures cs[0] == c
  {
    var j :| 0 <= j < |cs| && cs[j] == c;
    assert CommentCreatedAt(cs[0]) >= CommentCreatedAt(cs[j]);
    assert cs[0] in cs;
  }

  /**
   * `addComment`: an absent or empty `content` is rejected before any other check; the
   * service's errors become 400 (bad id, blank content) or 404 (no such workout). Returns the
   * reply and the comment list afterwards.
   */
  function AddComment(comments: seq<Comment>, ws: seq<Workout>, users: seq<User>, author: UserId,
                      workoutId: IdParam, content: string, now: int)
    : (out: (Reply<CommentView>, seq<Comment>))
    ensures content == "" ==> out == (Send(400, Msg(Message(CommentContentRequired))), comments)
    ensures content != "" && !workoutId.Valid? ==> out.0 == Send(400, Msg(Message(InvalidWorkoutId)))
    ensures content != "" && workoutId.Valid? && AllSpace(content) ==>
      out.0 == Send(400, Msg(Message(EmptyComment)))
    ensures content != "" && workoutId.Valid? && !AllSpace(content) && Find(ws, workoutId.id).None? ==>
      out.0 == Send(404, Msg(Message(WorkoutNotFound)))
    ensures FinalStatus(out.0) == 201 <==> workoutId.Valid? && !AllSpace(content) && Find(ws, workoutId.id).Some?
    ensures FinalStatus(out.0) == 201 ==> out.0.body.Json? && out.1 == comments + [out.0.body.value.comment]
    ensures FinalStatus(out.0) == 201 ==>
      var r := CreateComment(comments, ws, users, author, workoutId, content, now);
      out == (Send(201, Json(r.value.1)), r.value.0)
    ensures FinalStatus(out.0) == 201 ==>
      var c := out.0.body.value.comment;
      && c.user == author && c.workout == workoutId.id && c.content == Trim(content)
      && c.createdAt == now && out.0.body.value.author == Card(users, author)
    ensures FinalStatus(out.0) != 201 ==> out.1 == comments
  {
    if content == "" then
      (Reject(CommentContentRequired), comments)
    else
      Commit(CreateComment(comments, ws, users, author, workoutId, content, now), comments, 201)
  }
}
