/**
 * The workout store: creating a workout, the like toggle, lookup by id, deletion by the owner,
 * and a user's own workouts. Service functions return a result; the controller functions add
 * the request checks and status codes of the HTTP handlers.
 */
module Workouts {
  import opened Wrappers
  import opened Ids
  import opened Errors
  import opened Seqs
  import opened WorkoutModel
  import opened Replies

  const MillisPerMinute: int := 60000

  /**
   * The exercise reference a client sends: a well-formed object id, or text that is not one
   * (the `ObjectId` constructor throws on it).
   */
  datatype ExerciseRef = Ref(id: ExerciseId) | BadRef(text: string)

  /** One exercise as the request body carries it. */
  datatype ExerciseInput = ExerciseInput(exercise: ExerciseRef, sets: seq<WorkoutSet>)

  /** Whole minutes between two instants, rounded down (also when the end precedes the start). */
  function DurationMinutes(startTime: int, endTime: int): (m: int)
    ensures m * MillisPerMinute <= endTime - startTime < (m + 1) * MillisPerMinute
    ensures startTime <= endTime ==> m >= 0
  {
    (endTime - startTime) / MillisPerMinute
  }

  /**
   * The exercises converted for storage: each reference becomes an object id and the sets are
   * copied unchanged. The first reference that is not an object id aborts the conversion.
   */
  function FormatExercises(inputs: seq<ExerciseInput>): (r: Result<seq<ExerciseEntry>, Fault>)
    ensures r.Ok? <==> forall i :: 0 <= i < |inputs| ==> inputs[i].exercise.Ref?
    ensures r.Ok? ==> |r.value| == |inputs|
    ensures r.Ok? ==> forall i :: 0 <= i < |inputs| ==>
      r.value[i] == ExerciseEntry(inputs[i].exercise.id, inputs[i].sets)
    ensures r.Err? ==>
      exists i :: 0 <= i < |inputs| && inputs[i].exercise.BadRef? && r.error == BadObjectId(inputs[i].exercise.text)
  {
    if |inputs| == 0 then Ok([])
    else
      match inputs[0].exercise
      case BadRef(t) => Err(BadObjectId(t))
      case Ref(id) =>
        var rest := FormatExercises(inputs[1..]);
        assert forall i :: 1 <= i < |inputs| ==> inputs[i] == inputs[1..][i - 1];
        if rest.Err? then
          Err(rest.error)
        else
          Ok([ExerciseEntry(id, inputs[0].sets)] + rest.value)
  }

  /**
   * `createWorkout`: a new workout owned by `owner`, with the duration in whole minutes, no
   * likes, and both timestamps at `now`. A malformed exercise reference throws before anything
   * is saved; a set below the schema's minimums makes the save fail with a validation error.
   * Returns the new store and the saved workout.
   */
  function CreateWorkout(ws: seq<Workout>, owner: UserId, inputs: seq<ExerciseInput>,
                         startTime: int, endTime: int, title: string, now: int)
    : (r: Result<(seq<Workout>, Workout), Fault>)
    ensures FormatExercises(inputs).Err? ==> r == Err(FormatExercises(inputs).error)
    ensures FormatExercises(inputs).Ok? && !ValidExercises(FormatExercises(inputs).value) ==>
      r.Err? && r.error.Validation? && r.error.messages != []
    ensures r.Ok? <==> FormatExercises(inputs).Ok? && ValidExercises(FormatExercises(inputs).value)
    ensures r.Ok? ==> r.value.0 == ws + [r.value.1]
    ensures r.Ok? ==> var w := r.value.1;
      && (forall v :: v in ws ==> v.id != w.id)
      && w.user == owner && w.startTime == startTime && w.title == title
      && w.duration == Some(DurationMinutes(startTime, endTime))
      && |w.exercises| == |inputs|
      && (forall i :: 0 <= i < |inputs| ==>
            w.exercises[i].exercise == inputs[i].exercise.id && w.exercises[i].sets == inputs[i].sets)
      && w.likes == [] && w.createdAt == now && w.updatedAt == now
  {
    var formatted := FormatExercises(inputs);
    if formatted.Err? then
      Err(formatted.error)
    else
      var messages := ExercisesMessages(formatted.value);
      if messages != [] then
        Err(Validation(messages))
      else
        var w := Workout(FreshId(ws), owner, formatted.value, startTime,
                         Some(DurationMinutes(startTime, endTime)), title, [], now, now);
        Ok((ws + [w], w))
  }

  /** Creating keeps every stored workout valid and every id distinct. */
  lemma CreateKeepsStoreValid(ws: seq<Workout>, owner: UserId, inputs: seq<ExerciseInput>,
                              startTime: int, endTime: int, title: string, now: int)
    requires UniqueIds(ws) && forall w :: w in ws ==> ValidExercises(w.exercises)
    ensures var r := CreateWorkout(ws, owner, inputs, startTime, endTime, title, now);
      r.Ok? ==> UniqueIds(r.value.0) && forall w :: w in r.value.0 ==> ValidExercises(w.exercises)
  {
    var r := CreateWorkout(ws, owner, inputs, startTime, endTime, title, now);
    if r.Ok? {
      var s := r.value.0;
      assert forall k :: 0 <= k < |ws| ==> s[k] == ws[k] && ws[k] in ws;
    }
  }

  /**
   * `addWorkout`: the owner comes from the session, and every field is required (an empty
   * title counts as missing, an empty exercise list does not). Returns the reply and the store
   * afterwards.
   */
  function AddWorkout(ws: seq<Workout>, user: Option<UserId>, exercises: Option<seq<ExerciseInput>>,
                      startTime: Option<int>, endTime: Option<int>, title: string, now: int)
    : (out: (Reply<Workout>, seq<Workout>))
    ensures user.None? || exercises.None? || startTime.None? || endTime.None? || title == "" ==>
      out == (Send(400, Msg("Missing required fields")), ws)
    ensures FinalStatus(out.0) == 201 <==>
      user.Some? && exercises.Some? && startTime.Some? && endTime.Some? && title != "" &&
      CreateWorkout(ws, user.value, exercises.value, startTime.value, endTime.value, title, now).Ok?
    ensures FinalStatus(out.0) == 201 ==>
      out.0.body.Json? && out.1 == ws + [out.0.body.value] &&
      out.0.body.value.user == user.value && out.0.body.value.title == title
    ensures FinalStatus(out.0) == 201 ==>
      var r := CreateWorkout(ws, user.value, exercises.value, startTime.value, endTime.value, title, now);
      out == (Send(201, Json(r.value.1)), r.value.0)
    ensures FinalStatus(out.0) == 201 ==>
      var w := out.0.body.value;
      && w.startTime == startTime.value && w.duration == Some(DurationMinutes(startTime.value, endTime.value))
      && |w.exercises| == |exercises.value| && w.likes == [] && w.createdAt == now && w.updatedAt == now
    ensures FinalStatus(out.0) != 201 ==> out.1 == ws
  {
    if user.None? || exercises.None? || startTime.None? || endTime.None? || title == "" then
      (Reject(MissingWorkoutFields), ws)
    else
      var r := CreateWorkout(ws, user.value, exercises.value, startTime.value, endTime.value, title, now);
      Commit(r, ws, 201)
  }

  /** A workout with no exercises is accepted and stored with an empty exercise list. */
  lemma EmptyWorkoutAccepted(ws: seq<Workout>, user: UserId, startTime: int, endTime: int,
                             title: string, now: int)
    requires title != ""
    ensures var out := AddWorkout(ws, Some(user), Some([]), Some(startTime), Some(endTime), title, now);
      FinalStatus(out.0) == 201 && out.0.body.value.exercises == []
  {
  }

  /**
   * The like toggle: a user already in the list is removed (every copy of them), any other
   * user is appended at the end. Nobody else's entries change.
   */
  function ToggleLike(likes: seq<UserId>, u: UserId): (r: seq<UserId>)
    ensures u in r <==> u !in likes
    ensures u in likes ==> IsSubseq(r, likes)
    ensures u in likes ==> forall x :: x != u ==> multiset(r)[x] == multiset(likes)[x]
    ensures u !in likes ==> r == likes + [u]
  {
    if u in likes then Filter(likes, (x: UserId) => x != u) else likes + [u]
  }

  /** Nobody appears twice in a like list. */
  ghost predicate LikedOnce(likes: seq<UserId>)
  {
    forall x :: multiset(likes)[x] <= 1
  }

  /** Toggling never makes anyone appear twice. */
  lemma ToggleKeepsLikedOnce(likes: seq<UserId>, u: UserId)
    requires LikedOnce(likes)
    ensures LikedOnce(ToggleLike(likes, u))
  {
    var r := ToggleLike(likes, u);
    if u in likes {
      forall x ensures multiset(r)[x] <= 1 {
        if x == u {
          assert x !in r;
        }
      }
    } else {
      assert multiset(r) == multiset(likes) + multiset{u};
      assert multiset(likes)[u] == 0;
    }
  }

  /** Liking twice gives back the same set of likers. */
  lemma ToggleTwiceSameLikers(likes: seq<UserId>, u: UserId)
    ensures forall x :: x in ToggleLike(ToggleLike(likes, u), u) <==> x in likes
  {
    var once := ToggleLike(likes, u);
    var twice := ToggleLike(once, u);
    if u in likes {
      assert twice == once + [u];
      forall x | x != u ensures x in twice <==> x in likes {
        assert multiset(once)[x] == multiset(likes)[x];
        assert x in twice <==> x in once;
      }
    } else {
      assert once == likes + [u];
      forall x | x != u ensures x in twice <==> x in likes {
        assert multiset(twice)[x] == multiset(once)[x];
        assert x in once <==> x in likes;
      }
    }
  }

  /** When the user had not liked the workout, like-then-unlike restores the list exactly. */
  lemma {:induction false} ToggleTwiceRestores(likes: seq<UserId>, u: UserId)
    requires u !in likes
    ensures ToggleLike(ToggleLike(likes, u), u) == likes
  {
    var p := (x: UserId) => x != u;
    assert ToggleLike(likes, u) == likes + [u];
    FilterAppend(likes, [u], p);
    FilterKeepsAll(likes, p);
    assert Filter([u], p) == [];
  }

  /**
   * `likeWorkout`: looks the workout up (an absent id finds nothing, a malformed one raises a
   * cast error), toggles the user's like, and saves, which refreshes `updatedAt`. Returns the
   * new store and the saved workout.
   */
  function LikeWorkout(ws: seq<Workout>, workoutId: IdParam, u: UserId, now: int)
    : (r: Result<(seq<Workout>, Workout), Fault>)
    ensures workoutId.Missing? ==> r == Err(Domain(WorkoutNotFound))
    ensures workoutId.Malformed? ==> r == Err(CastToObjectId("_id", workoutId.text))
    ensures workoutId.Valid? && Find(ws, workoutId.id).None? ==> r == Err(Domain(WorkoutNotFound))
    ensures r.Ok? <==> workoutId.Valid? && Find(ws, workoutId.id).Some?
    ensures r.Ok? ==> var before := Find(ws, workoutId.id).value; var w := r.value.1;
      && w.id == before.id && w.user == before.user && w.exercises == before.exercises
      && w.title == before.title && w.startTime == before.startTime && w.duration == before.duration
      && w.createdAt == before.createdAt && w.updatedAt == now
      && (u in w.likes <==> u !in before.likes)
      && (forall x :: x != u ==> (x in w.likes <==> x in before.likes))
      && w.likes == ToggleLike(before.likes, u)
    ensures r.Ok? ==> |r.value.0| == |ws| && forall k :: 0 <= k < |ws| ==>
      r.value.0[k] == if ws[k].id == workoutId.id then r.value.1 else ws[k]
  {
    match workoutId
    case Missing => Err(Domain(WorkoutNotFound))
    case Malformed(t) => Err(CastToObjectId("_id", t))
    case Valid(id) =>
      match Find(ws, id)
      case None => Err(Domain(WorkoutNotFound))
      case Some(w) =>
        var liked := w.(likes := ToggleLike(w.likes, u), updatedAt := now);
        assert forall x :: x != u ==> (x in liked.likes <==> x in w.likes) by {
          ToggleTwiceSameLikers(w.likes, u);
          if u in w.likes {
            forall x | x != u ensures x in liked.likes <==> x in w.likes {
              assert multiset(liked.likes)[x] == multiset(w.likes)[x];
            }
          }
        }
        Ok((Replace(ws, liked), liked))
  }

  /** After a workout is replaced by one with the same id, looking that id up finds the replacement. */
  lemma {:induction false} FindAfterReplace(ws: seq<Workout>, w: Workout)
    requires Find(ws, w.id).Some?
    ensures Find(Replace(ws, w), w.id) == Some(w)
  {
    if ws[0].id != w.id {
      FindAfterReplace(ws[1..], w);
      assert Replace(ws, w)[1..] == Replace(ws[1..], w);
    }
  }

  /**
   * Liking a workout twice leaves the same set of likers on it; when the user had not liked it,
   * the list is restored exactly and the store differs only in `updatedAt`.
   */
  lemma LikeTwiceRestores(ws: seq<Workout>, id: WorkoutId, u: UserId, t1: int, t2: int)
    requires Find(ws, id).Some?
    ensures var first := LikeWorkout(ws, Valid(id), u, t1);
      first.Ok? && var second := LikeWorkout(first.value.0, Valid(id), u, t2);
      && second.Ok?
      && (forall x :: x in second.value.1.likes <==> x in Find(ws, id).value.likes)
      && (u !in Find(ws, id).value.likes ==>
            second.value.1 == Find(ws, id).value.(updatedAt := t2)
            && second.value.0 == Replace(ws, Find(ws, id).value.(updatedAt := t2)))
  {
    var w := Find(ws, id).value;
    var w1 := w.(likes := ToggleLike(w.likes, u), updatedAt := t1);
    LikeFound(ws, id, u, t1);
    FindAfterReplace(ws, w1);
    var ws1 := Replace(ws, w1);
    var w2 := w1.(likes := ToggleLike(w1.likes, u), updatedAt := t2);
    LikeFound(ws1, id, u, t2);
    ToggleTwiceSameLikers(w.likes, u);
    if u !in w.likes {
      ToggleTwiceRestores(w.likes, u);
      assert w2 == w.(updatedAt := t2);
      ReplaceTwice(ws, w1, w2);
    }
  }

  /** Liking a workout that exists replaces it by the toggled copy. */
  lemma LikeFound(ws: seq<Workout>, id: WorkoutId, u: UserId, now: int)
    requires Find(ws, id).Some?
    ensures var w := Find(ws, id).value.(likes := ToggleLike(Find(ws, id).value.likes, u), updatedAt := now);
      LikeWorkout(ws, Valid(id), u, now) == Ok((Replace(ws, w), w))
  {
  }

  /** Replacing twice by the same id is replacing once with the second workout. */
  lemma ReplaceTwice(ws: seq<Workout>, a: Workout, b: Workout)
    requires a.id == b.id
    ensures Replace(Replace(ws, a), b) == Replace(ws, b)
  {
    var once := Replace(ws, a);
    assert forall k :: 0 <= k < |ws| ==> once[k].id == ws[k].id;
  }

  /** A like toggle keeps the property that nobody likes a workout twice. */
  lemma LikeKeepsLikesOnce(ws: seq<Workout>, workoutId: IdParam, u: UserId, now: int)
    requires forall w :: w in ws ==> LikedOnce(w.likes)
    ensures var r := LikeWorkout(ws, workoutId, u, now);
      r.Ok? ==> forall w :: w in r.value.0 ==> LikedOnce(w.likes)
  {
    var r := LikeWorkout(ws, workoutId, u, now);
    if r.Ok? {
      var before := Find(ws, workoutId.id).value;
      ToggleKeepsLikedOnce(before.likes, u);
      assert r.value.1.likes == ToggleLike(before.likes, u);
      forall w | w in r.value.0 ensures LikedOnce(w.likes) {
        var k :| 0 <= k < |r.value.0| && r.value.0[k] == w;
        assert ws[k] in ws;
      }
    }
  }

  /**
   * `getWorkoutById`: an id that is not an object id is rejected as malformed before any
   * lookup; otherwise the workout with that id, or "not found".
   */
  function GetWorkoutById(ws: seq<Workout>, workoutId: IdParam): (r: Result<Workout, Fault>)
    ensures !workoutId.Valid? ==> r == Err(Domain(InvalidWorkoutId))
    ensures workoutId.Valid? && (forall w :: w in ws ==> w.id != workoutId.id) ==>
      r == Err(Domain(WorkoutNotFound))
    ensures r.Ok? <==> workoutId.Valid? && exists w :: w in ws && w.id == workoutId.id
    ensures r.Ok? ==> r.value in ws && r.value.id == workoutId.id
  {
    match workoutId
    case Valid(id) =>
      (match Find(ws, id)
       case None => Err(Domain(WorkoutNotFound))
       case Some(w) => Ok(w))
    case _ => Err(Domain(InvalidWorkoutId))
  }

  /** `findWorkout`: the id is required, must be an object id, and must name a workout. */
  function FindWorkout(ws: seq<Workout>, workoutId: IdParam): (reply: Reply<Workout>)
    ensures workoutId.Missing? ==> reply == Send(400, Msg("Workout ID is required"))
    ensures workoutId.Malformed? ==> reply == Send(400, Msg("Invalid workout ID format"))
    ensures workoutId.Valid? && (forall w :: w in ws ==> w.id != workoutId.id) ==>
      reply == Send(404, Msg("Workout not found"))
    ensures reply.Send? && reply.status == 200 ==>
      reply.body.Json? && reply.body.value in ws && workoutId.Valid? && reply.body.value.id == workoutId.id
  {
    match workoutId
    case Missing => Reject(WorkoutIdRequired)
    case Malformed(_) => Reject(InvalidWorkoutId)
    case Valid(id) =>
      match Find(ws, id)
      case None => Reject(WorkoutNotFound)
      case Some(w) => Send(200, Json(w))
  }

  /** The handler and the service answer alike once an id is present. */
  lemma FindWorkoutAgreesWithService(ws: seq<Workout>, workoutId: IdParam)
    requires !workoutId.Missing?
    ensures FindWorkout(ws, workoutId) == Respond(GetWorkoutById(ws, workoutId), 200)
  {
  }

  /**
   * `removeWorkout`: only the owner may delete. An absent id finds nothing and a malformed one
   * raises a cast error; the deletion removes the workout found, leaving all others in order.
   * Comments on the workout are not removed.
   */
  function RemoveWorkout(ws: seq<Workout>, workoutId: IdParam, requester: UserId)
    : (r: Result<seq<Workout>, Fault>)
    ensures workoutId.Missing? ==> r == Err(Domain(WorkoutNotFound))
    ensures workoutId.Malformed? ==> r == Err(CastToObjectId("_id", workoutId.text))
    ensures workoutId.Valid? && Find(ws, workoutId.id).None? ==> r == Err(Domain(WorkoutNotFound))
    ensures workoutId.Valid? && Find(ws, workoutId.id).Some? && Find(ws, workoutId.id).value.user != requester ==>
      r == Err(Domain(DeleteForbiddenMisencoded))
    ensures r.Ok? <==> workoutId.Valid? && Find(ws, workoutId.id).Some? && Find(ws, workoutId.id).value.user == requester
    ensures r.Ok? ==>
      |r.value| == |ws| - 1 && IsSubseq(r.value, ws) &&
      multiset(r.value) == multiset(ws) - multiset{Find(ws, workoutId.id).value}
  {
    match workoutId
    case Missing => Err(Domain(WorkoutNotFound))
    case Malformed(t) => Err(CastToObjectId("_id", t))
    case Valid(id) =>
      match Find(ws, id)
      case None => Err(Domain(WorkoutNotFound))
      case Some(w) =>
        if w.user != requester then Err(Domain(DeleteForbiddenMisencoded))
        else
          Ok(RemoveFirst(ws, w))
  }

  /** With distinct ids, a successful deletion leaves no workout with that id. */
  lemma DeleteRemovesThatWorkout(ws: seq<Workout>, id: WorkoutId, requester: UserId)
    requires UniqueIds(ws)
    ensures var r := RemoveWorkout(ws, Valid(id), requester);
      r.Ok? ==>
        (forall w :: w in r.value ==> w.id != id) &&
        (forall w :: w in ws && w.id != id ==> w in r.value)
  {
    var r := RemoveWorkout(ws, Valid(id), requester);
    if r.Ok? {
      var w := Find(ws, id).value;
      var i := IndexOf(ws, w);
      assert r.value == ws[..i] + ws[i + 1..];
      DropAtIndex(ws, i);
    }
  }

  /** With distinct ids, dropping the workout at `i` drops exactly the workouts with its id. */
  lemma DropAtIndex(ws: seq<Workout>, i: nat)
    requires UniqueIds(ws) && i < |ws|
    ensures forall v :: v in ws[..i] + ws[i + 1..] ==> v.id != ws[i].id
    ensures forall v :: v in ws && v.id != ws[i].id ==> v in ws[..i] + ws[i + 1..]
  {
    var rest := ws[..i] + ws[i + 1..];
    assert forall k :: 0 <= k < i ==> rest[k] == ws[k];
    assert forall k :: i <= k < |rest| ==> rest[k] == ws[k + 1];
    forall v | v in rest
      ensures v.id != ws[i].id
    {
      var k :| 0 <= k < |rest| && rest[k] == v;
    }
    forall v | v in ws && v.id != ws[i].id
      ensures v in rest
    {
      var k :| 0 <= k < |ws| && ws[k] == v;
      if k < i {
        assert rest[k] == v;
      } else {
        assert rest[k - 1] == v;
      }
    }
  }

  /**
   * `deleteWorkout`: the id is required; a workout that does not exist is 404, someone else's
   * is 403, and a malformed id reaches the error middleware as a cast error. Returns the reply
   * and the store afterwards.
   */
  function DeleteWorkout(ws: seq<Workout>, workoutId: IdParam, requester: UserId)
    : (out: (Reply<()>, seq<Workout>))
    ensures workoutId.Missing? ==> out == (Send(400, Msg("Workout ID is required")), ws)
    ensures workoutId.Malformed? ==> out.0 == Next(CastToObjectId("_id", workoutId.text)) && FinalStatus(out.0) == 400
    ensures workoutId.Valid? && Find(ws, workoutId.id).None? ==> out.0 == Send(404, Msg("Workout not found"))
    ensures workoutId.Valid? && Find(ws, workoutId.id).Some? && Find(ws, workoutId.id).value.user != requester ==>
      out.0 == Send(403, Msg(Message(DeleteForbidden)))
    ensures FinalStatus(out.0) == 200 <==>
      workoutId.Valid? && Find(ws, workoutId.id).Some? && Find(ws, workoutId.id).value.user == requester
    ensures FinalStatus(out.0) == 200 ==>
      out.0 == Send(200, Msg("Workout deleted successfully")) && out.1 == RemoveFirst(ws, Find(ws, workoutId.id).value)
    ensures FinalStatus(out.0) != 200 ==> out.1 == ws
  {
    match workoutId
    case Missing => (Reject(WorkoutIdRequired), ws)
    case Malformed(t) => (Next(CastToObjectId("_id", t)), ws)
    case Valid(id) =>
      match Find(ws, id)
      case None => (Reject(WorkoutNotFound), ws)
      case Some(w) =>
        if w.user != requester then (Reject(DeleteForbidden), ws)
        else (Send(200, Msg("Workout deleted successfully")), RemoveFirst(ws, w))
  }

  /**
   * The handler and the service agree once an id is present: the same store afterwards and
   * the same status; the replies differ only in how the 403 message spells its dash.
   */
  lemma DeleteWorkoutAgreesWithService(ws: seq<Workout>, workoutId: IdParam, requester: UserId)
    requires !workoutId.Missing?
    ensures var r := RemoveWorkout(ws, workoutId, requester);
      var out := DeleteWorkout(ws, workoutId, requester);
      && out.1 == After(r, ws)
      && FinalStatus(out.0) == FinalStatus(Acknowledge(r, 200, "Workout deleted successfully"))
      && (FinalStatus(out.0) != 403 ==> out.0 == Acknowledge(r, 200, "Workout deleted successfully"))
  {
  }

  /** `getUserWorkouts`: every workout the user owns, newest first. */
  function GetUserWorkouts(ws: seq<Workout>, owner: UserId): (r: seq<Workout>)
    ensures SortedDesc(r, CreatedAt)
    ensures forall w :: w in r <==> w in ws && w.user == owner
    ensures forall w :: multiset(r)[w] == if w.user == owner then multiset(ws)[w] else 0
  {
    var mine := Filter(ws, (w: Workout) => w.user == owner);
    var r := SortDesc(mine, CreatedAt);
    SortDescMembers(mine, CreatedAt);
    r
  }

  /**
   * `getAllUserWorkouts`: the user id is required; one that is not an object id fails the
   * query with a cast error on the `user` path.
   */
  function GetAllUserWorkouts(ws: seq<Workout>, userId: IdParam): (reply: Reply<seq<Workout>>)
    ensures userId.Missing? ==> reply == Send(400, Msg("User ID is required"))
    ensures userId.Malformed? ==> reply == Next(CastToObjectId("user", userId.text)) && FinalStatus(reply) == 400
    ensures userId.Valid? ==>
      reply.Send? && reply.status == 200 && reply.body.Json? &&
      forall w :: w in reply.body.value <==> w in ws && w.user == userId.id
    ensures userId.Valid? ==>
      && reply == Send(200, Json(GetUserWorkouts(ws, userId.id)))
      && SortedDesc(reply.body.value, CreatedAt)
      && forall w :: multiset(reply.body.value)[w] == if w.user == userId.id then multiset(ws)[w] else 0
  {
    match userId
    case Missing => Reject(UserIdRequired)
    case Malformed(t) => Next(CastToObjectId("user", t))
    case Valid(u) => Send(200, Json(GetUserWorkouts(ws, u)))
  }
}
