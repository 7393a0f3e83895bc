/** The Workout document: exercises with their sets, timing, title, likes and timestamps. */
module WorkoutModel {
  import opened Wrappers
  import opened Ids

  const MinWeight: int := 0
  const MinReps: int := 1

  /** One set; `weight` is modelled as an integer. */
  datatype WorkoutSet = WorkoutSet(weight: int, reps: int)

  /** One exercise performed: the required reference into the exercise catalog, and its sets. */
  datatype ExerciseEntry = ExerciseEntry(exercise: ExerciseId, sets: seq<WorkoutSet>)

  /**
   * A stored workout. `user` (the owner) and `startTime` are required; `duration` defaults to
   * null and `title` to the empty string; `likes` lists user references; `createdAt` and
   * `updatedAt` are the schema's timestamps in milliseconds.
   */
  datatype Workout = Workout(
    id: WorkoutId,
    user: UserId,
    exercises: seq<ExerciseEntry>,
    startTime: int,
    duration: Option<int>,
    title: string,
    likes: seq<UserId>,
    createdAt: int,
    updatedAt: int)

  /** The sort key of every workout listing: creation time. */
  function CreatedAt(w: Workout): int
  {
    w.createdAt
  }

  /** The schema's `min` rules on a set. */
  predicate ValidSet(s: WorkoutSet)
  {
    s.weight >= MinWeight && s.reps >= MinReps
  }

  predicate ValidSets(sets: seq<WorkoutSet>)
  {
    forall k :: 0 <= k < |sets| ==> ValidSet(sets[k])
  }

  predicate ValidExercises(es: seq<ExerciseEntry>)
  {
    forall i :: 0 <= i < |es| ==> ValidSets(es[i].sets)
  }

  function Digit(d: nat): char
    requires d < 10
  {
    "0123456789"[d]
  }

  function NatToString(n: nat): string
  {
    if n < 10 then [Digit(n)] else NatToString(n / 10) + [Digit(n % 10)]
  }

  function IntToString(n: int): string
  {
    if n < 0 then "-" + NatToString(-n) else NatToString(n)
  }

  /** The message of a failed `min` validator. */
  function BelowMinimum(field: string, value: int, min: int): string
  {
    "Path `" + field + "` (" + IntToString(value) + ") is less than minimum allowed value (" + IntToString(min) + ")."
  }

  /** The validation messages one set produces: weight first, then reps. */
  function SetMessages(s: WorkoutSet): (ms: seq<string>)
    ensures ms == [] <==> ValidSet(s)
  {
    (if s.weight < MinWeight then [BelowMinimum("weight", s.weight, MinWeight)] else [])
    + (if s.reps < MinReps then [BelowMinimum("reps", s.reps, MinReps)] else [])
  }

  function SetsMessages(sets: seq<WorkoutSet>): (ms: seq<string>)
    ensures ms == [] <==> ValidSets(sets)
  {
    if |sets| == 0 then []
    else
      assert forall k :: 1 <= k < |sets| ==> sets[k] == sets[1..][k - 1];
      SetMessages(sets[0]) + SetsMessages(sets[1..])
  }

  /**
   * The messages of the validation error a save raises, in document order; there are none
   * exactly when every set of every exercise satisfies the `min` rules.
   */
  function ExercisesMessages(es: seq<ExerciseEntry>): (ms: seq<string>)
    ensures ms == [] <==> ValidExercises(es)
  {
    if |es| == 0 then []
    else
      assert forall k :: 1 <= k < |es| ==> es[k] == es[1..][k - 1];
      SetsMessages(es[0].sets) + ExercisesMessages(es[1..])
  }

  predicate UniqueIds(ws: seq<Workout>)
  {
    forall i, j :: 0 <= i < j < |ws| ==> ws[i].id != ws[j].id
  }

  /** `findById`. */
  function Find(ws: seq<Workout>, id: WorkoutId): (r: Option<Workout>)
    ensures r.Some? ==> r.value in ws && r.value.id == id
    ensures r.None? <==> forall w :: w in ws ==> w.id != id
  {
    if |ws| == 0 then None
    else if ws[0].id == id then Some(ws[0])
    else Find(ws[1..], id)
  }

  /** An id no stored workout has. */
  function FreshId(ws: seq<Workout>): (id: WorkoutId)
    ensures forall w :: w in ws ==> w.id < id
  {
    if |ws| == 0 then 0
    else
      var rest := FreshId(ws[1..]);
      assert forall w :: w in ws ==> w == ws[0] || w in ws[1..];
      if ws[0].id < rest then rest else ws[0].id + 1
  }

  /** The store with the workout whose id is `w.id` replaced by `w`, order kept. */
  function Replace(ws: seq<Workout>, w: Workout): (r: seq<Workout>)
    ensures |r| == |ws|
    ensures forall k :: 0 <= k < |ws| ==> r[k] == if ws[k].id == w.id then w else ws[k]
  {
    if |ws| == 0 then [] else [if ws[0].id == w.id then w else ws[0]] + Replace(ws[1..], w)
  }
}
