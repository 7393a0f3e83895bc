/**
 * The browser-side store for the workout in progress: the in-memory state and its copy under
 * the `currentWorkout` key of local storage, with the start, add-exercise and end
 * transitions.
 */
module CurrentWorkoutStore {
  import opened Wrappers

  /** An exercise picked from the catalog, as the page hands it over; the store never looks inside it. */
  datatype Picked = Picked(id: string, title: string)

  /** The workout in progress; `startTime` is absent until it is started (the clock value in milliseconds). */
  datatype CurrentWorkout = CurrentWorkout(exercises: seq<Picked>, startTime: Option<int>)

  /** The in-memory state and the persisted copy (absent when the key is not set). */
  datatype Store = Store(current: CurrentWorkout, saved: Option<CurrentWorkout>)

  function Reset(): CurrentWorkout
  {
    CurrentWorkout([], None)
  }

  /** The state on page load: the persisted copy if there is one, else the reset workout. */
  function Load(saved: Option<CurrentWorkout>): (s: Store)
    ensures s.saved == saved
    ensures saved.Some? ==> s.current == saved.value
    ensures saved.None? ==> s.current.exercises == [] && s.current.startTime.None?
  {
    Store(saved.GetOr(Reset()), saved)
  }

  /** `startWorkout`: does nothing once started; otherwise an empty workout that starts now, persisted. */
  function StartWorkout(s: Store, now: int): (t: Store)
    ensures s.current.startTime.Some? ==> t == s
    ensures s.current.startTime.None? ==>
      t.current.exercises == [] && t.current.startTime == Some(now) && t.saved == Some(t.current)
  {
    if s.current.startTime.Some? then s
    else
      var w := CurrentWorkout([], Some(now));
      Store(w, Some(w))
  }

  /** `addExercise`: the exercise goes at the end, duplicates included; the rest is kept, and the result persisted. */
  function AddExercise(s: Store, e: Picked): (t: Store)
    ensures |t.current.exercises| == |s.current.exercises| + 1
    ensures t.current.exercises[..|s.current.exercises|] == s.current.exercises
    ensures t.current.exercises[|s.current.exercises|] == e
    ensures t.current.startTime == s.current.startTime
    ensures t.saved == Some(t.current)
  {
    var w := s.current.(exercises := s.current.exercises + [e]);
    Store(w, Some(w))
  }

  /**
   * `endWorkout`: the in-memory workout is reset and the persisted copy removed, whatever the
   * state was. The save request is commented out in the source, so no workout leaves the
   * browser.
   */
  function EndWorkout(s: Store): (t: Store)
    ensures t.current.exercises == [] && t.current.startTime.None?
    ensures t.saved.None?
  {
    Store(Reset(), None)
  }

  /** The persisted copy mirrors the state: it is the state, or it is absent and the state is reset. */
  predicate Mirrored(s: Store)
  {
    s.saved == Some(s.current) || (s.saved.None? && s.current == Reset())
  }

  /** Every transition keeps the persisted copy in step with the state. */
  lemma TransitionsKeepMirror(s: Store, now: int, e: Picked)
    requires Mirrored(s)
    ensures Mirrored(StartWorkout(s, now))
    ensures Mirrored(AddExercise(s, e))
    ensures Mirrored(EndWorkout(s))
  {
  }

  /** A freshly loaded store is mirrored, and reloading a mirrored store gives back the same workout. */
  lemma ReloadRestoresWorkout(s: Store, saved: Option<CurrentWorkout>)
    ensures Mirrored(Load(saved))
    ensures Mirrored(s) ==> Load(s.saved) == s
  {
  }

  /** Starting twice is starting once. */
  lemma StartIsIdempotent(s: Store, now: int, later: int)
    ensures StartWorkout(StartWorkout(s, now), later) == StartWorkout(s, now)
  {
  }

  /** A started workout stays started with the same start time while exercises are added. */
  lemma AddingKeepsStart(s: Store, now: int, es: seq<Picked>)
    ensures var t := AddAll(StartWorkout(s, now), es);
      t.current.startTime == StartWorkout(s, now).current.startTime &&
      t.current.exercises == StartWorkout(s, now).current.exercises + es
  {
    AddAllAppends(StartWorkout(s, now), es);
  }

  /** Adding the exercises one after another. */
  function AddAll(s: Store, es: seq<Picked>): Store
    decreases |es|
  {
    if |es| == 0 then s else AddAll(AddExercise(s, es[0]), es[1..])
  }

  lemma {:induction false} AddAllAppends(s: Store, es: seq<Picked>)
    ensures AddAll(s, es).current.exercises == s.current.exercises + es
    ensures AddAll(s, es).current.startTime == s.current.startTime
    decreases |es|
  {
    if |es| > 0 {
      AddAllAppends(AddExercise(s, es[0]), es[1..]);
      assert s.current.exercises + [es[0]] + es[1..] == s.current.exercises + es;
    }
  }

  /** A whole session from a reset store: start, add the exercises, end. It ends where it began. */
  lemma SessionEndsReset(now: int, es: seq<Picked>)
    ensures var started := StartWorkout(Load(None), now);
      && started.current == CurrentWorkout([], Some(now))
      && AddAll(started, es).current == CurrentWorkout(es, Some(now))
      && EndWorkout(AddAll(started, es)) == Load(None)
  {
    var started := StartWorkout(Load(None), now);
    AddAllAppends(started, es);
  }
}
