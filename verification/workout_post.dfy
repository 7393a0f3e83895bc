/**
 * The feed card for a workout: the author's name and picture with their fallbacks, and the
 * one-line summary of its exercises.
 */
module WorkoutPost {
  import opened Wrappers
  import opened Seqs
  import opened Text

  const UnknownUser: string := "Unknown User"
  const DefaultAvatar: string := "/images/avatar.png"
  const ExerciseFallback: string := "Exercise"
  const SummaryLength: nat := 3

  /**
   * `post.user` as the card receives it: a populated object (an absent field is "") or
   * anything that is not an object, such as a bare id or null.
   */
  datatype PostUser = Populated(username: string, profilePic: string) | NotPopulated

  /** `ex.exercise` of one entry: a populated exercise with its title ("" when absent), or not populated. */
  datatype PostExercise = PostExercise(title: Option<string>)

  /** The name shown: the user's name, or "Unknown User" when there is none. */
  function DisplayName(u: PostUser): (name: string)
    ensures name != ""
    ensures u.Populated? && u.username != "" ==> name == u.username
    ensures !(u.Populated? && u.username != "") ==> name == "Unknown User"
  {
    if u.Populated? && u.username != "" then u.username else UnknownUser
  }

  /** The picture shown: the user's picture, or the bundled avatar. */
  function Avatar(u: PostUser): (pic: string)
    ensures pic != ""
    ensures u.Populated? && u.profilePic != "" ==> pic == u.profilePic
    ensures !(u.Populated? && u.profilePic != "") ==> pic == "/images/avatar.png"
  {
    if u.Populated? && u.profilePic != "" then u.profilePic else DefaultAvatar
  }

  /** A user that was deleted (not populated) shows the same card header as one with empty fields. */
  lemma MissingUserLooksAnonymous(name: string, pic: string)
    ensures DisplayName(NotPopulated) == DisplayName(Populated("", pic))
    ensures Avatar(NotPopulated) == Avatar(Populated(name, ""))
  {
  }

  /** One exercise's label: its title, or "Exercise". */
  function Label(e: PostExercise): (l: string)
    ensures l != ""
    ensures e.title.Some? && e.title.value != "" ==> l == e.title.value
    ensures !(e.title.Some? && e.title.value != "") ==> l == "Exercise"
  {
    if e.title.Some? && e.title.value != "" then e.title.value else ExerciseFallback
  }

  /**
   * The exercise summary: the labels of the first three exercises joined by ", ", then "..."
   * when there are more than three. Without an `exercises` field the optional chain yields
   * `undefined`, which string concatenation turns into the text "undefined".
   */
  function ExerciseSummary(exercises: Option<seq<PostExercise>>): (s: string)
    ensures exercises.None? ==> s == "undefined"
    ensures exercises.Some? && |exercises.value| > SummaryLength ==> |s| >= 3 && s[|s| - 3..] == "..."
    ensures exercises.Some? && exercises.value != [] ==> s != ""
  {
    match exercises
    case None => "undefined"
    case Some(es) =>
      var shown := es[..if |es| <= SummaryLength then |es| else SummaryLength];
      Join(Map(shown, Label), ", ") + (if |es| > SummaryLength then "..." else "")
  }

  /** No exercises give an empty summary; otherwise the summary starts with the first label. */
  lemma SummaryStartsWithFirstLabel(es: seq<PostExercise>)
    ensures es == [] ==> ExerciseSummary(Some(es)) == ""
    ensures es != [] ==>
      var s := ExerciseSummary(Some(es));
      |Label(es[0])| <= |s| && s[..|Label(es[0])|] == Label(es[0])
  {
    if es != [] {
      var shown := es[..if |es| <= SummaryLength then |es| else SummaryLength];
      var labels := Map(shown, Label);
      var j := Join(labels, ", ");
      assert labels[0] == Label(es[0]);
      var s := ExerciseSummary(Some(es));
      assert s[..|labels[0]|] == j[..|labels[0]|];
    }
  }

  /**
   * The summary's length: the first (at most three) labels, a ", " between neighbours, and
   * three more characters for the ellipsis.
   */
  lemma SummaryLengthIsCounted(es: seq<PostExercise>)
    ensures var k := if |es| <= SummaryLength then |es| else SummaryLength;
      |ExerciseSummary(Some(es))| ==
        SumLengths(Map(es[..k], Label)) + (if k == 0 then 0 else 2 * (k - 1)) + (if |es| > SummaryLength then 3 else 0)
  {
  }

  /** Up to the third exercise, each one adds ", " and its label at the end of the summary. */
  lemma SummaryAppendsLabel(es: seq<PostExercise>, e: PostExercise)
    requires 0 < |es| < SummaryLength
    ensures ExerciseSummary(Some(es + [e])) == ExerciseSummary(Some(es)) + ", " + Label(e)
  {
    assert (es + [e])[..|es| + 1] == es + [e];
    assert es[..|es|] == es;
    assert Map(es + [e], Label) == Map(es, Label) + [Label(e)];
    JoinSnoc(Map(es, Label), Label(e), ", ");
  }

  /**
   * The whole summary once there are at least three exercises: the first three labels in
   * order, separated by ", ", then "..." exactly when more exercises follow.
   */
  lemma SummaryOfFirstThree(a: PostExercise, b: PostExercise, c: PostExercise, rest: seq<PostExercise>)
    ensures ExerciseSummary(Some([a, b, c] + rest))
         == Label(a) + ", " + Label(b) + ", " + Label(c) + (if |rest| > 0 then "..." else "")
  {
    SummaryOfThree(a, b, c);
    if |rest| > 0 {
      SummaryWithMore([a, b, c], rest);
    } else {
      assert [a, b, c] + rest == [a, b, c];
    }
  }

  /** Three exercises: their labels in order, separated by ", ". */
  lemma SummaryOfThree(a: PostExercise, b: PostExercise, c: PostExercise)
    ensures ExerciseSummary(Some([a, b, c])) == Label(a) + ", " + Label(b) + ", " + Label(c)
  {
    assert ExerciseSummary(Some([a])) == Label(a) by {
      assert [a][..1] == [a];
      assert Map([a], Label) == [Label(a)];
    }
    assert [a] + [b] == [a, b];
    SummaryAppendsLabel([a], b);
    assert [a, b] + [c] == [a, b, c];
    SummaryAppendsLabel([a, b], c);
  }

  /** Past three exercises the summary is that of the first three, with "..." appended. */
  lemma SummaryWithMore(es: seq<PostExercise>, rest: seq<PostExercise>)
    requires |es| == SummaryLength && |rest| > 0
    ensures ExerciseSummary(Some(es + rest)) == ExerciseSummary(Some(es)) + "..."
  {
    assert (es + rest)[..SummaryLength] == es == es[..SummaryLength];
  }

  /** Once there are more than three exercises, adding another one leaves the summary unchanged. */
  lemma SummaryIgnoresLaterExercises(es: seq<PostExercise>, e: PostExercise)
    requires |es| > SummaryLength
    ensures ExerciseSummary(Some(es + [e])) == ExerciseSummary(Some(es))
  {
    assert (es + [e])[..SummaryLength] == es[..SummaryLength];
  }

  /** Adding a fourth exercise adds exactly the ellipsis. */
  lemma FourthExerciseAddsEllipsis(es: seq<PostExercise>, e: PostExercise)
    requires |es| == SummaryLength
    ensures ExerciseSummary(Some(es + [e])) == ExerciseSummary(Some(es)) + "..."
  {
    assert (es + [e])[..SummaryLength] == es[..SummaryLength] == es;
  }

  /** Three exercises without titles read "Exercise, Exercise, Exercise". */
  lemma UntitledExercises()
    ensures ExerciseSummary(Some([PostExercise(None), PostExercise(Some("")), PostExercise(None)]))
         == ExerciseFallback + ", " + ExerciseFallback + ", " + ExerciseFallback
  {
    var es := [PostExercise(None), PostExercise(Some("")), PostExercise(None)];
    assert es[..3] == es;
    var f := ExerciseFallback;
    var labels := Map(es, Label);
    assert labels == [f, f, f];
    assert labels[1..] == [f, f];
    assert labels[1..][1..] == [f];
    assert Join([f, f], ", ") == f + ", " + Join([f], ", ");
  }
}
