/**
 * The workout feed: the viewer's own workouts and those of everyone they follow, newest first.
 * The service pages through it five at a time; the HTTP handler returns the first fifty at once.
 * Each item carries its author's card and the catalog title of each exercise.
 */
module Feed {
  import opened Wrappers
  import opened Ids
  import opened Errors
  import opened Seqs
  import opened Paging
  import opened UserModel
  import opened WorkoutModel
  import opened FollowGraph
  import opened Replies

  const FeedPageSize: nat := 5
  const FeedLimit: nat := 50

  /** The exercise catalog's titles by id; an id missing here populates as null. */
  type Catalog = map<ExerciseId, string>

  /** A workout with its owner and exercise references populated. */
  datatype FeedItem = FeedItem(workout: Workout, author: Option<UserCard>, exerciseTitles: seq<Option<string>>)

  /** One page of the paged feed. */
  datatype FeedPage = FeedPage(items: seq<FeedItem>, totalPages: nat, currentPage: int, hasMore: bool)

  /** A workout is in the viewer's feed when the viewer owns it or follows its owner. */
  predicate VisibleTo(edges: Edges, viewer: UserId, w: Workout)
  {
    w.user == viewer || Edge(viewer, w.user) in edges
  }

  /** The owners whose workouts the feed shows: everyone the viewer follows, then the viewer. */
  function Audience(edges: Edges, viewer: UserId): (ids: seq<UserId>)
    ensures forall u :: u in ids <==> u == viewer || Edge(viewer, u) in edges
  {
    FollowingIds(edges, viewer) + [viewer]
  }

  /** Every visible workout, newest first. */
  function FeedOrder(ws: seq<Workout>, edges: Edges, viewer: UserId): (r: seq<Workout>)
    ensures SortedDesc(r, CreatedAt)
    ensures forall w :: w in r <==> w in ws && VisibleTo(edges, viewer, w)
    ensures forall w :: multiset(r)[w] == if VisibleTo(edges, viewer, w) then multiset(ws)[w] else 0
  {
    var ids := Audience(edges, viewer);
    var visible := Filter(ws, (w: Workout) => w.user in ids);
    SortDescMembers(visible, CreatedAt);
    SortDesc(visible, CreatedAt)
  }

  /** The populated title of one exercise entry: the catalog's title, or null for an unknown id. */
  function ExerciseTitle(catalog: Catalog, e: ExerciseEntry): (t: Option<string>)
    ensures t.Some? <==> e.exercise in catalog
    ensures t.Some? ==> t.value == catalog[e.exercise]
  {
    if e.exercise in catalog then Some(catalog[e.exercise]) else None
  }

  /** A workout with `user` populated to a card and each exercise to its title. */
  function Present(users: seq<User>, catalog: Catalog, w: Workout): (item: FeedItem)
    ensures item.workout == w && item.author == Card(users, w.user)
    ensures |item.exerciseTitles| == |w.exercises|
    ensures forall i :: 0 <= i < |w.exercises| ==> item.exerciseTitles[i] == ExerciseTitle(catalog, w.exercises[i])
  {
    FeedItem(w, Card(users, w.user), Map(w.exercises, (e: ExerciseEntry) => ExerciseTitle(catalog, e)))
  }

  function ItemWorkouts(items: seq<FeedItem>): (ws: seq<Workout>)
    ensures |ws| == |items|
    ensures forall i :: 0 <= i < |items| ==> ws[i] == items[i].workout
  {
    Map(items, (item: FeedItem) => item.workout)
  }

  /**
   * `getFollowingWorkoutFeed`: page `page` (from 1) of five items, with the page count, the
   * page number, and whether later pages hold more. A page below 1 makes the skip negative,
   * which the database rejects.
   */
  function GetFollowingWorkoutFeed(users: seq<User>, catalog: Catalog, edges: Edges, ws: seq<Workout>,
                                   viewer: UserId, page: int)
    : (r: Result<FeedPage, Fault>)
    ensures r.Err? <==> page < 1
    ensures r.Err? ==> r.error == NegativeSkip
    ensures r.Ok? ==>
      var all := FeedOrder(ws, edges, viewer);
      && r.value.currentPage == page
      && r.value.totalPages == TotalPages(|all|, FeedPageSize)
      && (r.value.hasMore <==> page < r.value.totalPages)
      && |r.value.items| <= FeedPageSize
      && ItemWorkouts(r.value.items) == Window(all, (page - 1) * FeedPageSize, FeedPageSize)
    ensures r.Ok? ==> forall i :: 0 <= i < |r.value.items| ==>
      var w := r.value.items[i].workout;
      w in ws && VisibleTo(edges, viewer, w) && r.value.items[i].author == Card(users, w.user)
    ensures r.Ok? ==> forall i :: 0 <= i < |r.value.items| ==>
      r.value.items[i] == Present(users, catalog, r.value.items[i].workout)
  {
    if page < 1 then
      Err(NegativeSkip)
    else
      var all := FeedOrder(ws, edges, viewer);
      var window := Window(all, (page - 1) * FeedPageSize, FeedPageSize);
      var items := Map(window, (w: Workout) => Present(users, catalog, w));
      HasMoreIffBeforeLastPage(page, FeedPageSize, |all|);
      assert ItemWorkouts(items) == window;
      WindowInside(all, (page - 1) * FeedPageSize, FeedPageSize);
      Ok(FeedPage(items, TotalPages(|all|, FeedPageSize), page, HasMore(page, FeedPageSize, |all|)))
  }

  /** The workouts on service page `page`. */
  function PageWorkouts(users: seq<User>, catalog: Catalog, edges: Edges, ws: seq<Workout>,
                        viewer: UserId, page: nat): (r: seq<Workout>)
    requires page >= 1
    ensures r == Window(FeedOrder(ws, edges, viewer), (page - 1) * FeedPageSize, FeedPageSize)
  {
    ItemWorkouts(GetFollowingWorkoutFeed(users, catalog, edges, ws, viewer, page).value.items)
  }

  /** The workouts of pages 1 to `n`, read one after the other. */
  function FeedPagesThrough(users: seq<User>, catalog: Catalog, edges: Edges, ws: seq<Workout>,
                            viewer: UserId, n: nat): seq<Workout>
  {
    if n == 0 then []
    else FeedPagesThrough(users, catalog, edges, ws, viewer, n - 1) + PageWorkouts(users, catalog, edges, ws, viewer, n)
  }

  /** Reading pages 1 to `n` gives the first `5n` workouts of the feed. */
  lemma {:induction false} FeedPagesArePrefix(users: seq<User>, catalog: Catalog, edges: Edges,
                                              ws: seq<Workout>, viewer: UserId, n: nat)
    ensures var all := FeedOrder(ws, edges, viewer);
      FeedPagesThrough(users, catalog, edges, ws, viewer, n) == all[..Min(n * FeedPageSize, |all|)]
  {
    var all := FeedOrder(ws, edges, viewer);
    FeedPagesMatchPages(users, catalog, edges, ws, viewer, all, n);
    PagesArePrefix(all, FeedPageSize, n);
  }

  lemma {:induction false} FeedPagesMatchPages(users: seq<User>, catalog: Catalog, edges: Edges,
                                               ws: seq<Workout>, viewer: UserId, all: seq<Workout>, n: nat)
    requires all == FeedOrder(ws, edges, viewer)
    ensures FeedPagesThrough(users, catalog, edges, ws, viewer, n) == Pages(all, FeedPageSize, n)
  {
    if n > 0 {
      FeedPagesMatchPages(users, catalog, edges, ws, viewer, all, n - 1);
    }
  }

  /**
   * Paging through the whole feed: pages 1 to `totalPages` together hold every visible
   * workout exactly once, newest first, and the page after the last is empty with no more.
   */
  lemma ReadingEveryPageYieldsWholeFeed(users: seq<User>, catalog: Catalog, edges: Edges,
                                        ws: seq<Workout>, viewer: UserId)
    ensures var all := FeedOrder(ws, edges, viewer);
      var total := TotalPages(|all|, FeedPageSize);
      var after := GetFollowingWorkoutFeed(users, catalog, edges, ws, viewer, total + 1);
      && FeedPagesThrough(users, catalog, edges, ws, viewer, total) == all
      && after.Ok? && after.value.items == [] && !after.value.hasMore
  {
    var all := FeedOrder(ws, edges, viewer);
    var total := TotalPages(|all|, FeedPageSize);
    FeedPagesMatchPages(users, catalog, edges, ws, viewer, all, total);
    PagesCoverAll(all, FeedPageSize);
    PageBeyondLastIsEmpty(all, FeedPageSize, total + 1);
    var after := GetFollowingWorkoutFeed(users, catalog, edges, ws, viewer, total + 1);
    assert |ItemWorkouts(after.value.items)| == 0;
  }

  /**
   * `getFeed`: the first fifty visible workouts, newest first, each with its author's card
   * and exercise titles.
   */
  function GetFeed(users: seq<User>, catalog: Catalog, edges: Edges, ws: seq<Workout>, viewer: UserId)
    : (reply: Reply<seq<FeedItem>>)
    ensures reply.Send? && reply.status == 200 && reply.body.Json?
    ensures var all := FeedOrder(ws, edges, viewer);
      ItemWorkouts(reply.body.value) == all[..Min(FeedLimit, |all|)]
    ensures forall i :: 0 <= i < |reply.body.value| ==>
      var w := reply.body.value[i].workout;
      w in ws && VisibleTo(edges, viewer, w) && reply.body.value[i].author == Card(users, w.user)
    ensures forall i :: 0 <= i < |reply.body.value| ==>
      reply.body.value[i] == Present(users, catalog, reply.body.value[i].workout)
  {
    var all := FeedOrder(ws, edges, viewer);
    var shown := all[..Min(FeedLimit, |all|)];
    var items := Map(shown, (w: Workout) => Present(users, catalog, w));
    assert ItemWorkouts(items) == shown;
    PrefixInside(all, Min(FeedLimit, |all|));
    Send(200, Json(items))
  }

  /** The handler's feed is exactly the service's first ten pages read in order. */
  lemma HandlerFeedIsFirstTenPages(users: seq<User>, catalog: Catalog, edges: Edges, ws: seq<Workout>, viewer: UserId)
    ensures ItemWorkouts(GetFeed(users, catalog, edges, ws, viewer).body.value)
         == FeedPagesThrough(users, catalog, edges, ws, viewer, 10)
  {
    FeedPagesArePrefix(users, catalog, edges, ws, viewer, 10);
  }

  /** With at most fifty visible workouts the handler shows every one of them. */
  lemma SmallFeedIsComplete(users: seq<User>, catalog: Catalog, edges: Edges, ws: seq<Workout>, viewer: UserId)
    requires |Filter(ws, (w: Workout) => VisibleTo(edges, viewer, w))| <= FeedLimit
    ensures forall w :: w in ws && VisibleTo(edges, viewer, w) ==>
      w in ItemWorkouts(GetFeed(users, catalog, edges, ws, viewer).body.value)
  {
    var all := FeedOrder(ws, edges, viewer);
    var visible := Filter(ws, (w: Workout) => VisibleTo(edges, viewer, w));
    assert multiset(all) == multiset(visible) by {
      forall w ensures multiset(all)[w] == multiset(visible)[w] { }
    }
    assert |all| == |multiset(all)| == |multiset(visible)| == |visible|;
    assert all[..Min(FeedLimit, |all|)] == all;
  }

  /** The first item is at least as new as every workout the viewer may see. */
  lemma NewestFirst(users: seq<User>, catalog: Catalog, edges: Edges, ws: seq<Workout>, viewer: UserId)
    ensures var items := GetFeed(users, catalog, edges, ws, viewer).body.value;
      |items| > 0 ==> forall w :: w in ws && VisibleTo(edges, viewer, w) ==> items[0].workout.createdAt >= w.createdAt
  {
    var all := FeedOrder(ws, edges, viewer);
    var items := GetFeed(users, catalog, edges, ws, viewer).body.value;
    if |items| > 0 {
      assert ItemWorkouts(items)[0] == all[0];
      forall w | w in ws && VisibleTo(edges, viewer, w) ensures CreatedAt(all[0]) >= CreatedAt(w) {
        HeadIsGreatest(all, CreatedAt, w);
      }
    }
  }

  /** A viewer who follows nobody sees only their own workouts. */
  lemma FollowingNobodyShowsOwnOnly(users: seq<User>, catalog: Catalog, edges: Edges, ws: seq<Workout>, viewer: UserId)
    requires forall e :: e in edges ==> e.follower != viewer
    ensures forall item :: item in GetFeed(users, catalog, edges, ws, viewer).body.value ==> item.workout.user == viewer
  {
    var items := GetFeed(users, catalog, edges, ws, viewer).body.value;
    forall item | item in items ensures item.workout.user == viewer {
      var i :| 0 <= i < |items| && items[i] == item;
    }
  }

  /** After a successful follow, every workout of the followed user belongs to the follower's feed. */
  lemma FollowRevealsWorkouts(users: seq<User>, edges: Edges, ws: seq<Workout>, viewer: UserId, target: IdParam, lostRace: bool)
    requires !target.Missing?
    ensures var r := CreateUserFollow(users, edges, viewer, target, lostRace);
      r.Ok? ==> forall w :: w in ws && w.user == target.id ==> w in FeedOrder(ws, r.value, viewer)
  {
  }

  /** After a successful unfollow, none of the unfollowed user's workouts remain in the feed. */
  lemma UnfollowHidesWorkouts(edges: Edges, ws: seq<Workout>, viewer: UserId, target: UserId)
    requires ValidGraph(edges) && target != viewer
    ensures var r := RemoveUserFollow(edges, viewer, Valid(target));
      r.Ok? ==> forall w :: w in FeedOrder(ws, r.value, viewer) ==> w.user != target
  {
    var r := RemoveUserFollow(edges, viewer, Valid(target));
    if r.Ok? {
      NoDuplicatesCount(edges, Edge(viewer, target));
      assert multiset(r.value)[Edge(viewer, target)] == 0;
      assert Edge(viewer, target) !in r.value;
    }
  }
}
