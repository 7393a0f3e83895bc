/**
 * The follow graph: directed follower -> following edges, the follow and unfollow operations
 * with their ordered error checks, and the following/followers lists. The service functions
 * return a result; the controller functions wrap the same logic with status codes.
 */
module FollowGraph {
  import opened Wrappers
  import opened Ids
  import opened Errors
  import opened Seqs
  import opened UserModel
  import opened Replies

  datatype Edge = Edge(follower: UserId, following: UserId)

  /** Edges as stored, in natural (insertion) order. */
  type Edges = seq<Edge>

  predicate NoSelfFollow(edges: Edges)
  {
    forall e :: e in edges ==> e.follower != e.following
  }

  /** At most one edge per ordered pair. */
  predicate NoDuplicates(edges: Edges)
  {
    forall i, j :: 0 <= i < j < |edges| ==> edges[i] != edges[j]
  }

  predicate ValidGraph(edges: Edges)
  {
    NoSelfFollow(edges) && NoDuplicates(edges)
  }

  predicate UserExists(users: seq<User>, id: UserId)
  {
    FindById(users, id).Some?
  }

  /**
   * `createUserFollow`. The checks run in this order: following oneself, a malformed target id
   * (the user lookup raises a cast error), a target that does not exist, an edge that already
   * exists. `lostRace` is the outcome of the final insert: true when a concurrent request
   * inserted the same edge after the check, so that the unique index rejects this one.
   */
  function CreateUserFollow(users: seq<User>, edges: Edges, follower: UserId, target: IdParam, lostRace: bool)
    : (r: Result<Edges, Fault>)
    requires !target.Missing?
    ensures target.Valid? && target.id == follower ==> r == Err(Domain(SelfFollow))
    ensures target.Malformed? ==> r == Err(CastToObjectId("_id", target.text))
    ensures target.Valid? && target.id != follower && !UserExists(users, target.id) ==>
      r == Err(Domain(FollowTargetNotFound))
    ensures target.Valid? && target.id != follower && UserExists(users, target.id) && Edge(follower, target.id) in edges ==>
      r == Err(Domain(AlreadyFollowing))
    ensures target.Valid? && target.id != follower && UserExists(users, target.id) && Edge(follower, target.id) !in edges && lostRace ==>
      r == Err(Domain(FollowAlreadyExists))
    ensures r.Ok? <==> target.Valid? && target.id != follower && UserExists(users, target.id) && Edge(follower, target.id) !in edges && !lostRace
    ensures r.Ok? ==> r.value == edges + [Edge(follower, target.id)]
  {
    if target.Valid? && target.id == follower then Err(Domain(SelfFollow))
    else if target.Malformed? then Err(CastToObjectId("_id", target.text))
    else if !UserExists(users, target.id) then Err(Domain(FollowTargetNotFound))
    else if Edge(follower, target.id) in edges then Err(Domain(AlreadyFollowing))
    else if lostRace then Err(Domain(FollowAlreadyExists))
    else Ok(edges + [Edge(follower, target.id)])
  }

  /** `removeUserFollow`: deletes the first matching edge, failing when there is none. */
  function RemoveUserFollow(edges: Edges, follower: UserId, target: IdParam): (r: Result<Edges, Fault>)
    requires !target.Missing?
    ensures target.Malformed? ==> r == Err(CastToObjectId("following", target.text))
    ensures target.Valid? && Edge(follower, target.id) !in edges ==> r == Err(Domain(NotFollowing))
    ensures r.Ok? <==> target.Valid? && Edge(follower, target.id) in edges
    ensures r.Ok? ==> multiset(r.value) == multiset(edges) - multiset{Edge(follower, target.id)}
    ensures r.Ok? ==> |r.value| == |edges| - 1
  {
    match target
    case Malformed(t) => Err(CastToObjectId("following", t))
    case Valid(t) =>
      if Edge(follower, t) in edges then Ok(RemoveFirst(edges, Edge(follower, t)))
      else Err(Domain(NotFollowing))
  }

  /** The edges leaving `u`, in natural order. */
  function Outgoing(edges: Edges, u: UserId): seq<Edge>
  {
    Filter(edges, (e: Edge) => e.follower == u)
  }

  /** The edges arriving at `u`, in natural order. */
  function Incoming(edges: Edges, u: UserId): seq<Edge>
  {
    Filter(edges, (e: Edge) => e.following == u)
  }

  /** The ids `u` follows, as the feed reads them. */
  function FollowingIds(edges: Edges, u: UserId): (ids: seq<UserId>)
    ensures forall v :: v in ids <==> Edge(u, v) in edges
  {
    var out := Outgoing(edges, u);
    var ids := Map(out, (e: Edge) => e.following);
    assert forall v :: Edge(u, v) in edges ==> Edge(u, v) in out && ids[IndexOf(out, Edge(u, v))] == v;
    assert forall v :: v in ids ==> Edge(u, v) in edges by {
      forall v | v in ids
        ensures Edge(u, v) in edges
      {
        var i :| 0 <= i < |ids| && ids[i] == v;
        assert out[i] in out;
      }
    }
    ids
  }

  /** The ids that follow `u`. */
  function FollowerIds(edges: Edges, u: UserId): (ids: seq<UserId>)
    ensures forall v :: v in ids <==> Edge(v, u) in edges
  {
    var inc := Incoming(edges, u);
    var ids := Map(inc, (e: Edge) => e.follower);
    assert forall v :: Edge(v, u) in edges ==> Edge(v, u) in inc && ids[IndexOf(inc, Edge(v, u))] == v;
    assert forall v :: v in ids ==> Edge(v, u) in edges by {
      forall v | v in ids
        ensures Edge(v, u) in edges
      {
        var i :| 0 <= i < |ids| && ids[i] == v;
        assert inc[i] in inc;
      }
    }
    ids
  }

  /** The following and followers lists are inverse to each other. */
  lemma FollowingFollowersInverse(edges: Edges, a: UserId, b: UserId)
    ensures b in FollowingIds(edges, a) <==> a in FollowerIds(edges, b)
  {
  }

  /**
   * `fetchFollowingList`: one populated card per outgoing edge, in edge order; a card is null
   * when the followed user no longer exists.
   */
  function FetchFollowingList(users: seq<User>, edges: Edges, user: IdParam): (r: Result<seq<Option<UserCard>>, Fault>)
    requires !user.Missing?
    ensures user.Malformed? ==> r == Err(CastToObjectId("follower", user.text))
    ensures user.Valid? ==> r.Ok? && |r.value| == |Outgoing(edges, user.id)|
    ensures user.Valid? ==> forall i :: 0 <= i < |r.value| ==> r.value[i] == Card(users, Outgoing(edges, user.id)[i].following)
  {
    match user
    case Malformed(t) => Err(CastToObjectId("follower", t))
    case Valid(u) => Ok(Map(Outgoing(edges, u), (e: Edge) => Card(users, e.following)))
  }

  /** `fetchFollowersList`: the symmetric query over incoming edges. */
  function FetchFollowersList(users: seq<User>, edges: Edges, user: IdParam): (r: Result<seq<Option<UserCard>>, Fault>)
    requires !user.Missing?
    ensures user.Malformed? ==> r == Err(CastToObjectId("following", user.text))
    ensures user.Valid? ==> r.Ok? && |r.value| == |Incoming(edges, user.id)|
    ensures user.Valid? ==> forall i :: 0 <= i < |r.value| ==> r.value[i] == Card(users, Incoming(edges, user.id)[i].follower)
  {
    match user
    case Malformed(t) => Err(CastToObjectId("following", t))
    case Valid(u) => Ok(Map(Incoming(edges, u), (e: Edge) => Card(users, e.follower)))
  }

  /** A successful follow keeps the graph free of self-loops and duplicate edges. */
  lemma FollowKeepsGraphValid(users: seq<User>, edges: Edges, follower: UserId, target: IdParam, lostRace: bool)
    requires !target.Missing? && ValidGraph(edges)
    requires CreateUserFollow(users, edges, follower, target, lostRace).Ok?
    ensures ValidGraph(CreateUserFollow(users, edges, follower, target, lostRace).value)
  {
    var e := Edge(follower, target.id);
    var r := edges + [e];
    forall i, j | 0 <= i < j < |r|
      ensures r[i] != r[j]
    {
      if j == |edges| {
        assert r[i] == edges[i];
      }
    }
  }

  /** In a graph without duplicates an edge occurs at most once. */
  lemma {:induction false} NoDuplicatesCount(edges: Edges, e: Edge)
    requires NoDuplicates(edges)
    ensures multiset(edges)[e] <= 1
  {
    if |edges| > 0 {
      assert edges == [edges[0]] + edges[1..];
      assert NoDuplicates(edges[1..]) by {
        forall i, j | 0 <= i < j < |edges[1..]|
          ensures edges[1..][i] != edges[1..][j]
        {
          assert edges[1..][i] == edges[i + 1] && edges[1..][j] == edges[j + 1];
        }
      }
      NoDuplicatesCount(edges[1..], e);
      if edges[0] == e {
        assert forall k :: 0 <= k < |edges[1..]| ==> edges[1..][k] == edges[k + 1] && edges[k + 1] != edges[0];
        assert e !in edges[1..];
      }
    }
  }

  /** A successful unfollow keeps the graph free of self-loops and duplicate edges. */
  lemma UnfollowKeepsGraphValid(edges: Edges, follower: UserId, target: IdParam)
    requires !target.Missing? && ValidGraph(edges)
    requires RemoveUserFollow(edges, follower, target).Ok?
    ensures ValidGraph(RemoveUserFollow(edges, follower, target).value)
  {
    var e := Edge(follower, target.id);
    var k := IndexOf(edges, e);
    assert RemoveUserFollow(edges, follower, target).value == edges[..k] + edges[k + 1..];
    DropEdgeKeepsGraphValid(edges, k);
  }

  /** Dropping any one edge keeps a valid graph valid. */
  lemma DropEdgeKeepsGraphValid(edges: Edges, k: nat)
    requires ValidGraph(edges) && k < |edges|
    ensures ValidGraph(edges[..k] + edges[k + 1..])
  {
    var r := edges[..k] + edges[k + 1..];
    assert |r| == |edges| - 1;
    forall i | 0 <= i < |r|
      ensures r[i] == edges[if i < k then i else i + 1]
    {
    }
    forall x | x in r
      ensures x.follower != x.following
    {
      var i :| 0 <= i < |r| && r[i] == x;
      assert edges[if i < k then i else i + 1] in edges;
    }
  }

  /** Following twice: the second attempt reports the existing edge. */
  lemma FollowTwiceFails(users: seq<User>, edges: Edges, follower: UserId, target: IdParam, race1: bool, race2: bool)
    requires !target.Missing?
    requires CreateUserFollow(users, edges, follower, target, race1).Ok?
    ensures CreateUserFollow(users, CreateUserFollow(users, edges, follower, target, race1).value, follower, target, race2)
      == Err(Domain(AlreadyFollowing))
  {
  }

  /** Unfollowing right after following restores the edge list exactly. */
  lemma FollowThenUnfollowRestores(users: seq<User>, edges: Edges, follower: UserId, target: IdParam)
    requires !target.Missing?
    requires CreateUserFollow(users, edges, follower, target, false).Ok?
    ensures RemoveUserFollow(CreateUserFollow(users, edges, follower, target, false).value, follower, target) == Ok(edges)
  {
    var e := Edge(follower, target.id);
    var r := edges + [e];
    var i := IndexOf(r, e);
    assert forall k :: 0 <= k < |edges| ==> r[k] == edges[k];
    assert e !in edges;
    assert i == |edges|;
    assert r[..i] == edges && r[i + 1..] == [];
    assert RemoveFirst(r, e) == r[..i] + r[i + 1..] == edges;
    assert CreateUserFollow(users, edges, follower, target, false).value == r;
    assert RemoveUserFollow(r, follower, target) == Ok(RemoveFirst(r, e));
  }

  /** Unfollowing succeeds once and then reports that there is nothing to remove. */
  lemma UnfollowTwiceFails(edges: Edges, follower: UserId, target: IdParam)
    requires !target.Missing? && ValidGraph(edges)
    requires RemoveUserFollow(edges, follower, target).Ok?
    ensures RemoveUserFollow(RemoveUserFollow(edges, follower, target).value, follower, target) == Err(Domain(NotFollowing))
  {
    var e := Edge(follower, target.id);
    NoDuplicatesCount(edges, e);
    var r := RemoveUserFollow(edges, follower, target).value;
    assert multiset(r)[e] == 0;
  }

  /** After `follow(a, b)` succeeds, b is in a's following list and a is in b's followers list. */
  lemma FollowShowsInBothLists(users: seq<User>, edges: Edges, follower: UserId, target: IdParam)
    requires !target.Missing?
    requires CreateUserFollow(users, edges, follower, target, false).Ok?
    ensures var after := CreateUserFollow(users, edges, follower, target, false).value;
      && target.id in FollowingIds(after, follower)
      && follower in FollowerIds(after, target.id)
      && Card(users, target.id) in FetchFollowingList(users, after, Valid(follower)).value
      && Card(users, follower) in FetchFollowersList(users, after, target).value
  {
    var e := Edge(follower, target.id);
    var after := edges + [e];
    var out := Outgoing(after, follower);
    assert e in out;
    var i := IndexOf(out, e);
    assert FetchFollowingList(users, after, Valid(follower)).value[i] == Card(users, target.id);
    var inc := Incoming(after, target.id);
    assert e in inc;
    var j := IndexOf(inc, e);
    assert FetchFollowersList(users, after, target).value[j] == Card(users, follower);
  }

  /** With no edges at all, every following and followers list is empty. */
  lemma EmptyGraphEmptyLists(users: seq<User>, u: UserId)
    ensures FetchFollowingList(users, [], Valid(u)) == Ok([])
    ensures FetchFollowersList(users, [], Valid(u)) == Ok([])
  {
  }

  // ----- controllers -----

  /**
   * `followUser`: 400 for following oneself, 404 for an unknown target, 400 for an existing
   * edge or an insert that loses the race, 201 with the edge added otherwise; a malformed id
   * goes to the error middleware, which answers 400.
   */
  function FollowUser(users: seq<User>, edges: Edges, follower: UserId, target: IdParam, lostRace: bool)
    : (out: (Reply<()>, Edges))
    requires !target.Missing?
    ensures target.Valid? && target.id == follower ==> out.0 == Send(400, Msg(Message(SelfFollow)))
    ensures target.Valid? && target.id != follower && !UserExists(users, target.id) ==>
      out.0 == Send(404, Msg(Message(FollowTargetNotFound)))
    ensures target.Valid? && target.id != follower && UserExists(users, target.id) && Edge(follower, target.id) in edges ==>
      out.0 == Send(400, Msg(Message(AlreadyFollowing)))
    ensures target.Valid? && target.id != follower && UserExists(users, target.id) && Edge(follower, target.id) !in edges && lostRace ==>
      out.0 == Send(400, Msg(Message(FollowAlreadyExists)))
    ensures target.Malformed? ==> out.0.Next? && FinalStatus(out.0) == 400
    ensures FinalStatus(out.0) == 201 <==> CreateUserFollow(users, edges, follower, target, lostRace).Ok?
    ensures FinalStatus(out.0) == 201 ==> target.Valid? && out.1 == edges + [Edge(follower, target.id)]
    ensures FinalStatus(out.0) == 201 ==> out.0 == Send(201, Msg("User followed successfully."))
    ensures FinalStatus(out.0) != 201 ==> out.1 == edges
  {
    var r := CreateUserFollow(users, edges, follower, target, lostRace);
    if r.Err? then
      FailureIsNeverSuccess<()>(r.error);
      (Fail(r.error), edges)
    else
      (Acknowledge(r, 201, "User followed successfully."), r.value)
  }

  /** `unfollowUser`: 200 with the edge removed when it existed, 400 and no change otherwise. */
  function UnfollowUser(edges: Edges, follower: UserId, target: IdParam): (out: (Reply<()>, Edges))
    requires !target.Missing?
    ensures target.Valid? && Edge(follower, target.id) in edges ==>
      out == (Send(200, Msg("User unfollowed successfully.")), RemoveFirst(edges, Edge(follower, target.id)))
    ensures target.Valid? && Edge(follower, target.id) !in edges ==>
      out == (Send(400, Msg(Message(NotFollowing))), edges)
    ensures target.Malformed? ==> out.0.Next? && FinalStatus(out.0) == 400 && out.1 == edges
  {
    var r := RemoveUserFollow(edges, follower, target);
    (Acknowledge(r, 200, "User unfollowed successfully."), After(r, edges))
  }

  /** `getFollowingList`: 200 with the list for a well-formed id. */
  function GetFollowingList(users: seq<User>, edges: Edges, user: IdParam): (reply: Reply<seq<Option<UserCard>>>)
    requires !user.Missing?
    ensures user.Valid? ==> reply == Send(200, Json(FetchFollowingList(users, edges, user).value))
    ensures user.Valid? ==>
      && |reply.body.value| == |Outgoing(edges, user.id)|
      && forall i :: 0 <= i < |reply.body.value| ==> reply.body.value[i] == Card(users, Outgoing(edges, user.id)[i].following)
    ensures user.Malformed? ==> reply.Next? && FinalStatus(reply) == 400
  {
    Respond(FetchFollowingList(users, edges, user), 200)
  }

  /** `getFollowersList`: 200 with the list for a well-formed id. */
  function GetFollowersList(users: seq<User>, edges: Edges, user: IdParam): (reply: Reply<seq<Option<UserCard>>>)
    requires !user.Missing?
    ensures user.Valid? ==> reply == Send(200, Json(FetchFollowersList(users, edges, user).value))
    ensures user.Valid? ==>
      && |reply.body.value| == |Incoming(edges, user.id)|
      && forall i :: 0 <= i < |reply.body.value| ==> reply.body.value[i] == Card(users, Incoming(edges, user.id)[i].follower)
    ensures user.Malformed? ==> reply.Next? && FinalStatus(reply) == 400
  {
    Respond(FetchFollowersList(users, edges, user), 200)
  }
}
