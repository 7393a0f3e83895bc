/**
 * Administration: listing every user, changing a user's username or role, deleting a user,
 * and the guard that lets only administrators through.
 */
module Admin {
  import opened Wrappers
  import opened Ids
  import opened Errors
  import opened Seqs
  import opened UserModel
  import opened Replies

  /** `fetchAllUsers` / `getAllUsers`: every user, in store order, without the password hash. */
  function FetchAllUsers(users: seq<User>): (r: seq<Account>)
    ensures |r| == |users|
    ensures forall i :: 0 <= i < |users| ==> r[i].id == users[i].id && r[i] == WithoutPassword(users[i])
  {
    Map(users, WithoutPassword)
  }

  /** Every stored user appears in the listing, and the listing holds nobody else. */
  lemma ListingIsExactlyTheStore(users: seq<User>)
    ensures forall u :: u in users ==> WithoutPassword(u) in FetchAllUsers(users)
    ensures forall a :: a in FetchAllUsers(users) ==> exists u :: u in users && a == WithoutPassword(u)
  {
    var r := FetchAllUsers(users);
    forall u | u in users ensures WithoutPassword(u) in r {
      var i :| 0 <= i < |users| && users[i] == u;
      assert r[i] == WithoutPassword(u);
    }
    forall a | a in r ensures exists u :: u in users && a == WithoutPassword(u) {
      var i :| 0 <= i < |r| && r[i] == a;
      assert users[i] in users;
    }
  }

  function GetAllUsers(users: seq<User>): (reply: Reply<seq<Account>>)
    ensures reply.Send? && reply.status == 200 && reply.body == Json(FetchAllUsers(users))
  {
    Send(200, Json(FetchAllUsers(users)))
  }

  /**
   * Whether some user other than the target holds `name`: the query
   * `{ username, _id: { $ne: userId } }`. An absent id compares as null, so then every
   * holder counts.
   */
  predicate HeldByOther(users: seq<User>, name: string, userId: IdParam)
  {
    exists u :: u in users && u.username == name && !(userId.Valid? && u.id == userId.id)
  }

  /** The document after `findByIdAndUpdate(userId, { username, role })`: absent fields are left out of the update. */
  function Updated(u: User, username: Option<string>, role: Option<string>): (v: User)
    ensures v.id == u.id && v.email == u.email && v.password == u.password
    ensures v.profilePic == u.profilePic && v.bio == u.bio
    ensures v.username == username.GetOr(u.username) && v.role == role.GetOr(u.role)
  {
    u.(username := username.GetOr(u.username), role := role.GetOr(u.role))
  }

  /**
   * `modifyUser`: a non-empty username already held by another user is refused, before the
   * target is looked up; a malformed id fails when the first query casts it. The update runs
   * no validators, so an empty username or role is stored as given, and only the unique
   * index on `username` can still refuse it. Returns the new store and the updated user
   * without password.
   */
  function ModifyUser(users: seq<User>, userId: IdParam, username: Option<string>, role: Option<string>)
    : (r: Result<(seq<User>, Account), Fault>)
    ensures userId.Malformed? ==> r == Err(CastToObjectId("_id", userId.text))
    ensures !userId.Malformed? && username.Some? && username.value != "" && HeldByOther(users, username.value, userId) ==>
      r == Err(Domain(UsernameTakenByOther))
    ensures r.Ok? ==>
      userId.Valid? && FindById(users, userId.id).Some? &&
      var v := Updated(FindById(users, userId.id).value, username, role);
      && r.value.0 == Replace(users, v)
      && r.value.1 == WithoutPassword(v)
      && (forall o :: o in users && o.id != userId.id ==> o.username != v.username)
    ensures r.Ok? <==>
      && userId.Valid? && FindById(users, userId.id).Some?
      && !(username.Some? && username.value != "" && HeldByOther(users, username.value, userId))
      && (forall o :: o in users && o.id != userId.id ==>
            o.username != Updated(FindById(users, userId.id).value, username, role).username)
  {
    match userId
    case Malformed(t) => Err(CastToObjectId("_id", t))
    case Missing =>
      if username.Some? && username.value != "" && HeldByOther(users, username.value, userId) then
        Err(Domain(UsernameTakenByOther))
      else
        Err(Domain(UserNotFound))
    case Valid(id) =>
      if username.Some? && username.value != "" && HeldByOther(users, username.value, userId) then
        Err(Domain(UsernameTakenByOther))
      else
        match FindById(users, id)
        case None => Err(Domain(UserNotFound))
        case Some(u) =>
          var v := Updated(u, username, role);
          if exists o :: o in users && o.id != v.id && o.username == v.username then
            Err(DuplicateKey(["username"]))
          else
            Ok((Replace(users, v), WithoutPassword(v)))
  }

  /** For a user that exists, only an empty username can reach the unique index and be refused there. */
  lemma OnlyEmptyUsernameHitsIndex(users: seq<User>, id: UserId, username: Option<string>, role: Option<string>)
    requires UniqueKeys(users)
    ensures ModifyUser(users, Valid(id), username, role).Err? &&
            ModifyUser(users, Valid(id), username, role).error.DuplicateKey? ==>
      username == Some("")
  {
    var r := ModifyUser(users, Valid(id), username, role);
    if r.Err? && r.error.DuplicateKey? {
      var u := FindById(users, id).value;
      var v := Updated(u, username, role);
      var o :| o in users && o.id != v.id && o.username == v.username;
      var i :| 0 <= i < |users| && users[i] == o;
      var j :| 0 <= j < |users| && users[j] == u;
      DistinctKeys(users, i, j);
    }
  }

  /** Changing a user's username or role keeps ids, emails and usernames unique. */
  lemma ModifyKeepsKeysUnique(users: seq<User>, userId: IdParam, username: Option<string>, role: Option<string>)
    requires UniqueKeys(users)
    ensures var r := ModifyUser(users, userId, username, role);
      r.Ok? ==> UniqueKeys(r.value.0)
  {
    var r := ModifyUser(users, userId, username, role);
    if r.Ok? {
      var u := FindById(users, userId.id).value;
      var v := Updated(u, username, role);
      var m :| 0 <= m < |users| && users[m] == u;
      forall o | 0 <= o < |users| && o != m
        ensures users[o].username != v.username
      {
        DistinctKeys(users, o, m);
        assert users[o] in users;
      }
      ReplaceKeepsKeysUnique(users, m, v);
    }
  }

  /**
   * `updateUser`: an absent id is refused with 400; a username held by another user is 409,
   * a missing user 404; a malformed id or an index refusal goes to the middleware (400).
   */
  function UpdateUser(users: seq<User>, userId: IdParam, username: Option<string>, role: Option<string>)
    : (out: (Reply<Account>, seq<User>))
    ensures userId.Missing? ==> out == (Send(400, Msg("User ID parameter is required")), users)
    ensures userId.Malformed? ==> FinalStatus(out.0) == 400 && out.1 == users
    ensures !userId.Missing? && !userId.Malformed? && username.Some? && username.value != "" &&
            HeldByOther(users, username.value, userId) ==>
      out == (Send(409, Msg("Username is already taken by another user")), users)
    ensures userId.Valid? && FindById(users, userId.id).None? &&
            !(username.Some? && username.value != "" && HeldByOther(users, username.value, userId)) ==>
      out == (Send(404, Msg("User not found")), users)
    ensures FinalStatus(out.0) == 200 <==> !userId.Missing? && ModifyUser(users, userId, username, role).Ok?
    ensures FinalStatus(out.0) != 200 ==> out.1 == users
    ensures FinalStatus(out.0) == 200 ==>
      var v := Updated(FindById(users, userId.id).value, username, role);
      && userId.Valid? && FindById(users, userId.id).Some?
      && out == (Send(200, Json(WithoutPassword(v))), Replace(users, v))
  {
    if userId.Missing? then
      (Reject(UserIdParamRequired), users)
    else
      Commit(ModifyUser(users, userId, username, role), users, 200)
  }

  /**
   * `removeUser`: deletes the user with that id; an absent id matches nobody and a malformed
   * one fails to cast. Returns the store afterwards.
   */
  function RemoveUser(users: seq<User>, userId: IdParam): (r: Result<seq<User>, Fault>)
    ensures userId.Malformed? ==> r == Err(CastToObjectId("_id", userId.text))
    ensures r.Ok? <==> userId.Valid? && FindById(users, userId.id).Some?
    ensures !userId.Malformed? && r.Err? ==> r == Err(Domain(UserNotFound))
    ensures r.Ok? ==>
      |r.value| == |users| - 1 && IsSubseq(r.value, users) &&
      multiset(r.value) == multiset(users) - multiset{FindById(users, userId.id).value}
  {
    match userId
    case Missing => Err(Domain(UserNotFound))
    case Malformed(t) => Err(CastToObjectId("_id", t))
    case Valid(id) =>
      match FindById(users, id)
      case None => Err(Domain(UserNotFound))
      case Some(u) => Ok(RemoveFirst(users, u))
  }

  /** With unique ids, a deletion removes exactly the user with that id. */
  lemma RemoveDeletesExactlyThatUser(users: seq<User>, id: UserId)
    requires UniqueKeys(users)
    ensures var r := RemoveUser(users, Valid(id));
      r.Ok? ==>
        && (forall u :: u in r.value ==> u.id != id)
        && (forall u :: u in users && u.id != id ==> u in r.value)
  {
    var r := RemoveUser(users, Valid(id));
    if r.Ok? {
      var gone := FindById(users, id).value;
      var j :| 0 <= j < |users| && users[j] == gone;
      UniqueIdsCountOnce(users, j);
      assert gone !in r.value;
      forall u | u in r.value ensures u.id != id {
        assert multiset(r.value)[u] > 0;
        var i :| 0 <= i < |users| && users[i] == u;
        DistinctKeys(users, i, j);
      }
      forall u | u in users && u.id != id ensures u in r.value {
        assert multiset(r.value)[u] == multiset(users)[u];
      }
    }
  }

  /** In a store with unique ids, each user occurs exactly once. */
  lemma UniqueIdsCountOnce(users: seq<User>, i: nat)
    requires UniqueKeys(users) && i < |users|
    ensures multiset(users)[users[i]] == 1
  {
    forall k | 0 <= k < |users| && k != i
      ensures users[k] != users[i]
    {
      DistinctKeys(users, k, i);
    }
    OccursOnce(users, i);
  }


  /**
   * `deleteUser`: an absent id is refused with 400, a missing user is 404, a malformed id
   * goes to the middleware (400); success is 200 with a fixed message.
   */
  function DeleteUser(users: seq<User>, userId: IdParam): (out: (Reply<()>, seq<User>))
    ensures userId.Missing? ==> out == (Send(400, Msg("User ID is required")), users)
    ensures userId.Valid? && FindById(users, userId.id).None? ==> out == (Send(404, Msg("User not found")), users)
    ensures userId.Malformed? ==> FinalStatus(out.0) == 400 && out.1 == users
    ensures FinalStatus(out.0) == 200 <==> userId.Valid? && FindById(users, userId.id).Some?
    ensures FinalStatus(out.0) == 200 ==>
      out.0 == Send(200, Msg("User deleted successfully")) && |out.1| + 1 == |users|
    ensures FinalStatus(out.0) == 200 ==>
      && out.1 == RemoveFirst(users, FindById(users, userId.id).value)
      && multiset(out.1) == multiset(users) - multiset{FindById(users, userId.id).value}
  {
    if userId.Missing? then
      (Reject(UserIdRequired), users)
    else
      var r := RemoveUser(users, userId);
      (Acknowledge(r, 200, "User deleted successfully"), After(r, users))
  }

  /** What a guard decides: let the request through, or answer it. */
  datatype Gate = Pass | Halt(status: int, message: string)

  /** `isAdmin`: a request without a user is 401, a user whose role is not "admin" is 403. */
  function IsAdminGuard(user: Option<Account>): (g: Gate)
    ensures g.Pass? <==> user.Some? && user.value.role == AdminRole
    ensures user.None? ==> g == Halt(401, "Unauthorized - No user info")
    ensures user.Some? && user.value.role != AdminRole ==> g == Halt(403, "Forbidden - Admins only")
  {
    if user.None? then Halt(401, "Unauthorized - No user info")
    else if user.value.role != AdminRole then Halt(403, "Forbidden - Admins only")
    else Pass
  }

  /**
   * `GET /admin/users`: the guard, then the listing. Only an administrator ever sees the
   * user list; everyone else gets the guard's answer.
   */
  function AdminListUsers(session: Option<Account>, users: seq<User>): (reply: Reply<seq<Account>>)
    ensures reply.Send?
    ensures reply.status == 200 <==> session.Some? && session.value.role == "admin"
    ensures reply.body.Json? ==> reply.body.value == FetchAllUsers(users)
    ensures reply.status != 200 ==> reply.status in {401, 403}
  {
    match IsAdminGuard(session)
    case Pass => GetAllUsers(users)
    case Halt(s, m) => Send(s, Msg(m))
  }
}
