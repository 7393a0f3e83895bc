/**
 * Accounts: the session check, signup and login validation, profile updates, public profiles
 * with follow counts, and username search. Password hashing and comparison, the image upload
 * and the username pattern search are parameters: they are library or database calls.
 */
module Auth {
  import opened Wrappers
  import opened Ids
  import opened Errors
  import opened Seqs
  import opened Text
  import opened UserModel
  import opened FollowGraph
  import opened Replies

  const MaxBioLength: nat := 200
  const SearchLimit: nat := 5

  /** `verifyAuth`: the session user, or the missing-token error when there is none. */
  function VerifyAuth(user: Option<Account>): (r: Result<Account, Fault>)
    ensures r.Err? <==> user.None?
    ensures r.Err? ==> r.error == Domain(NoToken)
    ensures r.Ok? ==> r.value == user.value
  {
    match user
    case None => Err(Domain(NoToken))
    case Some(u) => Ok(u)
  }

  /** `checkAuth`: the session user with 200, and 400 (not 401) when there is none. */
  function CheckAuth(user: Option<Account>): (reply: Reply<Account>)
    ensures user.None? ==> reply == Send(400, Msg("Unauthorized - No Token Provided"))
    ensures user.Some? ==> reply == Send(200, Json(user.value))
  {
    Respond(VerifyAuth(user), 200)
  }

  /** The message of the schema's `minlength: 6` validator on `password`. */
  function PasswordTooShortMessage(value: string): string
  {
    "Path `password` (`" + value + "`) is shorter than the minimum allowed length (6)."
  }

  /**
   * `registerUser` (and the `signup` handler, which repeats it): all three fields are required,
   * the password needs six characters, and the email and then the username must be free.
   * `hashed` is the bcrypt hash of `password`; the document's own validation runs on it when
   * it is saved. Returns the new user list and the public fields of the new user.
   */
  function RegisterUser(users: seq<User>, username: string, email: string, password: string, hashed: string)
    : (r: Result<(seq<User>, SessionUser), Fault>)
    ensures username == "" || email == "" || password == "" ==> r == Err(Domain(AllFieldsRequired))
    ensures username != "" && email != "" && password != "" && |password| < MinPasswordLength ==>
      r == Err(Domain(PasswordTooShort))
    ensures username != "" && email != "" && |password| >= MinPasswordLength && FindByEmail(users, email).Some? ==>
      r == Err(Domain(EmailInUse))
    ensures username != "" && email != "" && |password| >= MinPasswordLength && FindByEmail(users, email).None?
            && FindByUsername(users, username).Some? ==>
      r == Err(Domain(UsernameInUse))
    ensures r.Ok? <==>
      username != "" && email != "" && |password| >= MinPasswordLength && |hashed| >= MinPasswordLength &&
      (forall u :: u in users ==> u.email != email && u.username != username)
    ensures r.Ok? ==>
      exists id: UserId :: (forall u :: u in users ==> u.id != id) &&
        var u := NewUser(id, username, email, hashed);
        r.value.0 == users + [u] && ValidNewUser(u) && r.value.1 == SessionOf(u)
    ensures r.Ok? ==>
      r.value.1.username == username && r.value.1.email == email &&
      r.value.1.profilePic == "" && r.value.1.bio == "I love Ziutki Gym"
    ensures r.Err? ==>
      || r.error.Validation?
      || (r.error.Domain? && r.error.error in {AllFieldsRequired, PasswordTooShort, EmailInUse, UsernameInUse})
  {
    if username == "" || email == "" || password == "" then
      Err(Domain(AllFieldsRequired))
    else if |password| < MinPasswordLength then
      Err(Domain(PasswordTooShort))
    else if FindByEmail(users, email).Some? then
      Err(Domain(EmailInUse))
    else if FindByUsername(users, username).Some? then
      Err(Domain(UsernameInUse))
    else if |hashed| < MinPasswordLength then
      Err(Validation([PasswordTooShortMessage(hashed)]))
    else
      var u := NewUser(UserModel.FreshId(users), username, email, hashed);
      Ok((users + [u], SessionOf(u)))
  }

  /** Registering keeps ids, emails and usernames unique. */
  lemma RegisterKeepsKeysUnique(users: seq<User>, username: string, email: string, password: string, hashed: string)
    requires UniqueKeys(users)
    ensures var r := RegisterUser(users, username, email, password, hashed);
      r.Ok? ==> UniqueKeys(r.value.0)
  {
    var r := RegisterUser(users, username, email, password, hashed);
    if r.Ok? {
      var s := r.value.0;
      var n := |users|;
      assert s[n] !in users;
      assert forall k :: 0 <= k < n ==> s[k] == users[k] && users[k] in users;
    }
  }

  /** `signup`: every failure is 400; success is 201 with the new user's public fields. */
  function Signup(users: seq<User>, username: string, email: string, password: string, hashed: string)
    : (out: (Reply<SessionUser>, seq<User>))
    ensures FinalStatus(out.0) == 201 <==> RegisterUser(users, username, email, password, hashed).Ok?
    ensures FinalStatus(out.0) != 201 ==> FinalStatus(out.0) == 400 && out.1 == users
    ensures FinalStatus(out.0) == 201 ==>
      var r := RegisterUser(users, username, email, password, hashed);
      out == (Send(201, Json(r.value.1)), r.value.0)
    ensures FinalStatus(out.0) == 201 ==>
      && |out.1| == |users| + 1 && out.1[..|users|] == users
      && out.0 == Send(201, Json(SessionOf(out.1[|users|])))
      && out.0.body.value.username == username && out.0.body.value.email == email
      && out.0.body.value.profilePic == "" && out.0.body.value.bio == "I love Ziutki Gym"
      && (forall u :: u in users ==> u.id != out.0.body.value.id)
  {
    var r := RegisterUser(users, username, email, password, hashed);
    if r.Err? then
      SignupRejectionIs400(r.error);
      Commit(r, users, 201)
    else
      Commit(r, users, 201)
  }

  /** Every way registration fails is answered 400, the validation error through the middleware. */
  lemma SignupRejectionIs400(f: Fault)
    requires f.Validation? || (f.Domain? && f.error in {AllFieldsRequired, PasswordTooShort, EmailInUse, UsernameInUse})
    ensures FinalStatus(Fail<SessionUser>(f)) == 400
  {
  }

  /**
   * `authenticateUser`: both fields are required; an unknown email and a wrong password give
   * the same error. `matches(password, hash)` is bcrypt's compare.
   */
  function AuthenticateUser(users: seq<User>, email: string, password: string, matches: (string, string) -> bool)
    : (r: Result<SessionUser, Fault>)
    ensures email == "" || password == "" ==> r == Err(Domain(AllFieldsRequired))
    ensures r.Ok? <==>
      email != "" && password != "" && FindByEmail(users, email).Some? &&
      matches(password, FindByEmail(users, email).value.password)
    ensures r.Ok? ==> r.value == SessionOf(FindByEmail(users, email).value)
    ensures email != "" && password != "" && r.Err? ==> r.error == Domain(InvalidCredentials)
  {
    if email == "" || password == "" then
      Err(Domain(AllFieldsRequired))
    else
      match FindByEmail(users, email)
      case None => Err(Domain(InvalidCredentials))
      case Some(u) =>
        if !matches(password, u.password) then Err(Domain(InvalidCredentials))
        else Ok(SessionOf(u))
  }

  /** An unknown email and a wrong password are indistinguishable to the caller. */
  lemma UnknownEmailLooksLikeWrongPassword(users: seq<User>, unknown: string, known: string, password: string,
                                           matches: (string, string) -> bool)
    requires unknown != "" && known != "" && password != ""
    requires FindByEmail(users, unknown).None?
    requires FindByEmail(users, known).Some? && !matches(password, FindByEmail(users, known).value.password)
    ensures AuthenticateUser(users, unknown, password, matches) == AuthenticateUser(users, known, password, matches)
  {
  }

  /** After signing up, logging in with the same email and password returns the same public fields. */
  lemma SignupThenLogin(users: seq<User>, username: string, email: string, password: string, hashed: string,
                        matches: (string, string) -> bool)
    requires matches(password, hashed)
    ensures var r := RegisterUser(users, username, email, password, hashed);
      r.Ok? ==> AuthenticateUser(r.value.0, email, password, matches) == Ok(r.value.1)
  {
    var r := RegisterUser(users, username, email, password, hashed);
    if r.Ok? {
      var s := r.value.0;
      var u := s[|users|];
      FindFirstSkipsNonMatching(users, u, (x: User) => x.email == email);
    }
  }

  /** `findOne` on a list extended by one element finds that element when nothing earlier matches. */
  lemma {:induction false} FindFirstSkipsNonMatching(users: seq<User>, u: User, p: User -> bool)
    requires forall x :: x in users ==> !p(x)
    requires p(u)
    ensures FindFirst(users + [u], p) == Some(u)
  {
    if |users| > 0 {
      assert (users + [u])[1..] == users[1..] + [u];
      FindFirstSkipsNonMatching(users[1..], u, p);
    } else {
      assert users + [u] == [u];
    }
  }

  /** `login`: every failure is 400; success is 200 with the user's public fields. */
  function Login(users: seq<User>, email: string, password: string, matches: (string, string) -> bool)
    : (reply: Reply<SessionUser>)
    ensures FinalStatus(reply) == 200 <==> AuthenticateUser(users, email, password, matches).Ok?
    ensures FinalStatus(reply) != 200 ==> reply.Send? && reply.status == 400
    ensures FinalStatus(reply) == 200 ==>
      FindByEmail(users, email).Some? && reply == Send(200, Json(SessionOf(FindByEmail(users, email).value)))
  {
    Respond(AuthenticateUser(users, email, password, matches), 200)
  }

  /**
   * `updateUserProfileData`: the user must exist; a new username must match the pattern and
   * not belong to anyone else; the bio is trimmed (an absent one becomes empty) and limited to
   * 200 characters; a new picture is uploaded (`upload` returns its URL), otherwise the
   * current one stays. Returns the new user list and the updated document.
   */
  function UpdateUserProfileData(users: seq<User>, userId: UserId, username: string, profilePic: string,
                                 bio: string, upload: string -> string)
    : (r: Result<(seq<User>, User), Fault>)
    ensures FindById(users, userId).None? ==> r == Err(Domain(UserNotFound))
    ensures FindById(users, userId).Some? && username != "" && !IsValidUsername(username) ==>
      r == Err(Domain(InvalidUsernameFormat))
    ensures FindById(users, userId).Some? && IsValidUsername(username) &&
            FindByUsername(users, username).Some? && FindByUsername(users, username).value.id != userId ==>
      r == Err(Domain(UsernameTaken))
    ensures r.Ok? <==>
      FindById(users, userId).Some? &&
      (username != "" ==> IsValidUsername(username) && (FindByUsername(users, username).Some? ==> FindByUsername(users, username).value.id == userId)) &&
      |Trim(bio)| <= MaxBioLength
    ensures r.Ok? ==>
      var before := FindById(users, userId).value;
      var u := r.value.1;
      && u.id == userId && u.email == before.email && u.password == before.password && u.role == before.role
      && u.username == (if username != "" then username else before.username)
      && u.bio == Trim(bio) && |u.bio| <= MaxBioLength
      && u.profilePic == (if profilePic != "" then upload(profilePic) else before.profilePic)
    ensures r.Ok? ==> r.value.0 == Replace(users, r.value.1)
    ensures r.Err? && FindById(users, userId).Some? ==>
      r.error.Domain? && r.error.error in {InvalidUsernameFormat, UsernameTaken, BioTooLong}
  {
    match FindById(users, userId)
    case None => Err(Domain(UserNotFound))
    case Some(existing) =>
      if username != "" && !IsValidUsername(username) then
        Err(Domain(InvalidUsernameFormat))
      else if username != "" && FindByUsername(users, username).Some? && FindByUsername(users, username).value.id != userId then
        Err(Domain(UsernameTaken))
      else
        var newBio := Trim(bio);
        if |newBio| > MaxBioLength then
          Err(Domain(BioTooLong))
        else
          var newPic := if profilePic != "" then upload(profilePic) else existing.profilePic;
          var updated := existing.(username := if username != "" then username else existing.username,
                                   profilePic := newPic, bio := newBio);
          Ok((Replace(users, updated), updated))
  }

  /** Keeping one's own username is not a conflict. */
  lemma KeepingOwnUsernameIsAllowed(users: seq<User>, userId: UserId, profilePic: string, bio: string,
                                    upload: string -> string)
    requires UniqueKeys(users)
    requires FindById(users, userId).Some? && IsValidUsername(FindById(users, userId).value.username)
    requires |Trim(bio)| <= MaxBioLength
    ensures UpdateUserProfileData(users, userId, FindById(users, userId).value.username, profilePic, bio, upload).Ok?
  {
    var me := FindById(users, userId).value;
    var found := FindByUsername(users, me.username).value;
    var i :| 0 <= i < |users| && users[i] == me;
    var j :| 0 <= j < |users| && users[j] == found;
    DistinctKeys(users, i, j);
  }

  /** A profile update keeps ids, emails and usernames unique. */
  lemma UpdateKeepsKeysUnique(users: seq<User>, userId: UserId, username: string, profilePic: string,
                              bio: string, upload: string -> string)
    requires UniqueKeys(users)
    ensures var r := UpdateUserProfileData(users, userId, username, profilePic, bio, upload);
      r.Ok? ==> UniqueKeys(r.value.0)
  {
    var r := UpdateUserProfileData(users, userId, username, profilePic, bio, upload);
    if r.Ok? {
      var u := r.value.1;
      var me := FindById(users, userId).value;
      var m :| 0 <= m < |users| && users[m] == me;
      if FindByUsername(users, username).Some? {
        var f := FindByUsername(users, username).value;
        var q :| 0 <= q < |users| && users[q] == f;
        DistinctKeys(users, q, m);
      }
      forall o | 0 <= o < |users| && o != m
        ensures users[o].username != u.username
      {
        DistinctKeys(users, o, m);
      }
      ReplaceKeepsKeysUnique(users, m, u);
    }
  }

  /** `updateProfile`: "not found" is 404, every validation failure 400, success 200 with the document. */
  function UpdateProfile(users: seq<User>, userId: UserId, username: string, profilePic: string, bio: string,
                         upload: string -> string)
    : (out: (Reply<User>, seq<User>))
    ensures FindById(users, userId).None? ==> out == (Send(404, Msg(Message(UserNotFound))), users)
    ensures FinalStatus(out.0) == 200 <==> UpdateUserProfileData(users, userId, username, profilePic, bio, upload).Ok?
    ensures FindById(users, userId).Some? && UpdateUserProfileData(users, userId, username, profilePic, bio, upload).Err? ==>
      FinalStatus(out.0) == 400 && out.1 == users
    ensures FinalStatus(out.0) == 200 ==>
      var r := UpdateUserProfileData(users, userId, username, profilePic, bio, upload);
      out == (Send(200, Json(r.value.1)), r.value.0)
    ensures FinalStatus(out.0) == 200 ==>
      var before := FindById(users, userId).value;
      && out.0.Send? && out.0.body.Json?
      && out.1 == Replace(users, out.0.body.value)
      && out.0.body.value.id == userId && out.0.body.value.bio == Trim(bio)
      && out.0.body.value.username == (if username != "" then username else before.username)
      && out.0.body.value.profilePic == (if profilePic != "" then upload(profilePic) else before.profilePic)
  {
    var r := UpdateUserProfileData(users, userId, username, profilePic, bio, upload);
    if r.Err? && FindById(users, userId).Some? then
      ProfileRejectionIs400(r.error);
      Commit(r, users, 200)
    else
      Commit(r, users, 200)
  }

  /** The profile checks that fail on an existing user are all answered 400. */
  lemma ProfileRejectionIs400(f: Fault)
    requires f.Domain? && f.error in {InvalidUsernameFormat, UsernameTaken, BioTooLong}
    ensures FinalStatus(Fail<User>(f)) == 400
  {
  }

  /** A public profile: the user without password, follow counts, and whether the viewer follows them. */
  datatype Profile = Profile(account: Account, followersCount: nat, followingCount: nat, isFollowing: bool)

  /** The number of edges arriving at and leaving `u`. */
  function FollowersCount(edges: Edges, u: UserId): nat
  {
    |Incoming(edges, u)|
  }

  function FollowingCount(edges: Edges, u: UserId): nat
  {
    |Outgoing(edges, u)|
  }

  /**
   * `fetchUserByUsername`: the profile of the user with that username. `isFollowing` is false
   * for an anonymous viewer and for the owner looking at their own profile; otherwise it
   * says whether the viewer follows the owner.
   */
  function FetchUserByUsername(users: seq<User>, edges: Edges, username: string, viewer: Option<UserId>)
    : (r: Result<Profile, Fault>)
    ensures r.Err? <==> FindByUsername(users, username).None?
    ensures r.Err? ==> r.error == Domain(UserNotFound)
    ensures r.Ok? ==>
      var owner := FindByUsername(users, username).value;
      && r.value.account == WithoutPassword(owner)
      && r.value.followersCount == FollowersCount(edges, owner.id)
      && r.value.followingCount == FollowingCount(edges, owner.id)
      && (r.value.isFollowing <==> viewer.Some? && viewer.value != owner.id && Edge(viewer.value, owner.id) in edges)
  {
    match FindByUsername(users, username)
    case None => Err(Domain(UserNotFound))
    case Some(owner) =>
      var following := viewer.Some? && viewer.value != owner.id && Edge(viewer.value, owner.id) in edges;
      Ok(Profile(WithoutPassword(owner), FollowersCount(edges, owner.id), FollowingCount(edges, owner.id), following))
  }

  /** A successful follow adds one to the target's followers and to the follower's following. */
  lemma FollowIncrementsCounts(users: seq<User>, edges: Edges, follower: UserId, target: IdParam, lostRace: bool)
    requires !target.Missing?
    ensures var r := CreateUserFollow(users, edges, follower, target, lostRace);
      r.Ok? ==>
        && FollowersCount(r.value, target.id) == FollowersCount(edges, target.id) + 1
        && FollowingCount(r.value, follower) == FollowingCount(edges, follower) + 1
  {
    var r := CreateUserFollow(users, edges, follower, target, lostRace);
    if r.Ok? {
      var e := Edge(follower, target.id);
      FilterAppend(edges, [e], (x: Edge) => x.following == target.id);
      FilterAppend(edges, [e], (x: Edge) => x.follower == follower);
    }
  }

  /** A successful unfollow takes one from each count. */
  lemma UnfollowDecrementsCounts(edges: Edges, follower: UserId, target: IdParam)
    requires !target.Missing?
    ensures var r := RemoveUserFollow(edges, follower, target);
      r.Ok? ==>
        && FollowersCount(r.value, target.id) + 1 == FollowersCount(edges, target.id)
        && FollowingCount(r.value, follower) + 1 == FollowingCount(edges, follower)
  {
    var r := RemoveUserFollow(edges, follower, target);
    if r.Ok? {
      var e := Edge(follower, target.id);
      FilterDropsOne(edges, r.value, e, (x: Edge) => x.following == target.id);
      FilterDropsOne(edges, r.value, e, (x: Edge) => x.follower == follower);
    }
  }

  /**
   * `findUser`, as written: the same profile as `fetchUserByUsername` except that
   * `isFollowing` is the negation of the edge's existence for a signed-in viewer who is not
   * the owner.
   */
  function FindUser(users: seq<User>, edges: Edges, username: string, viewer: Option<UserId>)
    : (reply: Reply<Profile>)
    ensures FindByUsername(users, username).None? ==> reply == Send(404, Msg("User not found"))
    ensures FindByUsername(users, username).Some? ==>
      var owner := FindByUsername(users, username).value;
      && reply.Send? && reply.status == 200 && reply.body.Json?
      && reply.body.value.account == WithoutPassword(owner)
      && reply.body.value.followersCount == FollowersCount(edges, owner.id)
      && reply.body.value.followingCount == FollowingCount(edges, owner.id)
      && (reply.body.value.isFollowing <==> viewer.Some? && viewer.value != owner.id && Edge(viewer.value, owner.id) !in edges)
  {
    match FindByUsername(users, username)
    case None => Reject(UserNotFound)
    case Some(owner) =>
      var flag := viewer.Some? && viewer.value != owner.id && Edge(viewer.value, owner.id) !in edges;
      Send(200, Json(Profile(WithoutPassword(owner), FollowersCount(edges, owner.id), FollowingCount(edges, owner.id), flag)))
  }

  /**
   * For a signed-in viewer looking at someone else, the handler as written reports the
   * opposite of the service: "following" exactly when there is no edge.
   */
  lemma FindUserInvertsFollowState(users: seq<User>, edges: Edges, username: string, viewer: UserId)
    requires FindByUsername(users, username).Some? && FindByUsername(users, username).value.id != viewer
    ensures FindUser(users, edges, username, Some(viewer)).body.value.isFollowing
         == !FetchUserByUsername(users, edges, username, Some(viewer)).value.isFollowing
  {
  }

  /**
   * The concrete case the profile test describes: `ala` follows `bob`, yet the handler as
   * written tells `ala` that they do not follow `bob`, and would tell them they do once they
   * unfollow.
   */
  lemma FindUserCounterexample()
    ensures var users := [NewUser(1, "ala", "ala@x.pl", "hash-ala"), NewUser(2, "bob", "bob@x.pl", "hash-bob")];
      && !FindUser(users, [Edge(1, 2)], "bob", Some(1)).body.value.isFollowing
      && FindUser(users, [], "bob", Some(1)).body.value.isFollowing
  {
    var users := [NewUser(1, "ala", "ala@x.pl", "hash-ala"), NewUser(2, "bob", "bob@x.pl", "hash-bob")];
    assert FindByUsername(users, "bob").value == users[1];
  }

  /** `findUser` as evidently intended: the service's profile, sent with 200 or 404. */
  function FindUserCorrected(users: seq<User>, edges: Edges, username: string, viewer: Option<UserId>)
    : (reply: Reply<Profile>)
    ensures FindByUsername(users, username).None? ==> reply == Send(404, Msg("User not found"))
    ensures FindByUsername(users, username).Some? ==>
      var owner := FindByUsername(users, username).value;
      && reply.Send? && reply.status == 200 && reply.body.Json?
      && reply.body.value.account == WithoutPassword(owner)
      && reply.body.value.followersCount == FollowersCount(edges, owner.id)
      && reply.body.value.followingCount == FollowingCount(edges, owner.id)
      && (reply.body.value.isFollowing <==> viewer.Some? && viewer.value != owner.id && Edge(viewer.value, owner.id) in edges)
  {
    Respond(FetchUserByUsername(users, edges, username, viewer), 200)
  }

  /** With the corrected handler, following a user makes their profile say so, and unfollowing undoes it. */
  lemma ProfileTracksFollow(users: seq<User>, edges: Edges, viewer: UserId, username: string, lostRace: bool)
    requires ValidGraph(edges)
    requires FindByUsername(users, username).Some? && FindByUsername(users, username).value.id != viewer
    ensures var owner := FindByUsername(users, username).value;
      var followed := CreateUserFollow(users, edges, viewer, Valid(owner.id), lostRace);
      followed.Ok? ==>
        && FindUserCorrected(users, followed.value, username, Some(viewer)).body.value.isFollowing
        && var unfollowed := RemoveUserFollow(followed.value, viewer, Valid(owner.id));
           unfollowed.Ok? && !FindUserCorrected(users, unfollowed.value, username, Some(viewer)).body.value.isFollowing
  {
    var owner := FindByUsername(users, username).value;
    var followed := CreateUserFollow(users, edges, viewer, Valid(owner.id), lostRace);
    if followed.Ok? {
      FollowKeepsGraphValid(users, edges, viewer, Valid(owner.id), lostRace);
      var unfollowed := RemoveUserFollow(followed.value, viewer, Valid(owner.id));
      NoDuplicatesCount(followed.value, Edge(viewer, owner.id));
      assert multiset(unfollowed.value)[Edge(viewer, owner.id)] == 0;
    }
  }

  /** The users whose username the trimmed query matches, as a case-insensitive pattern (`matches`). */
  function SearchHits(users: seq<User>, query: string, matches: (string, string) -> bool): seq<User>
  {
    Filter(users, (u: User) => matches(Trim(query), u.username))
  }

  /**
   * `searchUsersByUsername`: a blank query finds nobody; otherwise the cards of the first five
   * matching users.
   */
  function SearchUsers(users: seq<User>, query: string, matches: (string, string) -> bool)
    : (r: seq<UserCard>)
    ensures AllSpace(query) ==> r == []
    ensures |r| <= SearchLimit
    ensures forall i :: 0 <= i < |r| ==>
      exists u :: u in users && r[i] == CardOf(u) && matches(Trim(query), u.username)
    ensures !AllSpace(query) ==>
      var hits := SearchHits(users, query, matches);
      && |r| == (if |hits| <= SearchLimit then |hits| else SearchLimit)
      && forall i :: 0 <= i < |r| ==> r[i] == CardOf(hits[i])
  {
    BlankIffAllSpace(query);
    if query == "" || Trim(query) == "" then []
    else
      var hits := SearchHits(users, query, matches);
      var shown := hits[..if |hits| <= SearchLimit then |hits| else SearchLimit];
      PrefixInside(hits, |shown|);
      Map(shown, CardOf)
  }

  /** When at most five users match, the search shows every one of them, in store order. */
  lemma SearchShowsAllWhenFew(users: seq<User>, query: string, matches: (string, string) -> bool)
    requires !AllSpace(query)
    requires |SearchHits(users, query, matches)| <= SearchLimit
    ensures SearchUsers(users, query, matches) == Map(SearchHits(users, query, matches), CardOf)
    ensures forall u :: u in SearchHits(users, query, matches) ==> CardOf(u) in SearchUsers(users, query, matches)
  {
    BlankIffAllSpace(query);
    var hits := SearchHits(users, query, matches);
    assert query != "" && Trim(query) != "";
    assert hits[..|hits|] == hits;
    var r := SearchUsers(users, query, matches);
    assert r == Map(hits, CardOf);
    forall u | u in hits ensures CardOf(u) in r {
      var i :| 0 <= i < |hits| && hits[i] == u;
      assert r[i] == CardOf(u);
    }
  }

  /** When more than five users match, the search shows the first five of them, in store order. */
  lemma SearchShowsFirstFive(users: seq<User>, query: string, matches: (string, string) -> bool)
    requires !AllSpace(query)
    requires |SearchHits(users, query, matches)| > SearchLimit
    ensures SearchUsers(users, query, matches) == Map(SearchHits(users, query, matches)[..SearchLimit], CardOf)
    ensures forall u :: u in SearchHits(users, query, matches)[..SearchLimit] ==> CardOf(u) in SearchUsers(users, query, matches)
  {
    var hits := SearchHits(users, query, matches);
    var r := SearchUsers(users, query, matches);
    forall u | u in hits[..SearchLimit] ensures CardOf(u) in r {
      var i :| 0 <= i < SearchLimit && hits[..SearchLimit][i] == u;
      assert r[i] == CardOf(u);
    }
  }

  /** `searchUser`: always 200, with the search result. */
  function SearchUser(users: seq<User>, query: string, matches: (string, string) -> bool)
    : (reply: Reply<seq<UserCard>>)
    ensures reply == Send(200, Json(SearchUsers(users, query, matches)))
    ensures AllSpace(query) ==> reply == Send(200, Json([]))
    ensures |reply.body.value| <= SearchLimit
  {
    Send(200, Json(SearchUsers(users, query, matches)))
  }
}
