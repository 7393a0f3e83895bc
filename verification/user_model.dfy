/** The User document: its fields, defaults, projections and the store-wide uniqueness rules. */
module UserModel {
  import opened Wrappers
  import opened Ids

  const DefaultProfilePic: string := ""
  const DefaultBio: string := "I love Ziutki Gym"
  const DefaultRole: string := "user"
  const AdminRole: string := "admin"
  const MinPasswordLength: nat := 6

  /** A stored user. `password` holds the bcrypt hash; `role` is free text. */
  datatype User = User(
    id: UserId,
    email: string,
    password: string,
    username: string,
    profilePic: string,
    bio: string,
    role: string)

  /** A user as returned with `select('-password')`. */
  datatype Account = Account(id: UserId, email: string, username: string, profilePic: string, bio: string, role: string)

  /** The body of a successful signup or login: `{ _id, username, email, profilePic, bio }`. */
  datatype SessionUser = SessionUser(id: UserId, username: string, email: string, profilePic: string, bio: string)

  /** A user as attached by `populate(..., "username profilePic")`. */
  datatype UserCard = UserCard(id: UserId, username: string, profilePic: string)

  function WithoutPassword(u: User): (a: Account)
    ensures a.id == u.id && a.email == u.email && a.username == u.username
    ensures a.profilePic == u.profilePic && a.bio == u.bio && a.role == u.role
  {
    Account(u.id, u.email, u.username, u.profilePic, u.bio, u.role)
  }

  function SessionOf(u: User): SessionUser
  {
    SessionUser(u.id, u.username, u.email, u.profilePic, u.bio)
  }

  function CardOf(u: User): UserCard
  {
    UserCard(u.id, u.username, u.profilePic)
  }

  /** A new document: the schema's defaults fill every field the caller does not give. */
  function NewUser(id: UserId, username: string, email: string, password: string): (u: User)
    ensures u.profilePic == "" && u.bio == "I love Ziutki Gym" && u.role == "user"
    ensures u.id == id && u.username == username && u.email == email && u.password == password
  {
    User(id, email, password, username, DefaultProfilePic, DefaultBio, DefaultRole)
  }

  predicate IsAdmin(u: User)
  {
    u.role == AdminRole
  }

  /** The unique indexes on `_id`, `email` and `username`. */
  predicate UniqueKeys(users: seq<User>)
  {
    forall i, j :: 0 <= i < j < |users| ==>
      users[i].id != users[j].id && users[i].email != users[j].email && users[i].username != users[j].username
  }

  /** Two different positions of a store with unique keys hold different ids, emails and usernames. */
  lemma DistinctKeys(users: seq<User>, i: nat, j: nat)
    requires UniqueKeys(users)
    requires i < |users| && j < |users|
    ensures i != j ==> users[i].id != users[j].id && users[i].email != users[j].email && users[i].username != users[j].username
  {
  }

  /** Replacing a user by a document with the same id and email and a username no one else holds keeps the keys unique. */
  lemma ReplaceKeepsKeysUnique(users: seq<User>, m: nat, u: User)
    requires UniqueKeys(users)
    requires m < |users| && u.id == users[m].id && u.email == users[m].email
    requires forall o :: 0 <= o < |users| && o != m ==> users[o].username != u.username
    ensures UniqueKeys(Replace(users, u))
  {
    var s := Replace(users, u);
    forall i, j | 0 <= i < j < |s|
      ensures s[i].id != s[j].id && s[i].email != s[j].email && s[i].username != s[j].username
    {
      DistinctKeys(users, i, j);
      DistinctKeys(users, i, m);
      DistinctKeys(users, j, m);
    }
  }

  /** The schema's `required` and `minlength` rules, as checked when a document is created. */
  predicate ValidNewUser(u: User)
  {
    u.email != "" && u.username != "" && |u.password| >= MinPasswordLength
  }

  /** The first user satisfying `p`, as `findOne` returns it in natural order. */
  function FindFirst(users: seq<User>, p: User -> bool): (r: Option<User>)
    ensures r.Some? ==> r.value in users && p(r.value)
    ensures r.None? <==> forall u :: u in users ==> !p(u)
  {
    if |users| == 0 then None
    else if p(users[0]) then Some(users[0])
    else FindFirst(users[1..], p)
  }

  function FindById(users: seq<User>, id: UserId): (r: Option<User>)
    ensures r.Some? ==> r.value in users && r.value.id == id
    ensures r.None? <==> forall u :: u in users ==> u.id != id
  {
    FindFirst(users, (u: User) => u.id == id)
  }

  function FindByEmail(users: seq<User>, email: string): (r: Option<User>)
    ensures r.Some? ==> r.value in users && r.value.email == email
    ensures r.None? <==> forall u :: u in users ==> u.email != email
  {
    FindFirst(users, (u: User) => u.email == email)
  }

  function FindByUsername(users: seq<User>, username: string): (r: Option<User>)
    ensures r.Some? ==> r.value in users && r.value.username == username
    ensures r.None? <==> forall u :: u in users ==> u.username != username
  {
    FindFirst(users, (u: User) => u.username == username)
  }

  /** `populate` of a user reference: the card of the referenced user, `null` once it is gone. */
  function Card(users: seq<User>, id: UserId): (c: Option<UserCard>)
    ensures c.Some? <==> exists u :: u in users && u.id == id
    ensures c.Some? ==> c.value.id == id
  {
    match FindById(users, id)
    case Some(u) => Some(CardOf(u))
    case None => None
  }

  /** An id no stored user has: one more than the largest in use. */
  function FreshId(users: seq<User>): (id: UserId)
    ensures forall u :: u in users ==> u.id < id
  {
    if |users| == 0 then 0
    else
      var rest := FreshId(users[1..]);
      assert forall u :: u in users ==> u == users[0] || u in users[1..];
      if users[0].id < rest then rest else users[0].id + 1
  }

  /** The store with the user whose id is `u.id` replaced by `u`. */
  function Replace(users: seq<User>, u: User): (r: seq<User>)
    ensures |r| == |users|
    ensures forall k :: 0 <= k < |users| ==> r[k] == if users[k].id == u.id then u else users[k]
  {
    if |users| == 0 then [] else [if users[0].id == u.id then u else users[0]] + Replace(users[1..], u)
  }
}
