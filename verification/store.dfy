/** The two MongoDB collections the routes read and write, as sequences in
    natural (insertion) order, plus the lookups the routes perform on them.
    `findOne` and `findById` without a sort return the first document in
    natural order, which is what the lookups here return. */
module Store {
  import opened Wrappers
  import opened Crypto

  type PostId = nat

  /** A user document: `_id`, `username`, bcrypt `password`, and `role`
      (a free string in the database; the routes compare it to "admin"). */
  datatype User = User(id: UserId, username: string, password: Digest, role: string)

  /** A post document. */
  datatype Post = Post(
    id: PostId,
    title: string,
    body: string,
    category: string,
    image: string,
    createdAt: int,
    updatedAt: int)

  const AdminRole: string := "admin"
  const UserRole: string := "user"

  /** `User.findOne({ username })`: the first user whose username is exactly `name`. */
  function FindByUsername(users: seq<User>, name: string): (r: Option<User>)
    ensures r.None? <==> forall i :: 0 <= i < |users| ==> users[i].username != name
    ensures r.Some? ==> r.value in users && r.value.username == name
  {
    if |users| == 0 then None
    else if users[0].username == name then Some(users[0])
    else FindByUsername(users[1..], name)
  }

  /** `User.findById(id)`: the first user whose `_id` is `id`; an undefined id finds nothing. */
  function FindById(users: seq<User>, id: Option<UserId>): (r: Option<User>)
    ensures r.None? <==> id.None? || forall i :: 0 <= i < |users| ==> users[i].id != id.value
    ensures r.Some? ==> r.value in users && r.value.id == id.value
  {
    if id.None? || |users| == 0 then None
    else if users[0].id == id.value then Some(users[0])
    else FindById(users[1..], id)
  }

  /** Ids are unique: MongoDB's `_id` index guarantees it. */
  predicate UniqueIds(users: seq<User>) {
    forall i, j :: 0 <= i < j < |users| ==> users[i].id != users[j].id
  }

  /** Ids are unique and so are usernames. The register and update-username
      routes check the name before writing; an imported user is not checked. */
  predicate WellFormed(users: seq<User>) {
    forall i, j :: 0 <= i < j < |users| ==>
      users[i].id != users[j].id && users[i].username != users[j].username
  }

  /** With unique ids, `findById` finds the one user with that id. */
  lemma {:induction false} FindByIdUnique(users: seq<User>, u: User)
    requires UniqueIds(users)
    requires u in users
    ensures FindById(users, Some(u.id)) == Some(u)
  {
    if users[0] != u {
      assert u in users[1..];
      FindByIdUnique(users[1..], u);
    }
  }

  /** In a well-formed store, `findOne({ username })` finds the one user with that name. */
  lemma {:induction false} FindByUsernameUnique(users: seq<User>, u: User)
    requires WellFormed(users)
    requires u in users
    ensures FindByUsername(users, u.username) == Some(u)
  {
    if users[0] != u {
      assert u in users[1..];
      FindByUsernameUnique(users[1..], u);
    }
  }

  /** Appending a user whose id is new makes `findById` find that user. */
  lemma {:induction false} FindByIdAppend(users: seq<User>, u: User)
    requires forall i :: 0 <= i < |users| ==> users[i].id != u.id
    ensures FindById(users + [u], Some(u.id)) == Some(u)
  {
    if |users| > 0 {
      assert (users + [u])[1..] == users[1..] + [u];
      FindByIdAppend(users[1..], u);
    }
  }

  /** The ids of the users holding the admin role. */
  function Admins(users: seq<User>): set<UserId> {
    set i | 0 <= i < |users| && users[i].role == AdminRole :: users[i].id
  }
}
