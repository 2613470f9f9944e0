/** The decision rules of `server/routes/admin.js`: the JWT gate, login,
    the dashboard's role check, registration, the image choice of post
    editing and the username change. Each handler becomes a function from
    the request's inputs and the current store to the reply and the new store. */
module AdminRoutes {
  import opened Wrappers
  import opened Crypto
  import opened Store
  import opened Http
  import opened Text

  // ------------------------------------------------------- authMiddleware

  /** The gate's verdict: reject with a response, or let the handler run
      with `req.userId` set to the token's `userId` claim. */
  datatype Gate = Reject(response: Response) | Proceed(userId: Option<UserId>)

  /** `authMiddleware`: a missing `token` cookie, or one `jwt.verify` throws
      on, is answered 401; otherwise the decoded `userId` is passed on. The
      role is not looked at. */
  function Guard(secret: string, cookie: Option<Token>): (g: Gate)
    ensures cookie.None? ==> g == Reject(Unauthorized)
    ensures g.Reject? ==> g.response == Unauthorized
    ensures g.Proceed? <==> cookie.Some? && Verify(secret, cookie.value).Some?
    ensures g.Proceed? ==> g.userId == cookie.value.claims.userId
  {
    match cookie
    case None => Reject(Unauthorized)
    case Some(t) =>
      match Verify(secret, t)
      case None => Reject(Unauthorized)
      case Some(claims) => Proceed(claims.userId)
  }

  /** The gate lets a request through as user `uid` exactly when it carries
      the token signed for `uid` with the server's secret. */
  lemma GuardAcceptsExactlySigned(secret: string, cookie: Option<Token>, uid: UserId)
    ensures Guard(secret, cookie) == Proceed(Some(uid)) <==> cookie == Some(Sign(secret, uid))
  {
    if cookie.Some? {
      VerifyOnlySigned(secret, cookie.value, uid);
    }
  }

  // ----------------------------------------------------------- POST /admin

  /** POST `/admin` (the first handler; the second one registered for the same
      path is never reached). The user is looked up by exact username before
      the password is checked; on success the token carries the id and not the role, and
      the redirect depends on the role. */
  function Login(users: seq<User>, secret: string, username: string, password: string): (r: Reply)
    ensures r.cookie.Some? <==> r.session.Some?
    ensures r.session.None? ==> r.response == Redirect("/admin") && r.flash.Some?
    ensures (forall i :: 0 <= i < |users| ==> users[i].username != username) ==>
      r == Reply(Redirect("/admin"), Some("Username salah"), None, None)
    ensures r.session.Some? ==>
      var u := r.session.value;
      u in users && u.username == username && PasswordOk(password, u.password) &&
      r.flash.None? && r.cookie == Some(Sign(secret, u.id)) &&
      r.response == Redirect(if u.role == AdminRole then "/dashboard" else "/")
  {
    match FindByUsername(users, username)
    case None => Reply(Redirect("/admin"), Some("Username salah"), None, None)
    case Some(u) =>
      if !PasswordOk(password, u.password) then
        Reply(Redirect("/admin"), Some("password salah"), None, None)
      else
        var home := if u.role == AdminRole then "/dashboard" else "/";
        Reply(Redirect(home), None, Some(Sign(secret, u.id)), Some(u))
  }

  /** An existing user with the wrong password is sent back with
      "password salah" and gets neither cookie nor session. */
  lemma LoginWrongPassword(users: seq<User>, secret: string, u: User, password: string)
    requires WellFormed(users) && u in users
    requires !PasswordOk(password, u.password)
    ensures Login(users, secret, u.username, password) ==
      Reply(Redirect("/admin"), Some("password salah"), None, None)
  {
    FindByUsernameUnique(users, u);
  }

  /** Login succeeds exactly for a stored username with its password, and the
      token it issues passes the gate as that user's id, which resolves back
      to the same user. */
  lemma LoginSucceedsIff(users: seq<User>, secret: string, u: User, password: string)
    requires WellFormed(users) && u in users
    ensures Login(users, secret, u.username, password).session.Some? <==> PasswordOk(password, u.password)
    ensures PasswordOk(password, u.password) ==>
      var r := Login(users, secret, u.username, password);
      r.session == Some(u) &&
      Guard(secret, r.cookie) == Proceed(Some(u.id)) &&
      FindById(users, Some(u.id)) == Some(u)
  {
    FindByUsernameUnique(users, u);
    FindByIdUnique(users, u);
    SignVerify(secret, u.id);
  }

  // ------------------------------------------------------- GET /dashboard

  /** The dashboard handler after the gate: the user is re-read from the
      store by id and must hold the admin role; otherwise 403, and the posts
      are not part of the answer. */
  function Dashboard(users: seq<User>, posts: seq<Post>, userId: Option<UserId>): (r: Response)
    ensures r == Forbidden || r.Render?
    ensures r.Render? ==>
      r.view == "admin/dashboard" && r.posts == posts && r.user.Some? &&
      r.user.value in users && userId == Some(r.user.value.id) && r.user.value.role == AdminRole
    ensures (userId.None? || forall i :: 0 <= i < |users| ==> users[i].id != userId.value) ==> r == Forbidden
  {
    match FindById(users, userId)
    case None => Forbidden
    case Some(u) =>
      if u.role != AdminRole then Forbidden
      else Render("admin/dashboard", Some(u), posts)
  }

  /** GET `/dashboard`: the gate, then the role check. */
  function DashboardRoute(secret: string, cookie: Option<Token>, users: seq<User>, posts: seq<Post>): (r: Response)
    ensures Guard(secret, cookie).Reject? ==> r == Unauthorized
    ensures r.Render? ==> r.user.Some? && r.user.value.role == AdminRole
  {
    match Guard(secret, cookie)
    case Reject(resp) => resp
    case Proceed(uid) => Dashboard(users, posts, uid)
  }

  /** The role is read from the store on every request, not from the token:
      the same cookie opens the dashboard exactly while its user is an
      admin, so a role change takes effect on the next request. */
  lemma DashboardFollowsCurrentRole(secret: string, users: seq<User>, posts: seq<Post>, u: User)
    requires UniqueIds(users) && u in users
    ensures DashboardRoute(secret, Some(Sign(secret, u.id)), users, posts).Render? <==> u.role == AdminRole
    ensures u.role != AdminRole ==> DashboardRoute(secret, Some(Sign(secret, u.id)), users, posts) == Forbidden
  {
    FindByIdUnique(users, u);
    SignVerify(secret, u.id);
  }

  // -------------------------------------------------------- POST /register

  /** A reply together with the user collection after the request. */
  datatype Outcome = Outcome(reply: Reply, users: seq<User>)

  /** POST `/register`. A taken username (exact match) is sent back to the
      form. Otherwise one user is created with role "user" and the hashed
      password, and gets a session and a token for its id. `newId` is the id
      the database assigns and `salt` bcrypt's random salt; if the id
      collides, `User.create` fails and the answer is 500. */
  function Register(users: seq<User>, secret: string, newId: UserId, salt: nat, username: string, password: string): (o: Outcome)
    ensures (exists i :: 0 <= i < |users| && users[i].username == username) ==>
      o == Outcome(Reply(Redirect("register"), Some("Username telah dipakai"), None, None), users)
    ensures o.users != users <==>
      forall i :: 0 <= i < |users| ==> users[i].username != username && users[i].id != newId
    ensures o.users == users ==> o.reply.cookie.None? && o.reply.session.None?
    ensures o.users != users ==>
      |o.users| == |users| + 1 && o.users[..|users|] == users &&
      var u := o.users[|users|];
      u.id == newId && u.username == username && u.role == UserRole &&
      PasswordOk(password, u.password) &&
      o.reply == Reply(Redirect("/admin"), None, Some(Sign(secret, newId)), Some(u))
    ensures WellFormed(users) ==> WellFormed(o.users)
  {
    var hashed := Hash(password, salt);
    match FindByUsername(users, username)
    case Some(_) =>
      Outcome(Reply(Redirect("register"), Some("Username telah dipakai"), None, None), users)
    case None =>
      if FindById(users, Some(newId)).Some? then
        Outcome(Plain(InternalError), users)
      else
        var u := User(newId, username, hashed, UserRole);
        assert (users + [u])[..|users|] == users;
        assert |users + [u]| != |users|;
        Outcome(Reply(Redirect("/admin"), None, Some(Sign(secret, newId)), Some(u)), users + [u])
  }

  /** The token issued at registration passes the gate as the new user's id,
      and that id resolves to the new user. */
  lemma RegisterTokenResolves(users: seq<User>, secret: string, newId: UserId, salt: nat, username: string, password: string)
    requires forall i :: 0 <= i < |users| ==> users[i].username != username && users[i].id != newId
    ensures
      var o := Register(users, secret, newId, salt, username, password);
      o.reply.session.Some? &&
      Guard(secret, o.reply.cookie) == Proceed(Some(newId)) &&
      FindById(o.users, Some(newId)) == o.reply.session
  {
    var o := Register(users, secret, newId, salt, username, password);
    FindByIdAppend(users, o.users[|users|]);
    assert o.users == users + [o.users[|users|]];
    SignVerify(secret, newId);
  }

  /** Registration does not reserve the name "admin" the way the username
      change does: a fresh "admin" registers, though only with role "user". */
  lemma RegisterAcceptsAdminName(users: seq<User>, secret: string, newId: UserId, salt: nat, password: string)
    requires forall i :: 0 <= i < |users| ==> users[i].username != "admin" && users[i].id != newId
    ensures
      var o := Register(users, secret, newId, salt, "admin", password);
      o.users != users && o.users[|users|].role == UserRole
  {
  }

  // ---------------------------------------------------- PUT /edit-post/:id

  /** The fields of the edit form. `oldImage` is the post's current image
      file name, sent back by the form. */
  datatype EditForm = EditForm(title: string, body: string, category: string, oldImage: string)

  /** The `:id` path parameter: an ObjectId, or a string that is not one
      (which makes `findByIdAndUpdate` throw a cast error). */
  datatype PostRef = ObjectId(id: PostId) | NotObjectId(raw: string)

  /** The reply, the post collection after the request, and the file name
      whose removal from the upload directory was attempted, if any. The
      attempt's own failure is caught and only logged, so it may remove nothing. */
  datatype EditOutcome = EditOutcome(response: Response, posts: seq<Post>, unlinkAttempt: Option<string>)

  /** The edit handler after the gate. `upload` is the file name multer gave
      a newly uploaded image; `now` is `Date.now()`. With an upload the new
      file replaces the image and removing the old file is attempted; without
      one the image stays `oldImage`. The attempt comes before the update, so
      it is made even when the id is not an ObjectId; the update then throws
      and the reply is the JSON error, with no post changed. An ObjectId that
      is not in the collection changes nothing, and the answer is the same
      redirect. */
  function EditPost(posts: seq<Post>, ref: PostRef, form: EditForm, upload: Option<string>, now: int): (o: EditOutcome)
    ensures o.unlinkAttempt.Some? <==> upload.Some?
    ensures o.unlinkAttempt.Some? ==> o.unlinkAttempt.value == form.oldImage
    ensures ref.NotObjectId? ==> o.response == Danger(ref.raw) && o.posts == posts
    ensures ref.ObjectId? ==> o.response == Redirect("/dashboard")
    ensures |o.posts| == |posts|
    ensures forall i :: 0 <= i < |posts| && (ref.NotObjectId? || posts[i].id != ref.id) ==> o.posts[i] == posts[i]
    ensures ref.ObjectId? ==> forall i :: 0 <= i < |posts| && posts[i].id == ref.id ==>
      o.posts[i].id == ref.id && o.posts[i].createdAt == posts[i].createdAt &&
      o.posts[i].title == form.title && o.posts[i].body == form.body &&
      o.posts[i].category == form.category && o.posts[i].updatedAt == now
    ensures ref.ObjectId? ==> forall i :: 0 <= i < |posts| && posts[i].id == ref.id ==>
      (upload.Some? ==> o.posts[i].image == upload.value) &&
      (upload.None? ==> o.posts[i].image == form.oldImage)
  {
    var attempt := if upload.Some? then Some(form.oldImage) else None;
    match ref
    case NotObjectId(raw) => EditOutcome(Danger(raw), posts, attempt)
    case ObjectId(id) =>
      var image := upload.GetOr(form.oldImage);
      var updated := seq(|posts|, i requires 0 <= i < |posts| =>
        if posts[i].id == id then
          posts[i].(title := form.title, image := image, body := form.body,
                    category := form.category, updatedAt := now)
        else posts[i]);
      EditOutcome(Redirect("/dashboard"), updated, attempt)
  }

  /** Submitting the same edit twice leaves the posts as submitting it once. */
  lemma EditPostIdempotent(posts: seq<Post>, ref: PostRef, form: EditForm, upload: Option<string>, now: int)
    ensures
      var once := EditPost(posts, ref, form, upload, now).posts;
      EditPost(once, ref, form, upload, now).posts == once
  {
    var once := EditPost(posts, ref, form, upload, now).posts;
    var twice := EditPost(once, ref, form, upload, now).posts;
    forall i | 0 <= i < |posts| ensures twice[i] == once[i] {
      if ref.ObjectId? && posts[i].id == ref.id {
        assert once[i].id == ref.id;
      }
    }
  }

  /** PUT `/edit-post/:id`: the gate, then the edit. */
  function EditPostRoute(secret: string, cookie: Option<Token>, posts: seq<Post>, ref: PostRef,
                         form: EditForm, upload: Option<string>, now: int): (o: EditOutcome)
    ensures Guard(secret, cookie).Reject? ==> o == EditOutcome(Unauthorized, posts, None)
    ensures Guard(secret, cookie).Proceed? && ref.ObjectId? ==> o.response == Redirect("/dashboard")
    ensures Guard(secret, cookie).Proceed? && ref.NotObjectId? ==> o.response == Danger(ref.raw) && o.posts == posts
  {
    match Guard(secret, cookie)
    case Reject(resp) => EditOutcome(resp, posts, None)
    case Proceed(_) => EditPost(posts, ref, form, upload, now)
  }

  /** The edit route checks authentication only: a token signed for any id,
      whatever that user's role, or even for an id no user has, gets the edit
      done. */
  lemma EditPostIgnoresRole(secret: string, uid: UserId, posts: seq<Post>, ref: PostRef,
                            form: EditForm, upload: Option<string>, now: int)
    ensures EditPostRoute(secret, Some(Sign(secret, uid)), posts, ref, form, upload, now) ==
      EditPost(posts, ref, form, upload, now)
  {
    SignVerify(secret, uid);
  }

  // ------------------------------------------------- POST /update-username

  const UserNotFound: Response := Json(404, "User not found")
  const AdminCannotRename: Response := Json(403, "Admin tidak dapat mengedit username.")
  const ReservedName: Response := Json(403, "Username tidak boleh \"admin\".")
  const NameTaken: Response := Json(409, "Username sudah digunakan, silakan pilih username lain.")

  /** `user.username = newUsername; await user.save()`. */
  function Rename(users: seq<User>, id: UserId, name: string): seq<User> {
    seq(|users|, i requires 0 <= i < |users| =>
      if users[i].id == id then users[i].(username := name) else users[i])
  }

  /** Renaming a stored user to a name nobody has changes the collection. */
  lemma RenameChanges(users: seq<User>, u: User, n: string)
    requires u in users && forall i :: 0 <= i < |users| ==> users[i].username != n
    ensures Rename(users, u.id, n) != users
  {
    var k :| 0 <= k < |users| && users[k] == u;
    assert Rename(users, u.id, n)[k].username == n;
  }

  /** A username change keeps ids and usernames unique. */
  lemma UpdateUsernameKeepsWellFormed(users: seq<User>, userId: Option<UserId>, session: Option<User>, newUsername: Option<string>)
    requires WellFormed(users)
    ensures WellFormed(UpdateUsername(users, userId, session, newUsername).users)
  {
    var o := UpdateUsername(users, userId, session, newUsername);
    if o.users != users {
      forall i, j | 0 <= i < j < |users|
        ensures o.users[i].id != o.users[j].id && o.users[i].username != o.users[j].username
      {
        assert users[i].id != users[j].id;
      }
    }
  }

  /** The update-username handler after the gate. The checks run in order:
      no such user (404), the user is an admin (403), the new name is some
      spelling of "admin" (403), the new name is taken by anyone, the caller
      included (409). A missing `newUsername` makes `toLowerCase` throw (500).
      Only the user's username changes. The save happens before the session
      copy is updated; without a session user that update throws, so the
      answer is 500 although the new name is stored. */
  function UpdateUsername(users: seq<User>, userId: Option<UserId>, session: Option<User>, newUsername: Option<string>): (o: Outcome)
    ensures |o.users| == |users|
    ensures forall i :: 0 <= i < |users| ==>
      o.users[i].id == users[i].id && o.users[i].role == users[i].role &&
      o.users[i].password == users[i].password
    ensures (userId.None? || forall i :: 0 <= i < |users| ==> users[i].id != userId.value) ==>
      o == Outcome(Plain(UserNotFound), users)
    ensures o.users != users ==>
      userId.Some? && newUsername.Some? && Lower(newUsername.value) != "admin" &&
      (exists i :: 0 <= i < |users| && users[i].id == userId.value && users[i].role != AdminRole) &&
      (forall i :: 0 <= i < |users| ==> users[i].username != newUsername.value) &&
      (forall i :: 0 <= i < |users| ==>
        o.users[i].username == if users[i].id == userId.value then newUsername.value else users[i].username)
    ensures o.reply.response == Redirect("/profile") ==>
      o.users != users && session.Some? && o.reply.session == Some(session.value.(username := newUsername.value))
    ensures o.reply.cookie.None? && o.reply.flash.None?
  {
    match FindById(users, userId)
    case None => Outcome(Plain(UserNotFound), users)
    case Some(u) =>
      if u.role == AdminRole then Outcome(Plain(AdminCannotRename), users)
      else
        match newUsername
        case None => Outcome(Plain(InternalError), users)
        case Some(n) =>
          if Lower(n) == "admin" then Outcome(Plain(ReservedName), users)
          else if FindByUsername(users, n).Some? then Outcome(Plain(NameTaken), users)
          else
            var renamed := Rename(users, u.id, n);
            RenameChanges(users, u, n);
            match session
            case None => Outcome(Plain(InternalError), renamed)
            case Some(su) =>
              Outcome(Reply(Redirect("/profile"), None, None, Some(su.(username := n))), renamed)
  }

  /** POST `/update-username`: the gate, then the handler. */
  function UpdateUsernameRoute(secret: string, cookie: Option<Token>, users: seq<User>,
                               session: Option<User>, newUsername: Option<string>): (o: Outcome)
    ensures Guard(secret, cookie).Reject? ==> o == Outcome(Plain(Unauthorized), users)
    ensures o.users != users ==> Guard(secret, cookie).Proceed?
  {
    match Guard(secret, cookie)
    case Reject(resp) => Outcome(Plain(resp), users)
    case Proceed(uid) => UpdateUsername(users, uid, session, newUsername)
  }

  /** An admin may not rename, whatever the new name (even a missing one). */
  lemma AdminCannotRenameAnyName(users: seq<User>, u: User, session: Option<User>, newUsername: Option<string>)
    requires UniqueIds(users) && u in users && u.role == AdminRole
    ensures UpdateUsername(users, Some(u.id), session, newUsername) == Outcome(Plain(AdminCannotRename), users)
  {
    FindByIdUnique(users, u);
  }

  /** A non-admin asking for any spelling of "admin" is refused as reserved,
      before the store is searched for the name. */
  lemma ReservedNameRefused(users: seq<User>, u: User, session: Option<User>, n: string)
    requires UniqueIds(users) && u in users && u.role != AdminRole
    requires |n| == 5
    requires (n[0] == 'a' || n[0] == 'A') && (n[1] == 'd' || n[1] == 'D') && (n[2] == 'm' || n[2] == 'M') &&
             (n[3] == 'i' || n[3] == 'I') && (n[4] == 'n' || n[4] == 'N')
    ensures UpdateUsername(users, Some(u.id), session, Some(n)) == Outcome(Plain(ReservedName), users)
  {
    FindByIdUnique(users, u);
    ReservedSpellings(n);
  }

  /** A non-admin asking for a name some user already has, their own
      current name included, gets 409 and nothing changes. */
  lemma TakenNameRefused(users: seq<User>, u: User, v: User, session: Option<User>)
    requires UniqueIds(users) && u in users && v in users && u.role != AdminRole
    requires Lower(v.username) != "admin"
    ensures UpdateUsername(users, Some(u.id), session, Some(v.username)) == Outcome(Plain(NameTaken), users)
  {
    FindByIdUnique(users, u);
  }

  /** When every check passes, exactly the caller's username changes, the
      session copy follows, and the reply redirects to the profile. */
  lemma RenameSucceeds(users: seq<User>, u: User, su: User, n: string)
    requires UniqueIds(users) && u in users && u.role != AdminRole
    requires Lower(n) != "admin"
    requires forall i :: 0 <= i < |users| ==> users[i].username != n
    ensures
      var o := UpdateUsername(users, Some(u.id), Some(su), Some(n));
      o.reply == Reply(Redirect("/profile"), None, None, Some(su.(username := n))) &&
      |o.users| == |users| &&
      forall i :: 0 <= i < |users| ==>
        o.users[i] == if users[i] == u then u.(username := n) else users[i]
  {
    FindByIdUnique(users, u);
  }

  /** Without a session user the rename is still stored, but the answer is 500. */
  lemma RenameWithoutSessionStored(users: seq<User>, u: User, n: string)
    requires UniqueIds(users) && u in users && u.role != AdminRole
    requires Lower(n) != "admin"
    requires forall i :: 0 <= i < |users| ==> users[i].username != n
    ensures
      var o := UpdateUsername(users, Some(u.id), None, Some(n));
      o.reply.response == InternalError && o.users != users
  {
    FindByIdUnique(users, u);
  }

  // ------------------------------------------------------------ invariants

  /** Registration promotes no one: the set of admins is exactly as it was. */
  lemma RegisterKeepsAdmins(users: seq<User>, secret: string, newId: UserId, salt: nat,
                            username: string, password: string)
    ensures Admins(Register(users, secret, newId, salt, username, password).users) == Admins(users)
  {
    var r := Register(users, secret, newId, salt, username, password).users;
    if r != users {
      forall x | x in Admins(r) ensures x in Admins(users) {
        var i :| 0 <= i < |r| && r[i].role == AdminRole && r[i].id == x;
        assert i < |users| && r[i] == users[i];
      }
      forall x | x in Admins(users) ensures x in Admins(r) {
        var i :| 0 <= i < |users| && users[i].role == AdminRole && users[i].id == x;
        assert r[i] == users[i];
      }
    }
  }

  /** A username change promotes and demotes no one. */
  lemma UpdateUsernameKeepsAdmins(users: seq<User>, userId: Option<UserId>, session: Option<User>,
                                  newUsername: Option<string>)
    ensures Admins(UpdateUsername(users, userId, session, newUsername).users) == Admins(users)
  {
    var v := UpdateUsername(users, userId, session, newUsername).users;
    forall x | x in Admins(v) ensures x in Admins(users) {
      var i :| 0 <= i < |v| && v[i].role == AdminRole && v[i].id == x;
      assert users[i].role == AdminRole && users[i].id == x;
    }
    forall x | x in Admins(users) ensures x in Admins(v) {
      var i :| 0 <= i < |users| && users[i].role == AdminRole && users[i].id == x;
      assert v[i].role == AdminRole && v[i].id == x;
    }
  }
}
