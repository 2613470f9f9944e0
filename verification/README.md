# Areblog routes: authentication, roles and listing rules in Dafny

This project models the decision logic of the Areblog blog server's two route
files: the admin area (`server/routes/admin.js`) and the public pages
(`server/routes/main.js`). In the admin area it models the JWT cookie gate
(`authMiddleware`), login, the dashboard's role check, registration, the image
choice when a post is edited, and the username change. In the public pages it
models the home page's pagination (skip, limit and "has next page"), the
search-term sanitiser and the title-or-body search.

The MongoDB collections are sequences in natural (insertion) order:
`seq<User>` and `seq<Post>`. `findOne` and `findById` return the first match
in that order. Unique ids (`UniqueIds`) are guaranteed by MongoDB's `_id`
index, and the dashboard and username-change lemmas assume only that. Unique
ids together with unique usernames form `WellFormed`. Registration and
username changes are proved to preserve it, and the login lemmas assume it;
an imported admin is not checked against it.
bcrypt and jsonwebtoken are symbolic terms: a digest records what it hashes
(its first 72 characters, as bcrypt truncates),
and a signature records its key and claims. This gives the round trip
(`Verify(secret, Sign(secret, uid))` yields `uid`) and the rejection of any
token not built with the secret. Each handler is a pure function. It takes the
request's inputs and the current store, and returns the reply (the response
plus the flash, cookie and session effects) and the new store.

Modules:
- `Wrappers` (`wrappers.dfy`): `Option`.
- `Sequences` (`sequences.dfy`): the subsequence relation.
- `Crypto` (`crypto.dfy`): bcrypt and JWT.
- `Store` (`store.dfy`): users, posts and the lookups.
- `Http` (`http.dfy`): responses and replies.
- `Text` (`text.dfy`): the sanitiser, ASCII lower case and substring search.
- `AdminRoutes` (`admin_routes.dfy`).
- `MainRoutes` (`main_routes.dfy`).

Behaviour of the code that is easy to miss:
- PUT `/edit-post/:id` checks only that the token is valid, not the role
  (server/routes/admin.js:178). Any authenticated user can edit a post
  (`AdminRoutes.EditPostIgnoresRole`).
- A rejected token gets a JSON 401 (server/routes/admin.js:26, 35).
- Registration does not reserve the name "admin"
  (server/routes/admin.js:237-249; `AdminRoutes.RegisterAcceptsAdminName`).
- On update-username, the new name is stored before the session copy is
  updated (server/routes/admin.js:329-335). With no session user, the reply is
  500 even though the rename was saved (`AdminRoutes.RenameWithoutSessionStored`).

## Model

| member | source | states |
|---|---|---|
| `Crypto.HashRoundTrip` | server/routes/admin.js:63 | a bcrypt digest accepts the password it was made from, and exactly the passwords that agree with it on the first 72 characters; for passwords of at most 72 characters, only that password |
| `Crypto.LongPasswordsCollide` | server/routes/admin.js:63 | two different passwords that share their first 72 characters are each accepted by the other's digest |
| `Crypto.SignVerify` | server/routes/admin.js:30 | verifying a token signed for `uid` with the same secret decodes to `uid` |
| `Crypto.VerifyOnlySigned` | server/routes/admin.js:30 | a token decodes to `uid` iff it is exactly the token signed for `uid` with the secret |
| `Crypto.TamperedRejected` | server/routes/admin.js:29-36 | a changed signature, a changed id or another secret makes verification fail |
| `Store.FindByUsername` | server/routes/admin.js:55 | finds nothing iff no user has exactly that name; otherwise returns a stored user with that name |
| `Store.FindById` | server/routes/admin.js:91 | finds nothing iff the id is undefined or no user has it; otherwise returns a stored user with that id |
| `AdminRoutes.Guard` | server/routes/admin.js:21-37 | no cookie gives 401; a token verification rejects gives 401; otherwise the handler runs with the decoded `userId`; the role plays no part |
| `AdminRoutes.GuardAcceptsExactlySigned` | server/routes/admin.js:25-32 | the gate admits a request as `uid` iff its cookie is the token signed for `uid` |
| `AdminRoutes.Login` | server/routes/admin.js:51-86 | an unknown name redirects to `/admin` with "Username salah" and sets nothing; a cookie is set iff a session is; on success the user has that name and that password, the token carries the id and not the role, and admins go to `/dashboard` while everyone else goes to `/` |
| `AdminRoutes.LoginWrongPassword` | server/routes/admin.js:63-68 | an existing user with a wrong password gets "password salah", no cookie and no session |
| `AdminRoutes.LoginSucceedsIff` | server/routes/admin.js:70-81 | login succeeds iff the password verifies; the session is that user, and the cookie passes the gate as that user's id, which resolves back to the same user |
| `AdminRoutes.Dashboard` | server/routes/admin.js:89-103 | the answer is 403 or the dashboard; the dashboard is shown only to a stored admin with the token's id and carries all posts; an unknown or undefined id gives 403 |
| `AdminRoutes.DashboardRoute` | server/routes/admin.js:89-96 | a request the gate rejects gets 401 and never reaches the handler; a rendered dashboard always belongs to an admin |
| `AdminRoutes.DashboardFollowsCurrentRole` | server/routes/admin.js:91-96 | the same cookie opens the dashboard iff its user is an admin in the current store, so a role change applies on the next request; otherwise the answer is 403 |
| `AdminRoutes.Register` | server/routes/admin.js:235-261 | a taken name redirects to `register` and leaves the store unchanged; the store changes iff the name and the new id are both free; it then gains exactly one user at the end, with role "user" and a digest of the password, and gets a token for that id; uniqueness is preserved |
| `AdminRoutes.RegisterTokenResolves` | server/routes/admin.js:249-253 | the registration token passes the gate as the new id, and that id resolves to the new user |
| `AdminRoutes.RegisterAcceptsAdminName` | server/routes/admin.js:237-249 | registration does not reserve "admin"; a fresh "admin" is created, with role "user" |
| `AdminRoutes.EditPost` | server/routes/admin.js:178-212 | with an upload, the new file becomes the image and removing `old_image` is attempted; without one, the image stays `old_image` and no removal is attempted; for an ObjectId the form fields and the update time are written, id and creation time are kept, every other post is unchanged, and the reply is the dashboard redirect; an id that is not an ObjectId changes no post and gets the JSON error reply, after the removal attempt |
| `AdminRoutes.EditPostIdempotent` | server/routes/admin.js:183-201 | submitting the same edit twice leaves the posts as submitting it once |
| `AdminRoutes.EditPostRoute` | server/routes/admin.js:178-213 | a rejected request gets 401, changes no post and attempts no removal; an admitted one with an ObjectId is redirected to the dashboard, and one with any other id gets the JSON error with no post changed |
| `AdminRoutes.EditPostIgnoresRole` | server/routes/admin.js:178 | any validly signed token, whatever the user's role, gets the edit done |
| `AdminRoutes.UpdateUsername` | server/routes/admin.js:303-341 | an unknown id gives 404 and changes nothing; ids, roles and passwords never change; the store changes only when the user exists and is not an admin, the new name is given, is not "admin" in any case and is free, and then only that user's name changes; the profile redirect comes only after a change and updates the session copy |
| `AdminRoutes.UpdateUsernameRoute` | server/routes/admin.js:303 | a request the gate rejects gets 401 and changes nothing |
| `AdminRoutes.UpdateUsernameKeepsWellFormed` | server/routes/admin.js:323-330 | a username change keeps ids and usernames unique |
| `AdminRoutes.AdminCannotRenameAnyName` | server/routes/admin.js:313-316 | an admin gets 403 for any new name, even a missing one, before the name is examined |
| `AdminRoutes.ReservedNameRefused` | server/routes/admin.js:318-321 | a non-admin asking for any of the 32 case spellings of "admin" gets the reserved-name 403 |
| `AdminRoutes.TakenNameRefused` | server/routes/admin.js:323-327 | a non-admin asking for a name some user has, their own included, gets 409 and nothing changes |
| `AdminRoutes.RenameSucceeds` | server/routes/admin.js:328-336 | when all checks pass, exactly the caller's name changes, the session copy follows, and the reply redirects to `/profile` |
| `AdminRoutes.RenameWithoutSessionStored` | server/routes/admin.js:329-339 | with no session user, the rename is stored but the answer is 500 |
| `AdminRoutes.RegisterKeepsAdmins` | server/routes/admin.js:235-261 | registration leaves the set of admin ids exactly as it was: the one user it adds has role "user" |
| `AdminRoutes.UpdateUsernameKeepsAdmins` | server/routes/admin.js:303-341 | a username change leaves the set of admin ids exactly as it was |
| `Text.Sanitize` | server/routes/main.js:64 | the result contains only `[A-Za-z0-9 ]` and is no longer than the input |
| `Text.SanitizeCounts` | server/routes/main.js:64 | each allowed character survives as many times as it occurs in the input; no other character survives |
| `Text.SanitizeIsSubsequence` | server/routes/main.js:64 | the result is a subsequence of the input: the kept characters stay in their original order |
| `Text.SanitizeConcat` | server/routes/main.js:64 | sanitising distributes over concatenation |
| `Text.SanitizeChar` | server/routes/main.js:64 | a single character is kept iff it is allowed |
| `Text.SanitizeFixpoint` | server/routes/main.js:64 | a string is unchanged iff all its characters are allowed |
| `Text.SanitizeIdempotent` | server/routes/main.js:64 | sanitising twice equals sanitising once |
| `Text.SanitizeDropsPunctuation` | server/routes/main.js:64 | a disallowed character between two allowed runs is cut out and the runs are joined |
| `Text.SanitizeDontStop` | server/routes/main.js:64 | the search term `don't stop!` is searched for as `dont stop` |
| `Text.SanitizedIsLiteral` | server/routes/main.js:64-69 | a sanitised term has no regular-expression metacharacter, so the regex matches it literally |
| `Text.Lower` | server/routes/admin.js:318 | lower-casing keeps the length and lower-cases each ASCII letter in place |
| `Text.LowerSanitize` | server/routes/main.js:64-69 | lower-casing and sanitising commute |
| `Text.ReservedSpellings` | server/routes/admin.js:318 | `toLowerCase() === 'admin'` holds exactly for the 32 mixed-case spellings of "admin" |
| `Text.OccursIff` | server/routes/main.js:68-69 | the left-to-right scan finds the pattern iff it occurs at some position of the text |
| `Text.EmptyMatchesAll` | server/routes/main.js:68-69 | the empty pattern matches every text |
| `MainRoutes.InsertByDate` | server/routes/main.js:15 | inserting into a newest-first sequence gives a newest-first permutation with the one element added |
| `MainRoutes.SortNewestFirst` | server/routes/main.js:15 | the listing order is a newest-first permutation of the collection |
| `MainRoutes.PageCount` | server/routes/main.js:22 | the page count is the least number of 10-post pages that holds `count` posts |
| `MainRoutes.Window` | server/routes/main.js:16-17 | the window holds the at most 10 posts from position `skip` on, as many as exist |
| `MainRoutes.Home` | server/routes/main.js:9-36 | a page below 1, or beyond the last page whose skip fits in a signed 64-bit integer, renders nothing; otherwise at most 10 posts from the collection, newest first; `nextPage` is `page + 1` iff more than `10*page` posts exist, and null otherwise |
| `MainRoutes.HasNextPageIff` | server/routes/main.js:20-22 | `page + 1 <= ceil(count/10)` iff `page < ceil(count/10)` iff `10*page < count` |
| `MainRoutes.LastPageIsLast` | server/routes/main.js:16 | `LastPage` is the last page whose skip `10*page - 10` is below 2^63, the database's limit for `$skip` |
| `MainRoutes.HugePageRendersNothing` | server/routes/main.js:12-34 | page 10^18 renders nothing, whatever the collection, because its skip does not fit in 64 bits |
| `MainRoutes.HomeWindow` | server/routes/main.js:12-18 | every renderable page `p` lists positions `10*(p-1)` up to `10*p - 1` of the newest-first order, as many as exist |
| `MainRoutes.NextPageNonEmpty` | server/routes/main.js:20-27 | below the last renderable page, a next page is announced iff that page would list at least one post |
| `MainRoutes.EmptyCollectionFirstPage` | server/routes/main.js:12-27 | for an empty collection, page 1 (given or defaulted) lists nothing and has no next page |
| `MainRoutes.FindMatching` | server/routes/main.js:66-71 | a post is found iff it is in the collection and the term matches its title or its body; each matching post appears as often as in the collection and no other does; the results keep collection order |
| `MainRoutes.Search` | server/routes/main.js:60-71 | the search finds exactly the posts that match the sanitised term, each as often as in the collection, in collection order |
| `MainRoutes.FindMatchingCaseBlind` | server/routes/main.js:66-71 | two terms with the same lower-case form find the same posts in the same order |
| `MainRoutes.SearchIgnoresTermCase` | server/routes/main.js:64-71 | searching for the lower-cased term finds the same posts in the same order as the term as typed |
| `MainRoutes.SearchFinds` | server/routes/main.js:64-71 | a post is found iff the lower-cased sanitised term occurs at some position of its lower-cased title or body |
| `MainRoutes.EmptyTermFindsAll` | server/routes/main.js:64-71 | a term with nothing left after sanitising finds every post, in order |

## Left out

- The MongoDB calls themselves (`aggregate`, `find`, `findOne`, `findById`, `create`, `save`, `findByIdAndUpdate`, `countDocuments`): they are functions over the two sequences. Only the filter's shape is kept. Only two store errors are modelled: a duplicate id on create, and the cast error of a non-ObjectId `:id` in PUT `/edit-post/:id`. Other store errors are not.
- Concurrency: two simultaneous registrations with the same name are not modelled. Each request is one atomic function of the store.
- bcrypt and jsonwebtoken internals: they are symbolic terms. The salt is a parameter, since it is the library's randomness. The secret `JWT_SECRET` is a parameter. Token expiry is not modelled, because the code sets none.
- Rendering, `req.flash` storage, `req.session.message`, `console.log`, multer's disk storage and file naming (`Date.now()`), and `fs.unlinkSync`: these are I/O. The chosen upload name and the current time are parameters. The removal appears only as `unlinkAttempt`, the file name whose removal was attempted.
- `Text.Lower`, `Text.MatchesIgnoringCase`: ASCII case only. JavaScript's `toLowerCase` and the regex `i` flag also fold non-ASCII letters; for example, the Kelvin sign matches `k`. No non-ASCII character lower-cases to a letter of "admin", so the reserved-name check is exact.
- `MainRoutes.Home`: `req.query.page` is an integer or absent. String-to-number coercion of other query values is not modelled. Among posts with the same `createdAt`, the model's order is one the database may return; the database fixes none. The skip is computed as a double (`perPage * page - perPage`); the model computes it exactly. Near `LastPage` the rounded double can cross 2^63 where the exact value does not, or the reverse, and those few pages are not modelled.
- `Crypto.PasswordOk`: bcrypt truncates at 72 BYTES of the UTF-8 encoding; the model truncates at 72 characters. The two agree for ASCII passwords; a password with non-ASCII characters is cut earlier by bcrypt than by the model.
- `Crypto.Sign`: `jsonwebtoken` also puts the issue time (`iat`) in every token, so two logins of the same user get different tokens, each of which passes the gate. No route reads `iat`, so the model's token carries the id claim only.
- `AdminRoutes.EditPost`: `unlinkAttempt` records only that `fs.unlinkSync` was called on `old_image`. Its failure (a missing file, an undefined `old_image`) is caught and only logged. The path is built from the routes' directory (`server/public/uploads`), while multer stores uploads under `public/uploads` relative to the working directory. Whether the attempt reaches the stored file depends on where the server is started, and is not modelled.
- `AdminRoutes.EditPostRoute`: of the errors the catch at server/routes/admin.js:209-212 answers, only the cast error of a non-ObjectId `:id` is modelled. `Danger` records the offending id, not the database's exact message text. Other database errors are not modelled.
- `MainRoutes.Search`: `req.body.searchTerm` is a string. A missing term makes `replace` throw; the handler then only logs, and this is not modelled.
- `AdminRoutes.Register`, `AdminRoutes.Login`: `username` and `password` are strings. Missing body fields are not modelled. For example, a missing `password` makes `bcrypt.hash` or `bcrypt.compare` throw; the handler then only logs and sends nothing.
- `AdminRoutes.EditPost`: `title`, `body`, `category` and `old_image` are strings. A missing field is not modelled: the update writes `undefined` for it (server/routes/admin.js:191, 196-199). In particular, with no upload and no `old_image`, the stored image becomes `undefined` rather than keeping the old one.
- `AdminRoutes.EditPost`: the `user: req.session.user` field of the update is not stored. The Post schema is not part of this model, so it is unknown whether that field is persisted. `findByIdAndUpdate` updates the single post with that id; the model updates every post with that id, which is the same under unique ids.
- The second POST `/admin` handler (server/routes/admin.js:215-228) is never reached, because the first handler for the same path never calls `next`.
- The other routes are out of scope: GET `/admin` and GET `/register` (a render), GET `/add-post`, GET `/edit-post/:id`, GET `/profile` and DELETE `/delete-post/:id` (gated database calls followed by a render or redirect), GET `/logout` (clears the cookie and the session), GET `/post/:id` (an ungated lookup and render) and GET `/about` (an ungated render). Of these, only the ones listed as gated pass through the gate modelled above.
- POST `/add-post`: not modelled. Its one decision of its own, answering 400 JSON with `No file uploaded` when there is no upload (server/routes/admin.js:140-142, 153-156), is not part of this model.
- The 500 answers for unexpected store errors in the dashboard and update-username handlers. Only the 500s the model's own inputs can cause are modelled: a missing `newUsername`, a missing session user, and a colliding new id.
- The comment model and the admin-seeding script: they are a schema declaration and a one-shot import, with no decision logic.
