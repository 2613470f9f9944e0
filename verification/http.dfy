/** What a route handler sends back, and the side effects it leaves on the
    client (cookie), the flash store and the server-side session. */
module Http {
  import opened Wrappers
  import opened Crypto
  import opened Store

  datatype Response =
    | Json(status: int, message: string)   // res.status(code).json({ message })
    | Redirect(location: string)           // res.redirect(location)
    | Render(view: string, user: Option<User>, posts: seq<Post>)
    | Danger(cause: string)                // res.json({ message: error.message, type: 'danger' }), status 200;
                                           // `cause` is the input the error message reports
    | NoResponse                           // an error was caught and only logged

  /** A response together with what the handler set on the way:
      the flash message, the `token` cookie and the session user
      (`None` in each means "left as it was"). */
  datatype Reply = Reply(
    response: Response,
    flash: Option<string>,
    cookie: Option<Token>,
    session: Option<User>)

  /** A response with no side effects. */
  function Plain(r: Response): Reply {
    Reply(r, None, None, None)
  }

  const Unauthorized: Response := Json(401, "Unauthorized")
  const Forbidden: Response := Json(403, "Forbidden")
  const InternalError: Response := Json(500, "Internal server error")
}
