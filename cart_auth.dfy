/** The cart-owner middleware: resolves every request to a user or a guest owner.
    Credential failures never end the request here; they fall through to the guest flow. */
module CartAuth {
  import opened Wrappers
  import opened Credentials

  /** The shapes a `req.cartOwner` object can take. `Other` stands for an owner object
      whose `type` tag is neither "user" nor "guest": the middleware never builds one, but
      the service handles it. */
  datatype OwnerObject =
    | User(userId: int, user: UserRecord)
    | Guest(sessionId: string, isNew: bool)
    | Other(kind: string)

  /** `req.cartOwner`: the `type` tag of an `Other` owner is never "user" or "guest", so the
      tag alone tells the three shapes apart. */
  type CartOwner = o: OwnerObject | !o.Other? || (o.kind != "user" && o.kind != "guest")
    witness Guest("", false)

  /** The owner's `type` tag. */
  function TypeOf(owner: CartOwner): (tag: string)
    ensures tag == "user" <==> owner.User?
    ensures tag == "guest" <==> owner.Guest?
  {
    match owner
    case User(_, _) => "user"
    case Guest(_, _) => "guest"
    case Other(kind) => kind
  }

  /** The options passed to `res.cookie`. */
  datatype Cookie = Cookie(name: string, value: string, httpOnly: bool, sameSite: string, maxAgeMs: int)

  const CartSessionCookieName: string := "cart_session"

  /** 30 days in milliseconds. */
  const CartSessionMaxAgeMs: int := 30 * 24 * 60 * 60 * 1000

  /** The guest-session cookie written for a freshly minted id. */
  function SessionCookie(id: string): Cookie {
    Cookie(CartSessionCookieName, id, true, "lax", CartSessionMaxAgeMs)
  }

  /** A JSON reply `{success, message}` sent with an HTTP status. */
  datatype Reply = Reply(status: int, success: bool, message: string)

  const InternalError: Reply := Reply(500, false, "Internal server error")

  /** How the middleware ends: `Proceed` assigns `req.cartOwner := owner`, writes
      `setCookie` if present and calls `next()` once; `Halt` sends `reply` and does not
      call `next()`. */
  datatype Resolution = Proceed(owner: CartOwner, setCookie: Option<Cookie>) | Halt(reply: Reply)

  /** The user the first step of the middleware settles on, if any. Every failure of the
      chain (no token, a throw from verify or from either lookup, a payload without id,
      an unknown user, a details lookup with no row) is swallowed and yields `None`. */
  function TokenUser(req: Request, env: Collaborators): (u: Option<UserRecord>)
    ensures u.Some? <==>
              && CarriesId(req, env)
              && env.userExists(TokenUserId(req, env)) == Returned(true)
              && env.userDetails(TokenUserId(req, env)).Returned?
              && env.userDetails(TokenUserId(req, env)).value.Some?
    ensures u.Some? ==> u == env.userDetails(TokenUserId(req, env)).value
  {
    match CheckToken(req, env)
    case Found(Some(user)) => Some(user)
    case _ => None
  }

  /** cartOwnerMiddleware. `newSession` is the outcome of minting a session id and
      writing its cookie, the only steps outside the inner try that can throw. */
  method ResolveCartOwner(req: Request, env: Collaborators, newSession: Fallible<string>)
    returns (res: Resolution)
    // 1. a valid token for an existing user: a user owner, no cookie
    ensures TokenUser(req, env).Some? ==>
              var u := TokenUser(req, env).value;
              res == Proceed(User(u.userId, u), None)
    // 2. otherwise an existing guest session: reused as it is, no cookie
    ensures TokenUser(req, env).None? && Truthy(req.cartSessionCookie) ==>
              res == Proceed(Guest(req.cartSessionCookie.value, false), None)
    // 3. otherwise a new guest session with its 30-day cookie
    ensures TokenUser(req, env).None? && !Truthy(req.cartSessionCookie) && newSession.Returned? ==>
              res == Proceed(Guest(newSession.value, true), Some(SessionCookie(newSession.value)))
    // only an error outside the inner try ends the request, with a 500
    ensures res.Halt? <==> TokenUser(req, env).None? && !Truthy(req.cartSessionCookie) && newSession.Threw?
    ensures res.Halt? ==> res.reply == InternalError
    ensures res.Proceed? ==> res.owner.User? || res.owner.Guest?
    ensures res.Proceed? ==> (res.setCookie.Some? <==> res.owner.Guest? && res.owner.isNew)
  {
    var user := TokenUser(req, env);
    if user.Some? {
      res := Proceed(User(user.value.userId, user.value), None);
      return;
    }

    var cartSessionCookie := req.cartSessionCookie;
    if Truthy(cartSessionCookie) {
      res := Proceed(Guest(cartSessionCookie.value, false), None);
      return;
    }

    match newSession {
      case Threw(_) =>
        res := Halt(InternalError);
      case Returned(newSessionId) =>
        var cookie := SessionCookie(newSessionId);
        res := Proceed(Guest(newSessionId, true), Some(cookie));
    }
  }
}
