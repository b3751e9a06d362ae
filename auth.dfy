/** The protected-resource authenticator: the same token chain as the cart-owner
    middleware, with the opposite policy (every failure ends the request). */
module Auth {
  import opened Wrappers
  import opened Credentials
  import CartAuth

  const TokenExpiredErrorName: string := "TokenExpiredError"
  const JsonWebTokenErrorName: string := "JsonWebTokenError"

  /** The JSON body of a refusal: `{message, status: "failed"}`. */
  datatype FailureBody = FailureBody(message: string, status: string)

  function Failure(message: string): FailureBody {
    FailureBody(message, "failed")
  }

  /** `Admit` assigns `req.user := user` (which may be `undefined`) and calls `next()`;
      `Deny` sends `body` with status `code` and does not call `next()`. */
  datatype AuthOutcome = Admit(user: Option<UserRecord>) | Deny(code: int, body: FailureBody)

  /** The catch block: the two token errors of the JWT library are a 401, anything else a 500. */
  function CaughtError(name: string): (r: AuthOutcome)
    ensures r.Deny?
    ensures r.code == 401 <==> name == TokenExpiredErrorName || name == JsonWebTokenErrorName
    ensures r.code != 401 ==> r == Deny(500, Failure("Internal server error"))
    ensures r.code == 401 ==> r.body == Failure("Invalid or expired token")
  {
    if name == TokenExpiredErrorName || name == JsonWebTokenErrorName then
      Deny(401, Failure("Invalid or expired token"))
    else
      Deny(500, Failure("Internal server error"))
  }

  /** authenticateUser. */
  function AuthenticateUser(req: Request, env: Collaborators): (r: AuthOutcome)
    ensures ExtractToken(req).None? ==> r == Deny(401, Failure("Authentication token missing"))
    ensures CheckToken(req, env).MissingId? ==> r == Deny(401, Failure("Invalid token payload"))
    ensures CheckToken(req, env).UnknownUser? ==> r == Deny(401, Failure("Unauthorized"))
    ensures CheckToken(req, env).Failed? ==> r == CaughtError(CheckToken(req, env).errorName)
    // next() is reached exactly when the user exists and the details lookup returned
    ensures r.Admit? <==> CheckToken(req, env).Found?
    ensures r.Admit? ==> r.user == CheckToken(req, env).user
    ensures r.Deny? ==> r.code == 401 || r.code == 500
  {
    match CheckToken(req, env)
    case NoToken => Deny(401, Failure("Authentication token missing"))
    case MissingId => Deny(401, Failure("Invalid token payload"))
    case UnknownUser => Deny(401, Failure("Unauthorized"))
    case Failed(name) => CaughtError(name)
    case Found(user) => Admit(user)
  }

  /** Same condition, opposite policy: whatever this authenticator refuses, the cart-owner
      middleware does not treat as a user; and whoever it admits with a user record, the
      cart-owner middleware resolves to that same user. */
  lemma RefusalMeansNoCartUser(req: Request, env: Collaborators)
    ensures AuthenticateUser(req, env).Deny? ==> CartAuth.TokenUser(req, env).None?
    ensures CartAuth.TokenUser(req, env).Some? ==>
              AuthenticateUser(req, env) == Admit(CartAuth.TokenUser(req, env))
    ensures AuthenticateUser(req, env).Admit? && AuthenticateUser(req, env).user.Some? ==>
              CartAuth.TokenUser(req, env) == AuthenticateUser(req, env).user
  {
  }

  /** The refusals, stated by what the collaborators return. */
  lemma RefusalsByCollaborator(req: Request, env: Collaborators)
    // a verify throw: 401 for the JWT library's token errors, 500 otherwise
    ensures ExtractToken(req).Some? && env.verify(ExtractToken(req).value).Threw? ==>
              var name := env.verify(ExtractToken(req).value).name;
              AuthenticateUser(req, env)
                == if name == TokenExpiredErrorName || name == JsonWebTokenErrorName
                   then Deny(401, Failure("Invalid or expired token"))
                   else Deny(500, Failure("Internal server error"))
    ensures Decodes(req, env) && !HasId(DecodedPayload(req, env)) ==>
              AuthenticateUser(req, env) == Deny(401, Failure("Invalid token payload"))
    ensures CarriesId(req, env) && env.userExists(TokenUserId(req, env)).Threw? ==>
              AuthenticateUser(req, env) == CaughtError(env.userExists(TokenUserId(req, env)).name)
    ensures CarriesId(req, env) && env.userExists(TokenUserId(req, env)) == Returned(false) ==>
              AuthenticateUser(req, env) == Deny(401, Failure("Unauthorized"))
    ensures CarriesId(req, env) && env.userExists(TokenUserId(req, env)) == Returned(true)
            && env.userDetails(TokenUserId(req, env)).Threw? ==>
              AuthenticateUser(req, env) == CaughtError(env.userDetails(TokenUserId(req, env)).name)
    ensures CarriesId(req, env) && env.userExists(TokenUserId(req, env)) == Returned(true)
            && env.userDetails(TokenUserId(req, env)).Returned? ==>
              AuthenticateUser(req, env) == Admit(env.userDetails(TokenUserId(req, env)).value)
  {
  }
}
