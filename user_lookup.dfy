/** The user lookups both middlewares call, as written and as evidently intended.
    As written, neither lookup can succeed, so no request is ever resolved to a user. */
module UserLookup {
  import opened Wrappers
  import opened Credentials
  import CartAuth
  import Auth

  /** checkUserExistsById as written: its query parameter is the undefined variable
      `email`, so every call throws before the database is reached. */
  function CheckUserExistsByIdAsWritten(id: int): (r: Fallible<bool>)
    ensures r.Threw?
  {
    Threw("ReferenceError")
  }

  /** getUserDetailsById as written: a comma before FROM makes its SQL invalid, so the
      database rejects every call. */
  function GetUserDetailsByIdAsWritten(id: int): (r: Fallible<Option<UserRecord>>)
    ensures r.Threw?
  {
    Threw("Error")
  }

  /** With the existence check as written, a valid token with an id is refused with 500 by
      the authenticator, and the cart-owner middleware never picks the user. */
  lemma ExistenceCheckAsWrittenRefusesEveryone(
    req: Request, verify: string -> Fallible<Payload>, details: int -> Fallible<Option<UserRecord>>)
    requires ExtractToken(req).Some?
    requires verify(ExtractToken(req).value).Returned?
    requires HasId(verify(ExtractToken(req).value).value)
    ensures var env := Collaborators(verify, CheckUserExistsByIdAsWritten, details);
            && Auth.AuthenticateUser(req, env) == Auth.Deny(500, Auth.Failure("Internal server error"))
            && CartAuth.TokenUser(req, env).None?
  {
  }

  /** With the details lookup as written, even a user who exists is never admitted. */
  lemma DetailsLookupAsWrittenRefusesEveryone(
    req: Request, verify: string -> Fallible<Payload>, userExists: int -> Fallible<bool>)
    ensures var env := Collaborators(verify, userExists, GetUserDetailsByIdAsWritten);
            && !Auth.AuthenticateUser(req, env).Admit?
            && CartAuth.TokenUser(req, env).None?
  {
  }

  /** The evidently intended lookups over a users table keyed by id. */
  function CheckUserExistsById(users: map<int, UserRecord>, id: int): (r: Fallible<bool>)
    ensures r.Returned? && (r.value <==> id in users)
  {
    Returned(id in users)
  }

  function GetUserDetailsById(users: map<int, UserRecord>, id: int): (r: Fallible<Option<UserRecord>>)
    ensures r.Returned? && (r.value.Some? <==> id in users)
    ensures r.Returned? && r.value.Some? ==> r.value.value == users[id]
  {
    Returned(if id in users then Some(users[id]) else None)
  }

  function TableLookups(verify: string -> Fallible<Payload>, users: map<int, UserRecord>): Collaborators {
    Collaborators(verify, id => CheckUserExistsById(users, id), id => GetUserDetailsById(users, id))
  }

  /** With the intended lookups, a valid token for a stored user is admitted by the
      authenticator and resolves the cart owner to that user; a valid token for a user
      who is not stored is a 401 "Unauthorized" and a guest for the cart. */
  lemma IntendedLookupsResolveStoredUsers(
    req: Request, verify: string -> Fallible<Payload>, users: map<int, UserRecord>)
    requires ExtractToken(req).Some?
    requires verify(ExtractToken(req).value).Returned?
    requires HasId(verify(ExtractToken(req).value).value)
    ensures var id := verify(ExtractToken(req).value).value.id.value;
            var env := TableLookups(verify, users);
            && (id in users ==>
                  Auth.AuthenticateUser(req, env) == Auth.Admit(Some(users[id]))
                  && CartAuth.TokenUser(req, env) == Some(users[id]))
            && (id !in users ==>
                  Auth.AuthenticateUser(req, env) == Auth.Deny(401, Auth.Failure("Unauthorized"))
                  && CartAuth.TokenUser(req, env).None?)
  {
  }
}
