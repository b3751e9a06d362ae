/** The request credentials both middlewares read, and the token check they share:
    extract a token, verify it, look the user up. The two middlewares apply opposite
    failure policies to the same chain (see CartAuth and Auth). */
module Credentials {
  import opened Wrappers

  /** The parts of an HTTP request the middlewares look at. */
  datatype Request = Request(
    accessTokenCookie: Option<string>,  // req.cookies.accessToken
    cartSessionCookie: Option<string>,  // req.cookies.cart_session
    authorization: Option<string>)      // the Authorization header

  /** A JavaScript string value is truthy exactly when it is present and not empty. */
  predicate Truthy(v: Option<string>) {
    v.Some? && v.value != ""
  }

  const BearerPrefix: string := "Bearer "

  /** `pat` occurs in `s` starting at index `i`. */
  predicate OccursAt(s: string, pat: string, i: nat) {
    i + |pat| <= |s| && s[i..i + |pat|] == pat
  }

  lemma OccursShift(s: string, pat: string)
    requires |s| > 0
    ensures forall j: nat :: 0 < j ==> OccursAt(s, pat, j) == OccursAt(s[1..], pat, j - 1)
  {
    forall j: nat | 0 < j ensures OccursAt(s, pat, j) == OccursAt(s[1..], pat, j - 1) {
      if j + |pat| <= |s| {
        assert s[1..][j - 1..j - 1 + |pat|] == s[j..j + |pat|];
      }
    }
  }

  /** The index of the first occurrence of `pat` in `s`, if any. */
  function FirstOccurrence(s: string, pat: string): (r: Option<nat>)
    ensures r.Some? ==> OccursAt(s, pat, r.value)
    ensures r.Some? ==> forall j: nat :: j < r.value ==> !OccursAt(s, pat, j)
    ensures r.None? ==> forall j: nat :: !OccursAt(s, pat, j)
    decreases |s|
  {
    if |s| < |pat| then None
    else if s[..|pat|] == pat then Some(0)
    else
      assert !OccursAt(s, pat, 0) by { assert s[0..|pat|] == s[..|pat|]; }
      OccursShift(s, pat);
      match FirstOccurrence(s[1..], pat)
      case None => None
      case Some(i) => Some(i + 1)
  }

  /** JavaScript's `s.replace(pat, "")` with a string pattern: only the first
      occurrence is removed; without an occurrence `s` is returned as it is. */
  function RemoveFirst(s: string, pat: string): (r: string)
    ensures FirstOccurrence(s, pat).None? ==> r == s
    ensures FirstOccurrence(s, pat).Some? ==>
              var i := FirstOccurrence(s, pat).value;
              |r| + |pat| == |s| && r[..i] == s[..i] && r[i..] == s[i + |pat|..]
  {
    match FirstOccurrence(s, pat)
    case None => s
    case Some(i) => s[..i] + s[i + |pat|..]
  }

  /** The token both middlewares use: the `accessToken` cookie when it is truthy,
      otherwise the Authorization header with its first "Bearer " removed. `None`
      stands for every falsy outcome (no cookie and no header, or an empty string). */
  function ExtractToken(req: Request): (token: Option<string>)
    ensures token.Some? ==> token.value != ""
    ensures Truthy(req.accessTokenCookie) ==> token == req.accessTokenCookie
    ensures !Truthy(req.accessTokenCookie) && req.authorization.None? ==> token.None?
    ensures !Truthy(req.accessTokenCookie) && req.authorization.Some? ==>
              token == (var t := RemoveFirst(req.authorization.value, BearerPrefix);
                        if t == "" then None else Some(t))
  {
    var raw :=
      if Truthy(req.accessTokenCookie) then req.accessTokenCookie
      else if req.authorization.None? then None
      else Some(RemoveFirst(req.authorization.value, BearerPrefix));
    if Truthy(raw) then raw else None
  }

  /** A well-formed `Bearer <t>` header, with no usable cookie, yields exactly `t`. */
  lemma BearerHeaderYieldsToken(req: Request, t: string)
    requires !Truthy(req.accessTokenCookie)
    requires req.authorization == Some(BearerPrefix + t)
    requires t != ""
    ensures ExtractToken(req) == Some(t)
  {
    var h := BearerPrefix + t;
    assert h[..|BearerPrefix|] == BearerPrefix;
    assert FirstOccurrence(h, BearerPrefix) == Some(0);
    assert h[..0] + h[|BearerPrefix|..] == t;
  }

  /** A header that never mentions "Bearer " is used verbatim as the token. */
  lemma HeaderWithoutBearerIsVerbatim(req: Request)
    requires !Truthy(req.accessTokenCookie)
    requires req.authorization.Some? && req.authorization.value != ""
    requires forall j: nat :: !OccursAt(req.authorization.value, BearerPrefix, j)
    ensures ExtractToken(req) == req.authorization
  {
  }

  /** Only the first "Bearer " goes: removing it shortens the header by exactly its length
      and keeps what precedes and follows it. */
  lemma RemoveFirstCutsOneOccurrence(s: string, pat: string, i: nat)
    requires OccursAt(s, pat, i)
    requires forall j: nat :: j < i ==> !OccursAt(s, pat, j)
    ensures RemoveFirst(s, pat) == s[..i] + s[i + |pat|..]
    ensures |RemoveFirst(s, pat)| == |s| - |pat|
  {
  }

  /** What jwt.verify yields when it does not throw: the decoded payload. */
  datatype Payload = Payload(id: Option<int>)

  /** `decodedToken?.id` is truthy: present and not the number 0. */
  predicate HasId(p: Payload) {
    p.id.Some? && p.id.value != 0
  }

  /** The row getUserDetailsById selects. */
  datatype UserRecord = UserRecord(
    userId: int, userName: string, userPhone: string, userEmail: string, userAvatarUrl: string)

  /** The external capabilities, as oracles: token verification (secret and clock inside),
      the user-existence check and the user-details lookup. Each may throw. The details
      lookup yields `None` when no row matches (`rows[0]` is `undefined`). */
  datatype Collaborators = Collaborators(
    verify: string -> Fallible<Payload>,
    userExists: int -> Fallible<bool>,
    userDetails: int -> Fallible<Option<UserRecord>>)

  /** Where the shared token chain stops. */
  datatype TokenCheck =
    | NoToken                          // no truthy token
    | Failed(errorName: string)        // verify, the existence check or the details lookup threw
    | MissingId                        // the decoded payload has no truthy id
    | UnknownUser                      // the existence check said no
    | Found(user: Option<UserRecord>)  // the details lookup returned (possibly no row)

  /** There is a token and jwt.verify returns a payload for it. */
  predicate Decodes(req: Request, env: Collaborators) {
    ExtractToken(req).Some? && env.verify(ExtractToken(req).value).Returned?
  }

  function DecodedPayload(req: Request, env: Collaborators): Payload
    requires Decodes(req, env)
  {
    env.verify(ExtractToken(req).value).value
  }

  /** The decoded payload carries a truthy id. */
  predicate CarriesId(req: Request, env: Collaborators) {
    Decodes(req, env) && HasId(DecodedPayload(req, env))
  }

  function TokenUserId(req: Request, env: Collaborators): int
    requires CarriesId(req, env)
  {
    DecodedPayload(req, env).id.value
  }

  /** The chain both middlewares run, in their order: token, verify, id, exists, details.
      Each outcome is stated by what the collaborators return; the cases are exhaustive. */
  function CheckToken(req: Request, env: Collaborators): (r: TokenCheck)
    ensures r.NoToken? <==> ExtractToken(req).None?
    // verify throws
    ensures ExtractToken(req).Some? && env.verify(ExtractToken(req).value).Threw? ==>
              r == Failed(env.verify(ExtractToken(req).value).name)
    // the payload has no truthy id
    ensures Decodes(req, env) && !HasId(DecodedPayload(req, env)) ==> r == MissingId
    // the existence check throws, or says no
    ensures CarriesId(req, env) && env.userExists(TokenUserId(req, env)).Threw? ==>
              r == Failed(env.userExists(TokenUserId(req, env)).name)
    ensures CarriesId(req, env) && env.userExists(TokenUserId(req, env)) == Returned(false) ==>
              r == UnknownUser
    // the user exists: the details lookup decides
    ensures CarriesId(req, env) && env.userExists(TokenUserId(req, env)) == Returned(true) ==>
              match env.userDetails(TokenUserId(req, env))
              case Threw(e) => r == Failed(e)
              case Returned(user) => r == Found(user)
  {
    match ExtractToken(req)
    case None => NoToken
    case Some(token) =>
      match env.verify(token)
      case Threw(e) => Failed(e)
      case Returned(payload) =>
        if !HasId(payload) then MissingId
        else
          match env.userExists(payload.id.value)
          case Threw(e) => Failed(e)
          case Returned(known) =>
            if !known then UnknownUser
            else
              match env.userDetails(payload.id.value)
              case Threw(e) => Failed(e)
              case Returned(user) => Found(user)
  }
}
