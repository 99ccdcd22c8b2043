/** middleware/auth.js: attaching the principal of a bearer token to
    `res.locals`, and the three guards that either let a request through to
    `next` or throw.

    Token verification (`jwt.verify` with the server's secret) is a parameter
    `verify`, from the token text to the payload it accepts, `None` where
    `jwt.verify` throws. */
module Auth {
  import opened Wrappers
  import opened Values
  import opened Text

  /** The token payload: who the user is and whether they are an admin. */
  datatype Principal = Principal(username: string, isAdmin: bool)

  /** `req.headers`, of which only `authorization` is read. */
  datatype Headers = Headers(authorization: Option<string>)

  /** `req.params`, of which only `username` is read. */
  datatype Params = Params(username: Option<string>)

  /** The parts of a request the middleware reads; either object may be
      absent, as in a bare request object. */
  datatype Request = Request(headers: Option<Headers>, params: Option<Params>)

  /** `res.locals`, which the middleware share along the request. */
  class Locals {
    var user: Option<Principal>

    constructor ()
      ensures user == None
    {
      user := None;
    }
  }

  /** How a guard ends: calling `next()`, throwing an ExpressError, or
      throwing a TypeError on reading a property of an absent object. */
  datatype GuardResult = Next | Throw(error: ExpressError) | TypeError

  // ------------------------------------------------------- authenticateJWT

  /** The header matches `/^[Bb]earer /`. */
  predicate HasBearerPrefix(header: string): (b: bool)
    ensures b <==> "Bearer " <= header || "bearer " <= header
  {
    |header| >= 7 && (header[..7] == "Bearer " || header[..7] == "bearer ")
  }

  /** `header.replace(/^[Bb]earer /, "")`: one leading prefix is removed. */
  function StripBearer(header: string): (r: string)
    ensures HasBearerPrefix(header) ==> header == header[..7] + r
    ensures !HasBearerPrefix(header) ==> r == header
  {
    if HasBearerPrefix(header) then header[7..] else header
  }

  /** The header `authenticateJWT` acts on: `req.headers &&
      req.headers.authorization`, only when it is a non-empty string. */
  function AuthHeader(req: Request): (r: Option<string>)
    ensures r.Some? <==> req.headers.Some? && req.headers.value.authorization.Some?
                         && req.headers.value.authorization.value != ""
    ensures r.Some? ==> r.value == req.headers.value.authorization.value
  {
    if req.headers.Some? && req.headers.value.authorization.Some? && req.headers.value.authorization.value != ""
    then req.headers.value.authorization
    else None
  }

  /** The token verified for a header. */
  function ExtractToken(header: string): (token: string)
    ensures |token| <= |StripBearer(header)|
    ensures HasBearerPrefix(header) ==> |token| <= |header| - 7
    ensures |token| > 0 ==> !IsWhitespace(token[0]) && !IsWhitespace(token[|token| - 1])
  {
    Trim(StripBearer(header))
  }

  /** `res.locals.user` after authenticateJWT: the payload of a header whose
      token verifies, and otherwise what was there before. */
  function Authenticated(before: Option<Principal>, req: Request, verify: string -> Option<Principal>): (r: Option<Principal>)
    ensures r != before ==> AuthHeader(req).Some? && verify(ExtractToken(AuthHeader(req).value)) == r
    ensures AuthHeader(req).Some? && verify(ExtractToken(AuthHeader(req).value)).Some? ==>
              r == verify(ExtractToken(AuthHeader(req).value))
    ensures AuthHeader(req).None? || verify(ExtractToken(AuthHeader(req).value)).None? ==> r == before
  {
    match AuthHeader(req)
    case None => before
    case Some(header) =>
      match verify(ExtractToken(header))
      case None => before
      case Some(p) => Some(p)
  }

  /** `authenticateJWT(req, res, next)`: never throws and always ends in
      `next()`; it sets `res.locals.user` only when the header's token
      verifies. */
  method AuthenticateJWT(req: Request, locals: Locals, verify: string -> Option<Principal>) returns (r: GuardResult)
    modifies locals
    ensures r == Next
    ensures locals.user == Authenticated(old(locals.user), req, verify)
  {
    var authHeader := AuthHeader(req);
    if authHeader.Some? {
      var token := ExtractToken(authHeader.value);
      var payload := verify(token);
      if payload.Some? {
        locals.user := payload;
      }
    }
    return Next;
  }

  /** A `Bearer ` or `bearer ` prefix is removed and the rest trimmed. */
  lemma BearerTokenExtracted(token: string)
    ensures ExtractToken("Bearer " + token) == Trim(token)
    ensures ExtractToken("bearer " + token) == Trim(token)
  {
    assert ("Bearer " + token)[..7] == "Bearer " && ("Bearer " + token)[7..] == token;
    assert ("bearer " + token)[..7] == "bearer " && ("bearer " + token)[7..] == token;
  }

  /** A header without the prefix is only trimmed. */
  lemma UnprefixedHeaderTrimmed(header: string)
    requires !HasBearerPrefix(header)
    ensures ExtractToken(header) == Trim(header)
  {
  }

  /** Only one prefix goes: `Bearer Bearer t` verifies `Bearer t`, trimmed. */
  lemma OnePrefixRemoved(token: string)
    ensures ExtractToken("Bearer " + ("Bearer " + token)) == Trim("Bearer " + token)
  {
    BearerTokenExtracted("Bearer " + token);
  }

  /** Extracted tokens carry no surrounding whitespace, and extracting twice
      from a token without the prefix changes nothing. */
  lemma ExtractedTokenTrimmed(header: string)
    ensures var t := ExtractToken(header);
            && (|t| > 0 ==> !IsWhitespace(t[0]) && !IsWhitespace(t[|t| - 1]))
            && (!HasBearerPrefix(t) ==> ExtractToken(t) == t)
  {
    TrimIdempotent(StripBearer(header));
  }

  /** The test "works: via header": a bearer header whose token verifies
      attaches its payload. */
  lemma BearerHeaderAuthenticates(before: Option<Principal>, token: string, params: Option<Params>,
                                  verify: string -> Option<Principal>)
    requires verify(Trim(token)).Some?
    ensures Authenticated(before, Request(Some(Headers(Some("Bearer " + token))), params), verify)
         == verify(Trim(token))
  {
    BearerTokenExtracted(token);
  }

  /** No header, an empty header, or a token that does not verify: locals
      are unchanged (models the tests "no header" and "invalid token"). */
  lemma NoValidTokenNoUser(before: Option<Principal>, req: Request, verify: string -> Option<Principal>)
    requires AuthHeader(req).None? || verify(ExtractToken(AuthHeader(req).value)).None?
    ensures Authenticated(before, req, verify) == before
  {
  }

  // ---------------------------------------------------------------- guards

  /** `ensureLoggedIn`: passes exactly when a user is attached. */
  function EnsureLoggedIn(user: Option<Principal>): (r: GuardResult)
    ensures r == Next <==> user.Some?
    ensures r != Next ==> r == Throw(Unauthorized(None))
  {
    if user.None? then Throw(Unauthorized(None)) else Next
  }

  /** `ensureAdmin`: passes exactly when an admin is attached. */
  function EnsureAdmin(user: Option<Principal>): (r: GuardResult)
    ensures r == Next <==> user.Some? && user.value.isAdmin
    ensures r != Next ==> r == Throw(Unauthorized(Some("Only admins can access")))
  {
    if user.None? || !user.value.isAdmin then Throw(Unauthorized(Some("Only admins can access"))) else Next
  }

  /** `user?.username`: absent when no user is attached. */
  function UsernameOf(user: Option<Principal>): (r: Option<string>)
    ensures r.Some? <==> user.Some?
    ensures r.Some? ==> r.value == user.value.username
  {
    match user
    case None => None
    case Some(p) => Some(p.username)
  }

  /** `ensureAdminOrCorrectUser`: passes for an admin, or when `user?.username
      === req.params.username`, where an absent user and an absent route
      username are both `undefined` and so compare equal. Reading
      `req.params.username` with no `req.params` is a TypeError, reached only
      when the user is not an admin. */
  function EnsureAdminOrCorrectUser(user: Option<Principal>, params: Option<Params>): (r: GuardResult)
    ensures r == Next <==>
              (user.Some? && user.value.isAdmin) || (params.Some? && UsernameOf(user) == params.value.username)
    ensures r == TypeError <==> !(user.Some? && user.value.isAdmin) && params.None?
    ensures r.Throw? ==> r.error == Unauthorized(None)
  {
    if user.Some? && user.value.isAdmin then Next
    else if params.None? then TypeError
    else if UsernameOf(user) == params.value.username then Next
    else Throw(Unauthorized(None))
  }

  /** Whatever ensureAdmin lets through, the other two guards let through. */
  lemma AdminPassesEveryGuard(user: Option<Principal>, params: Option<Params>)
    requires EnsureAdmin(user) == Next
    ensures EnsureLoggedIn(user) == Next
    ensures EnsureAdminOrCorrectUser(user, params) == Next
  {
  }

  /** The user named in the route passes without being an admin. */
  lemma CorrectUserPasses(p: Principal)
    ensures EnsureAdminOrCorrectUser(Some(p), Some(Params(Some(p.username)))) == Next
  {
  }

  /** A non-admin naming another user in the route is refused. */
  lemma IncorrectUserRejected(p: Principal, other: string)
    requires !p.isAdmin && other != p.username
    ensures EnsureAdminOrCorrectUser(Some(p), Some(Params(Some(other)))) == Throw(Unauthorized(None))
  {
  }

  /** With a username in the route, passing the guard as a non-admin takes
      being logged in as that user. */
  lemma RouteUsernameNeedsLogin(user: Option<Principal>, name: string)
    requires EnsureAdminOrCorrectUser(user, Some(Params(Some(name)))) == Next
    ensures EnsureLoggedIn(user) == Next
    ensures !user.value.isAdmin ==> user.value.username == name
  {
  }

  /** The `undefined === undefined` case: no user and no username in the
      route passes ensureAdminOrCorrectUser, although ensureLoggedIn refuses
      the same request. */
  lemma AnonymousWithoutRouteUsernamePasses()
    ensures EnsureAdminOrCorrectUser(None, Some(Params(None))) == Next
    ensures EnsureLoggedIn(None) == Throw(Unauthorized(None))
  {
  }

  /** An admin token in the header opens every guard for the rest of the
      request. */
  lemma AdminTokenOpensGuards(before: Option<Principal>, req: Request, verify: string -> Option<Principal>, p: Principal)
    requires AuthHeader(req).Some? && verify(ExtractToken(AuthHeader(req).value)) == Some(p) && p.isAdmin
    ensures var user := Authenticated(before, req, verify);
            && EnsureLoggedIn(user) == Next
            && EnsureAdmin(user) == Next
            && EnsureAdminOrCorrectUser(user, req.params) == Next
  {
  }
}
