/**
  The session middleware (server/app/middleware/auth.js): a request passes on only
  with a verified token in the session cookie, an admin route only for an admin,
  and a token is issued for a user row.
*/
module AuthMiddleware {
  import opened Wrappers
  import opened ServerStore
  import opened ServerHttp

  /** The cookie the middleware reads the session token from. */
  const SessionCookie: string := "auth_token"

  /** What a middleware does with a request: answer it, or pass it on with `req.user` set. */
  datatype Gate = Deny(response: Response) | Next(user: Claims)

  /**
    `authenticateToken`. `verify` is `jwt.verify` under the server's secret, `None`
    where it throws (a bad signature or an expired token).
  */
  function AuthenticateToken(cookies: map<string, string>, verify: string -> Option<Claims>): Gate
  {
    if SessionCookie !in cookies || cookies[SessionCookie] == "" then Deny(Fail(401, "Authentication required"))
    else
      match verify(cookies[SessionCookie])
      case None => Deny(Fail(403, "Invalid or expired token"))
      case Some(decoded) => Next(decoded)
  }

  /**
    No session cookie is a 401; a token that fails verification is a 403; a verified
    token passes the request on, once, as the identity the token carries.
  */
  lemma AuthenticateTokenSpec(cookies: map<string, string>, verify: string -> Option<Claims>)
    ensures SessionCookie !in cookies || cookies[SessionCookie] == "" ==>
      AuthenticateToken(cookies, verify) == Deny(Response(401, Error("Authentication required")))
    ensures SessionCookie in cookies && cookies[SessionCookie] != "" && verify(cookies[SessionCookie]).None? ==>
      AuthenticateToken(cookies, verify) == Deny(Response(403, Error("Invalid or expired token")))
    ensures AuthenticateToken(cookies, verify).Next? <==>
      SessionCookie in cookies && cookies[SessionCookie] != "" && verify(cookies[SessionCookie]).Some?
    ensures AuthenticateToken(cookies, verify).Next? ==>
      Some(AuthenticateToken(cookies, verify).user) == verify(cookies[SessionCookie])
  {
  }

  /** Only the session cookie counts: other cookies make no difference. */
  lemma OtherCookiesIgnored(cookies: map<string, string>, name: string, value: string, verify: string -> Option<Claims>)
    requires name != SessionCookie
    ensures AuthenticateToken(cookies[name := value], verify) == AuthenticateToken(cookies, verify)
  {
  }

  /** `requireAdmin` */
  function RequireAdmin(user: Option<Claims>): (g: Gate)
  {
    if user.None? || !user.value.isAdmin then Deny(Fail(403, "Admin access required")) else Next(user.value)
  }

  /** Only an admin identity passes, unchanged; every other request is the same 403. */
  lemma RequireAdminSpec(user: Option<Claims>)
    ensures RequireAdmin(user).Next? <==> user.Some? && user.value.isAdmin
    ensures RequireAdmin(user).Next? ==> user == Some(RequireAdmin(user).user)
    ensures RequireAdmin(user).Deny? ==> RequireAdmin(user).response == Response(403, Error("Admin access required"))
  {
  }

  /** The admin router's chain, `authenticateToken` then `requireAdmin`. */
  function AdminGate(cookies: map<string, string>, verify: string -> Option<Claims>): Gate
  {
    match AuthenticateToken(cookies, verify)
    case Deny(r) => Deny(r)
    case Next(user) => RequireAdmin(Some(user))
  }

  /**
    An admin route is reached exactly with a verified admin token; without a valid
    token the answer is the authentication failure, before the admin check.
  */
  lemma AdminGateSpec(cookies: map<string, string>, verify: string -> Option<Claims>)
    ensures AdminGate(cookies, verify).Next? <==>
      AuthenticateToken(cookies, verify).Next? && AuthenticateToken(cookies, verify).user.isAdmin
    ensures AdminGate(cookies, verify).Next? ==> AdminGate(cookies, verify) == AuthenticateToken(cookies, verify)
    ensures AuthenticateToken(cookies, verify).Deny? ==> AdminGate(cookies, verify) == AuthenticateToken(cookies, verify)
  {
  }

  /** What `jwt.sign` is given: the payload and the expiry. */
  datatype SignRequest = SignRequest(payload: Claims, expiresIn: string)

  /** `generateToken(user)` before signing. */
  function TokenFor(user: UserRow): SignRequest
  {
    SignRequest(Claims(user.id, user.username, user.isAdmin == 1), "24h")
  }

  /**
    The token names the user's id and name, expires after 24 hours, and grants admin
    exactly to a stored flag of 1; any other integer flag is not admin.
  */
  lemma TokenForSpec(user: UserRow)
    ensures TokenFor(user).payload.id == user.id && TokenFor(user).payload.username == user.username
    ensures TokenFor(user).payload.isAdmin <==> user.isAdmin == 1
    ensures TokenFor(user).expiresIn == "24h"
  {
  }

  /**
    What `jwt.sign` and `jwt.verify` promise for one token while it is fresh: the
    signed token is a non-empty text that verifies to its payload.
  */
  ghost predicate SignedRoundTrip(sign: SignRequest -> string, verify: string -> Option<Claims>, r: SignRequest)
  {
    sign(r) != "" && verify(sign(r)) == Some(r.payload)
  }

  /** A token issued for a user and sent back in the session cookie authenticates as that user. */
  lemma IssuedTokenAuthenticates(user: UserRow, cookies: map<string, string>,
                                 sign: SignRequest -> string, verify: string -> Option<Claims>)
    requires SignedRoundTrip(sign, verify, TokenFor(user))
    ensures AuthenticateToken(cookies[SessionCookie := sign(TokenFor(user))], verify)
      == Next(Claims(user.id, user.username, user.isAdmin == 1))
  {
  }
}
