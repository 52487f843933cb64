/**
  The session routes (server/app/routes/auth.js): log in, log out and ask who is
  logged in, with the cookie each one sets or clears in the browser.
*/
module AuthRoutes {
  import opened Wrappers
  import opened ServerStore
  import opened ServerHttp
  import opened AuthMiddleware

  datatype CookieOptions = CookieOptions(httpOnly: bool, secure: bool, sameSite: string, maxAge: nat)

  /** What a reply does to the browser's cookies. */
  datatype CookieEffect = NoCookie | SetCookie(name: string, value: string, options: CookieOptions) | ClearCookie(name: string)

  datatype Reply = Reply(response: Response, cookie: CookieEffect)

  /** One day in milliseconds, the session cookie's `maxAge`. */
  const DayMillis: nat := 24 * 60 * 60 * 1000

  /** The name the login route gives its cookie. */
  const LoginCookieAsWritten: string := "auth-token"

  /** The cookies a browser holds after a reply. */
  function Apply(jar: map<string, string>, effect: CookieEffect): map<string, string>
  {
    match effect
    case NoCookie => jar
    case SetCookie(name, value, _) => jar[name := value]
    case ClearCookie(name) => jar - {name}
  }

  /** The single answer to a login that names no user or the wrong password. */
  const InvalidCredentials: Reply := Reply(Response(401, Error("Invalid credentials")), NoCookie)

  /**
    The login handler, with the name of the cookie it sets. `compare` is
    `bcrypt.compare`, `sign` is `jwt.sign` under the server's secret, and
    `production` is whether `NODE_ENV` is `"production"`.
  */
  function LoginWith(cookieName: string, users: seq<UserRow>, username: Option<string>, password: Option<string>,
                     compare: (string, string) -> bool, sign: SignRequest -> string, production: bool): Reply
  {
    if !Given(username) || !Given(password) then Reply(Fail(400, "Username or password required"), NoCookie)
    else
      match UserByName(users, username.value)
      case None => InvalidCredentials
      case Some(user) =>
        if !compare(password.value, user.passwordHash) then InvalidCredentials
        else
          Reply(Response(200, LoggedIn(Claims(user.id, user.username, user.isAdmin == 1))),
            SetCookie(cookieName, sign(TokenFor(user)), CookieOptions(true, production, "strict", DayMillis)))
  }

  /** `POST /login` as written: the token goes into a cookie named `auth-token`. */
  function LoginAsWritten(users: seq<UserRow>, username: Option<string>, password: Option<string>,
                          compare: (string, string) -> bool, sign: SignRequest -> string, production: bool): Reply
  {
    LoginWith(LoginCookieAsWritten, users, username, password, compare, sign, production)
  }

  /** `POST /login` with the token in the cookie the middleware reads. */
  function Login(users: seq<UserRow>, username: Option<string>, password: Option<string>,
                 compare: (string, string) -> bool, sign: SignRequest -> string, production: bool): Reply
  {
    LoginWith(SessionCookie, users, username, password, compare, sign, production)
  }

  /** A missing or empty name or password is a 400, whatever the users table holds. */
  lemma LoginValidatesFirst(cookieName: string, users: seq<UserRow>, others: seq<UserRow>,
                            username: Option<string>, password: Option<string>,
                            compare: (string, string) -> bool, sign: SignRequest -> string, production: bool)
    requires !Given(username) || !Given(password)
    ensures LoginWith(cookieName, users, username, password, compare, sign, production)
      == LoginWith(cookieName, others, username, password, compare, sign, production)
    ensures LoginWith(cookieName, users, username, password, compare, sign, production)
      == Reply(Response(400, Error("Username or password required")), NoCookie)
  {
  }

  /**
    A login is refused with a 401 exactly when no user has that name or the password
    does not match, and the two refusals are the same reply, so a client cannot tell
    which it was.
  */
  lemma LoginRefusal(cookieName: string, users: seq<UserRow>, username: Option<string>, password: Option<string>,
                     compare: (string, string) -> bool, sign: SignRequest -> string, production: bool)
    requires Given(username) && Given(password)
    ensures var r := LoginWith(cookieName, users, username, password, compare, sign, production);
      (r.response.status == 401 <==>
        UserByName(users, username.value).None? || !compare(password.value, UserByName(users, username.value).value.passwordHash))
      && (r.response.status == 401 ==> r == InvalidCredentials)
  {
  }

  /**
    A successful login answers with the user's id and name and whether their stored
    flag is exactly 1, and sets an http-only, same-site-strict cookie holding the
    user's signed token for one day (sent over https only in production).
  */
  lemma LoginSuccess(cookieName: string, users: seq<UserRow>, username: Option<string>, password: Option<string>,
                     compare: (string, string) -> bool, sign: SignRequest -> string, production: bool)
    requires Given(username) && Given(password)
    requires UserByName(users, username.value).Some?
    requires compare(password.value, UserByName(users, username.value).value.passwordHash)
    ensures var user := UserByName(users, username.value).value;
      var r := LoginWith(cookieName, users, username, password, compare, sign, production);
      r.response == Response(200, LoggedIn(Claims(user.id, username.value, user.isAdmin == 1)))
      && r.cookie.SetCookie? && r.cookie.name == cookieName && r.cookie.value == sign(TokenFor(user))
      && r.cookie.options.httpOnly && r.cookie.options.sameSite == "strict"
      && r.cookie.options.maxAge == 86400000 && r.cookie.options.secure == production
  {
  }

  /** `POST /logout`: clears the session cookie and answers success, logged in or not. */
  function Logout(): (r: Reply)
    ensures r.response.status == 200 && r.cookie == ClearCookie(SessionCookie)
  {
    Reply(Response(200, Done("Logged out successfully")), ClearCookie(SessionCookie))
  }

  /** `GET /check` behind `authenticateToken`: echoes the identity the token carries. */
  function Check(cookies: map<string, string>, verify: string -> Option<Claims>): Response
  {
    match AuthenticateToken(cookies, verify)
    case Deny(r) => r
    case Next(user) => Response(200, Authenticated(user))
  }

  /** `/check` answers 200 exactly for a verified token, with that token's id, name and admin flag. */
  lemma CheckSpec(cookies: map<string, string>, verify: string -> Option<Claims>)
    ensures Check(cookies, verify).status == 200 <==> AuthenticateToken(cookies, verify).Next?
    ensures Check(cookies, verify).status == 200 ==>
      Check(cookies, verify).body == Authenticated(verify(cookies[SessionCookie]).value)
    ensures Check(cookies, verify).status != 200 ==> Check(cookies, verify).status in {401, 403}
  {
  }

  // ---------------------------------------------------------------- the cookie name

  /**
    As written, the cookie a login sets is never the one the middleware reads: a
    browser's session is exactly as authenticated after the login as before it, so
    a browser that held no session stays at 401.
  */
  lemma LoginCookieIgnored(jar: map<string, string>, users: seq<UserRow>, username: Option<string>,
                           password: Option<string>, compare: (string, string) -> bool,
                           sign: SignRequest -> string, production: bool, verify: string -> Option<Claims>)
    ensures var r := LoginAsWritten(users, username, password, compare, sign, production);
      AuthenticateToken(Apply(jar, r.cookie), verify) == AuthenticateToken(jar, verify)
  {
    var r := LoginAsWritten(users, username, password, compare, sign, production);
    if r.cookie.SetCookie? {
      OtherCookiesIgnored(jar, LoginCookieAsWritten, r.cookie.value, verify);
    }
  }

  /** As written, logging out leaves the token the login stored in the browser. */
  lemma LogoutKeepsLoginCookie(jar: map<string, string>, users: seq<UserRow>, username: Option<string>,
                               password: Option<string>, compare: (string, string) -> bool,
                               sign: SignRequest -> string, production: bool)
    ensures var r := LoginAsWritten(users, username, password, compare, sign, production);
      r.cookie.SetCookie? ==>
        var after := Apply(Apply(jar, r.cookie), Logout().cookie);
        LoginCookieAsWritten in after && after[LoginCookieAsWritten] == r.cookie.value
  {
  }

  /**
    With the session cookie's name, a successful login authenticates the browser as
    the user who logged in, and `/check` reports that user.
  */
  lemma LoginAuthenticates(jar: map<string, string>, users: seq<UserRow>, username: Option<string>,
                           password: Option<string>, compare: (string, string) -> bool,
                           sign: SignRequest -> string, production: bool, verify: string -> Option<Claims>)
    requires Login(users, username, password, compare, sign, production).response.status == 200
    requires SignedRoundTrip(sign, verify, TokenFor(UserByName(users, username.value).value))
    ensures var user := UserByName(users, username.value).value;
      var after := Apply(jar, Login(users, username, password, compare, sign, production).cookie);
      AuthenticateToken(after, verify) == Next(Claims(user.id, user.username, user.isAdmin == 1))
      && Check(after, verify) == Response(200, Authenticated(Claims(user.id, user.username, user.isAdmin == 1)))
  {
    var user := UserByName(users, username.value).value;
    IssuedTokenAuthenticates(user, jar, sign, verify);
  }

  /** With the session cookie's name, logging out after a login ends the session. */
  lemma LogoutEndsSession(jar: map<string, string>, users: seq<UserRow>, username: Option<string>,
                          password: Option<string>, compare: (string, string) -> bool,
                          sign: SignRequest -> string, production: bool, verify: string -> Option<Claims>)
    ensures var r := Login(users, username, password, compare, sign, production);
      AuthenticateToken(Apply(Apply(jar, r.cookie), Logout().cookie), verify)
        == Deny(Response(401, Error("Authentication required")))
  {
  }
}
