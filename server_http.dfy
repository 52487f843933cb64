/**
  What the server's routes read from a request and write to a response: the
  identity a token carries, JSON values where their truthiness matters, and the
  answer bodies the routes send.
*/
module ServerHttp {
  import opened Wrappers
  import opened ServerStore

  /** The identity a session token carries and `req.user` holds once it is verified. */
  datatype Claims = Claims(id: nat, username: string, isAdmin: bool)

  /** A JSON value from a request body; `Undefined` is a property that is not there. */
  datatype JsValue = Undefined | Null | Bool(b: bool) | Num(n: int) | Str(s: string) | Arr(elements: seq<JsValue>) | Obj

  /** JavaScript truthiness (`if (v)`). */
  predicate Truthy(v: JsValue)
  {
    match v
    case Undefined => false
    case Null => false
    case Bool(b) => b
    case Num(n) => n != 0
    case Str(s) => s != ""
    case Arr(_) => true
    case Obj => true
  }

  /** A text field that holds a non-empty string; `!field` is its negation. */
  predicate Given(field: Option<string>)
  {
    field.Some? && field.value != ""
  }

  /** The JSON bodies the routes answer with. */
  datatype Body =
    | Error(error: string)
    | Done(message: string)
    | CreatedUser(id: nat, username: string, isAdmin: JsValue)
    | CreatedDocument(document: DocumentRow)
    | UserList(users: seq<UserSummary>)
    | DocumentList(documents: seq<DocumentRow>)
    | OneDocument(document: DocumentRow)
    | Username(username: string)
    | Password(password: string)
    | LoggedIn(user: Claims)
    | Authenticated(user: Claims)
    /** Not JSON: the HTML page Express's default error handler renders for an error passed to `next`. */
    | ErrorPage(message: string)

  datatype Response = Response(status: nat, body: Body)

  /** `res.status(status).json({ error })` */
  function Fail(status: nat, error: string): Response
  {
    Response(status, Error(error))
  }
}
