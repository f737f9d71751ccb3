/** The URL rules of `main.py`: which handler answers which method and path. Every route
    but `POST /login` and `POST /user` sits behind the bearer-token gate.
 */
module Routes {
  import opened Errors
  import opened Models
  import Schema
  import opened CheckAuth
  import opened Views
  import Uuids

  /** A request the URL rules accept, with the `Authorization` header where the handler
      reads it and the JSON body where it reads one. */
  datatype Request =
    | PostLogin(body: Schema.Body)
    | PostUser(body: Schema.Body)
    | GetUser(header: Option<string>)
    | PatchUser(header: Option<string>, body: Schema.Body)
    | DeleteUser(header: Option<string>)
    | GetAdv(header: Option<string>, advId: nat)
    | PostAdv(header: Option<string>, body: Schema.Body)
    | PatchAdv(header: Option<string>, advId: nat, body: Schema.Body)
    | DeleteAdv(header: Option<string>, advId: nat)

  /** The handler is wrapped in `check_token`. */
  predicate Protected(req: Request) {
    !(req.PostLogin? || req.PostUser?)
  }

  /** No stored token holds `value`. */
  ghost predicate UnknownToken(db: Db, value: Uuids.Uuid) {
    forall t :: t in db.tokens.rows ==> !Has(db.tokens.rows[t], TokenKey, Uid(value))
  }

  /** Route a request to its handler. */
  function Dispatch(db: Db, req: Request, env: Env): (r: Reply)
    requires Valid(db)
    ensures Valid(r.db)
    ensures r.result.Fail? ==> r.db == db
    ensures Protected(req) && req.header.None? ==> r == Reply(db, Http(401, "token not found"))
    ensures Protected(req) && req.header.Some? && Uuids.Parse(req.header.value).None? ==>
      r == Reply(db, Fail(Uncaught(Database(DataError))))
    ensures Protected(req) && req.header.Some? && Uuids.Parse(req.header.value).Some? ==>
      UnknownToken(db, Uuids.Parse(req.header.value).value) ==> r == Reply(db, Http(401, "invalid token"))
    ensures Protected(req) && r.result.Ok? ==> exists u :: Authenticates(db, req.header, u)
  {
    CheckTokenAuthenticates(db, if Protected(req) then req.header else None);
    match req
    case PostLogin(body) => LoginPost(db, body, env)
    case PostUser(body) => UserPost(db, body, env)
    case GetUser(header) => UserGet(db, header)
    case PatchUser(header, body) => UserPatch(db, header, body)
    case DeleteUser(header) => UserDelete(db, header)
    case GetAdv(header, advId) => AdvGet(db, header, Some(advId))
    case PostAdv(header, body) => AdvPost(db, header, body, env)
    case PatchAdv(header, advId, body) => AdvPatch(db, header, advId, body)
    case DeleteAdv(header, advId) => AdvDelete(db, header, advId)
  }
}
