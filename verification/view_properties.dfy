/** Properties that relate several requests: registering and then logging in, posting
    and then reading back, deleting twice, and what a deleted user's token still opens.
 */
module ViewProperties {
  import opened Errors
  import opened Models
  import opened Crud
  import opened CrudProperties
  import Schema
  import opened CheckAuth
  import opened ValidationProperties
  import opened Views
  import opened Routes
  import Uuids

  /** The token gate reads only the token table. */
  lemma CheckTokenSameTokens(db: Db, db': Db, header: Option<string>)
    requires Valid(db) && Valid(db') && db'.tokens == db.tokens
    ensures CheckToken(db', header) == CheckToken(db, header)
  {
  }

  /** The login body for `name` and `password`. */
  function LoginBody(name: string, password: string): (body: Schema.Body)
    ensures StringIn(body, NameKey) && Views.StringAt(body, NameKey) == name
    ensures StringIn(body, PasswordKey) && Views.StringAt(body, PasswordKey) == password
  {
    map[NameKey := Schema.JString(name), PasswordKey := Schema.JString(password)]
  }

  /** A login with the name of a stored user succeeds exactly when the hasher accepts the
      password against that user's stored value (and the new token's value is free), and
      otherwise answers 401 and changes nothing. */
  lemma LoginWithStoredPassword(db: Db, uid: nat, name: string, password: string, env: Env)
    requires Valid(db) && uid in db.users.rows
    requires Has(db.users.rows[uid], NameKey, Str(name))
    ensures PasswordKey in db.users.rows[uid] && db.users.rows[uid][PasswordKey].Str?
    ensures env.crypto.verifies(db.users.rows[uid][PasswordKey].s, password) && UnknownToken(db, env.uuid) ==>
      LoginPost(db, LoginBody(name, password), env).result == Ok(TokenIssued(Uuids.Text(env.uuid)))
    ensures !env.crypto.verifies(db.users.rows[uid][PasswordKey].s, password) ==>
      LoginPost(db, LoginBody(name, password), env) == Reply(db, Http(401, "invalid password"))
  {
    LoginValidation(LoginBody(name, password));
    StoredRowOk(db, UserModel, uid);
    UserRowFields(db.users.rows[uid]);
    UserNamesUnique(db);
    assert UserNamed(db, name) == Some(uid);
  }

  /** With a hasher that accepts what it hashed, a user that just registered can log in
      with the name and password it registered with, as long as the token generated for
      the login is not already in use. */
  lemma RegisterThenLogin(db: Db, body: Schema.Body, env: Env, env': Env)
    requires Valid(db)
    requires UserPost(db, body, env).result.Ok?
    requires Sound(env.crypto) && env'.crypto == env.crypto
    requires UnknownToken(db, env'.uuid)
    ensures StringIn(body, NameKey) && StringIn(body, PasswordKey)
    ensures LoginPost(UserPost(db, body, env).db, LoginBody(Views.StringAt(body, NameKey), Views.StringAt(body, PasswordKey)), env').result ==
      Ok(TokenIssued(Uuids.Text(env'.uuid)))
  {
    var db1 := UserPost(db, body, env).db;
    var id := db.users.nextId;
    LoginWithStoredPassword(db1, id, Views.StringAt(body, NameKey), Views.StringAt(body, PasswordKey), env');
  }

  /** Registering the same body twice: the second attempt answers 409 and changes nothing. */
  lemma RegisterTwiceConflicts(db: Db, body: Schema.Body, env: Env, env': Env)
    requires Valid(db)
    requires UserPost(db, body, env).result.Ok?
    requires env'.crypto == env.crypto
    ensures var db1 := UserPost(db, body, env).db;
      UserPost(db1, body, env') == Reply(db1, Http(409, "User already exists"))
  {
    var db1 := UserPost(db, body, env).db;
    var id := db.users.nextId;
    assert Has(db1.users.rows[id], NameKey, Str(Views.StringAt(body, NameKey)));
  }

  /** An advertisement just posted reads back, by its new id, as the body the post answered. */
  lemma PostThenGetAdv(db: Db, header: Option<string>, body: Schema.Body, env: Env)
    requires Valid(db)
    requires AdvPost(db, header, body, env).result.Ok?
    ensures var r := AdvPost(db, header, body, env);
      AdvGet(r.db, header, Some(db.advertisements.nextId)) == Reply(r.db, r.result)
  {
    var r := AdvPost(db, header, body, env);
    CheckTokenSameTokens(db, r.db, header);
    var uid := CheckToken(db, header).value.userId;
    CreateAdvValidation(body);
    var id := db.advertisements.nextId;
    assert OwnedBy(r.db.advertisements.rows[id], uid);
  }

  /** Deleting an advertisement a second time answers 404 and changes nothing. */
  lemma DeleteAdvTwice(db: Db, header: Option<string>, advId: nat)
    requires Valid(db)
    requires AdvDelete(db, header, advId).result.Ok?
    ensures var db1 := AdvDelete(db, header, advId).db;
      AdvDelete(db1, header, advId) == Reply(db1, Http(404, "Advertisement not found"))
  {
    var db1 := AdvDelete(db, header, advId).db;
    CheckTokenSameTokens(db, db1, header);
  }

  /** Once a user is deleted, the token it called with opens no protected route. */
  lemma DeletedUserTokenRejected(db: Db, header: Option<string>, env: Env)
    requires Valid(db)
    requires UserDelete(db, header).result.Ok?
    ensures var db1 := UserDelete(db, header).db;
      forall req :: Protected(req) && req.header == header ==>
        Dispatch(db1, req, env) == Reply(db1, Http(401, "invalid token"))
  {
    var db1 := UserDelete(db, header).db;
    var caller := CheckToken(db, header).value;
    TokenValuesUnique(db);
    var u := Uuids.Parse(header.value).value;
    forall t | t in db1.tokens.rows ensures !Has(db1.tokens.rows[t], TokenKey, Uid(u)) {
      assert db1.tokens.rows[t] == db.tokens.rows[t];
      assert t != caller.tokenId;
    }
    assert UnknownToken(db1, u);
  }

  /** The token a login answers opens the protected routes for the user that logged in:
      sent back as the `Authorization` header, the gate finds the new token row and
      identifies that user. */
  lemma IssuedTokenOpens(db: Db, body: Schema.Body, env: Env)
    requires Valid(db) && LoginPost(db, body, env).result.Ok?
    ensures var r := LoginPost(db, body, env);
      && r.result.value == TokenIssued(Uuids.Text(env.uuid))
      && UserNamed(db, Views.StringAt(body, NameKey)).Some?
      && CheckToken(r.db, Some(r.result.value.token)).Ok?
      && CheckToken(r.db, Some(r.result.value.token)).value.userId == UserNamed(db, Views.StringAt(body, NameKey)).value
  {
    var r := LoginPost(db, body, env);
    IssuedTokenOpensAfter(db, Views.StringAt(body, NameKey), Views.StringAt(body, PasswordKey), env, r);
  }

  /** `IssuedTokenOpens` for any reply a login of `name` may give. */
  lemma IssuedTokenOpensAfter(db: Db, name: string, password: string, env: Env, r: Reply)
    requires Valid(db) && Valid(r.db) && LoginOutcome(db, name, password, env, r) && r.result.Ok?
    ensures && r.result.value == TokenIssued(Uuids.Text(env.uuid))
            && UserNamed(db, name).Some?
            && CheckToken(r.db, Some(r.result.value.token)).Ok?
            && CheckToken(r.db, Some(r.result.value.token)).value.userId == UserNamed(db, name).value
  {
    var uid := UserNamed(db, name).value;
    var t := db.tokens.nextId;
    assert r.db.tokens.rows[t] == TokenRow(env.uuid, uid);
    StoredTokenOpens(r.db, t, env.uuid, uid);
  }

  /** A stored token row opens the gate, spelled as its canonical text, for its owner. */
  lemma StoredTokenOpens(db: Db, t: nat, u: Uuids.Uuid, uid: nat)
    requires Valid(db) && t in db.tokens.rows
    requires Has(db.tokens.rows[t], TokenKey, Uid(u)) && OwnedBy(db.tokens.rows[t], uid)
    ensures CheckToken(db, Some(Uuids.Text(u))).Ok?
    ensures CheckToken(db, Some(Uuids.Text(u))).value.userId == uid
  {
    var header := Some(Uuids.Text(u));
    assert Authenticates(db, header, uid);
    CheckTokenAuthenticates(db, header);
  }

  /** The gate reads a header as the UUID it spells: two headers that spell the same UUID,
      in whatever case, hyphenation or bracing, are let through or refused alike and
      identify the same caller. */
  lemma SameUuidSameCaller(db: Db, h1: string, h2: string)
    requires Valid(db) && Uuids.Parse(h1) == Uuids.Parse(h2)
    ensures CheckToken(db, Some(h1)).Ok? <==> CheckToken(db, Some(h2)).Ok?
    ensures CheckToken(db, Some(h1)).Ok? ==>
      CheckToken(db, Some(h1)).value.userId == CheckToken(db, Some(h2)).value.userId
  {
    CheckTokenAuthenticates(db, Some(h1));
    CheckTokenAuthenticates(db, Some(h2));
    if CheckToken(db, Some(h1)).Ok? {
      var u := CheckToken(db, Some(h1)).value.userId;
      assert Authenticates(db, Some(h1), u);
      assert Authenticates(db, Some(h2), u);
    }
  }

  /** A header in the `Bearer <token>` form spells no UUID, so the filter on the `UUID`
      column raises a data error that escapes the handler: the request fails with an
      uncaught store error, not with 401. */
  lemma BearerHeaderEscapes(db: Db, token: string)
    requires Valid(db)
    ensures CheckToken(db, Some("Bearer " + token)) == Fail(Uncaught(Database(DataError)))
  {
    BearerSpellsNoUuid(token);
  }

  lemma BearerSpellsNoUuid(token: string)
    ensures Uuids.Parse("Bearer " + token).None?
  {
    var h := "Bearer " + token;
    assert h[0] == 'B' && h[1] == 'e' && h[2] == 'a' && h[3] == 'r';
    assert Uuids.AfterByte(h, 0) == h[2..];
    assert Uuids.ParseBytes(h[2..], 1).None?;
  }

  /** A patch with an empty body validates, rewrites nothing, and answers the caller's
      summary. */
  lemma EmptyUserPatchIsNoOp(db: Db, header: Option<string>)
    requires Valid(db) && CheckToken(db, header).Ok?
    ensures var r := UserPatch(db, header, map[]);
      && r.db == db && r.result.Ok?
      && SummaryOf(db, CheckToken(db, header).value.userId, r.result.value)
  {
    var uid := CheckToken(db, header).value.userId;
    PatchUserValidation(map[]);
    assert UserPatchPayload(map[], Verbatim) == map[];
    UpdateEmptyIsNoOp(db, UserModel, uid);
  }

  /** `GET /user` lists exactly the advertisement ids that `GET /adv/<id>` shows the same
      caller. */
  lemma OwnListMatchesGet(db: Db, header: Option<string>, advId: nat)
    requires Valid(db) && CheckToken(db, header).Ok?
    ensures UserGet(db, header).result.Ok? && UserGet(db, header).result.value.UserDetail?
    ensures advId in UserGet(db, header).result.value.user.advertisements <==>
      AdvGet(db, header, Some(advId)).result.Ok?
  {
    CheckTokenAuthenticates(db, header);
  }

  /** An advertisement another user owns can be neither read, nor patched with a valid
      body, nor deleted: each answers 403 and changes nothing. */
  lemma OthersAdvForbidden(db: Db, header: Option<string>, advId: nat, body: Schema.Body)
    requires Validate(Schema.PatchAdv, body).Ok?
    requires Valid(db) && CheckToken(db, header).Ok?
    requires advId in db.advertisements.rows
    requires !OwnedBy(db.advertisements.rows[advId], CheckToken(db, header).value.userId)
    ensures AdvGet(db, header, Some(advId)) == Reply(db, Http(403, "access denied"))
    ensures AdvPatch(db, header, advId, body) == Reply(db, Http(403, "access denied"))
    ensures AdvDelete(db, header, advId) == Reply(db, Http(403, "access denied"))
  {
  }

  /** `PATCH /adv/<id>` validates the body before it looks the advertisement up: a body
      without `author` answers 400 whether or not the advertisement exists. */
  lemma PatchAdvValidatesFirst(db: Db, header: Option<string>, advId: nat, body: Schema.Body)
    requires Valid(db) && CheckToken(db, header).Ok?
    requires AuthorKey !in body
    ensures AdvPatch(db, header, advId, body) ==
      Reply(db, Fail(HttpError(400, Invalid(Issue("missing", AuthorKey, "Field required")))))
  {
    PatchAdvValidation(body);
  }
}
