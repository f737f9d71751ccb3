/** The resource handlers of `view_user_adv.py`, each a transition of the store.

    A handler answers a `Reply`: the store after the request and either a response body or
    the failure that ends the request. A failing request commits nothing, so its reply
    carries the store it was given. The clock and the UUID generator are the `now` and
    `uuid` of an `Env`, and so is the password hasher.
 */
module Views {
  import opened Errors
  import opened Models
  import opened Crud
  import opened CrudProperties
  import Schema
  import opened CheckAuth
  import opened ValidationProperties
  import Uuids

  /** What the server takes from outside the request: the hasher, the time `now()`
      answers, and the value the next `gen_random_uuid()` answers. */
  datatype Env = Env(crypto: Crypto, now: int, uuid: Uuids.Uuid)

  function Defaults(env: Env): ServerDefaults {
    ServerDefaults(env.now, env.uuid)
  }

  /** The JSON bodies the handlers answer with on success. A token is answered as the text
      of its UUID. */
  datatype Response =
    | TokenIssued(token: string)
    | UserSummary(id: nat, name: string)
    | UserDetail(user: UserView)
    | AdvDetail(adv: AdvView)
    | AdvSummary(author: string, title: string)
    | AdvList(advs: set<AdvView>)
    | StatusOk

  datatype Reply = Reply(db: Db, result: Result<Response>)

  /** What committing `row` as row `id` of `m` answers: success exactly when the store
      accepts the row; 409 "<Class> already exists" when a unique index refuses it; any
      other store error escapes. */
  ghost predicate CommitOutcome(db: Db, m: Model, id: nat, row: Row, result: Result<Response>) {
    && row.Keys == ColumnNames(m)
    && (result.Ok? <==> Violation(db, m, id, row).None?)
    && (Violation(db, m, id, row) == Some(UniqueViolation) ==>
          result == Fail(HttpError(409, Message(ClassName(m) + " already exists"))))
    && (forall e :: Violation(db, m, id, row) == Some(e) && e != UniqueViolation ==>
          result == Fail(Uncaught(Database(e))))
  }

  /** `update_item` commits exactly when the store accepts the stored row with the payload
      laid over it, and fails as that commit does. */
  lemma UpdateCommits(db: Db, m: Model, id: nat, payload: Row)
    requires id in db.Of(m).rows && RowOk(m, db.Of(m).rows[id]) && payload.Keys <= ColumnNames(m)
    ensures (db.Of(m).rows[id] + payload).Keys == ColumnNames(m)
    ensures var r := UpdateItem(db, m, id, payload);
      && (r.Ok? <==> Violation(db, m, id, db.Of(m).rows[id] + payload).None?)
      && (r.Fail? ==> r == AddItem(db, m, id, db.Of(m).rows[id] + payload))
  {
  }

  /** The row payload of validated fields: a string, or NULL for an explicit null. */
  function ToRow(fields: Schema.Fields): (row: Row)
    ensures row.Keys == fields.Keys
  {
    map k | k in fields :: if fields[k].Some? then Str(fields[k].value) else Null
  }

  /** The text of field `k` of the body when it is a string, and "" otherwise. */
  function StringAt(body: Schema.Body, k: string): string {
    if StringIn(body, k) then body[k].s else ""
  }

  /** The payload a login hands to `create_item(Token, ...)`. */
  function TokenPayload(uid: nat): (p: Row)
    ensures p.Keys <= ColumnNames(TokenModel)
  {
    ColumnNamesOf(TokenModel);
    map[UserIdKey := Ref(uid)]
  }

  /** The row a login adds to the token table. */
  function TokenRow(value: Uuids.Uuid, uid: nat): (row: Row)
    ensures row.Keys == ColumnNames(TokenModel)
  {
    ColumnNamesOf(TokenModel);
    map[TokenKey := Uid(value), UserIdKey := Ref(uid)]
  }

  /** The row `POST /user` adds to the user table. */
  function UserRow(name: string, email: string, passwordHash: string): (row: Row)
    ensures row.Keys == ColumnNames(UserModel)
  {
    ColumnNamesOf(UserModel);
    map[NameKey := Str(name), EmailKey := Str(email), PasswordKey := Str(passwordHash)]
  }

  /** The values of a new user row fit their `String(100)` columns. */
  predicate UserRowFits(name: string, email: string, passwordHash: string) {
    |name| <= 100 && |email| <= 100 && |passwordHash| <= 100
  }

  /** The cell an optional JSON string becomes: its text, or NULL for a null. */
  function CellOf(j: Schema.Json): Value {
    if j.JString? then Str(j.s) else Null
  }

  /** The payload `POST /adv` hands to `create_item`: the validated fields and the
      caller's id. */
  function AdvPayload(author: string, title: string, description: Value, uid: nat): (p: Row)
    ensures p.Keys <= ColumnNames(AdvertisementModel)
  {
    ColumnNamesOf(AdvertisementModel);
    map[AuthorKey := Str(author), TitleKey := Str(title), DescriptionKey := description, UserIdKey := Ref(uid)]
  }

  /** The row `POST /adv` adds to the advertisement table. */
  function AdvRow(author: string, title: string, description: Value, now: int, uid: nat): (row: Row)
    ensures row.Keys == ColumnNames(AdvertisementModel)
  {
    ColumnNamesOf(AdvertisementModel);
    map[AuthorKey := Str(author), TitleKey := Str(title), DescriptionKey := description,
        RegistrationTimeKey := Time(now), UserIdKey := Ref(uid)]
  }

  /** The values of a new advertisement row fit their `String(100)` and `String(500)`
      columns. */
  predicate AdvRowFits(author: string, title: string, description: Value) {
    |author| <= 100 && |title| <= 100 && (description.Str? ==> |description.s| <= 500)
  }

  /** The user called `name`, if any. */
  function UserNamed(db: Db, name: string): (r: Option<nat>)
    requires Valid(db)
    ensures r.None? <==> forall u :: u in db.users.rows ==> !Has(db.users.rows[u], NameKey, Str(name))
    ensures r.Some? ==> r.value in db.users.rows && Has(db.users.rows[r.value], NameKey, Str(name))
  {
    UserNamesUnique(db);
    FindBy(db.users, NameKey, Str(name))
  }

  /** `name`, `password` are the credentials of user `uid`: the name is stored on that user
      and the hasher accepts the password against the stored hash. */
  ghost predicate Credentials(db: Db, crypto: Crypto, name: string, password: string, uid: nat) {
    && uid in db.users.rows
    && Has(db.users.rows[uid], NameKey, Str(name))
    && PasswordKey in db.users.rows[uid] && db.users.rows[uid][PasswordKey].Str?
    && crypto.verifies(db.users.rows[uid][PasswordKey].s, password)
  }

  // ----- POST /login -----

  /** What a login with `name` and `password` answers: 404 for an unknown name, 401 when
      the hasher rejects the password against the stored hash; otherwise a new token for
      that user, refused with 409 exactly when its value is already stored. */
  ghost predicate LoginOutcome(db: Db, name: string, password: string, env: Env, r: Reply)
    requires Valid(db)
  {
    && (UserNamed(db, name).None? ==> r == Reply(db, Http(404, "user not found")))
    && (UserNamed(db, name).Some? ==>
          var uid := UserNamed(db, name).value;
          && (!Credentials(db, env.crypto, name, password, uid) ==> r == Reply(db, Http(401, "invalid password")))
          && (Credentials(db, env.crypto, name, password, uid) ==>
                && (r.result.Ok? <==> forall t :: t in db.tokens.rows ==> !Has(db.tokens.rows[t], TokenKey, Uid(env.uuid)))
                && (r.result.Fail? ==> r.result == Http(409, "Token already exists"))))
    && (r.result.Ok? ==>
          && r.result.value == TokenIssued(Uuids.Text(env.uuid))
          && UserNamed(db, name).Some?
          && var uid := UserNamed(db, name).value;
          && Credentials(db, env.crypto, name, password, uid)
          && r.db == db.(tokens := Put(db.tokens, db.tokens.nextId, TokenRow(env.uuid, uid))))
  }

  /** `NewLogin.post`: validate, look the user up by name, check the password, and issue a
      token. */
  function LoginPost(db: Db, body: Schema.Body, env: Env): (r: Reply)
    requires Valid(db)
    ensures Valid(r.db)
    ensures r.result.Fail? ==> r.db == db
    ensures Validate(Schema.Login, body).Fail? ==> r == Reply(db, Fail(Validate(Schema.Login, body).failure))
    ensures Validate(Schema.Login, body).Ok? ==>
      && StringIn(body, NameKey) && StringIn(body, PasswordKey)
      && LoginOutcome(db, StringAt(body, NameKey), StringAt(body, PasswordKey), env, r)
    ensures r.result.Ok? ==> Validate(Schema.Login, body).Ok?
  {
    LoginValidation(body);
    match Validate(Schema.Login, body)
    case Fail(f) => Reply(db, Fail(f))
    case Ok(fields) =>
      assert fields[NameKey].value == StringAt(body, NameKey) && fields[PasswordKey].value == StringAt(body, PasswordKey);
      LoginAs(db, fields[NameKey].value, fields[PasswordKey].value, env)
  }

  /** The login after validation: look the user up by name, check the password, issue a
      token. */
  function LoginAs(db: Db, name: string, password: string, env: Env): (r: Reply)
    requires Valid(db)
    ensures Valid(r.db)
    ensures r.result.Fail? ==> r.db == db
    ensures LoginOutcome(db, name, password, env, r)
  {
    match UserNamed(db, name)
    case None => Reply(db, Http(404, "user not found"))
    case Some(uid) =>
      StoredRowOk(db, UserModel, uid);
      UserRowFields(db.users.rows[uid]);
      if env.crypto.verifies(db.users.rows[uid][PasswordKey].s, password) then
        LoginIssue(db, uid, env)
      else
        Reply(db, Http(401, "invalid password"))
  }

  /** The token-issuing tail of the login: `create_item(Token, ...)`, the repeated
      `add_item` of the same token, and its value. */
  function LoginIssue(db: Db, uid: nat, env: Env): (r: Reply)
    requires Valid(db) && uid in db.users.rows
    ensures Valid(r.db)
    ensures r.result.Fail? ==> r.db == db
    ensures r.result.Ok? ==> r.result.value == TokenIssued(Uuids.Text(env.uuid))
    ensures r.result.Ok? ==> r.db == db.(tokens := Put(db.tokens, db.tokens.nextId, TokenRow(env.uuid, uid)))
    ensures r.result.Ok? <==> forall t :: t in db.tokens.rows ==> !Has(db.tokens.rows[t], TokenKey, Uid(env.uuid))
    ensures r.result.Fail? ==> r.result == Http(409, "Token already exists")
  {
    var payload := TokenPayload(uid);
    StoredRowsBelowNext(db, TokenModel);
    TokenIssueChecks(db, uid, env);
    match CreateItem(db, TokenModel, payload, Defaults(env))
    case Fail(f) => Reply(db, Fail(f))
    case Ok(c) =>
      CreateItemKeepsValid(db, TokenModel, payload, Defaults(env));
      AddStoredRowIsNoOp(c.db, TokenModel, c.id);
      var again := AddItem(c.db, TokenModel, c.id, c.db.tokens.rows[c.id]);
      var db' := again.value;
      Reply(db', Ok(TokenIssued(Uuids.Text(db'.tokens.rows[c.id][TokenKey].u))))
  }

  /** What `create_item(Token, {"user_id": uid})` does: it stores the row with the
      generated value, and is refused, by the unique index, only when a stored token already
      holds that value. */
  lemma TokenIssueChecks(db: Db, uid: nat, env: Env)
    requires uid in db.users.rows && db.tokens.nextId !in db.tokens.rows
    ensures var r := CreateItem(db, TokenModel, TokenPayload(uid), Defaults(env));
      && (r.Ok? <==> forall t :: t in db.tokens.rows ==> !Has(db.tokens.rows[t], TokenKey, Uid(env.uuid)))
      && (r.Ok? ==> r.value.id == db.tokens.nextId)
      && (r.Ok? ==> r.value.db == db.(tokens := Put(db.tokens, db.tokens.nextId, TokenRow(env.uuid, uid))))
      && (r.Fail? ==> r == Http(409, "Token already exists"))
  {
    var row := TokenRow(env.uuid, uid);
    var id := db.tokens.nextId;
    var r := CreateItem(db, TokenModel, TokenPayload(uid), Defaults(env));
    var v := Violation(db, TokenModel, id, row);
    assert && (r.Ok? <==> v.None?)
           && (v.None? ==> r == Ok(Created(db.(tokens := Put(db.tokens, id, row)), id)))
           && (v == Some(UniqueViolation) ==> r == Http(409, "Token already exists")) by {
      TokenNewRow(uid, env);
      CreateItemByViolation(db, TokenModel, TokenPayload(uid), Defaults(env));
      assert Stored(db, TokenModel, id, row) == db.(tokens := Put(db.tokens, id, row));
      AlreadyExistsText(TokenModel);
    }
    assert && (v.None? <==> forall t :: t in db.tokens.rows ==> !Has(db.tokens.rows[t], TokenKey, Uid(env.uuid)))
           && (v.Some? ==> v == Some(UniqueViolation)) by {
      TokenRowViolation(db, uid, env.uuid);
    }
  }

  /** The row `create_item(Token, {"user_id": uid})` inserts: the generated value and the
      owner. */
  lemma TokenNewRow(uid: nat, env: Env)
    ensures NewRow(TokenModel, TokenPayload(uid), Defaults(env)) == TokenRow(env.uuid, uid)
  {
    ColumnNamesOf(TokenModel);
  }

  lemma StoredRowsBelowNext(db: Db, m: Model)
    requires Valid(db)
    ensures db.Of(m).nextId !in db.Of(m).rows
  {
    ValidTable(db, m);
  }

  /** A new token row for an existing user breaks a constraint only by repeating a token
      value, and then the unique index rejects it. */
  lemma TokenRowViolation(db: Db, uid: nat, value: Uuids.Uuid)
    requires uid in db.users.rows && db.tokens.nextId !in db.tokens.rows
    ensures TokenRow(value, uid).Keys == ColumnNames(TokenModel)
    ensures Violation(db, TokenModel, db.tokens.nextId, TokenRow(value, uid)).None? <==>
      forall t :: t in db.tokens.rows ==> !Has(db.tokens.rows[t], TokenKey, Uid(value))
    ensures Violation(db, TokenModel, db.tokens.nextId, TokenRow(value, uid)).Some? ==>
      Violation(db, TokenModel, db.tokens.nextId, TokenRow(value, uid)) == Some(UniqueViolation)
  {
    ColumnNamesOf(TokenModel);
    var row := TokenRow(value, uid);
    var cs := Columns(TokenModel);
    assert RowOk(TokenModel, row) by {
      assert forall c :: c in cs ==> c == cs[0] || c == cs[1];
    }
    FreshRowViolation(db, TokenModel, db.tokens.nextId, row) by {
      assert forall c :: c in cs ==> c == cs[0] || c == cs[1];
    }
  }

  // ----- /user -----

  /** What `create_item(User, ...)` does with a new user row: a value too long for its
      column is a store error that escapes; otherwise the row is refused, with 409, exactly
      when the name is taken. */
  lemma UserCreateChecks(db: Db, name: string, email: string, passwordHash: string, d: ServerDefaults)
    requires db.users.nextId !in db.users.rows
    ensures var row := UserRow(name, email, passwordHash);
      var r := CreateItem(db, UserModel, row, d);
      && (r.Ok? <==>
            UserRowFits(name, email, passwordHash) &&
            forall u :: u in db.users.rows ==> !Has(db.users.rows[u], NameKey, Str(name)))
      && (r.Ok? ==> r.value.id == db.users.nextId)
      && (r.Ok? ==> r.value.db == db.(users := Put(db.users, db.users.nextId, row)))
      && (!UserRowFits(name, email, passwordHash) ==> r == Fail(Uncaught(Database(DataError))))
      && (UserRowFits(name, email, passwordHash) && r.Fail? ==> r == Http(409, "User already exists"))
  {
    var row := UserRow(name, email, passwordHash);
    var id := db.users.nextId;
    var r := CreateItem(db, UserModel, row, d);
    var v := Violation(db, UserModel, id, row);
    var fits := UserRowFits(name, email, passwordHash);
    assert && (r.Ok? <==> v.None?)
           && (v.None? ==> r == Ok(Created(db.(users := Put(db.users, id, row)), id)))
           && (v == Some(UniqueViolation) ==> r == Http(409, "User already exists"))
           && (v == Some(DataError) ==> r == Fail(Uncaught(Database(DataError)))) by {
      UserNewRow(name, email, passwordHash, d);
      CreateItemByViolation(db, UserModel, row, d);
      assert Stored(db, UserModel, id, row) == db.(users := Put(db.users, id, row));
      AlreadyExistsText(UserModel);
    }
    assert fits ==> && (v.None? <==> forall u :: u in db.users.rows ==> !Has(db.users.rows[u], NameKey, Str(name)))
                    && (v.Some? ==> v == Some(UniqueViolation)) by {
      if fits {
        UserRowOk(name, email, passwordHash);
        UserRowUnique(db, name, email, passwordHash);
      }
    }
    assert !fits ==> v == Some(DataError) by {
      if !fits {
        UserRowTooLong(db, name, email, passwordHash);
      }
    }
  }

  lemma UserNewRow(name: string, email: string, passwordHash: string, d: ServerDefaults)
    ensures NewRow(UserModel, UserRow(name, email, passwordHash), d) == UserRow(name, email, passwordHash)
  {
    ColumnNamesOf(UserModel);
  }

  lemma UserRowOk(name: string, email: string, passwordHash: string)
    requires UserRowFits(name, email, passwordHash)
    ensures RowOk(UserModel, UserRow(name, email, passwordHash))
  {
    var cs := Columns(UserModel);
    assert forall c :: c in cs ==> c == cs[0] || c == cs[1] || c == cs[2];
  }

  lemma UserRowTooLong(db: Db, name: string, email: string, passwordHash: string)
    requires !UserRowFits(name, email, passwordHash)
    ensures Violation(db, UserModel, db.users.nextId, UserRow(name, email, passwordHash)) == Some(DataError)
  {
    var row := UserRow(name, email, passwordHash);
    var cs := Columns(UserModel);
    var c := if |name| > 100 then cs[0] else if |email| > 100 then cs[1] else cs[2];
    assert c in cs && !TypeFits(c.kind, row[c.name]);
  }

  /** A new user row that fits its columns is refused only by the unique index on `name`,
      and exactly when another user has that name. */
  lemma UserRowUnique(db: Db, name: string, email: string, passwordHash: string)
    requires db.users.nextId !in db.users.rows
    requires RowOk(UserModel, UserRow(name, email, passwordHash))
    ensures var v := Violation(db, UserModel, db.users.nextId, UserRow(name, email, passwordHash));
      && (v.None? <==> forall u :: u in db.users.rows ==> !Has(db.users.rows[u], NameKey, Str(name)))
      && (v.Some? ==> v == Some(UniqueViolation))
  {
    var row := UserRow(name, email, passwordHash);
    var cs := Columns(UserModel);
    FreshRowViolation(db, UserModel, db.users.nextId, row) by {
      assert forall c :: c in cs ==> c == cs[0] || c == cs[1] || c == cs[2];
    }
  }

  /** `NewUser.post`: register a user under a hash of the password; answer its id and name. */
  function UserPost(db: Db, body: Schema.Body, env: Env): (r: Reply)
    requires Valid(db)
    ensures Valid(r.db)
    ensures r.result.Fail? ==> r.db == db
    ensures Validate(Schema.CreateUser, body).Fail? ==>
      r == Reply(db, Fail(Validate(Schema.CreateUser, body).failure))
    ensures Validate(Schema.CreateUser, body).Ok? ==>
      && StringIn(body, NameKey) && StringIn(body, EmailKey) && StringIn(body, PasswordKey)
      && var hash := env.crypto.hash(StringAt(body, PasswordKey));
      && (r.result.Ok? <==>
            UserRowFits(StringAt(body, NameKey), StringAt(body, EmailKey), hash) &&
            UserNamed(db, StringAt(body, NameKey)).None?)
      && (UserRowFits(StringAt(body, NameKey), StringAt(body, EmailKey), hash) ==>
            UserNamed(db, StringAt(body, NameKey)).Some? ==> r == Reply(db, Http(409, "User already exists")))
      && (!UserRowFits(StringAt(body, NameKey), StringAt(body, EmailKey), hash) ==>
            r == Reply(db, Fail(Uncaught(Database(DataError)))))
    ensures r.result.Ok? ==>
      && Validate(Schema.CreateUser, body).Ok?
      && StringIn(body, NameKey) && StringIn(body, EmailKey) && StringIn(body, PasswordKey)
      && var id := db.users.nextId;
      && id !in db.users.rows
      && r.result.value == UserSummary(id, StringAt(body, NameKey))
      && r.db == db.(users := Put(db.users, id,
           UserRow(StringAt(body, NameKey), StringAt(body, EmailKey), env.crypto.hash(StringAt(body, PasswordKey)))))
  {
    CreateUserValidation(body);
    match Validate(Schema.CreateUser, body)
    case Fail(f) => Reply(db, Fail(f))
    case Ok(fields) =>
      StoreUser(db, fields[NameKey].value, fields[EmailKey].value, env.crypto.hash(fields[PasswordKey].value), env)
  }

  /** `create_item(User, ...)` with validated fields and the password already hashed: the
      new user under the next key, answered as its summary; a value too long for its
      column escapes as a store error; 409 when the name is taken. */
  function StoreUser(db: Db, name: string, email: string, hash: string, env: Env): (r: Reply)
    requires Valid(db)
    ensures Valid(r.db)
    ensures r.result.Fail? ==> r.db == db
    ensures r.result.Ok? <==> UserRowFits(name, email, hash) && UserNamed(db, name).None?
    ensures UserRowFits(name, email, hash) && UserNamed(db, name).Some? ==>
      r == Reply(db, Http(409, "User already exists"))
    ensures !UserRowFits(name, email, hash) ==> r == Reply(db, Fail(Uncaught(Database(DataError))))
    ensures r.result.Ok? ==>
      && db.users.nextId !in db.users.rows
      && r.result.value == UserSummary(db.users.nextId, name)
      && r.db == db.(users := Put(db.users, db.users.nextId, UserRow(name, email, hash)))
  {
    var payload := UserRow(name, email, hash);
    StoredRowsBelowNext(db, UserModel);
    UserCreateChecks(db, name, email, hash, Defaults(env));
    match CreateItem(db, UserModel, payload, Defaults(env))
    case Fail(f) => Reply(db, Fail(f))
    case Ok(c) =>
      CreateItemKeepsValid(db, UserModel, payload, Defaults(env));
      Reply(c.db, Ok(UserSummary(c.id, name)))
  }

  /** `NewUser.get`: the caller's own user, as `User.dict`. */
  function UserGet(db: Db, header: Option<string>): (r: Reply)
    requires Valid(db)
    ensures r.db == db
    ensures r.result.Ok? <==> CheckToken(db, header).Ok?
    ensures CheckToken(db, header).Fail? ==> r.result == Fail(CheckToken(db, header).failure)
    ensures r.result.Ok? ==> r.result.value.UserDetail?
    ensures r.result.Ok? ==>
      var v := r.result.value.user;
      && Authenticates(db, header, v.id)
      && v.id in db.users.rows && Str(v.name) == db.users.rows[v.id][NameKey]
      && forall a :: a in v.advertisements <==>
           a in db.advertisements.rows && OwnedBy(db.advertisements.rows[a], v.id)
  {
    match CheckToken(db, header)
    case Fail(f) => Reply(db, Fail(f))
    case Ok(caller) =>
      CheckTokenAuthenticates(db, header);
      Reply(db, Ok(UserDetail(UserDict(db, caller.userId))))
  }

  /** The `update_item` payload of a user patch: the validated fields, with a supplied
      password stored as `store` makes it (the handler stores it as supplied; the
      corrected handler stores its hash). */
  function UserPatchPayload(fields: Schema.Fields, store: string -> string): (p: Row)
    requires fields.Keys <= {NameKey, EmailKey, PasswordKey}
    requires PasswordKey in fields ==> fields[PasswordKey].Some?
    ensures p.Keys == fields.Keys && p.Keys <= ColumnNames(UserModel)
    ensures forall k :: k in fields && k != PasswordKey ==> p[k] == ToRow(fields)[k]
    ensures PasswordKey in fields ==> p[PasswordKey] == Str(store(fields[PasswordKey].value))
  {
    ColumnNamesOf(UserModel);
    var row := ToRow(fields);
    if PasswordKey in fields then row[PasswordKey := Str(store(fields[PasswordKey].value))] else row
  }

  /** `row'` is `row` with the supplied fields overwritten: name and email with the
      supplied text, the password with what `store` makes of the supplied text; every
      other field as before. */
  ghost predicate PatchedUserRow(row: Row, row': Row, body: Schema.Body, store: string -> string) {
    && (NameKey in body ==>
          StringIn(body, NameKey) && Has(row', NameKey, Str(StringAt(body, NameKey))))
    && (EmailKey in body ==>
          StringIn(body, EmailKey) && Has(row', EmailKey, Str(StringAt(body, EmailKey))))
    && (PasswordKey in body ==>
          StringIn(body, PasswordKey) && Has(row', PasswordKey, Str(store(StringAt(body, PasswordKey)))))
    && (forall k :: k in row && k !in body ==> Has(row', k, row[k]))
  }

  /** `db'` is `db` with user `uid` patched by `body`; every other user and table is as
      before. */
  ghost predicate PatchedUser(db: Db, db': Db, uid: nat, body: Schema.Body, store: string -> string) {
    && uid in db.users.rows && uid in db'.users.rows
    && db'.users.rows.Keys == db.users.rows.Keys
    && PatchedUserRow(db.users.rows[uid], db'.users.rows[uid], body, store)
    && (forall u :: u in db.users.rows && u != uid ==> db'.users.rows[u] == db.users.rows[u])
    && db'.advertisements == db.advertisements && db'.tokens == db.tokens
  }

  /** A committed user patch writes exactly the supplied fields; a supplied null cannot
      have been committed, as every user column is NOT NULL. */
  lemma UserPatchWrites(db: Db, uid: nat, body: Schema.Body, fields: Schema.Fields, store: string -> string)
    requires uid in db.users.rows && RowOk(UserModel, db.users.rows[uid])
    requires PatchUserFields(body, fields)
    requires UpdateItem(db, UserModel, uid, UserPatchPayload(fields, store)).Ok?
    ensures PatchedUser(db, UpdateItem(db, UserModel, uid, UserPatchPayload(fields, store)).value, uid, body, store)
  {
    var payload := UserPatchPayload(fields, store);
    var db' := UpdateItem(db, UserModel, uid, payload).value;
    assert db'.users == db'.Of(UserModel);
    PatchedRowWrites(db.users.rows[uid], db'.users.rows[uid], body, fields, store);
  }

  /** The row-level half of `UserPatchWrites`: a stored row that took the payload and
      kept its other fields is the patched row. */
  lemma PatchedRowWrites(row: Row, row': Row, body: Schema.Body, fields: Schema.Fields, store: string -> string)
    requires PatchUserFields(body, fields) && RowOk(UserModel, row')
    requires forall k :: k in UserPatchPayload(fields, store) ==> k in row' && row'[k] == UserPatchPayload(fields, store)[k]
    requires forall k :: k in row && k !in UserPatchPayload(fields, store) ==> k in row' && row'[k] == row[k]
    ensures PatchedUserRow(row, row', body, store)
  {
    var payload := UserPatchPayload(fields, store);
    UserRowFields(row');
    UserPatchCells(body, fields, store);
    assert NameKey in body ==> NameKey in payload;
    assert EmailKey in body ==> EmailKey in payload;
    assert PasswordKey in body ==> PasswordKey in payload;
  }

  /** A user patch payload holds a cell for each supplied field: a supplied string as
      it is, a supplied password as `store` makes it, and anything else as NULL. */
  lemma UserPatchCells(body: Schema.Body, fields: Schema.Fields, store: string -> string)
    requires PatchUserFields(body, fields)
    ensures var p := UserPatchPayload(fields, store);
      && p.Keys == body.Keys * {NameKey, EmailKey, PasswordKey}
      && forall k :: k in p && p[k].Str? ==>
           StringIn(body, k) && p[k] == Str(if k == PasswordKey then store(StringAt(body, k)) else StringAt(body, k))
  {
  }

  /** `response` is the `{id, name}` summary of user `uid` as stored in `db`. */
  predicate SummaryOf(db: Db, uid: nat, response: Response) {
    response.UserSummary? && response.id == uid && uid in db.users.rows &&
    Has(db.users.rows[uid], NameKey, Str(response.name))
  }

  /** The fields `validate(PatchUser, ...)` hands on, as that schema shapes them. */
  ghost predicate PatchUserFields(body: Schema.Body, fields: Schema.Fields) {
    && fields.Keys == body.Keys * {NameKey, EmailKey, PasswordKey}
    && (forall k :: k in fields ==>
          (body[k] == Schema.JNull && fields[k] == None) || (body[k].JString? && fields[k] == Some(body[k].s)))
    && (PasswordKey in fields ==> fields[PasswordKey].Some?)
  }

  lemma PatchUserFieldsOf(body: Schema.Body)
    requires Validate(Schema.PatchUser, body).Ok?
    ensures PatchUserFields(body, Validate(Schema.PatchUser, body).value)
  {
    PatchUserValidation(body);
  }

  /** What a user patch behind the token gate answers for user `uid`: the validation
      error; otherwise the commit of the user's row with the validated payload laid over
      it, which succeeds exactly when the store accepts that row, and then the user with
      the supplied fields written and its summary. A failure changes nothing. */
  ghost predicate PatchUserOutcome(db: Db, uid: nat, body: Schema.Body, store: string -> string, r: Reply) {
    && (r.result.Fail? ==> r.db == db)
    && (Validate(Schema.PatchUser, body).Fail? ==> r.result == Fail(Validate(Schema.PatchUser, body).failure))
    && (Validate(Schema.PatchUser, body).Ok? ==>
          var fields := Validate(Schema.PatchUser, body).value;
          && PatchUserFields(body, fields) && uid in db.users.rows
          && CommitOutcome(db, UserModel, uid, db.users.rows[uid] + UserPatchPayload(fields, store), r.result))
    && (r.result.Ok? ==>
          && Validate(Schema.PatchUser, body).Ok?
          && PatchedUser(db, r.db, uid, body, store)
          && SummaryOf(r.db, uid, r.result.value))
  }

  /** How `patch` stores a supplied password: as the text supplied. */
  const Verbatim: string -> string := p => p

  /** `NewUser.patch`: overwrite the supplied fields of the caller's own user. The
      validated fields go to `update_item` as they are, so a supplied password is stored
      as its plain text, where `post` stores its hash. */
  function UserPatch(db: Db, header: Option<string>, body: Schema.Body): (r: Reply)
    requires Valid(db)
    ensures Valid(r.db)
    ensures r.result.Fail? ==> r.db == db
    ensures CheckToken(db, header).Fail? ==> r.result == Fail(CheckToken(db, header).failure)
    ensures CheckToken(db, header).Ok? ==>
      PatchUserOutcome(db, CheckToken(db, header).value.userId, body, Verbatim, r)
  {
    match CheckToken(db, header)
    case Fail(f) => Reply(db, Fail(f))
    case Ok(caller) => PatchCaller(db, caller.userId, body, Verbatim)
  }

  /** The part of a user patch behind the token gate: validate, then update. */
  function PatchCaller(db: Db, uid: nat, body: Schema.Body, store: string -> string): (r: Reply)
    requires Valid(db) && uid in db.users.rows
    ensures Valid(r.db)
    ensures PatchUserOutcome(db, uid, body, store, r)
  {
    match Validate(Schema.PatchUser, body)
    case Fail(f) => Reply(db, Fail(f))
    case Ok(fields) =>
      PatchUserFieldsOf(body);
      PatchOwnUser(db, uid, body, fields, store)
  }

  /** The part of a user patch after validation: `update_item` on the caller's user. */
  function PatchOwnUser(db: Db, uid: nat, body: Schema.Body, fields: Schema.Fields, store: string -> string): (r: Reply)
    requires Valid(db) && uid in db.users.rows && PatchUserFields(body, fields)
    ensures Valid(r.db)
    ensures r.result.Fail? ==> r.db == db
    ensures CommitOutcome(db, UserModel, uid, db.users.rows[uid] + UserPatchPayload(fields, store), r.result)
    ensures r.result.Ok? ==>
      && PatchedUser(db, r.db, uid, body, store)
      && SummaryOf(r.db, uid, r.result.value)
  {
    var payload := UserPatchPayload(fields, store);
    StoredRowOk(db, UserModel, uid);
    UpdateCommits(db, UserModel, uid, payload);
    match UpdateItem(db, UserModel, uid, payload)
    case Fail(f) => Reply(db, Fail(f))
    case Ok(db') =>
      UpdateItemKeepsValid(db, UserModel, uid, payload);
      UserPatchWrites(db, uid, body, fields, store);
      UserRowFields(db'.users.rows[uid]);
      Reply(db', Ok(UserSummary(uid, db'.users.rows[uid][NameKey].s)))
  }

  /** `NewUser.delete`: delete the caller's user, and with it its advertisements and tokens. */
  function UserDelete(db: Db, header: Option<string>): (r: Reply)
    requires Valid(db)
    ensures Valid(r.db)
    ensures r.result.Fail? ==> r.db == db
    ensures CheckToken(db, header).Fail? ==> r.result == Fail(CheckToken(db, header).failure)
    ensures CheckToken(db, header).Ok? ==>
      var uid := CheckToken(db, header).value.userId;
      && r.result == Ok(StatusOk)
      && r.db.users.rows == db.users.rows - {uid}
      && (forall a :: a in r.db.advertisements.rows <==>
            a in db.advertisements.rows && !OwnedBy(db.advertisements.rows[a], uid))
      && (forall t :: t in r.db.tokens.rows <==>
            t in db.tokens.rows && !OwnedBy(db.tokens.rows[t], uid))
      && (forall a :: a in r.db.advertisements.rows ==> r.db.advertisements.rows[a] == db.advertisements.rows[a])
      && (forall t :: t in r.db.tokens.rows ==> r.db.tokens.rows[t] == db.tokens.rows[t])
  {
    match CheckToken(db, header)
    case Fail(f) => Reply(db, Fail(f))
    case Ok(caller) =>
      DeleteItemKeepsValid(db, UserModel, caller.userId);
      var db' := DeleteItem(db, UserModel, caller.userId);
      assert db'.advertisements == db'.Of(AdvertisementModel) && db'.tokens == db'.Of(TokenModel);
      Reply(db', Ok(StatusOk))
  }

  // ----- /adv -----

  /** `get_item_by_id(Advertisement, ...)` followed by `check_user`: 404 when the
      advertisement does not exist, then 403 when it belongs to someone else. */
  function OwnAdvertisement(db: Db, uid: nat, advId: nat): (r: Result<Row>)
    requires Valid(db)
    ensures r.Ok? <==> advId in db.advertisements.rows && OwnedBy(db.advertisements.rows[advId], uid)
    ensures advId !in db.advertisements.rows ==> r == Http(404, "Advertisement not found")
    ensures advId in db.advertisements.rows && !OwnedBy(db.advertisements.rows[advId], uid) ==>
      r == Http(403, "access denied")
    ensures r.Ok? ==> r.value == db.advertisements.rows[advId] && RowOk(AdvertisementModel, r.value)
  {
    AdvNotFoundText();
    match GetItemById(db, AdvertisementModel, advId)
    case Fail(f) => Fail(f)
    case Ok(adv) =>
      StoredRowOk(db, AdvertisementModel, advId);
      AdvRowFields(adv);
      match CheckUser(adv, uid)
      case Fail(f) => Fail(f)
      case Ok(_) => Ok(adv)
  }

  /** What `GET /adv` answers user `uid`: with an id, the advertisement's `json` when it
      exists (else 404) and is the caller's (else 403). Without one, the handler reads
      `.dict` of each of the caller's advertisements, which `Advertisement` does not
      define: only a caller without advertisements gets an answer, the empty list. */
  ghost predicate AdvGetOutcome(db: Db, uid: nat, advId: Option<nat>, result: Result<Response>) {
    && (advId.None? ==>
          && (result.Ok? <==> AdvertisementsOf(db, uid) == {})
          && (result.Ok? ==> result.value == AdvList({}))
          && (result.Fail? ==> result == Fail(Uncaught(MissingAttribute))))
    && (advId.Some? && advId.value !in db.advertisements.rows ==>
          result == Http(404, "Advertisement not found"))
    && (advId.Some? && advId.value in db.advertisements.rows &&
        !OwnedBy(db.advertisements.rows[advId.value], uid) ==>
          result == Http(403, "access denied"))
    && (advId.Some? && advId.value in db.advertisements.rows &&
        OwnedBy(db.advertisements.rows[advId.value], uid) ==>
          && RowOk(AdvertisementModel, db.advertisements.rows[advId.value])
          && result == Ok(AdvDetail(AdvJson(advId.value, db.advertisements.rows[advId.value]))))
  }

  /** `NewAdvertisement.get`. */
  function AdvGet(db: Db, header: Option<string>, advId: Option<nat>): (r: Reply)
    requires Valid(db)
    ensures r.db == db
    ensures CheckToken(db, header).Fail? ==> r.result == Fail(CheckToken(db, header).failure)
    ensures CheckToken(db, header).Ok? ==>
      AdvGetOutcome(db, CheckToken(db, header).value.userId, advId, r.result)
  {
    match CheckToken(db, header)
    case Fail(f) => Reply(db, Fail(f))
    case Ok(caller) =>
      match advId
      case None =>
        if AdvertisementsOf(db, caller.userId) == {} then Reply(db, Ok(AdvList({})))
        else Reply(db, Fail(Uncaught(MissingAttribute)))
      case Some(id) =>
        match OwnAdvertisement(db, caller.userId, id)
        case Fail(f) => Reply(db, Fail(f))
        case Ok(adv) => Reply(db, Ok(AdvDetail(AdvJson(id, adv))))
  }

  /** What `create_item(Advertisement, ...)` does with a new advertisement of an existing
      user: a value too long for its column is a store error that escapes; otherwise the
      row is refused, with 409, exactly when the author is taken. */
  lemma AdvCreateChecks(db: Db, author: string, title: string, description: Value, uid: nat, d: ServerDefaults)
    requires db.advertisements.nextId !in db.advertisements.rows && uid in db.users.rows
    requires description.Str? || description.Null?
    ensures var row := AdvRow(author, title, description, d.now, uid);
      var r := CreateItem(db, AdvertisementModel, AdvPayload(author, title, description, uid), d);
      && (r.Ok? <==>
            AdvRowFits(author, title, description) &&
            forall a :: a in db.advertisements.rows ==> !Has(db.advertisements.rows[a], AuthorKey, Str(author)))
      && (r.Ok? ==> RowOk(AdvertisementModel, row))
      && (r.Ok? ==> r.value.id == db.advertisements.nextId)
      && (r.Ok? ==> r.value.db == db.(advertisements := Put(db.advertisements, db.advertisements.nextId, row)))
      && (!AdvRowFits(author, title, description) ==> r == Fail(Uncaught(Database(DataError))))
      && (AdvRowFits(author, title, description) && r.Fail? ==> r == Http(409, "Advertisement already exists"))
  {
    var row := AdvRow(author, title, description, d.now, uid);
    var id := db.advertisements.nextId;
    var r := CreateItem(db, AdvertisementModel, AdvPayload(author, title, description, uid), d);
    var v := Violation(db, AdvertisementModel, id, row);
    var fits := AdvRowFits(author, title, description);
    assert && (r.Ok? <==> v.None?)
           && (v.None? ==> r == Ok(Created(db.(advertisements := Put(db.advertisements, id, row)), id)))
           && (v == Some(UniqueViolation) ==> r == Http(409, "Advertisement already exists"))
           && (v == Some(DataError) ==> r == Fail(Uncaught(Database(DataError)))) by {
      AdvNewRow(author, title, description, uid, d);
      CreateItemByViolation(db, AdvertisementModel, AdvPayload(author, title, description, uid), d);
      assert Stored(db, AdvertisementModel, id, row) == db.(advertisements := Put(db.advertisements, id, row));
      AlreadyExistsText(AdvertisementModel);
    }
    assert fits ==>
      && RowOk(AdvertisementModel, row)
      && (v.None? <==> forall a :: a in db.advertisements.rows ==>
            !Has(db.advertisements.rows[a], AuthorKey, Str(author)))
      && (v.Some? ==> v == Some(UniqueViolation)) by {
      if fits {
        AdvRowOk(author, title, description, d.now, uid);
        AdvRowUnique(db, author, title, description, d.now, uid);
      }
    }
    assert !fits ==> v == Some(DataError) by {
      if !fits {
        AdvRowTooLong(db, author, title, description, d.now, uid);
      }
    }
  }

  lemma AdvNewRow(author: string, title: string, description: Value, uid: nat, d: ServerDefaults)
    ensures NewRow(AdvertisementModel, AdvPayload(author, title, description, uid), d) ==
      AdvRow(author, title, description, d.now, uid)
  {
    ColumnNamesOf(AdvertisementModel);
  }

  lemma AdvRowOk(author: string, title: string, description: Value, now: int, uid: nat)
    requires description.Str? || description.Null?
    requires AdvRowFits(author, title, description)
    ensures RowOk(AdvertisementModel, AdvRow(author, title, description, now, uid))
  {
    var cs := Columns(AdvertisementModel);
    var row := AdvRow(author, title, description, now, uid);
    forall c | c in cs ensures CellOk(c, row[c.name]) {
      var i :| 0 <= i < |cs| && cs[i] == c;
      assert i == 0 || i == 1 || i == 2 || i == 3 || i == 4;
    }
  }

  lemma AdvRowTooLong(db: Db, author: string, title: string, description: Value, now: int, uid: nat)
    requires !AdvRowFits(author, title, description)
    ensures Violation(db, AdvertisementModel, db.advertisements.nextId, AdvRow(author, title, description, now, uid)) ==
      Some(DataError)
  {
    var row := AdvRow(author, title, description, now, uid);
    var cs := Columns(AdvertisementModel);
    var c := if |author| > 100 then cs[0] else if |title| > 100 then cs[1] else cs[2];
    assert c in cs && !TypeFits(c.kind, row[c.name]);
  }

  /** A new advertisement row that fits its columns is refused only by the unique index on
      `author`, and exactly when another advertisement has that author. */
  lemma AdvRowUnique(db: Db, author: string, title: string, description: Value, now: int, uid: nat)
    requires db.advertisements.nextId !in db.advertisements.rows && uid in db.users.rows
    requires RowOk(AdvertisementModel, AdvRow(author, title, description, now, uid))
    ensures var v := Violation(db, AdvertisementModel, db.advertisements.nextId, AdvRow(author, title, description, now, uid));
      && (v.None? <==> forall a :: a in db.advertisements.rows ==>
            !Has(db.advertisements.rows[a], AuthorKey, Str(author)))
      && (v.Some? ==> v == Some(UniqueViolation))
  {
    var row := AdvRow(author, title, description, now, uid);
    var cs := Columns(AdvertisementModel);
    assert row[UserIdKey] == Ref(uid) && row[AuthorKey] == Str(author);
    forall c | c in cs && c.kind.UserRef? ensures c.name == UserIdKey {
      RefColumnIsUserId(AdvertisementModel, c);
    }
    FreshRowViolation(db, AdvertisementModel, db.advertisements.nextId, row);
  }

  /** What `POST /adv` answers user `uid`: the validation error, or the new advertisement
      (the supplied fields, the caller as owner, the current time) stored under the next
      key and answered as its `json`; a value too long for its column escapes as a store
      error; 409 when the author is taken. */
  ghost predicate AdvPostOutcome(db: Db, uid: nat, body: Schema.Body, now: int, r: Reply) {
    && (r.result.Fail? ==> r.db == db)
    && (Validate(Schema.CreateAdv, body).Fail? ==> r.result == Fail(Validate(Schema.CreateAdv, body).failure))
    && (Validate(Schema.CreateAdv, body).Ok? ==>
          && StringIn(body, AuthorKey) && StringIn(body, TitleKey) && DescriptionKey in body
          && var description := CellOf(body[DescriptionKey]);
          && var row := AdvRow(StringAt(body, AuthorKey), StringAt(body, TitleKey), description, now, uid);
          && var id := db.advertisements.nextId;
          && (r.result.Ok? <==>
                AdvRowFits(StringAt(body, AuthorKey), StringAt(body, TitleKey), description) &&
                forall a :: a in db.advertisements.rows ==>
                  !Has(db.advertisements.rows[a], AuthorKey, Str(StringAt(body, AuthorKey))))
          && (AdvRowFits(StringAt(body, AuthorKey), StringAt(body, TitleKey), description) && r.result.Fail? ==>
                r.result == Http(409, "Advertisement already exists"))
          && (!AdvRowFits(StringAt(body, AuthorKey), StringAt(body, TitleKey), description) ==>
                r.result == Fail(Uncaught(Database(DataError))))
          && (r.result.Ok? ==>
                && id !in db.advertisements.rows
                && r.db == db.(advertisements := Put(db.advertisements, id, row))
                && RowOk(AdvertisementModel, row)
                && r.result == Ok(AdvDetail(AdvJson(id, row)))))
  }

  /** `NewAdvertisement.post`: a new advertisement owned by the caller. */
  function AdvPost(db: Db, header: Option<string>, body: Schema.Body, env: Env): (r: Reply)
    requires Valid(db)
    ensures Valid(r.db)
    ensures r.result.Fail? ==> r.db == db
    ensures CheckToken(db, header).Fail? ==> r.result == Fail(CheckToken(db, header).failure)
    ensures CheckToken(db, header).Ok? ==>
      AdvPostOutcome(db, CheckToken(db, header).value.userId, body, env.now, r)
  {
    match CheckToken(db, header)
    case Fail(f) => Reply(db, Fail(f))
    case Ok(caller) => PostCallerAdv(db, caller.userId, body, env)
  }

  /** The part of `POST /adv` behind the token gate. */
  function PostCallerAdv(db: Db, uid: nat, body: Schema.Body, env: Env): (r: Reply)
    requires Valid(db) && uid in db.users.rows
    ensures Valid(r.db)
    ensures AdvPostOutcome(db, uid, body, env.now, r)
  {
    CreateAdvValidation(body);
    match Validate(Schema.CreateAdv, body)
    case Fail(f) => Reply(db, Fail(f))
    case Ok(fields) =>
      var description := if fields[DescriptionKey].Some? then Str(fields[DescriptionKey].value) else Null;
      assert description == CellOf(body[DescriptionKey]);
      StoreAdv(db, uid, fields[AuthorKey].value, fields[TitleKey].value, description, env)
  }

  /** `create_item(Advertisement, ...)` with validated fields: the new row under the next
      key, answered as its `json`; a value too long for its column escapes as a store
      error; 409 when the author is taken. */
  function StoreAdv(db: Db, uid: nat, author: string, title: string, description: Value, env: Env): (r: Reply)
    requires Valid(db) && uid in db.users.rows
    requires description.Str? || description.Null?
    ensures Valid(r.db)
    ensures r.result.Fail? ==> r.db == db
    ensures var row := AdvRow(author, title, description, env.now, uid);
      var id := db.advertisements.nextId;
      && (r.result.Ok? <==>
            AdvRowFits(author, title, description) &&
            forall a :: a in db.advertisements.rows ==> !Has(db.advertisements.rows[a], AuthorKey, Str(author)))
      && (AdvRowFits(author, title, description) && r.result.Fail? ==>
            r.result == Http(409, "Advertisement already exists"))
      && (!AdvRowFits(author, title, description) ==> r.result == Fail(Uncaught(Database(DataError))))
      && (r.result.Ok? ==>
            && id !in db.advertisements.rows
            && r.db == db.(advertisements := Put(db.advertisements, id, row))
            && RowOk(AdvertisementModel, row)
            && r.result == Ok(AdvDetail(AdvJson(id, row))))
  {
    var payload := AdvPayload(author, title, description, uid);
    StoredRowsBelowNext(db, AdvertisementModel);
    AdvCreateChecks(db, author, title, description, uid, Defaults(env));
    match CreateItem(db, AdvertisementModel, payload, Defaults(env))
    case Fail(f) => Reply(db, Fail(f))
    case Ok(c) =>
      CreateItemKeepsValid(db, AdvertisementModel, payload, Defaults(env));
      Reply(c.db, Ok(AdvDetail(AdvJson(c.id, c.db.advertisements.rows[c.id]))))
  }

  /** The fields `validate(PatchAdv, ...)` hands on, as that schema shapes them. */
  ghost predicate PatchAdvFields(body: Schema.Body, fields: Schema.Fields) {
    && fields.Keys == body.Keys * {AuthorKey, TitleKey, DescriptionKey}
    && (forall k :: k in fields ==>
          (body[k] == Schema.JNull && fields[k] == None) || (body[k].JString? && fields[k] == Some(body[k].s)))
    && StringIn(body, AuthorKey)
  }

  lemma PatchAdvFieldsOf(body: Schema.Body)
    requires Validate(Schema.PatchAdv, body).Ok?
    ensures PatchAdvFields(body, Validate(Schema.PatchAdv, body).value)
  {
    PatchAdvValidation(body);
  }

  /** The `update_item` payload of an advertisement patch. */
  function AdvPatchPayload(fields: Schema.Fields): (p: Row)
    requires fields.Keys <= {AuthorKey, TitleKey, DescriptionKey}
    ensures p == ToRow(fields) && p.Keys <= ColumnNames(AdvertisementModel)
  {
    ColumnNamesOf(AdvertisementModel);
    ToRow(fields)
  }

  /** `after` is `before` with the supplied fields overwritten: the author and a supplied
      title with the supplied text, a supplied description with its text or null; every
      field the body does not supply, or the advertisement schemas do not declare, as
      before. */
  ghost predicate PatchedAdvRow(before: Row, after: Row, body: Schema.Body) {
    && StringIn(body, AuthorKey) && Has(after, AuthorKey, Str(StringAt(body, AuthorKey)))
    && (TitleKey in body ==> StringIn(body, TitleKey) && Has(after, TitleKey, Str(StringAt(body, TitleKey))))
    && (DescriptionKey in body ==> Has(after, DescriptionKey, CellOf(body[DescriptionKey])))
    && (forall k :: k in before && (k !in body || (k != AuthorKey && k != TitleKey && k != DescriptionKey)) ==>
          Has(after, k, before[k]))
  }

  /** `db'` is `db` with advertisement `advId` patched by `body`; every other
      advertisement and table is as before. */
  ghost predicate PatchedAdv(db: Db, db': Db, advId: nat, body: Schema.Body) {
    && advId in db.advertisements.rows && advId in db'.advertisements.rows
    && db'.advertisements.rows.Keys == db.advertisements.rows.Keys
    && PatchedAdvRow(db.advertisements.rows[advId], db'.advertisements.rows[advId], body)
    && (forall a :: a in db.advertisements.rows && a != advId ==>
          db'.advertisements.rows[a] == db.advertisements.rows[a])
    && db'.users == db.users && db'.tokens == db.tokens
  }

  /** A committed advertisement patch writes exactly the supplied fields; a supplied null
      title cannot have been committed, as `title` is NOT NULL. */
  lemma AdvPatchWrites(db: Db, advId: nat, body: Schema.Body, fields: Schema.Fields)
    requires advId in db.advertisements.rows && RowOk(AdvertisementModel, db.advertisements.rows[advId])
    requires PatchAdvFields(body, fields)
    requires UpdateItem(db, AdvertisementModel, advId, AdvPatchPayload(fields)).Ok?
    ensures PatchedAdv(db, UpdateItem(db, AdvertisementModel, advId, AdvPatchPayload(fields)).value, advId, body)
  {
    var payload := AdvPatchPayload(fields);
    var db' := UpdateItem(db, AdvertisementModel, advId, payload).value;
    assert db'.advertisements == db'.Of(AdvertisementModel);
    assert db'.users == db'.Of(UserModel) && db'.tokens == db'.Of(TokenModel);
    PatchedAdvRowWrites(db.advertisements.rows[advId], db'.advertisements.rows[advId], body, fields);
  }

  /** The row-level half of `AdvPatchWrites`: a stored row that took the payload and kept
      its other fields is the patched row. */
  lemma PatchedAdvRowWrites(before: Row, after: Row, body: Schema.Body, fields: Schema.Fields)
    requires PatchAdvFields(body, fields) && RowOk(AdvertisementModel, after)
    requires forall k :: k in AdvPatchPayload(fields) ==> k in after && after[k] == AdvPatchPayload(fields)[k]
    requires forall k :: k in before && k !in AdvPatchPayload(fields) ==> k in after && after[k] == before[k]
    ensures PatchedAdvRow(before, after, body)
  {
    var payload := AdvPatchPayload(fields);
    AdvRowFields(after);
    assert payload.Keys == body.Keys * {AuthorKey, TitleKey, DescriptionKey};
    forall k | k in payload ensures after[k] == CellOf(body[k]) {
      assert k in fields;
    }
    assert Has(after, AuthorKey, Str(StringAt(body, AuthorKey))) by {
      assert AuthorKey in payload;
    }
    if TitleKey in body {
      assert TitleKey in payload;
    }
    if DescriptionKey in body {
      assert DescriptionKey in payload;
    }
    KeepsUnsupplied(before, after, payload, body);
  }

  /** A row overwritten only at the payload's keys keeps every field the body did not
      supply or that the advertisement schemas do not declare. */
  lemma KeepsUnsupplied(before: Row, after: Row, payload: Row, body: Schema.Body)
    requires payload.Keys == body.Keys * {AuthorKey, TitleKey, DescriptionKey}
    requires forall k :: k in before && k !in payload ==> k in after && after[k] == before[k]
    ensures forall k :: k in before && (k !in body || (k != AuthorKey && k != TitleKey && k != DescriptionKey)) ==>
      Has(after, k, before[k])
  {
  }

  /** `response` is the `{author, title}` summary of advertisement `advId` as stored. */
  predicate AdvSummaryOf(db: Db, advId: nat, response: Response) {
    && response.AdvSummary? && advId in db.advertisements.rows
    && Has(db.advertisements.rows[advId], AuthorKey, Str(response.author))
    && Has(db.advertisements.rows[advId], TitleKey, Str(response.title))
  }

  /** What `PATCH /adv/<id>` answers user `uid`: first the validation error, then 404,
      then 403; otherwise the commit of the advertisement's row with the validated payload
      laid over it, which succeeds exactly when the store accepts that row, and then the
      caller's advertisement with the supplied fields written. */
  ghost predicate AdvPatchOutcome(db: Db, uid: nat, advId: nat, body: Schema.Body, r: Reply) {
    && (r.result.Fail? ==> r.db == db)
    && (Validate(Schema.PatchAdv, body).Fail? ==> r.result == Fail(Validate(Schema.PatchAdv, body).failure))
    && (Validate(Schema.PatchAdv, body).Ok? && advId !in db.advertisements.rows ==>
          r.result == Http(404, "Advertisement not found"))
    && (Validate(Schema.PatchAdv, body).Ok? && advId in db.advertisements.rows &&
        !OwnedBy(db.advertisements.rows[advId], uid) ==>
          r.result == Http(403, "access denied"))
    && (Validate(Schema.PatchAdv, body).Ok? && advId in db.advertisements.rows &&
        OwnedBy(db.advertisements.rows[advId], uid) ==>
          var fields := Validate(Schema.PatchAdv, body).value;
          && PatchAdvFields(body, fields)
          && CommitOutcome(db, AdvertisementModel, advId,
                           db.advertisements.rows[advId] + AdvPatchPayload(fields), r.result))
    && (r.result.Ok? ==>
          && Validate(Schema.PatchAdv, body).Ok?
          && advId in db.advertisements.rows && OwnedBy(db.advertisements.rows[advId], uid)
          && PatchedAdv(db, r.db, advId, body)
          && AdvSummaryOf(r.db, advId, r.result.value))
  }

  /** `NewAdvertisement.patch`. */
  function AdvPatch(db: Db, header: Option<string>, advId: nat, body: Schema.Body): (r: Reply)
    requires Valid(db)
    ensures Valid(r.db)
    ensures r.result.Fail? ==> r.db == db
    ensures CheckToken(db, header).Fail? ==> r.result == Fail(CheckToken(db, header).failure)
    ensures CheckToken(db, header).Ok? ==>
      AdvPatchOutcome(db, CheckToken(db, header).value.userId, advId, body, r)
  {
    match CheckToken(db, header)
    case Fail(f) => Reply(db, Fail(f))
    case Ok(caller) => PatchCallerAdv(db, caller.userId, advId, body)
  }

  /** The part of `PATCH /adv/<id>` behind the token gate. */
  function PatchCallerAdv(db: Db, uid: nat, advId: nat, body: Schema.Body): (r: Reply)
    requires Valid(db)
    ensures Valid(r.db)
    ensures AdvPatchOutcome(db, uid, advId, body, r)
  {
    match Validate(Schema.PatchAdv, body)
    case Fail(f) => Reply(db, Fail(f))
    case Ok(fields) =>
      match OwnAdvertisement(db, uid, advId)
      case Fail(f) => Reply(db, Fail(f))
      case Ok(_) =>
        PatchAdvFieldsOf(body);
        PatchOwnAdv(db, advId, body, fields)
  }

  /** `update_item` on an advertisement the caller owns. */
  function PatchOwnAdv(db: Db, advId: nat, body: Schema.Body, fields: Schema.Fields): (r: Reply)
    requires Valid(db) && advId in db.advertisements.rows && PatchAdvFields(body, fields)
    ensures Valid(r.db)
    ensures r.result.Fail? ==> r.db == db
    ensures CommitOutcome(db, AdvertisementModel, advId, db.advertisements.rows[advId] + AdvPatchPayload(fields), r.result)
    ensures r.result.Ok? ==> PatchedAdv(db, r.db, advId, body) && AdvSummaryOf(r.db, advId, r.result.value)
  {
    var payload := AdvPatchPayload(fields);
    StoredRowOk(db, AdvertisementModel, advId);
    UpdateCommits(db, AdvertisementModel, advId, payload);
    match UpdateItem(db, AdvertisementModel, advId, payload)
    case Fail(f) => Reply(db, Fail(f))
    case Ok(db') =>
      UpdateItemKeepsValid(db, AdvertisementModel, advId, payload);
      AdvPatchWrites(db, advId, body, fields);
      var row := db'.advertisements.rows[advId];
      AdvRowFields(row);
      Reply(db', Ok(AdvSummary(row[AuthorKey].s, row[TitleKey].s)))
  }

  /** What `DELETE /adv/<id>` answers user `uid`: 404, then 403; otherwise the
      advertisement is removed and nothing else changes. */
  ghost predicate AdvDeleteOutcome(db: Db, uid: nat, advId: nat, r: Reply) {
    && (advId !in db.advertisements.rows ==> r == Reply(db, Http(404, "Advertisement not found")))
    && (advId in db.advertisements.rows && !OwnedBy(db.advertisements.rows[advId], uid) ==>
          r == Reply(db, Http(403, "access denied")))
    && (advId in db.advertisements.rows && OwnedBy(db.advertisements.rows[advId], uid) ==>
          r == Reply(db.(advertisements := db.advertisements.(rows := db.advertisements.rows - {advId})), Ok(StatusOk)))
  }

  /** `NewAdvertisement.delete`. */
  function AdvDelete(db: Db, header: Option<string>, advId: nat): (r: Reply)
    requires Valid(db)
    ensures Valid(r.db)
    ensures r.result.Fail? ==> r.db == db
    ensures CheckToken(db, header).Fail? ==> r.result == Fail(CheckToken(db, header).failure)
    ensures CheckToken(db, header).Ok? ==>
      AdvDeleteOutcome(db, CheckToken(db, header).value.userId, advId, r)
  {
    match CheckToken(db, header)
    case Fail(f) => Reply(db, Fail(f))
    case Ok(caller) =>
      match OwnAdvertisement(db, caller.userId, advId)
      case Fail(f) => Reply(db, Fail(f))
      case Ok(_) =>
        DeleteItemKeepsValid(db, AdvertisementModel, advId);
        var db' := DeleteItem(db, AdvertisementModel, advId);
        assert db'.users == db'.Of(UserModel) && db'.tokens == db'.Of(TokenModel);
        assert db'.advertisements == db'.Of(AdvertisementModel);
        Reply(db', Ok(StatusOk))
  }
}
