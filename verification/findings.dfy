/** Two places where `view_user_adv.py` does not do what the rest of the program evidently
    intends. `Views` models each as written; this module gives the corrected handler and
    relates the two.

    1. `NewUser.patch` hands the validated fields to `update_item` unchanged, so a new
       password is stored as plain text, while `NewUser.post` stores its hash and
       `NewLogin.post` checks a candidate against a stored hash.
    2. `NewAdvertisement.get` without an id serialises the caller's advertisements through
       `.dict`, which `Advertisement` does not define (only `.json`).
 */
module Findings {
  import opened Errors
  import opened Models
  import opened Crud
  import opened CrudProperties
  import Schema
  import opened CheckAuth
  import opened ValidationProperties
  import opened Views
  import opened Routes
  import opened ViewProperties
  import Uuids

  // ----- 1. PATCH /user stores the password it was given -----

  /** `NewUser.patch` as evidently intended: as `Views.UserPatch`, but a supplied password
      is stored as its hash, as `NewUser.post` stores it. */
  function UserPatchCorrected(db: Db, header: Option<string>, body: Schema.Body, env: Env): (r: Reply)
    requires Valid(db)
    ensures Valid(r.db)
    ensures r.result.Fail? ==> r.db == db
    ensures CheckToken(db, header).Fail? ==> r.result == Fail(CheckToken(db, header).failure)
    ensures CheckToken(db, header).Ok? ==>
      PatchUserOutcome(db, CheckToken(db, header).value.userId, body, env.crypto.hash, r)
  {
    match CheckToken(db, header)
    case Fail(f) => Reply(db, Fail(f))
    case Ok(caller) => PatchCaller(db, caller.userId, body, env.crypto.hash)
  }

  /** A hasher that accepts exactly what it hashed: the stored form of `p` is `"#" + p`. */
  function TagHash(p: string): string {
    "#" + p
  }

  function TagVerifies(stored: string, candidate: string): bool {
    stored == TagHash(candidate)
  }

  const TagCrypto: Crypto := Crypto(TagHash, TagVerifies)

  /** The premise of `PlainPatchLocksOut` is met by a sound hasher: `TagCrypto` accepts
      what it hashed and never takes a password for its own stored form. */
  lemma TagCryptoRejectsPlain(password: string)
    ensures Sound(TagCrypto)
    ensures forall stored, candidate :: TagCrypto.verifies(stored, candidate) <==> stored == TagCrypto.hash(candidate)
    ensures !TagCrypto.verifies(password, password)
  {
    assert |TagHash(password)| == |password| + 1;
  }

  /** The body of a patch that changes only the password. */
  function PasswordBody(password: string): (body: Schema.Body)
    ensures StringIn(body, PasswordKey) && Views.StringAt(body, PasswordKey) == password
    ensures NameKey !in body && EmailKey !in body
  {
    map[PasswordKey := Schema.JString(password)]
  }

  /** A user that changed its password through `Views.UserPatch` can no longer log in with
      the new password under any hasher that does not take a password for its own stored
      form: the login checks the candidate against the stored plain text and answers 401. */
  lemma PlainPatchLocksOut(db: Db, header: Option<string>, name: string, password: string, env: Env)
    requires Valid(db) && CheckToken(db, header).Ok?
    requires Has(db.users.rows[CheckToken(db, header).value.userId], NameKey, Str(name))
    requires !env.crypto.verifies(password, password)
    requires UserPatch(db, header, PasswordBody(password)).result.Ok?
    ensures var db1 := UserPatch(db, header, PasswordBody(password)).db;
      LoginPost(db1, LoginBody(name, password), env) == Reply(db1, Http(401, "invalid password"))
  {
    var uid := CheckToken(db, header).value.userId;
    var r := UserPatch(db, header, PasswordBody(password));
    PatchedUserKeepsName(db, r.db, uid, PasswordBody(password), Verbatim, name);
    LoginWithStoredPassword(r.db, uid, name, password, env);
  }

  /** A patch that does not supply `name` leaves the user under its name, and a supplied
      password is stored as `store` makes it. */
  lemma PatchedUserKeepsName(db: Db, db1: Db, uid: nat, body: Schema.Body, store: string -> string, name: string)
    requires PatchedUser(db, db1, uid, body, store) && NameKey !in body
    requires Has(db.users.rows[uid], NameKey, Str(name))
    ensures Has(db1.users.rows[uid], NameKey, Str(name))
    ensures PasswordKey in body ==>
      Has(db1.users.rows[uid], PasswordKey, Str(store(Views.StringAt(body, PasswordKey))))
  {
  }

  /** The corrected patch keeps the user able to log in with the new password. */
  lemma PatchThenLogin(db: Db, header: Option<string>, name: string, password: string, env: Env, env': Env)
    requires Valid(db) && CheckToken(db, header).Ok?
    requires Has(db.users.rows[CheckToken(db, header).value.userId], NameKey, Str(name))
    requires Sound(env.crypto) && env'.crypto == env.crypto
    requires UnknownToken(db, env'.uuid)
    requires UserPatchCorrected(db, header, PasswordBody(password), env).result.Ok?
    ensures var db1 := UserPatchCorrected(db, header, PasswordBody(password), env).db;
      LoginPost(db1, LoginBody(name, password), env').result == Ok(TokenIssued(Uuids.Text(env'.uuid)))
  {
    var uid := CheckToken(db, header).value.userId;
    var r := UserPatchCorrected(db, header, PasswordBody(password), env);
    PatchedUserKeepsName(db, r.db, uid, PasswordBody(password), env.crypto.hash, name);
    assert env.crypto.verifies(env.crypto.hash(password), password);
    LoginWithStoredPassword(r.db, uid, name, password, env');
  }

  // ----- 2. GET /adv without an id -----

  /** `Advertisement.json` of every advertisement of user `uid`: the listing the handler
      evidently means to answer. */
  function OwnAdvertisements(db: Db, uid: nat): (advs: set<AdvView>)
    requires Valid(db)
    ensures forall v :: v in advs ==> v.id in AdvertisementsOf(db, uid)
    ensures forall a :: a in AdvertisementsOf(db, uid) ==>
      RowOk(AdvertisementModel, db.advertisements.rows[a]) &&
      AdvJson(a, db.advertisements.rows[a]) in advs
    ensures forall v :: v in advs ==>
      RowOk(AdvertisementModel, db.advertisements.rows[v.id]) &&
      v == AdvJson(v.id, db.advertisements.rows[v.id])
  {
    ValidTable(db, AdvertisementModel);
    set a | a in AdvertisementsOf(db, uid) :: AdvJson(a, db.advertisements.rows[a])
  }

  /** `NewAdvertisement.get` as evidently intended: as `Views.AdvGet`, but without an id it
      answers the `json` of exactly the caller's advertisements. */
  function AdvGetCorrected(db: Db, header: Option<string>, advId: Option<nat>): (r: Reply)
    requires Valid(db)
    ensures r.db == db
    ensures CheckToken(db, header).Fail? ==> r.result == Fail(CheckToken(db, header).failure)
    ensures advId.Some? ==> r == AdvGet(db, header, advId)
    ensures CheckToken(db, header).Ok? && advId.None? ==>
      var uid := CheckToken(db, header).value.userId;
      && r.result.Ok? && r.result.value.AdvList?
      && (forall v :: v in r.result.value.advs ==>
            v.id in AdvertisementsOf(db, uid) && v == AdvJson(v.id, db.advertisements.rows[v.id]))
      && (forall a :: a in AdvertisementsOf(db, uid) ==>
            RowOk(AdvertisementModel, db.advertisements.rows[a]) &&
            AdvJson(a, db.advertisements.rows[a]) in r.result.value.advs)
  {
    match advId
    case Some(_) => AdvGet(db, header, advId)
    case None =>
      match CheckToken(db, header)
      case Fail(f) => Reply(db, Fail(f))
      case Ok(caller) => Reply(db, Ok(AdvList(OwnAdvertisements(db, caller.userId))))
  }

  /** A caller with an advertisement: the listing as written fails with the missing
      attribute, while the corrected listing shows that advertisement's `json`. */
  lemma AdvListFailsWhereCorrectedLists(db: Db, header: Option<string>, advId: nat)
    requires Valid(db) && CheckToken(db, header).Ok?
    requires advId in db.advertisements.rows
    requires OwnedBy(db.advertisements.rows[advId], CheckToken(db, header).value.userId)
    ensures AdvGet(db, header, None).result == Fail(Uncaught(MissingAttribute))
    ensures var r := AdvGetCorrected(db, header, None).result;
      && RowOk(AdvertisementModel, db.advertisements.rows[advId])
      && r.Ok? && r.value.AdvList?
      && AdvJson(advId, db.advertisements.rows[advId]) in r.value.advs
  {
    assert advId in AdvertisementsOf(db, CheckToken(db, header).value.userId);
  }

  /** For a caller without advertisements the listing as written and the corrected one
      agree: both answer the empty list. */
  lemma AdvListAgreesWhenEmpty(db: Db, header: Option<string>)
    requires Valid(db) && CheckToken(db, header).Ok?
    requires AdvertisementsOf(db, CheckToken(db, header).value.userId) == {}
    ensures AdvGet(db, header, None) == AdvGetCorrected(db, header, None) == Reply(db, Ok(AdvList({})))
  {
    var uid := CheckToken(db, header).value.userId;
    var r := AdvGetCorrected(db, header, None).result;
    NoIdsNoViews(r.value.advs, AdvertisementsOf(db, uid));
  }

  lemma NoIdsNoViews(advs: set<AdvView>, ids: set<nat>)
    requires forall v :: v in advs ==> v.id in ids
    requires ids == {}
    ensures advs == {}
  {
  }
}
