/** The request-level helpers of `check_auth_validate.py`: payload validation turned into
    HTTP errors, the password hasher, the bearer-token gate and the ownership check.
 */
module CheckAuth {
  import opened Errors
  import opened Models
  import opened Schema
  import opened SchemaProperties
  import Uuids

  /** The field names a schema declares. */
  function Names(schema: seq<FieldSpec>): set<string> {
    set f | f in schema :: f.name
  }

  /** `validate`: instantiate the schema and keep only the fields that were set; on a
      validation error answer 400 with the first error, its `ctx` entry dropped. */
  function Validate(schema: seq<FieldSpec>, body: Body): (r: Result<Fields>)
    requires DistinctNames(schema)
    ensures r.Ok? <==> forall i :: 0 <= i < |schema| ==> Passes(CheckField(schema[i], body))
    ensures r.Ok? ==> forall k :: k in r.value <==> k in Names(schema) && k in body
    ensures r.Ok? ==> forall k :: k in r.value ==>
      (body[k] == JNull && r.value[k] == None) || (body[k].JString? && r.value[k] == Some(body[k].s))
    ensures (exists i :: 0 <= i < |schema| && CheckField(schema[i], body).Raised?) <==>
      r == Fail(Uncaught(ValidatorTypeError))
    ensures (forall j :: 0 <= j < |schema| ==> !CheckField(schema[j], body).Raised?) ==>
      forall i :: FirstRejectedAt(schema, body, i) ==>
        var e := CheckField(schema[i], body).error;
        r == Fail(HttpError(400, Invalid(Issue(e.kind, e.loc, e.msg))))
  {
    CrashedIffRaised(schema, body);
    CleanedIffAllPass(schema, body);
    match ValidateFields(schema, body)
    case Cleaned(fields) =>
      CleanedHoldsSuppliedFields(schema, body);
      assert forall k :: k in fields <==> k in Names(schema) && k in body by {
        forall k ensures k in fields <==> k in Names(schema) && k in body {
          if k in Names(schema) && k in body {
            var f :| f in schema && f.name == k;
            var i :| 0 <= i < |schema| && schema[i] == f;
          }
        }
      }
      Ok(fields)
    case FirstError(e) =>
      FirstErrorIsFirstRejected(schema, body);
      Fail(HttpError(400, Invalid(Issue(e.kind, e.loc, e.msg))))
    case Crashed =>
      Fail(Uncaught(ValidatorTypeError))
  }

  /** The password hasher (bcrypt): `hash` stores a password, `verifies(stored, candidate)`
      checks a candidate against a stored hash. */
  datatype Crypto = Crypto(hash: string -> string, verifies: (string, string) -> bool)

  /** A hasher under which a stored hash verifies the password it was made from. */
  ghost predicate Sound(c: Crypto) {
    forall p :: c.verifies(c.hash(p), p)
  }

  /** The caller a valid token identifies. */
  datatype Caller = Caller(tokenId: nat, userId: nat)

  /** `header` spells the value of a stored token that belongs to user `uid`. The column
      is a `UUID`, so the header is compared as the UUID it spells, in any spelling the
      store reads. */
  ghost predicate Authenticates(db: Db, header: Option<string>, uid: nat) {
    header.Some? && Uuids.Parse(header.value).Some? &&
    exists t :: t in db.tokens.rows &&
      Has(db.tokens.rows[t], TokenKey, Uid(Uuids.Parse(header.value).value)) &&
      OwnedBy(db.tokens.rows[t], uid)
  }

  /** `check_token`: the gate in front of every protected handler. The header is filtered
      against the `UUID` column as it stands, so a header that spells no UUID makes the
      store raise a data error, which escapes the handler. */
  function CheckToken(db: Db, header: Option<string>): (r: Result<Caller>)
    requires Valid(db)
    ensures header.None? ==> r == Http(401, "token not found")
    ensures header.Some? && Uuids.Parse(header.value).None? ==>
      r == Fail(Uncaught(Database(DataError)))
    ensures header.Some? && Uuids.Parse(header.value).Some? ==>
      var u := Uuids.Parse(header.value).value;
      && (r.Ok? <==> exists t :: t in db.tokens.rows && Has(db.tokens.rows[t], TokenKey, Uid(u)))
      && (r.Fail? ==> r == Http(401, "invalid token"))
    ensures r.Ok? ==> header.Some? && Uuids.Parse(header.value).Some?
    ensures r.Ok? ==> r.value.tokenId in db.tokens.rows
    ensures r.Ok? ==>
      Has(db.tokens.rows[r.value.tokenId], TokenKey, Uid(Uuids.Parse(header.value).value))
    ensures r.Ok? ==> OwnedBy(db.tokens.rows[r.value.tokenId], r.value.userId)
    ensures r.Ok? ==> r.value.userId in db.users.rows
  {
    if header.None? then Http(401, "token not found")
    else
      match Uuids.Parse(header.value)
      case None => Fail(Uncaught(Database(DataError)))
      case Some(u) =>
        TokenValuesUnique(db);
        match FindBy(db.tokens, TokenKey, Uid(u))
        case None => Http(401, "invalid token")
        case Some(t) =>
          OwnersExist(db, TokenModel, t);
          var row := db.tokens.rows[t];
          StoredRowOk(db, TokenModel, t);
          TokenRowFields(row);
          Ok(Caller(t, row[UserIdKey].id))
  }

  /** The gate lets a header through exactly when it authenticates some user, and the user
      it identifies is the one the header authenticates. */
  lemma CheckTokenAuthenticates(db: Db, header: Option<string>)
    requires Valid(db)
    ensures CheckToken(db, header).Ok? <==> exists u :: Authenticates(db, header, u)
    ensures CheckToken(db, header).Ok? ==>
      forall u :: Authenticates(db, header, u) <==> u == CheckToken(db, header).value.userId
  {
    var r := CheckToken(db, header);
    if r.Ok? {
      assert Authenticates(db, header, r.value.userId);
      TokenValuesUnique(db);
    }
    if exists u :: Authenticates(db, header, u) {
      var u :| Authenticates(db, header, u);
      var t :| t in db.tokens.rows && Has(db.tokens.rows[t], TokenKey, Uid(Uuids.Parse(header.value).value));
    }
  }

  /** `check_user`: 403 "access denied" unless the item belongs to `uid`. */
  function CheckUser(item: Row, uid: nat): (r: Result<()>)
    requires UserIdKey in item && item[UserIdKey].Ref?
    ensures r.Ok? <==> item[UserIdKey].id == uid
    ensures r.Fail? ==> r == Http(403, "access denied")
  {
    if item[UserIdKey].id != uid then Http(403, "access denied") else Ok(())
  }
}
