/** The relational store: the three mapped classes `User`, `Advertisement` and `Token`,
    their column constraints, the store invariant those constraints maintain, and the
    serialisation views (`User.dict`, `Advertisement.json`).

    A row is a map from column name to value; the primary key is the map key of its table.
 */
module Models {
  import opened Errors
  import Uuids

  /** A column value. `Ref` is a `user_id` foreign key; `Time` is an opaque server timestamp;
      `Uid` is the value of a `UUID` column. */
  datatype Value = Null | Str(s: string) | Ref(id: nat) | Time(t: int) | Uid(u: Uuids.Uuid)

  datatype Model = UserModel | AdvertisementModel | TokenModel

  /** The class name, as used in the "<Class> already exists" / "<Class> not found" messages. */
  function ClassName(m: Model): string {
    match m
    case UserModel => "User"
    case AdvertisementModel => "Advertisement"
    case TokenModel => "Token"
  }

  /** The 409 message of a duplicate row of `m`. */
  lemma AlreadyExistsText(m: Model)
    ensures m == UserModel ==> ClassName(m) + " already exists" == "User already exists"
    ensures m == AdvertisementModel ==> ClassName(m) + " already exists" == "Advertisement already exists"
    ensures m == TokenModel ==> ClassName(m) + " already exists" == "Token already exists"
  {
    var suffix := " already exists";
    match m
    case UserModel =>
      assert ClassName(m) + suffix == "User already exists";
    case AdvertisementModel =>
      assert ClassName(m) + suffix == "Advertisement already exists";
    case TokenModel =>
      assert ClassName(m) + suffix == "Token already exists";
  }

  /** The 404 message of a missing advertisement. */
  lemma AdvNotFoundText()
    ensures ClassName(AdvertisementModel) + " not found" == "Advertisement not found"
  {
  }

  const NameKey := "name"
  const EmailKey := "email"
  const PasswordKey := "password"
  const AuthorKey := "author"
  const TitleKey := "title"
  const DescriptionKey := "description"
  const RegistrationTimeKey := "registration_time"
  const UserIdKey := "user_id"
  const TokenKey := "token"

  /** Column types. `Timestamp` and `Uuid` columns carry a server-side default. */
  datatype ColumnType = Text(maxLength: nat) | Timestamp | Uuid | UserRef

  datatype Column = Column(name: string, kind: ColumnType, nullable: bool, unique: bool)

  /** The non-key columns of each table, with their constraints. */
  function Columns(m: Model): seq<Column> {
    match m
    case UserModel => [
      Column(NameKey, Text(100), false, true),
      Column(EmailKey, Text(100), false, false),
      Column(PasswordKey, Text(100), false, false)
    ]
    case AdvertisementModel => [
      Column(AuthorKey, Text(100), false, true),
      Column(TitleKey, Text(100), false, false),
      Column(DescriptionKey, Text(500), true, false),
      Column(RegistrationTimeKey, Timestamp, false, false),
      Column(UserIdKey, UserRef, false, false)
    ]
    case TokenModel => [
      Column(TokenKey, Uuid, false, true),
      Column(UserIdKey, UserRef, false, false)
    ]
  }

  function ColumnNames(m: Model): set<string> {
    set c | c in Columns(m) :: c.name
  }

  lemma ColumnNamesOf(m: Model)
    ensures m == UserModel ==> ColumnNames(m) == {NameKey, EmailKey, PasswordKey}
    ensures m == AdvertisementModel ==>
      ColumnNames(m) == {AuthorKey, TitleKey, DescriptionKey, RegistrationTimeKey, UserIdKey}
    ensures m == TokenModel ==> ColumnNames(m) == {TokenKey, UserIdKey}
  {
    var cs := Columns(m);
    match m
    case UserModel =>
      assert cs[0] in cs && cs[1] in cs && cs[2] in cs;
    case AdvertisementModel =>
      assert cs[0] in cs && cs[1] in cs && cs[2] in cs && cs[3] in cs && cs[4] in cs;
    case TokenModel =>
      assert cs[0] in cs && cs[1] in cs;
  }

  type Row = map<string, Value>

  /** A value the column's type accepts (nullability is checked separately). */
  predicate TypeFits(k: ColumnType, v: Value) {
    match v
    case Null => true
    case Str(s) => k.Text? && |s| <= k.maxLength
    case Uid(_) => k.Uuid?
    case Ref(_) => k.UserRef?
    case Time(_) => k.Timestamp?
  }

  predicate CellOk(c: Column, v: Value) {
    TypeFits(c.kind, v) && (v.Null? ==> c.nullable)
  }

  /** A row with exactly the table's columns, each holding an admissible value. */
  ghost predicate RowOk(m: Model, row: Row) {
    && row.Keys == ColumnNames(m)
    && forall c :: c in Columns(m) ==> CellOk(c, row[c.name])
  }

  /** Column `col` of the row holds `v`. */
  predicate Has(row: Row, col: string, v: Value) {
    col in row && row[col] == v
  }

  /** The row belongs to user `uid` through its `user_id` column. */
  predicate OwnedBy(row: Row, uid: nat) {
    Has(row, UserIdKey, Ref(uid))
  }

  /** A table: rows by primary key, and the next value of the key sequence. */
  datatype Table = Table(rows: map<nat, Row>, nextId: nat)

  datatype Db = Db(users: Table, advertisements: Table, tokens: Table) {

    function Of(m: Model): Table {
      match m
      case UserModel => users
      case AdvertisementModel => advertisements
      case TokenModel => tokens
    }

    function With(m: Model, t: Table): (db: Db)
      ensures db.Of(m) == t
      ensures forall m' :: m' != m ==> db.Of(m') == Of(m')
    {
      match m
      case UserModel => this.(users := t)
      case AdvertisementModel => this.(advertisements := t)
      case TokenModel => this.(tokens := t)
    }
  }

  /** No two rows of `t` share a value in column `col`. */
  ghost predicate UniqueColumn(t: Table, col: string) {
    forall a, b ::
      a in t.rows && b in t.rows && a != b && col in t.rows[a] && col in t.rows[b]
      ==> t.rows[a][col] != t.rows[b][col]
  }

  /** `filter_by(col=v).first()` on a column whose values are unique: the one row holding
      `v`, if any. */
  function FindBy(t: Table, col: string, v: Value): (r: Option<nat>)
    requires UniqueColumn(t, col)
    ensures r.None? <==> forall id :: id in t.rows ==> !Has(t.rows[id], col, v)
    ensures r.Some? ==> r.value in t.rows && Has(t.rows[r.value], col, v)
    ensures r.Some? ==> forall id :: id in t.rows && Has(t.rows[id], col, v) ==> id == r.value
  {
    if exists id | id in t.rows :: Has(t.rows[id], col, v) then
      var id :| id in t.rows && Has(t.rows[id], col, v);
      Some(id)
    else
      None
  }

  ghost predicate RowsOk(m: Model, t: Table) {
    forall id :: id in t.rows ==> id < t.nextId && RowOk(m, t.rows[id])
  }

  ghost predicate UniqueOk(m: Model, t: Table) {
    forall c :: c in Columns(m) && c.unique ==> UniqueColumn(t, c.name)
  }

  /** Every `user_id` cell of `t` refers to an existing user. */
  ghost predicate RefsOk(m: Model, t: Table, users: Table) {
    forall id, c :: id in t.rows && c in Columns(m) && c.kind.UserRef? ==>
      c.name in t.rows[id] && t.rows[id][c.name].Ref? && t.rows[id][c.name].id in users.rows
  }

  ghost predicate TableOk(db: Db, m: Model) {
    RowsOk(m, db.Of(m)) && UniqueOk(m, db.Of(m)) && RefsOk(m, db.Of(m), db.users)
  }

  /** The store invariant the database constraints maintain. */
  ghost predicate Valid(db: Db) {
    TableOk(db, UserModel) && TableOk(db, AdvertisementModel) && TableOk(db, TokenModel)
  }

  lemma ValidTable(db: Db, m: Model)
    requires Valid(db)
    ensures TableOk(db, m)
  {
    match m
    case UserModel =>
    case AdvertisementModel =>
    case TokenModel =>
  }

  lemma StoredRowOk(db: Db, m: Model, id: nat)
    requires Valid(db) && id in db.Of(m).rows
    ensures RowOk(m, db.Of(m).rows[id]) && id < db.Of(m).nextId
  {
    ValidTable(db, m);
  }

  /** The empty store (what the schema creation at start-up leaves). */
  const Empty := Db(Table(map[], 0), Table(map[], 0), Table(map[], 0))

  lemma EmptyValid()
    ensures Valid(Empty)
  {
  }

  // ----- facts the constraints give about individual rows -----

  lemma UserRowFields(row: Row)
    requires RowOk(UserModel, row)
    ensures NameKey in row && row[NameKey].Str? && |row[NameKey].s| <= 100
    ensures EmailKey in row && row[EmailKey].Str?
    ensures PasswordKey in row && row[PasswordKey].Str?
  {
    assert Columns(UserModel)[0] in Columns(UserModel);
    assert Columns(UserModel)[1] in Columns(UserModel);
    assert Columns(UserModel)[2] in Columns(UserModel);
  }

  lemma AdvRowFields(row: Row)
    requires RowOk(AdvertisementModel, row)
    ensures AuthorKey in row && row[AuthorKey].Str?
    ensures TitleKey in row && row[TitleKey].Str?
    ensures DescriptionKey in row && (row[DescriptionKey].Str? || row[DescriptionKey].Null?)
    ensures RegistrationTimeKey in row && row[RegistrationTimeKey].Time?
    ensures UserIdKey in row && row[UserIdKey].Ref?
  {
    var cs := Columns(AdvertisementModel);
    assert cs[0] in cs && cs[1] in cs && cs[2] in cs && cs[3] in cs && cs[4] in cs;
  }

  lemma TokenRowFields(row: Row)
    requires RowOk(TokenModel, row)
    ensures TokenKey in row && row[TokenKey].Uid?
    ensures UserIdKey in row && row[UserIdKey].Ref?
  {
    var cs := Columns(TokenModel);
    assert cs[0] in cs && cs[1] in cs;
  }

  /** In a valid store no two users share a name. */
  lemma UserNamesUnique(db: Db)
    requires Valid(db)
    ensures UniqueColumn(db.users, NameKey)
  {
    assert Columns(UserModel)[0] in Columns(UserModel);
  }

  /** In a valid store no two advertisements share an author. */
  lemma AuthorsUnique(db: Db)
    requires Valid(db)
    ensures UniqueColumn(db.advertisements, AuthorKey)
  {
    assert Columns(AdvertisementModel)[0] in Columns(AdvertisementModel);
  }

  /** In a valid store no two tokens share a value. */
  lemma TokenValuesUnique(db: Db)
    requires Valid(db)
    ensures UniqueColumn(db.tokens, TokenKey)
  {
    assert Columns(TokenModel)[0] in Columns(TokenModel);
  }

  /** In a valid store every advertisement and every token belongs to an existing user. */
  lemma OwnersExist(db: Db, m: Model, id: nat)
    requires Valid(db)
    requires m != UserModel && id in db.Of(m).rows
    ensures exists u :: u in db.users.rows && OwnedBy(db.Of(m).rows[id], u)
  {
    ValidTable(db, m);
    var c := Column(UserIdKey, UserRef, false, false);
    assert c in Columns(m) by {
      if m == AdvertisementModel { assert Columns(m)[4] == c; } else { assert Columns(m)[1] == c; }
    }
    var u := db.Of(m).rows[id][UserIdKey].id;
    assert u in db.users.rows && OwnedBy(db.Of(m).rows[id], u);
  }

  // ----- serialisation views -----

  /** `User.dict`: id, name, and the ids of the user's advertisements. */
  datatype UserView = UserView(id: nat, name: string, advertisements: set<nat>)

  /** `Advertisement.json`. */
  datatype AdvView = AdvView(
    id: nat, author: string, title: string, description: Option<string>,
    registrationTime: int, userId: nat)

  /** The ids of the advertisements owned by `uid`. */
  function AdvertisementsOf(db: Db, uid: nat): set<nat> {
    set a | a in db.advertisements.rows && OwnedBy(db.advertisements.rows[a], uid)
  }

  function UserDict(db: Db, uid: nat): (v: UserView)
    requires Valid(db) && uid in db.users.rows
    ensures v.id == uid && Str(v.name) == db.users.rows[uid][NameKey]
    ensures forall a :: a in v.advertisements <==>
      a in db.advertisements.rows && OwnedBy(db.advertisements.rows[a], uid)
  {
    ValidTable(db, UserModel);
    UserRowFields(db.users.rows[uid]);
    UserView(uid, db.users.rows[uid][NameKey].s, AdvertisementsOf(db, uid))
  }

  function AdvJson(id: nat, row: Row): (v: AdvView)
    requires RowOk(AdvertisementModel, row)
    ensures v.id == id
    ensures AuthorKey in row && Str(v.author) == row[AuthorKey]
    ensures TitleKey in row && Str(v.title) == row[TitleKey]
    ensures DescriptionKey in row
    ensures v.description == None <==> row[DescriptionKey] == Null
    ensures v.description.Some? ==> row[DescriptionKey] == Str(v.description.value)
    ensures RegistrationTimeKey in row && Time(v.registrationTime) == row[RegistrationTimeKey]
    ensures OwnedBy(row, v.userId)
  {
    AdvRowFields(row);
    var description := if row[DescriptionKey].Str? then Some(row[DescriptionKey].s) else None;
    AdvView(id, row[AuthorKey].s, row[TitleKey].s, description,
            row[RegistrationTimeKey].t, row[UserIdKey].id)
  }
}
