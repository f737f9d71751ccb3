/** What the persistence helpers guarantee about the store invariant: a commit succeeds
    exactly when the store it would leave satisfies every column constraint, helpers keep
    the invariant, and re-committing or updating with nothing changes nothing.
 */
module CrudProperties {
  import opened Errors
  import opened Models
  import opened Crud

  /** The store `add_item` would leave if it committed `row` at `id`. */
  function Stored(db: Db, m: Model, id: nat, row: Row): Db {
    db.With(m, Put(db.Of(m), id, row))
  }

  /** What a row that breaks no constraint satisfies, column by column. */
  lemma NoViolationFacts(db: Db, m: Model, id: nat, row: Row)
    requires row.Keys == ColumnNames(m)
    requires Violation(db, m, id, row).None?
    ensures RowOk(m, row)
    ensures forall c :: c in Columns(m) && c.unique ==> !Clash(db.Of(m), c, id, row)
    ensures forall c :: c in Columns(m) && c.kind.UserRef? ==>
      row[c.name].Ref? && row[c.name].id in db.users.rows
  {
    assert !exists c | c in Columns(m) :: !TypeFits(c.kind, row[c.name]);
    assert !exists c | c in Columns(m) :: !c.nullable && row[c.name].Null?;
    forall c | c in Columns(m) ensures CellOk(c, row[c.name]) {
    }
  }

  lemma RefsGrow(m: Model, t: Table, users: Table, users': Table)
    requires RefsOk(m, t, users)
    requires users.rows.Keys <= users'.rows.Keys
    ensures RefsOk(m, t, users')
  {
  }

  /** Nothing but the table `m` changes, and user keys only grow, so the other tables stay fine. */
  lemma OtherTablesOk(db: Db, m: Model, id: nat, row: Row, m': Model)
    requires Valid(db) && m' != m
    ensures TableOk(Stored(db, m, id, row), m')
  {
    var db' := Stored(db, m, id, row);
    ValidTable(db, m');
    assert db'.Of(m') == db.Of(m');
    assert db.users.rows.Keys <= db'.users.rows.Keys;
    RefsGrow(m', db.Of(m'), db.users, db'.users);
  }

  lemma RowsOkPut(m: Model, t: Table, id: nat, row: Row)
    requires RowsOk(m, t) && RowOk(m, row)
    ensures RowsOk(m, Put(t, id, row))
  {
  }

  lemma UniqueOkPut(m: Model, t: Table, id: nat, row: Row)
    requires row.Keys == ColumnNames(m)
    requires UniqueOk(m, t)
    requires forall c :: c in Columns(m) && c.unique ==> !Clash(t, c, id, row)
    ensures UniqueOk(m, Put(t, id, row))
  {
    var t' := Put(t, id, row);
    forall c | c in Columns(m) && c.unique
      ensures UniqueColumn(t', c.name)
    {
      assert UniqueColumn(t, c.name);
      assert !Clash(t, c, id, row);
    }
  }

  lemma RefsOkPut(m: Model, t: Table, id: nat, row: Row, users: Table)
    requires row.Keys == ColumnNames(m)
    requires RefsOk(m, t, users)
    requires forall c :: c in Columns(m) && c.kind.UserRef? ==>
      row[c.name].Ref? && row[c.name].id in users.rows
    ensures RefsOk(m, Put(t, id, row), users)
  {
    var t' := Put(t, id, row);
    forall i, c | i in t'.rows && c in Columns(m) && c.kind.UserRef?
      ensures c.name in t'.rows[i] && t'.rows[i][c.name].Ref? && t'.rows[i][c.name].id in users.rows
    {
      if i != id {
        assert t'.rows[i] == t.rows[i];
      }
    }
  }

  /** A user table has no foreign-key column. */
  lemma UsersHaveNoRefs(t: Table, users: Table)
    ensures RefsOk(UserModel, t, users)
  {
  }

  /** The table written to stays fine when the row breaks no constraint. */
  lemma WrittenTableOk(db: Db, m: Model, id: nat, row: Row)
    requires TableOk(db, m) && row.Keys == ColumnNames(m)
    requires Violation(db, m, id, row).None?
    ensures TableOk(Stored(db, m, id, row), m)
  {
    var db' := Stored(db, m, id, row);
    var t := db.Of(m);
    var t' := Put(t, id, row);
    assert db'.Of(m) == t';
    NoViolationFacts(db, m, id, row);
    RowsOkPut(m, t, id, row);
    UniqueOkPut(m, t, id, row);
    if m == UserModel {
      UsersHaveNoRefs(t', db'.users);
    } else {
      assert db'.users == db.users;
      RefsOkPut(m, t, id, row, db.users);
    }
  }

  /** A commit that succeeds keeps the store invariant. */
  lemma AddItemKeepsValid(db: Db, m: Model, id: nat, row: Row)
    requires Valid(db) && row.Keys == ColumnNames(m)
    requires AddItem(db, m, id, row).Ok?
    ensures Valid(AddItem(db, m, id, row).value)
  {
    assert AddItem(db, m, id, row).value == Stored(db, m, id, row);
    ValidTable(db, m);
    WrittenTableOk(db, m, id, row);
    forall m' | m' != m
      ensures TableOk(Stored(db, m, id, row), m')
    {
      OtherTablesOk(db, m, id, row, m');
    }
    var db' := Stored(db, m, id, row);
    assert TableOk(db', UserModel) && TableOk(db', AdvertisementModel) && TableOk(db', TokenModel);
  }

  /** A row satisfying every column constraint is not refused. */
  lemma FactsMeanNoViolation(db: Db, m: Model, id: nat, row: Row)
    requires row.Keys == ColumnNames(m)
    requires RowOk(m, row)
    requires forall c :: c in Columns(m) && c.unique ==> !Clash(db.Of(m), c, id, row)
    requires forall c :: c in Columns(m) && c.kind.UserRef? ==>
      row[c.name].Ref? && row[c.name].id in db.users.rows
    ensures Violation(db, m, id, row).None?
  {
  }

  /** A row that fits its columns and refers to existing users is refused only by a unique
      index, and exactly when it repeats another row's value in a unique column. */
  lemma WellFormedRowViolation(db: Db, m: Model, id: nat, row: Row)
    requires row.Keys == ColumnNames(m) && RowOk(m, row)
    requires forall c :: c in Columns(m) && c.kind.UserRef? ==>
      row[c.name].Ref? && row[c.name].id in db.users.rows
    ensures Violation(db, m, id, row).None? <==>
      forall c :: c in Columns(m) && c.unique ==> !Clash(db.Of(m), c, id, row)
    ensures Violation(db, m, id, row).Some? ==> Violation(db, m, id, row) == Some(UniqueViolation)
  {
    if Violation(db, m, id, row).None? {
      NoViolationFacts(db, m, id, row);
    }
    if forall c :: c in Columns(m) && c.unique ==> !Clash(db.Of(m), c, id, row) {
      FactsMeanNoViolation(db, m, id, row);
    }
    FitsMeansOnlyUnique(db, m, id, row);
  }

  /** A row that fits its columns and refers to existing users can break only a unique
      index. */
  lemma FitsMeansOnlyUnique(db: Db, m: Model, id: nat, row: Row)
    requires row.Keys == ColumnNames(m) && RowOk(m, row)
    requires forall c :: c in Columns(m) && c.kind.UserRef? ==>
      row[c.name].Ref? && row[c.name].id in db.users.rows
    ensures Violation(db, m, id, row) == None || Violation(db, m, id, row) == Some(UniqueViolation)
  {
  }

  /** Each table has one unique column, its first. */
  lemma OnlyFirstColumnUnique(m: Model)
    ensures |Columns(m)| > 0 && Columns(m)[0].unique
    ensures forall c :: c in Columns(m) && c.unique ==> c == Columns(m)[0]
  {
    var cs := Columns(m);
    match m
    case UserModel =>
      assert forall c :: c in cs ==> c == cs[0] || c == cs[1] || c == cs[2];
    case AdvertisementModel =>
      assert forall c :: c in cs ==> c == cs[0] || c == cs[1] || c == cs[2] || c == cs[3] || c == cs[4];
    case TokenModel =>
      assert forall c :: c in cs ==> c == cs[0] || c == cs[1];
  }

  /** A row for a fresh key that fits its columns and refers to existing users is refused
      only by the unique index, and exactly when a stored row holds its unique value. */
  lemma FreshRowViolation(db: Db, m: Model, id: nat, row: Row)
    requires row.Keys == ColumnNames(m) && RowOk(m, row)
    requires forall c :: c in Columns(m) && c.kind.UserRef? ==>
      row[c.name].Ref? && row[c.name].id in db.users.rows
    requires id !in db.Of(m).rows
    ensures |Columns(m)| > 0 && Columns(m)[0].name in row
    ensures var k := Columns(m)[0].name;
      Violation(db, m, id, row).None? <==> forall o :: o in db.Of(m).rows ==> !Has(db.Of(m).rows[o], k, row[k])
    ensures Violation(db, m, id, row).Some? ==> Violation(db, m, id, row) == Some(UniqueViolation)
  {
    OnlyFirstColumnUnique(m);
    WellFormedRowViolation(db, m, id, row);
    var c0 := Columns(m)[0];
    assert c0 in Columns(m);
    assert (forall c :: c in Columns(m) && c.unique ==> !Clash(db.Of(m), c, id, row)) <==>
      !Clash(db.Of(m), c0, id, row);
  }

  lemma NoClashIn(m: Model, t: Table, id: nat, row: Row)
    requires row.Keys == ColumnNames(m)
    requires UniqueOk(m, Put(t, id, row))
    ensures forall c :: c in Columns(m) && c.unique ==> !Clash(t, c, id, row)
  {
    var t' := Put(t, id, row);
    forall c | c in Columns(m) && c.unique
      ensures !Clash(t, c, id, row)
    {
      assert UniqueColumn(t', c.name);
      forall other | other in t.rows && other != id && c.name in t.rows[other]
        ensures t.rows[other][c.name] != row[c.name]
      {
        assert t'.rows[other] == t.rows[other];
        assert t'.rows[id] == row && c.name in row;
      }
    }
  }

  lemma RefsAt(m: Model, t: Table, users: Table, id: nat)
    requires RefsOk(m, t, users) && id in t.rows
    ensures forall c :: c in Columns(m) && c.kind.UserRef? ==>
      c.name in t.rows[id] && t.rows[id][c.name].Ref? && t.rows[id][c.name].id in users.rows
  {
  }

  /** A commit is refused whenever the table it would leave breaks a constraint. */
  lemma ValidMeansNoViolation(db: Db, m: Model, id: nat, row: Row, users: Table)
    requires row.Keys == ColumnNames(m)
    requires RowsOk(m, Put(db.Of(m), id, row)) && UniqueOk(m, Put(db.Of(m), id, row))
    requires RefsOk(m, Put(db.Of(m), id, row), users)
    requires m != UserModel ==> users == db.users
    ensures Violation(db, m, id, row).None?
  {
    var t' := Put(db.Of(m), id, row);
    assert RowOk(m, row) by {
      assert id in t'.rows && t'.rows[id] == row;
    }
    NoClashIn(m, db.Of(m), id, row);
    if m != UserModel {
      RefsAt(m, t', db.users, id);
    }
    FactsMeanNoViolation(db, m, id, row);
  }

  /** `add_item` commits exactly the rows that keep every column constraint of the store:
      it fails (409 or a re-raised store error) precisely when the result would be invalid. */
  lemma AddItemAcceptsExactlyValid(db: Db, m: Model, id: nat, row: Row)
    requires Valid(db) && row.Keys == ColumnNames(m)
    ensures AddItem(db, m, id, row).Ok? <==> Valid(Stored(db, m, id, row))
    ensures AddItem(db, m, id, row).Ok? ==> AddItem(db, m, id, row).value == Stored(db, m, id, row)
  {
    if AddItem(db, m, id, row).Ok? {
      AddItemKeepsValid(db, m, id, row);
    }
    var db' := Stored(db, m, id, row);
    if Valid(db') {
      ValidTable(db', m);
      assert db'.Of(m) == Put(db.Of(m), id, row);
      ValidMeansNoViolation(db, m, id, row, db'.users);
    }
  }

  /** Committing a row that is already stored, unchanged, is a no-op (the second
      `add_item` of a freshly created token). */
  lemma AddStoredRowIsNoOp(db: Db, m: Model, id: nat)
    requires Valid(db) && id in db.Of(m).rows
    ensures db.Of(m).rows[id].Keys == ColumnNames(m)
    ensures AddItem(db, m, id, db.Of(m).rows[id]) == Ok(db)
  {
    StoredRowOk(db, m, id);
    var row := db.Of(m).rows[id];
    assert Stored(db, m, id, row) == db by {
      assert db.Of(m).rows[id := row] == db.Of(m).rows;
      match m
      case UserModel =>
      case AdvertisementModel =>
      case TokenModel =>
    }
    AddItemAcceptsExactlyValid(db, m, id, row);
  }

  /** `update_item` with an empty payload changes nothing. */
  lemma UpdateEmptyIsNoOp(db: Db, m: Model, id: nat)
    requires Valid(db) && id in db.Of(m).rows
    ensures RowOk(m, db.Of(m).rows[id])
    ensures UpdateItem(db, m, id, map[]) == Ok(db)
  {
    StoredRowOk(db, m, id);
    assert db.Of(m).rows[id] + map[] == db.Of(m).rows[id];
    AddStoredRowIsNoOp(db, m, id);
  }

  /** A successful `update_item` keeps the store invariant. */
  lemma UpdateItemKeepsValid(db: Db, m: Model, id: nat, payload: Row)
    requires Valid(db) && id in db.Of(m).rows && payload.Keys <= ColumnNames(m)
    requires RowOk(m, db.Of(m).rows[id])
    requires UpdateItem(db, m, id, payload).Ok?
    ensures Valid(UpdateItem(db, m, id, payload).value)
  {
    AddItemKeepsValid(db, m, id, db.Of(m).rows[id] + payload);
  }

  /** A successful `create_item` keeps the store invariant and stores a row under a key that
      was not in use before. */
  lemma CreateItemKeepsValid(db: Db, m: Model, payload: Row, d: ServerDefaults)
    requires Valid(db) && payload.Keys <= ColumnNames(m)
    requires CreateItem(db, m, payload, d).Ok?
    ensures Valid(CreateItem(db, m, payload, d).value.db)
    ensures CreateItem(db, m, payload, d).value.id !in db.Of(m).rows
  {
    ValidTable(db, m);
    AddItemKeepsValid(db, m, db.Of(m).nextId, NewRow(m, payload, d));
  }

  /** `create_item` answers what the first violated constraint of the new row dictates. */
  lemma CreateItemByViolation(db: Db, m: Model, payload: Row, d: ServerDefaults)
    requires payload.Keys <= ColumnNames(m)
    ensures var id := db.Of(m).nextId;
      var row := NewRow(m, payload, d);
      var r := CreateItem(db, m, payload, d);
      && (Violation(db, m, id, row).None? ==> r == Ok(Created(Stored(db, m, id, row), id)))
      && (Violation(db, m, id, row) == Some(UniqueViolation) ==>
            r == Fail(HttpError(409, Message(ClassName(m) + " already exists"))))
      && (forall e :: Violation(db, m, id, row) == Some(e) && e != UniqueViolation ==>
            r == Fail(Uncaught(Database(e))))
  {
  }

  /** Every row of `t'` is a row of `t`. */
  ghost predicate SubTable(t': Table, t: Table) {
    forall i :: i in t'.rows ==> i in t.rows && t'.rows[i] == t.rows[i]
  }

  lemma SubTableOk(m: Model, t': Table, t: Table, users: Table)
    requires SubTable(t', t) && t'.nextId == t.nextId
    requires RowsOk(m, t) && UniqueOk(m, t) && RefsOk(m, t, users)
    ensures RowsOk(m, t') && UniqueOk(m, t') && RefsOk(m, t', users)
  {
    forall c | c in Columns(m) && c.unique
      ensures UniqueColumn(t', c.name)
    {
      assert UniqueColumn(t, c.name);
    }
  }

  /** The only foreign-key column of any table is `user_id`. */
  lemma RefColumnIsUserId(m: Model, c: Column)
    requires c in Columns(m) && c.kind.UserRef?
    ensures c.name == UserIdKey
  {
  }

  /** Dropping user `uid` together with the rows it owns leaves no dangling reference. */
  lemma DisownRefs(m: Model, t: Table, users: Table, uid: nat)
    requires RefsOk(m, t, users)
    ensures RefsOk(m, Disown(t, uid), users.(rows := users.rows - {uid}))
  {
    var t' := Disown(t, uid);
    forall i, c | i in t'.rows && c in Columns(m) && c.kind.UserRef?
      ensures c.name in t'.rows[i] && t'.rows[i][c.name].Ref? && t'.rows[i][c.name].id in users.rows - {uid}
    {
      RefColumnIsUserId(m, c);
      assert !OwnedBy(t.rows[i], uid);
    }
  }

  /** After `delete_item` the store invariant still holds: the cascade removed every row that
      referred to a deleted user. */
  lemma DeleteItemKeepsValid(db: Db, m: Model, id: nat)
    requires Valid(db) && id in db.Of(m).rows
    ensures Valid(DeleteItem(db, m, id))
  {
    var db' := DeleteItem(db, m, id);
    forall m' ensures TableOk(db', m') {
      ValidTable(db, m');
      var t := db.Of(m');
      var t' := db'.Of(m');
      assert SubTable(t', t);
      if m == UserModel {
        var users' := db.users.(rows := db.users.rows - {id});
        assert db'.users == users';
        if m' == UserModel {
          SubTableOk(m', t', t, db.users);
          UsersHaveNoRefs(t', users');
        } else {
          assert t' == Disown(t, id);
          SubTableOk(m', t', t, db.users);
          DisownRefs(m', t, db.users, id);
        }
      } else {
        assert db'.users == db.users;
        SubTableOk(m', t', t, db.users);
      }
    }
    assert TableOk(db', UserModel) && TableOk(db', AdvertisementModel) && TableOk(db', TokenModel);
  }

  /** After `delete_item`, looking the item up again answers 404. */
  lemma DeleteThenGetNotFound(db: Db, m: Model, id: nat)
    requires id in db.Of(m).rows
    ensures GetItemById(DeleteItem(db, m, id), m, id) ==
      Fail(HttpError(404, Message(ClassName(m) + " not found")))
  {
  }
}
