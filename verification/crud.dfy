/** The generic persistence helpers of `crud.py`: create, add (commit), update, get-by-id
    and delete over the relational store of `Models`.

    Every helper commits on its own. A commit either stores the row or is rolled back, so a
    failing helper leaves the store as it was. The store rejects a row by the first
    constraint the row breaks: a value that does not fit its column, then NOT NULL, then a
    unique index, then the `user_id` foreign key. Only a uniqueness violation is turned into
    an HTTP error (409); every other store error escapes unchanged.
 */
module Crud {
  import opened Errors
  import opened Models
  import Uuids

  /** Values the server fills in when a column is not supplied on insert:
      `now()` for `registration_time` and `gen_random_uuid()` for `token`. */
  datatype ServerDefaults = ServerDefaults(now: int, uuid: Uuids.Uuid)

  /** `add_item` succeeded and the item got this primary key. */
  datatype Created = Created(db: Db, id: nat)

  /** The table `t` with `row` written at primary key `id`. */
  function Put(t: Table, id: nat, row: Row): (t': Table)
    ensures t'.rows == t.rows[id := row]
    ensures id < t'.nextId && t.nextId <= t'.nextId
  {
    Table(t.rows[id := row], if id < t.nextId then t.nextId else id + 1)
  }

  /** The unique column `c` of row `row` clashes with the row of another primary key. */
  predicate Clash(t: Table, c: Column, id: nat, row: Row)
    requires c.name in row
  {
    exists other | other in t.rows && other != id ::
      c.name in t.rows[other] && t.rows[other][c.name] == row[c.name]
  }

  /** The first constraint `row` would break if stored at `id` of table `m`, if any. A
      later constraint is reported only when every earlier one holds: the row fits its
      columns exactly when neither a data error nor NOT NULL is reported, a foreign key is
      reported only without a unique clash, and none only when the owner exists. */
  function Violation(db: Db, m: Model, id: nat, row: Row): (r: Option<DbError>)
    requires row.Keys == ColumnNames(m)
    ensures RowOk(m, row) <==> r != Some(DataError) && r != Some(NotNullViolation)
    ensures r.None? || r == Some(ForeignKeyViolation) ==>
      forall c :: c in Columns(m) && c.unique ==> !Clash(db.Of(m), c, id, row)
    ensures r.None? ==> forall c :: c in Columns(m) && c.kind.UserRef? ==>
      row[c.name].Ref? && row[c.name].id in db.users.rows
  {
    if exists c | c in Columns(m) :: !TypeFits(c.kind, row[c.name]) then Some(DataError)
    else if exists c | c in Columns(m) :: !c.nullable && row[c.name].Null? then Some(NotNullViolation)
    else if exists c | c in Columns(m) && c.unique :: Clash(db.Of(m), c, id, row) then Some(UniqueViolation)
    else if exists c | c in Columns(m) && c.kind.UserRef? ::
      !(row[c.name].Ref? && row[c.name].id in db.users.rows) then Some(ForeignKeyViolation)
    else None
  }

  /** `add_item`: commit `row` at `id`; a uniqueness violation becomes 409 "<Class> already
      exists", any other store error is re-raised unchanged. */
  function AddItem(db: Db, m: Model, id: nat, row: Row): (r: Result<Db>)
    requires row.Keys == ColumnNames(m)
    ensures r.Ok? <==> Violation(db, m, id, row).None?
    ensures r.Ok? ==> RowOk(m, row)
    ensures r.Ok? ==> r.value.Of(m).rows == db.Of(m).rows[id := row]
    ensures r.Ok? ==> forall m' :: m' != m ==> r.value.Of(m') == db.Of(m')
    ensures Violation(db, m, id, row) == Some(UniqueViolation) <==>
      r == Fail(HttpError(409, Message(ClassName(m) + " already exists")))
    ensures forall e :: Violation(db, m, id, row) == Some(e) && e != UniqueViolation ==>
      r == Fail(Uncaught(Database(e)))
  {
    match Violation(db, m, id, row)
    case None => Ok(db.With(m, Put(db.Of(m), id, row)))
    case Some(UniqueViolation) => Http(409, ClassName(m) + " already exists")
    case Some(e) => Fail(Uncaught(Database(e)))
  }

  /** The value a column gets on insert when the payload does not name it. */
  function ServerDefault(col: string, d: ServerDefaults): Value {
    if col == RegistrationTimeKey then Time(d.now)
    else if col == TokenKey then Uid(d.uuid)
    else Null
  }

  /** The row `model(**payload)` inserts: the payload, with server defaults elsewhere. */
  function NewRow(m: Model, payload: Row, d: ServerDefaults): (row: Row)
    ensures row.Keys == ColumnNames(m)
    ensures forall k :: k in payload && k in ColumnNames(m) ==> row[k] == payload[k]
    ensures forall k :: k in ColumnNames(m) && k !in payload ==> row[k] == ServerDefault(k, d)
  {
    map k | k in ColumnNames(m) :: if k in payload then payload[k] else ServerDefault(k, d)
  }

  /** `create_item`: insert a new row built from `payload` under the next primary key. */
  function CreateItem(db: Db, m: Model, payload: Row, d: ServerDefaults): (r: Result<Created>)
    requires payload.Keys <= ColumnNames(m)
    ensures r.Ok? ==> r.value.id == db.Of(m).nextId
    ensures r.Ok? ==> r.value.id in r.value.db.Of(m).rows
    ensures r.Ok? ==> RowOk(m, r.value.db.Of(m).rows[r.value.id])
    ensures r.Ok? ==> forall k :: k in payload ==> r.value.db.Of(m).rows[r.value.id][k] == payload[k]
    ensures r.Ok? ==> forall k :: k in ColumnNames(m) && k !in payload ==>
      r.value.db.Of(m).rows[r.value.id][k] == ServerDefault(k, d)
    ensures r.Ok? ==> forall i :: i in db.Of(m).rows && i != r.value.id ==>
      i in r.value.db.Of(m).rows && r.value.db.Of(m).rows[i] == db.Of(m).rows[i]
    ensures r.Ok? ==> r.value.db.Of(m).rows.Keys == db.Of(m).rows.Keys + {r.value.id}
    ensures r.Ok? ==> forall m' :: m' != m ==> r.value.db.Of(m') == db.Of(m')
    ensures r.Fail? <==> AddItem(db, m, db.Of(m).nextId, NewRow(m, payload, d)).Fail?
    ensures r.Fail? ==> r.failure == AddItem(db, m, db.Of(m).nextId, NewRow(m, payload, d)).failure
  {
    var id := db.Of(m).nextId;
    var db' :- AddItem(db, m, id, NewRow(m, payload, d));
    Ok(Created(db', id))
  }

  /** `update_item`: overwrite the fields named in `payload` and commit. */
  function UpdateItem(db: Db, m: Model, id: nat, payload: Row): (r: Result<Db>)
    requires id in db.Of(m).rows && RowOk(m, db.Of(m).rows[id]) && payload.Keys <= ColumnNames(m)
    ensures r.Ok? ==> id in r.value.Of(m).rows && r.value.Of(m).rows.Keys == db.Of(m).rows.Keys
    ensures r.Ok? ==> RowOk(m, r.value.Of(m).rows[id])
    ensures r.Ok? ==> forall k :: k in payload ==> r.value.Of(m).rows[id][k] == payload[k]
    ensures r.Ok? ==> forall k :: k in db.Of(m).rows[id] && k !in payload ==>
      r.value.Of(m).rows[id][k] == db.Of(m).rows[id][k]
    ensures r.Ok? ==> forall i :: i in db.Of(m).rows && i != id ==>
      r.value.Of(m).rows[i] == db.Of(m).rows[i]
    ensures r.Ok? ==> forall m' :: m' != m ==> r.value.Of(m') == db.Of(m')
    ensures r.Ok? <==> Violation(db, m, id, db.Of(m).rows[id] + payload).None?
    ensures r.Fail? ==> r == AddItem(db, m, id, db.Of(m).rows[id] + payload)
  {
    var row := db.Of(m).rows[id] + payload;
    assert row.Keys == ColumnNames(m);
    AddItem(db, m, id, row)
  }

  /** `get_item_by_id`: the stored row, or 404 "<Model> not found". */
  function GetItemById(db: Db, m: Model, id: nat): (r: Result<Row>)
    ensures r.Ok? <==> id in db.Of(m).rows
    ensures r.Ok? ==> r.value == db.Of(m).rows[id]
    ensures r.Fail? ==> r == Fail(HttpError(404, Message(ClassName(m) + " not found")))
  {
    if id in db.Of(m).rows then Ok(db.Of(m).rows[id])
    else Http(404, ClassName(m) + " not found")
  }

  /** The table without the rows owned by user `uid`. */
  function Disown(t: Table, uid: nat): (t': Table)
    ensures t'.nextId == t.nextId
    ensures forall i :: i in t'.rows <==> i in t.rows && !OwnedBy(t.rows[i], uid)
    ensures forall i :: i in t'.rows ==> t'.rows[i] == t.rows[i]
  {
    t.(rows := map i | i in t.rows && !OwnedBy(t.rows[i], uid) :: t.rows[i])
  }

  /** `delete_item`: remove the row. Deleting a user also deletes its advertisements and
      tokens (the `cascade="all, delete-orphan"` relationships). */
  function DeleteItem(db: Db, m: Model, id: nat): (r: Db)
    requires id in db.Of(m).rows
    ensures id !in r.Of(m).rows
    ensures r.Of(m).rows == db.Of(m).rows - {id}
    ensures forall m' :: r.Of(m').nextId == db.Of(m').nextId
    ensures m != UserModel ==> forall m' :: m' != m ==> r.Of(m') == db.Of(m')
    ensures m == UserModel ==> forall m', i :: m' != UserModel ==>
      (i in r.Of(m').rows <==> i in db.Of(m').rows && !OwnedBy(db.Of(m').rows[i], id))
    ensures forall m', i :: i in r.Of(m').rows ==>
      i in db.Of(m').rows && r.Of(m').rows[i] == db.Of(m').rows[i]
  {
    var t := db.Of(m);
    var t' := t.(rows := t.rows - {id});
    if m == UserModel then
      Db(t', Disown(db.advertisements, id), Disown(db.tokens, id))
    else
      db.With(m, t')
  }
}
