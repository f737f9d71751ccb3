# flask_netology request core in Dafny

This project models the request-handling core of a small Flask service for
advertisements. Users register and log in. A login issues a bearer token. With that
token a user can read, patch and delete its own account, and can post, read, patch and
delete its own advertisements.

The model has these parts:

- **Store** (`models.dfy`): the three tables `User`, `Advertisement` and `Token`.
  - Each table maps primary keys to rows and carries the next key of its sequence.
  - The invariant `Valid` is what the database constraints keep. Every row has exactly
    its columns and each value fits its column type and nullability. The `unique`
    columns hold no repeated value (`name`, `author`, `token`). Every `user_id` refers to
    an existing user.
- **CRUD helpers** (`crud.dfy`): `add_item`, `create_item`, `update_item`,
  `get_item_by_id` and `delete_item` of `crud.py`, as functions on the store.
  - A commit either stores the row or fails with the first constraint the row breaks.
    The order is: a value too long for its column, then NOT NULL, then a unique index,
    then a foreign key.
  - A uniqueness failure becomes HTTP 409 "<Class> already exists". Every other store
    error escapes unchanged.
  - Deleting a user cascades to its advertisements and tokens.
- **Schemas** (`schema.dfy`): the pydantic classes of `schema.py`.
  - Each schema is a sequence of field specifications. A field can be required or
    optional, and can be nullable.
  - The extra rules are the password-length validator and the e-mail pattern. The
    password bound is inclusive: 8 and 16 characters are accepted (schema.py:18-24).
  - `ValidateFields` reports the first error in field order, or a crash when a
    validator raises something other than `ValueError`.
- **Token values** (`uuid.dfy`): the `token` column is a PostgreSQL `UUID`.
  - The store answers a value as 8-4-4-4-12 lower-case hex digits.
  - It reads text as `uuid_in` does: 32 hex digits of either case, optionally braced,
    with optional hyphens between groups of four digits.
  - Text that spells no UUID is a data error.
- **Request helpers** (`check_auth.dfy`): `validate`, which turns the first error into
  HTTP 400; the password hasher as an abstract `Crypto`; the `check_token` gate; and
  `check_user`.
  - The gate filters the `UUID` column by the raw `Authorization` header. So a header
    that spells no UUID makes the store raise a data error, which nothing catches.
  - Any spelling of a stored UUID opens the gate.
- **Handlers** (`views.dfy`): the handlers of `view_user_adv.py`. Each is a function
  from a store and a request to a `Reply`, which holds the store after the request and
  either a response body or the failure.
  - A failed request commits nothing.
  - `routes.dfy` dispatches the URL rules of `main.py`.
- **Properties** (`crud_properties.dfy`, `schema_properties.dfy`,
  `validation_properties.dfy`, `view_properties.dfy`): invariant preservation,
  if-and-only-if descriptions of the validators, and properties that span several
  requests. Examples: register then log in, post then read back, delete twice.
- **Findings** (`findings.dfy`): `Views` models two handlers as written.
  - `PATCH /user` stores a new password as plain text.
  - `GET /adv` without an id reads an attribute `Advertisement` lacks.
  - `findings.dfy` gives the corrected handlers and relates each pair.

## Model

| member | source | states |
|---|---|---|
| Models.UserNamesUnique | models.py:27 | in a valid store no two users have the same name |
| Models.AuthorsUnique | models.py:51 | in a valid store no two advertisements have the same author |
| Models.TokenValuesUnique | models.py:74-76 | in a valid store no two tokens have the same value |
| Models.OwnersExist | models.py:55 | every advertisement belongs to an existing user (foreign key on `user_id`) |
| Models.StoredRowOk | models.py:24-78 | every stored row has exactly its table's columns, each within its type, length and nullability, and its key is below the next key of the sequence |
| Models.EmptyValid | models.py:24-78 | the freshly created empty store satisfies every constraint |
| Models.UserRowFields | models.py:27-29 | a stored user has non-null string `name`, `email` and `password`, and the name fits 100 characters |
| Models.AdvRowFields | models.py:50-55 | a stored advertisement has string `author` and `title`, a string or null `description`, a timestamp and an owner |
| Models.TokenRowFields | models.py:74-77 | a stored token has a `UUID` value and an owner |
| Models.FindBy | models.py:24-78 | a lookup on a unique column finds the one row holding the value, or reports that no row holds it |
| Models.UserDict | models.py:38-44 | `User.dict` shows the user's id and name, and lists exactly the ids of the advertisements the user owns |
| Models.AdvJson | models.py:59-68 | `Advertisement.json` shows each column of the advertisement, with a null description as null |
| Models.AlreadyExistsText | crud.py:37-38 | the 409 message is the class name followed by " already exists" for each model |
| Uuids.HexDigit | models.py:74-76 | the digit written for a value reads back as that value, in either case |
| Uuids.Parse | models.py:74-76 | `uuid_in`: a text that spells a UUID has at least 32 characters; one that starts with neither a hex digit nor `{` spells none |
| Uuids.SpellParses | models.py:74-76 | reading the spelling of bytes `i` to 15 gives exactly those digits and leaves what follows unread, with each digit in either case and every allowed hyphen placement |
| Uuids.SpellingsParse | models.py:74-76 | every text `uuid_in` accepts for a UUID reads back as that UUID: each of the 32 digits in either case, any allowed hyphens, with or without braces |
| Uuids.Text | view_user_adv.py:35 | `str(uuid)`, the text a token value is answered as, reads back as the same UUID |
| Crud.AddItem | crud.py:32-41 | the commit succeeds exactly when the row breaks no constraint; then only that row changes; a unique violation answers 409 "<Class> already exists"; any other store error is re-raised |
| Crud.CreateItem | crud.py:7-10 | the new row holds the payload plus server defaults under the next key; other rows and tables are unchanged; it fails exactly as `add_item` of that row fails |
| Crud.UpdateItem | crud.py:18-22 | the supplied fields are overwritten and every other field, row and table is kept; it commits exactly when the patched row breaks no constraint, and otherwise fails as `add_item` of the patched row fails |
| Crud.Violation | crud.py:32-41 | the first constraint a row breaks, in the store's order: the row fits its columns exactly when it is neither a data error nor a NOT NULL failure; a row that gets past the unique check clashes on no unique column; a row breaking nothing refers only to existing users |
| Crud.NewRow | crud.py:7-10 | `model(**payload)`: every column the payload supplies holds the supplied value, and every other column its server default |
| Crud.GetItemById | crud.py:25-29 | the stored row exactly when the key exists, else 404 "<Class> not found" |
| Crud.DeleteItem | crud.py:13-15 | the row is removed; deleting a user also removes exactly its advertisements and tokens (cascade); nothing else changes |
| Crud.Disown | models.py:31-36 | the cascade keeps exactly the rows not owned by the deleted user, unchanged |
| CrudProperties.AddItemKeepsValid | crud.py:32-41 | a committed `add_item` keeps every table constraint |
| CrudProperties.AddItemAcceptsExactlyValid | crud.py:32-41 | `add_item` commits exactly when the store with the row written would satisfy every constraint, and then commits that store |
| CrudProperties.CreateItemKeepsValid | crud.py:7-10 | a committed `create_item` keeps every constraint and uses a key no stored row has |
| CrudProperties.CreateItemByViolation | crud.py:7-10 | `create_item` answers according to the first violated constraint: none gives the new row, unique gives 409, any other error escapes |
| CrudProperties.UpdateItemKeepsValid | crud.py:18-22 | a committed `update_item` keeps every constraint |
| CrudProperties.UpdateEmptyIsNoOp | crud.py:18-22 | an update with no fields commits and leaves the store as it was |
| CrudProperties.DeleteItemKeepsValid | crud.py:13-15 | deleting any row, with the cascade, keeps every constraint, foreign keys included |
| CrudProperties.DeleteThenGetNotFound | crud.py:13-29 | after a delete, looking the key up answers 404 |
| CrudProperties.AddStoredRowIsNoOp | view_user_adv.py:31-32 | committing a stored row again under its own key succeeds and changes nothing |
| CrudProperties.WellFormedRowViolation | crud.py:32-41 | a row whose values fit and whose references exist breaks no constraint exactly when it clashes on no unique column; otherwise only the unique index refuses it |
| CrudProperties.FreshRowViolation | crud.py:32-41 | a well-formed row under an unused key is refused only by the table's unique column, and exactly when a stored row holds the same value there |
| CrudProperties.OnlyFirstColumnUnique | models.py:27-76 | each table has exactly one unique column: `name`, `author` or `token` |
| Schema.FirstIndex | schema.py:26-31 | the position of the first occurrence of a character, or none exactly when it does not occur |
| Schema.EmailOk | schema.py:26-31 | `validate_email` accepts exactly the strings the pattern `[\w.-]+@[\w-]+\.[\w.]+` matches in full |
| Schema.SplitIffPattern | schema.py:26-31 | splitting at the first `@` and the first dot after it succeeds exactly when the pattern matches in full |
| Schema.SplitMatchesPattern | schema.py:26-31 | an accepted e-mail address splits into a local part of word characters, dots and hyphens, `@`, a label of word characters and hyphens, a dot, and a tail of word characters and dots |
| Schema.PatternSplits | schema.py:26-31 | a string that splits that way at any `@` and any following dot is accepted |
| Schema.CheckField | check_auth_validate.py:13 | one field of `schema_class(**body)`: omitted exactly when absent and optional; an accepted value is the supplied string, or null for a supplied null; the validator raises something other than a validation error exactly when a supplied null reaches a nullable field's validator |
| Schema.ValidateFields | check_auth_validate.py:13 | `model_dump(exclude_unset=True)`: every cleaned field is a key the body supplied, holding the supplied string or null |
| SchemaProperties.PassesIff | schema.py:7-49 | a field passes exactly when it is absent and optional, or a string its validator accepts, or a null on a nullable field without a validator |
| SchemaProperties.CrashedIffRaised | schema.py:18-24 | validation crashes exactly when some field's validator raises an error other than a validation error |
| SchemaProperties.CleanedIffAllPass | schema.py:7-49 | validation succeeds exactly when every declared field passes its check |
| SchemaProperties.FirstErrorIsFirstRejected | schema.py:7-49 | without a crash, the reported error is the error of the first field in declaration order that fails |
| SchemaProperties.CleanedHoldsSuppliedFields | schema.py:7-49 | a successful validation keeps exactly the declared fields the body supplied, with their values (a null as null) |
| CheckAuth.Validate | check_auth_validate.py:11-17 | 400 with the first error when some field fails, its `ctx` dropped; the supplied declared fields on success; an escaping validator error otherwise |
| CheckAuth.CheckToken | check_auth_validate.py:31-41 | 401 "token not found" without a header; an escaping data error when the header spells no UUID; 401 "invalid token" when no stored token holds the UUID it spells; otherwise the token holding that UUID and its owner, an existing user |
| CheckAuth.CheckTokenAuthenticates | check_auth_validate.py:31-41 | the gate admits a header exactly when it spells the value of some stored token, and the caller is that token's owner and no one else |
| CheckAuth.CheckUser | check_auth_validate.py:44-46 | 403 "access denied" exactly when the item belongs to another user |
| ValidationProperties.LoginValidation | schema.py:7-13 | login validation succeeds exactly when `name` and `password` are both strings, and a missing `name` is the first error reported |
| ValidationProperties.CreateUserValidation | schema.py:16-31 | user creation validation succeeds exactly when name, password and email are strings, the password is 8 to 16 characters long and the email matches the pattern |
| ValidationProperties.CreateUserAccepts | schema.py:16-31 | the same acceptance condition, stated with the e-mail validator `validate_email` |
| ValidationProperties.CreateUserKeys | schema.py:16-31 | an accepted registration body yields exactly the three fields |
| ValidationProperties.CreateUserRejectsPasswordLength | schema.py:18-24 | a string name with a password of the wrong length answers 400 with the validator's message |
| ValidationProperties.PatchUserValidation | schema.py:34-37 | user patch validation succeeds exactly when a supplied name is a string or null, a supplied password is a string of 8 to 16 characters and a supplied email a string the pattern matches; the empty body validates; a null password escapes as a validator crash |
| ValidationProperties.PatchUserAccepts | schema.py:34-37 | the same acceptance condition, stated with the e-mail validator |
| ValidationProperties.CreateAdvValidation | schema.py:40-43 | advertisement creation validation succeeds exactly when author and title are strings and the description is present as a string or null |
| ValidationProperties.CreateAdvAccepts | schema.py:40-43 | the same acceptance condition, from each field's check |
| ValidationProperties.PatchAdvValidation | schema.py:46-49 | advertisement patch validation succeeds exactly when the author is a string and a supplied title or description is a string or null; a missing author is the first error |
| ValidationProperties.PatchAdvAccepts | schema.py:46-49 | the same acceptance condition, from each field's check |
| ValidationProperties.ValidateOkOfThree | check_auth_validate.py:11-17 | a three-field schema validates exactly when each of its three fields passes |
| Views.LoginPost | view_user_adv.py:25-36 | validation error, then 404 "user not found", then 401 "invalid password" when the hasher rejects the password against the stored hash; otherwise a new token for that user is stored and its value answered as `str(uuid)`, or 409 when the value is taken |
| Views.LoginAs | view_user_adv.py:27-36 | the same outcomes for an already validated name and password |
| Views.LoginIssue | view_user_adv.py:31-35 | the token row for the user is stored under the next key and its value answered as `str(uuid)`; refused with 409 exactly when a stored token has that value |
| Views.TokenIssueChecks | view_user_adv.py:31 | `create_item(Token, ...)` for an existing user stores the generated value, and only a repeated value refuses it |
| Views.UserNamed | view_user_adv.py:27 | the user with the given name, or none exactly when no user has it |
| Views.UserPost | view_user_adv.py:44-49 | validation error; otherwise a new user with the password's hash, answered as its id and name, exactly when the values fit their columns and the name is free; a value too long for its column escapes as the store's data error; 409 "User already exists" when the row fits and the name is taken |
| Views.StoreUser | view_user_adv.py:46-49 | `create_item(User, ...)` with validated fields: the new user under the next key exactly when the row fits and the name is free; a value too long for its column escapes as the store's data error; 409 when the row fits and the name is taken |
| Views.UserCreateChecks | crud.py:7-10 | a new user row is committed exactly when it fits its columns and its name is free; a too-long value is a store error, a taken name 409 |
| Views.UserRowUnique | models.py:27 | a fitting new user row is refused only by the unique `name`, exactly when the name is taken |
| Views.UserGet | view_user_adv.py:40-42 | behind the token gate, the caller's own `User.dict`: its id and name, and exactly its advertisements; nothing changes |
| Views.UserPatch | view_user_adv.py:51-55 | behind the token gate: the validation error; otherwise the commit of the caller's row with the validated fields laid over it as supplied, the password as plain text. It succeeds exactly when the store accepts that row; a taken name answers 409 "User already exists" and another store error escapes. On success exactly the supplied fields are written, every other field, user and table is kept, and the answer is the id and name |
| Views.PatchCaller | view_user_adv.py:52-55 | the same for a caller already identified, with a supplied password stored as a given function makes it |
| Views.PatchOwnUser | view_user_adv.py:54-55 | `update_item` on the caller's user commits exactly when the store accepts the patched row, answers 409 on a taken name and lets any other store error escape; on success the user is patched and summarised |
| Views.UpdateCommits | crud.py:18-22 | `update_item` commits exactly when the store accepts the stored row with the payload laid over it, and otherwise fails as that `add_item` fails |
| Views.UserPatchWrites | view_user_adv.py:53-54 | a committed user patch writes exactly the supplied fields (the password as the given function makes it: the text itself in the handler) and never commits a supplied null |
| Views.PatchedRowWrites | crud.py:18-22 | the row-level part: a row that took the patch payload and kept its other fields holds exactly the supplied fields |
| Views.UserDelete | view_user_adv.py:57-60 | behind the token gate, the caller's user is removed with exactly its advertisements and tokens; everything else is kept |
| Views.OwnAdvertisement | view_user_adv.py:68-69 | 404 "Advertisement not found" for an unknown id, 403 "access denied" for another user's advertisement, else the stored row |
| Views.AdvGet | view_user_adv.py:64-70 | behind the token gate: with an id, 404, then 403, then the advertisement's `json`. Without one, the empty list exactly when the caller owns no advertisement; otherwise the missing `dict` attribute escapes. Nothing changes |
| Views.AdvPost | view_user_adv.py:73-77 | behind the token gate: validation error; otherwise the advertisement (supplied fields, caller as owner, current time) under the next key, answered as its `json`, exactly when it fits its columns and the author is free; a value too long for its column escapes as the store's data error; 409 when the row fits and the author is taken |
| Views.PostCallerAdv | view_user_adv.py:74-77 | the same for a caller already identified |
| Views.StoreAdv | view_user_adv.py:75-77 | `create_item(Advertisement, ...)` with validated fields: the new row exactly when it fits and the author is free; a value too long for its column escapes as the store's data error; 409 when the row fits and the author is taken |
| Views.AdvCreateChecks | crud.py:7-10 | a new advertisement row is committed exactly when it fits and its author is free; a too-long value is a store error, a taken author 409 |
| Views.AdvRowUnique | models.py:51 | a fitting new advertisement is refused only by the unique `author`, exactly when the author is taken |
| Views.AdvPatch | view_user_adv.py:80-86 | behind the token gate: first the validation error, then 404, then 403; otherwise the commit of the patched row, which succeeds exactly when the store accepts it and answers 409 "Advertisement already exists" on a taken author. On success the supplied fields are written and every other field, row and table kept, answered as author and title |
| Views.PatchCallerAdv | view_user_adv.py:81-86 | the same for a caller already identified |
| Views.PatchOwnAdv | view_user_adv.py:85-86 | `update_item` on an owned advertisement commits exactly when the store accepts the patched row, answers 409 on a taken author and lets any other store error escape; on success the supplied fields are written |
| Views.AdvPatchWrites | view_user_adv.py:85 | a committed advertisement patch writes exactly the supplied fields and keeps the rest |
| Views.AdvDelete | view_user_adv.py:88-93 | behind the token gate: 404, then 403; otherwise exactly that advertisement is removed |
| Routes.Dispatch | main.py:24-27 | every route but login and registration is behind the gate. Without a header the answer is 401 "token not found"; a header that spells no UUID ends in the escaping data error; an unknown UUID gives 401 "invalid token". Success comes only for an authenticated caller, and no failure changes the store |
| ViewProperties.CheckTokenSameTokens | check_auth_validate.py:31-41 | the gate depends only on the token table |
| ViewProperties.LoginWithStoredPassword | view_user_adv.py:25-36 | logging in as a stored user succeeds exactly when the hasher accepts the password against the stored hash (and the new token value is free), and otherwise answers 401 |
| ViewProperties.RegisterThenLogin | view_user_adv.py:25-49 | under a hasher that accepts what it hashed, a user who just registered can log in with the same name and password |
| ViewProperties.RegisterTwiceConflicts | view_user_adv.py:44-49 | registering the same body again answers 409 "User already exists" and changes nothing |
| ViewProperties.PostThenGetAdv | view_user_adv.py:64-77 | a posted advertisement reads back by its new id as the response the post gave |
| ViewProperties.DeleteAdvTwice | view_user_adv.py:88-93 | a second delete of the same advertisement answers 404 and changes nothing |
| ViewProperties.DeletedUserTokenRejected | view_user_adv.py:57-60 | after a user deletes itself, its token opens no protected route: each answers 401 "invalid token" |
| ViewProperties.IssuedTokenOpens | view_user_adv.py:25-36 | the token a successful login answers is the new value's `str(uuid)`; sent back as the header it opens the gate for the user that logged in |
| ViewProperties.StoredTokenOpens | check_auth_validate.py:36 | the canonical text of a stored token's value opens the gate for that token's owner |
| ViewProperties.SameUuidSameCaller | check_auth_validate.py:36 | two headers that spell the same UUID are let through or refused alike, and identify the same caller |
| ViewProperties.BearerHeaderEscapes | check_auth_validate.py:33-36 | a `Bearer <token>` header spells no UUID, so the request fails with the escaping data error, not 401 |
| ViewProperties.EmptyUserPatchIsNoOp | view_user_adv.py:51-55 | a patch with an empty body changes nothing and answers the caller's summary |
| ViewProperties.OwnListMatchesGet | view_user_adv.py:40-70 | the advertisement ids `GET /user` lists are exactly those `GET /adv/<id>` shows the caller |
| ViewProperties.OthersAdvForbidden | view_user_adv.py:64-93 | another user's advertisement cannot be read, patched or deleted: each answers 403 and changes nothing |
| ViewProperties.PatchAdvValidatesFirst | view_user_adv.py:80-86 | a patch body without `author` answers 400 whether or not the advertisement exists |
| Findings.UserPatchCorrected | view_user_adv.py:44-55 | the corrected patch: as `Views.UserPatch`, with the same commit condition and 409, but a supplied password is stored as its hash, as `post` stores it |
| Findings.TagCryptoRejectsPlain | check_auth_validate.py:20-28 | a hasher exists that accepts a candidate exactly when the stored value is its hash, and never takes a password for its own stored form |
| Findings.PlainPatchLocksOut | view_user_adv.py:25-55 | under any hasher that does not take a password for its own stored form (`TagCryptoRejectsPlain` shows a sound one), a user who changed its password through the patch as written cannot log in with it: 401 "invalid password" |
| Findings.PatchThenLogin | view_user_adv.py:25-55 | after the corrected patch, under a sound hasher, the user logs in with the new password and gets a new token |
| Findings.OwnAdvertisements | models.py:59-68 | the `json` of exactly the advertisements a user owns, each showing its stored row |
| Findings.AdvGetCorrected | view_user_adv.py:64-70 | the corrected listing: with an id as `Views.AdvGet`; without one, the `json` of exactly the caller's advertisements |
| Findings.AdvListFailsWhereCorrectedLists | view_user_adv.py:66-67 | for a caller with an advertisement the listing as written fails while the corrected listing shows that advertisement |
| Findings.AdvListAgreesWhenEmpty | view_user_adv.py:66-67 | for a caller without advertisements the listing as written and the corrected one agree: both answer the empty list |

## Left out

- Password hashing: bcrypt is the abstract `Crypto` (a hash function and a check). Salts and cost factors are not modelled. bcrypt's check raises on a stored value that is not a hash; `Crypto.verifies` answers a boolean for any pair. The stored hash is passed to the check first, and the properties that need it assume a hasher that accepts what it hashed (`Sound`).
- `token.txt`: the file a login writes its token to (view_user_adv.py:33-34) is file I/O and is not modelled. The login answers the value of the stored token.
- Flask itself: sessions, request parsing, `jsonify`, and the error handler that renders an `HttpError` (server.py and the error classes). A failure is kept as its status and description. The response body format is not modelled.
- `Token.dict` (models.py:80-82): no handler answers with it.
- Request bodies: a body is a JSON object whose values are strings or null. Other JSON values are treated as "not a string". Extra keys are ignored, as pydantic ignores them.
- Non-object bodies: not modelled. For them `schema_class(**json_data)` (check_auth_validate.py:13) raises a `TypeError` that nothing catches.
- Key sequence: a failed insert leaves `nextId` as it was. A real sequence may skip the key.
- Listing order: `User.dict` lists its advertisement ids (`Models.UserDict`, answered by `Views.UserGet`), and the corrected `GET /adv` lists advertisements (`Findings.AdvGetCorrected`). Both are sets here, so the order of the query result is not modelled.
- `\w` in the e-mail pattern means the ASCII letters, digits and `_` here. Python's Unicode word characters are not modelled.
- Server defaults: `registration_time` is an opaque integer taken from `Env.now`, and the generated token is `Env.uuid`. Both are inputs, not a clock or a random source.
- Routing: `main.py:25` registers `/adv` for POST only. So the id-less `GET /adv` branch cannot be reached through `Routes.Dispatch`. `Views.AdvGet` still models that branch as the handler writes it: it fails on the missing `dict` attribute for a caller with advertisements. The second finding is about that branch.
- CheckAuth.Validate: only the first pydantic error is reported, as `validate` does. The model keeps its type, location and message. `validate` drops `ctx`. Pydantic's `input` and `url` entries stay in the real 400 body but are not modelled. A `TypeError` from a validator (a null password on `PatchUser`) escapes as an uncaught fault, not a 400.
- CheckAuth.CheckToken: the header is taken to reach PostgreSQL's `uuid_in` as it was sent. How the database driver binds a string to a `UUID` parameter is not modelled.
- Uuids.Parse: its own contract only bounds what it accepts. That it accepts every spelling `uuid_in` allows (each digit in either case) is `Uuids.SpellingsParse`. That it refuses every other text is stated for the `Bearer` form only (`ViewProperties.BearerHeaderEscapes`).
- The database transaction is atomic per commit. Concurrent requests are not modelled.

## Findings

| source | as written | input that shows it | evidently intended | confidence | as-written member | corrected member |
|---|---|---|---|---|---|---|
| view_user_adv.py:51-55 | `patch` hands the validated fields to `update_item` unchanged, so a new password is stored as plain text, while registration stores a hash and login checks against a hash | a logged-in user patches `{"password": "newpass123"}` and then logs in with `newpass123` | hash the new password before storing it, as `post` does | not executed; with real bcrypt the check raises on a non-hash instead of answering 401 | Views.UserPatch (shown by Findings.PlainPatchLocksOut) | Findings.UserPatchCorrected (shown by Findings.PatchThenLogin) |
| view_user_adv.py:66-67 | the id-less listing calls `adv.dict`, which `Advertisement` does not define | a caller who owns at least one advertisement requests the listing | serialise each advertisement with `json` | not executed | Views.AdvGet (shown by Findings.AdvListFailsWhereCorrectedLists) | Findings.AdvGetCorrected with Findings.OwnAdvertisements |
