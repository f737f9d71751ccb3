/** What `validate` answers for each schema of `schema.py`: which bodies each accepts, the
    fields it hands on, and which error it reports first.
 */
module ValidationProperties {
  import opened Errors
  import opened Models
  import opened Schema
  import opened SchemaProperties
  import opened CheckAuth

  function StringIn(body: Body, k: string): bool {
    k in body && body[k].JString?
  }

  /** A three-field schema accepts a body exactly when each of its fields passes. */
  lemma ValidateOkOfThree(schema: seq<FieldSpec>, body: Body)
    requires DistinctNames(schema) && |schema| == 3
    ensures Validate(schema, body).Ok? <==>
      Passes(CheckField(schema[0], body)) && Passes(CheckField(schema[1], body)) && Passes(CheckField(schema[2], body))
  {
    if Passes(CheckField(schema[0], body)) && Passes(CheckField(schema[1], body)) && Passes(CheckField(schema[2], body)) {
      forall i | 0 <= i < |schema| ensures Passes(CheckField(schema[i], body)) {
        assert i == 0 || i == 1 || i == 2;
      }
    }
  }

  /** `Login` accepts exactly the bodies whose `name` and `password` are strings, with no
      length or format rule, and hands on exactly those two fields. */
  lemma LoginValidation(body: Body)
    ensures Validate(Login, body).Ok? <==> StringIn(body, NameKey) && StringIn(body, PasswordKey)
    ensures Validate(Login, body).Ok? ==>
      Validate(Login, body).value == map[NameKey := Some(body[NameKey].s), PasswordKey := Some(body[PasswordKey].s)]
    ensures NameKey !in body ==> Validate(Login, body) == Fail(HttpError(400, Invalid(
      Issue("missing", NameKey, "Field required"))))
  {
    var r := Validate(Login, body);
    assert CheckField(Login[0], body) == CheckField(FieldSpec(NameKey, true, false, NoRule), body);
    assert CheckField(Login[1], body) == CheckField(FieldSpec(PasswordKey, true, false, NoRule), body);
    if r.Ok? {
      assert Names(Login) == {NameKey, PasswordKey} by {
        assert Login[0] in Login && Login[1] in Login;
      }
      assert r.value.Keys == {NameKey, PasswordKey};
    }
    if NameKey !in body {
      assert FirstRejectedAt(Login, body, 0);
    }
  }

  /** `CreateUser` accepts exactly the bodies with a string `name`, a string `password` of
      8 to 16 characters and a string `email` the email pattern matches in full. */
  lemma CreateUserValidation(body: Body)
    ensures Validate(CreateUser, body).Ok? <==>
      && StringIn(body, NameKey)
      && StringIn(body, PasswordKey) && PasswordLengthOk(body[PasswordKey].s)
      && StringIn(body, EmailKey) && MatchesEmailPattern(body[EmailKey].s)
    ensures Validate(CreateUser, body).Ok? ==> Validate(CreateUser, body).value == map[
      NameKey := Some(body[NameKey].s),
      PasswordKey := Some(body[PasswordKey].s),
      EmailKey := Some(body[EmailKey].s)]
  {
    CreateUserAccepts(body);
    if Validate(CreateUser, body).Ok? {
      CreateUserKeys(body);
    }
  }

  lemma CreateUserAccepts(body: Body)
    ensures Validate(CreateUser, body).Ok? <==>
      && StringIn(body, NameKey)
      && StringIn(body, PasswordKey) && PasswordLengthOk(body[PasswordKey].s)
      && StringIn(body, EmailKey) && EmailOk(body[EmailKey].s)
  {
    PassesIff(CreateUser[0], body);
    PassesIff(CreateUser[1], body);
    PassesIff(CreateUser[2], body);
    ValidateOkOfThree(CreateUser, body);
  }

  lemma CreateUserKeys(body: Body)
    requires Validate(CreateUser, body).Ok?
    ensures Validate(CreateUser, body).value.Keys == {NameKey, PasswordKey, EmailKey}
  {
    assert CheckField(CreateUser[0], body) == CheckField(FieldSpec(NameKey, true, false, NoRule), body);
    assert CheckField(CreateUser[1], body) == CheckField(FieldSpec(PasswordKey, true, false, PasswordLength), body);
    assert CheckField(CreateUser[2], body) == CheckField(FieldSpec(EmailKey, true, false, EmailShape), body);
    assert Names(CreateUser) == {NameKey, PasswordKey, EmailKey} by {
      assert CreateUser[0] in CreateUser && CreateUser[1] in CreateUser && CreateUser[2] in CreateUser;
    }
  }

  /** With a valid `name`, a string password of the wrong length is reported as the first
      error: 400 with the password rule's message. */
  lemma CreateUserRejectsPasswordLength(body: Body)
    requires StringIn(body, NameKey) && StringIn(body, PasswordKey)
    requires !PasswordLengthOk(body[PasswordKey].s)
    ensures Validate(CreateUser, body) == Fail(HttpError(400, Invalid(Issue(
      "value_error", PasswordKey, "Value error, " + PasswordError))))
  {
    assert CheckField(CreateUser[0], body) == CheckField(FieldSpec(NameKey, true, false, NoRule), body);
    assert CheckField(CreateUser[1], body) == CheckField(FieldSpec(PasswordKey, true, false, PasswordLength), body);
    assert CheckField(CreateUser[2], body) == CheckField(FieldSpec(EmailKey, true, false, EmailShape), body);
    assert FirstRejectedAt(CreateUser, body, 1);
  }

  /** `PatchUser`: every field is optional, so an empty body is accepted and hands on
      nothing. A body is accepted exactly when a supplied name is a string or null, and a
      supplied password or email is a string the inherited validator accepts; an explicit
      null for either makes the validator raise. */
  lemma PatchUserValidation(body: Body)
    ensures Validate(PatchUser, body).Ok? <==>
      && (NameKey in body ==> body[NameKey].JString? || body[NameKey] == JNull)
      && (PasswordKey in body ==> StringIn(body, PasswordKey) && PasswordLengthOk(body[PasswordKey].s))
      && (EmailKey in body ==> StringIn(body, EmailKey) && MatchesEmailPattern(body[EmailKey].s))
    ensures Validate(PatchUser, map[]) == Ok(map[])
    ensures Validate(PatchUser, body).Ok? ==>
      Validate(PatchUser, body).value.Keys == body.Keys * {NameKey, PasswordKey, EmailKey}
    ensures Validate(PatchUser, body).Ok? && PasswordKey in body ==>
      StringIn(body, PasswordKey) && PasswordLengthOk(body[PasswordKey].s) &&
      Validate(PatchUser, body).value[PasswordKey] == Some(body[PasswordKey].s)
    ensures Validate(PatchUser, body).Ok? && EmailKey in body ==>
      StringIn(body, EmailKey) && MatchesEmailPattern(body[EmailKey].s)
    ensures PasswordKey in body && body[PasswordKey] == JNull ==>
      Validate(PatchUser, body) == Fail(Uncaught(ValidatorTypeError))
  {
    var r := Validate(PatchUser, body);
    assert CheckField(PatchUser[0], body) == CheckField(FieldSpec(NameKey, false, true, NoRule), body);
    assert CheckField(PatchUser[1], body) == CheckField(FieldSpec(PasswordKey, false, true, PasswordLength), body);
    assert CheckField(PatchUser[2], body) == CheckField(FieldSpec(EmailKey, false, true, EmailShape), body);
    var empty: Body := map[];
    assert CheckField(PatchUser[0], empty) == Omitted;
    assert CheckField(PatchUser[1], empty) == Omitted;
    assert CheckField(PatchUser[2], empty) == Omitted;
    assert Names(PatchUser) == {NameKey, PasswordKey, EmailKey} by {
      assert PatchUser[0] in PatchUser && PatchUser[1] in PatchUser && PatchUser[2] in PatchUser;
    }
    PatchUserAccepts(body);
  }

  lemma PatchUserAccepts(body: Body)
    ensures Validate(PatchUser, body).Ok? <==>
      && (NameKey in body ==> body[NameKey].JString? || body[NameKey] == JNull)
      && (PasswordKey in body ==> StringIn(body, PasswordKey) && PasswordLengthOk(body[PasswordKey].s))
      && (EmailKey in body ==> StringIn(body, EmailKey) && MatchesEmailPattern(body[EmailKey].s))
  {
    PassesIff(PatchUser[0], body);
    PassesIff(PatchUser[1], body);
    PassesIff(PatchUser[2], body);
    ValidateOkOfThree(PatchUser, body);
  }

  /** `CreateAdv` accepts exactly the bodies with string `author` and `title` and a
      `description` that is a string or null, and hands on exactly those three fields. */
  lemma CreateAdvValidation(body: Body)
    ensures Validate(CreateAdv, body).Ok? <==>
      && StringIn(body, AuthorKey) && StringIn(body, TitleKey)
      && DescriptionKey in body && (body[DescriptionKey].JString? || body[DescriptionKey] == JNull)
    ensures Validate(CreateAdv, body).Ok? ==> Validate(CreateAdv, body).value == map[
      AuthorKey := Some(body[AuthorKey].s),
      TitleKey := Some(body[TitleKey].s),
      DescriptionKey := if body[DescriptionKey] == JNull then None else Some(body[DescriptionKey].s)]
  {
    var r := Validate(CreateAdv, body);
    CreateAdvAccepts(body);
    assert CheckField(CreateAdv[0], body) == CheckField(FieldSpec(AuthorKey, true, false, NoRule), body);
    assert CheckField(CreateAdv[1], body) == CheckField(FieldSpec(TitleKey, true, false, NoRule), body);
    assert CheckField(CreateAdv[2], body) == CheckField(FieldSpec(DescriptionKey, true, true, NoRule), body);
    if r.Ok? {
      assert Names(CreateAdv) == {AuthorKey, TitleKey, DescriptionKey} by {
        assert CreateAdv[0] in CreateAdv && CreateAdv[1] in CreateAdv && CreateAdv[2] in CreateAdv;
      }
      assert r.value.Keys == {AuthorKey, TitleKey, DescriptionKey};
    }
  }

  lemma CreateAdvAccepts(body: Body)
    ensures Validate(CreateAdv, body).Ok? <==>
      && StringIn(body, AuthorKey) && StringIn(body, TitleKey)
      && DescriptionKey in body && (body[DescriptionKey].JString? || body[DescriptionKey] == JNull)
  {
    PassesIff(CreateAdv[0], body);
    PassesIff(CreateAdv[1], body);
    PassesIff(CreateAdv[2], body);
    ValidateOkOfThree(CreateAdv, body);
  }

  /** `PatchAdv` accepts exactly the bodies with a string `author` and a `title` and
      `description` that, when supplied, are strings or null; `title` and `description`
      are handed on only when supplied. */
  lemma PatchAdvValidation(body: Body)
    ensures Validate(PatchAdv, body).Ok? <==>
      && StringIn(body, AuthorKey)
      && (TitleKey in body ==> body[TitleKey].JString? || body[TitleKey] == JNull)
      && (DescriptionKey in body ==> body[DescriptionKey].JString? || body[DescriptionKey] == JNull)
    ensures Validate(PatchAdv, body).Ok? ==> StringIn(body, AuthorKey)
    ensures Validate(PatchAdv, body).Ok? ==>
      Validate(PatchAdv, body).value.Keys == body.Keys * {AuthorKey, TitleKey, DescriptionKey}
    ensures Validate(PatchAdv, body).Ok? ==>
      Validate(PatchAdv, body).value[AuthorKey] == Some(body[AuthorKey].s)
    ensures AuthorKey !in body ==> Validate(PatchAdv, body) == Fail(HttpError(400, Invalid(
      Issue("missing", AuthorKey, "Field required"))))
  {
    var r := Validate(PatchAdv, body);
    assert CheckField(PatchAdv[0], body) == CheckField(FieldSpec(AuthorKey, true, false, NoRule), body);
    assert CheckField(PatchAdv[1], body) == CheckField(FieldSpec(TitleKey, false, true, NoRule), body);
    assert CheckField(PatchAdv[2], body) == CheckField(FieldSpec(DescriptionKey, false, true, NoRule), body);
    assert Names(PatchAdv) == {AuthorKey, TitleKey, DescriptionKey} by {
      assert PatchAdv[0] in PatchAdv && PatchAdv[1] in PatchAdv && PatchAdv[2] in PatchAdv;
    }
    if AuthorKey !in body {
      assert FirstRejectedAt(PatchAdv, body, 0);
    }
    PatchAdvAccepts(body);
  }

  lemma PatchAdvAccepts(body: Body)
    ensures Validate(PatchAdv, body).Ok? <==>
      && StringIn(body, AuthorKey)
      && (TitleKey in body ==> body[TitleKey].JString? || body[TitleKey] == JNull)
      && (DescriptionKey in body ==> body[DescriptionKey].JString? || body[DescriptionKey] == JNull)
  {
    PassesIff(PatchAdv[0], body);
    PassesIff(PatchAdv[1], body);
    PassesIff(PatchAdv[2], body);
    ValidateOkOfThree(PatchAdv, body);
  }
}
