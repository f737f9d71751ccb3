/** The request payload schemas of `schema.py` and the way pydantic checks a JSON object
    against one of them.

    Fields are checked in declaration order; every field is checked even after an earlier
    one failed, and the errors are collected in that order. A field validator that raises
    something other than `ValueError` (here: `len(None)` or `re.fullmatch(..., None)`, a
    `TypeError`) is not turned into a validation error and escapes at once.
 */
module Schema {
  import opened Errors
  import opened Models

  /** A JSON value as decoded from a request body. */
  datatype Json =
    | JNull
    | JBool(b: bool)
    | JNumber(n: int)
    | JString(s: string)
    | JArray(items: seq<Json>)
    | JObject(members: map<string, Json>)

  /** A request body: a JSON object. */
  type Body = map<string, Json>

  /** Validated fields: `Some(s)` for a string, `None` for an explicit null. */
  type Fields = map<string, Option<string>>

  /** The `field_validator` attached to a field, if any. */
  datatype Rule = NoRule | PasswordLength | EmailShape

  /** A `str` or `Optional[str]` field; `required` means it has no default. */
  datatype FieldSpec = FieldSpec(name: string, required: bool, nullable: bool, rule: Rule)

  /** `Login`: `name` and `password`, both required strings, no further rule. */
  const Login: seq<FieldSpec> := [
    FieldSpec(NameKey, true, false, NoRule),
    FieldSpec(PasswordKey, true, false, NoRule)
  ]

  /** `CreateUser`: the `Login` fields plus `email`, with the password and email validators. */
  const CreateUser: seq<FieldSpec> := [
    FieldSpec(NameKey, true, false, NoRule),
    FieldSpec(PasswordKey, true, false, PasswordLength),
    FieldSpec(EmailKey, true, false, EmailShape)
  ]

  /** `PatchUser`: the `CreateUser` fields made optional; the inherited validators stay. */
  const PatchUser: seq<FieldSpec> := [
    FieldSpec(NameKey, false, true, NoRule),
    FieldSpec(PasswordKey, false, true, PasswordLength),
    FieldSpec(EmailKey, false, true, EmailShape)
  ]

  /** `CreateAdv`: `author` and `title` strings; `description` must be present but may be null. */
  const CreateAdv: seq<FieldSpec> := [
    FieldSpec(AuthorKey, true, false, NoRule),
    FieldSpec(TitleKey, true, false, NoRule),
    FieldSpec(DescriptionKey, true, true, NoRule)
  ]

  /** `PatchAdv`: `author` required; `title` and `description` optional. */
  const PatchAdv: seq<FieldSpec> := [
    FieldSpec(AuthorKey, true, false, NoRule),
    FieldSpec(TitleKey, false, true, NoRule),
    FieldSpec(DescriptionKey, false, true, NoRule)
  ]

  // ----- the password rule -----

  const PasswordError := "The password must be between 8 and 16 characters long"

  predicate PasswordLengthOk(password: string) {
    8 <= |password| <= 16
  }

  // ----- the email rule: fullmatch of [\w.-]+@[\w-]+\.[\w.]+ -----

  /** `\w`, restricted to ASCII. */
  predicate WordChar(c: char) {
    ('a' <= c <= 'z') || ('A' <= c <= 'Z') || ('0' <= c <= '9') || c == '_'
  }

  predicate LocalPart(s: string) {
    |s| > 0 && forall i :: 0 <= i < |s| ==> WordChar(s[i]) || s[i] == '.' || s[i] == '-'
  }

  predicate DomainLabel(s: string) {
    |s| > 0 && forall i :: 0 <= i < |s| ==> WordChar(s[i]) || s[i] == '-'
  }

  predicate DomainTail(s: string) {
    |s| > 0 && forall i :: 0 <= i < |s| ==> WordChar(s[i]) || s[i] == '.'
  }

  /** The language of the pattern: some split `local @ label . tail` of the whole string. */
  ghost predicate MatchesEmailPattern(s: string) {
    exists at, dot ::
      0 <= at < dot < |s| && s[at] == '@' && s[dot] == '.' &&
      LocalPart(s[..at]) && DomainLabel(s[at + 1..dot]) && DomainTail(s[dot + 1..])
  }

  /** The position of the first `c` in `s`. */
  function FirstIndex(s: string, c: char): (r: Option<nat>)
    ensures r.None? <==> c !in s
    ensures r.Some? ==> r.value < |s| && s[r.value] == c && c !in s[..r.value]
  {
    if |s| == 0 then None
    else if s[0] == c then Some(0)
    else
      match FirstIndex(s[1..], c)
      case None => None
      case Some(i) =>
        assert s[1..][..i] == s[1..i + 1];
        Some(i + 1)
  }

  /** The pattern decided by splitting at the first `@` and then at the first `.` after it. */
  predicate SplitsAsEmail(s: string) {
    match FirstIndex(s, '@')
    case None => false
    case Some(at) =>
      var domain := s[at + 1..];
      match FirstIndex(domain, '.')
      case None => false
      case Some(d) => LocalPart(s[..at]) && DomainLabel(domain[..d]) && DomainTail(domain[d + 1..])
  }

  /** The first occurrence of `c` is at `i` when `s[i]` is `c` and no earlier character is. */
  lemma FirstIndexAt(s: string, c: char, i: nat)
    requires i < |s| && s[i] == c && c !in s[..i]
    ensures FirstIndex(s, c) == Some(i)
  {
    assert s[i] in s;
    var j := FirstIndex(s, c).value;
    forall k | 0 <= k < i ensures s[k] != c {
      assert s[k] == s[..i][k];
    }
    forall k | 0 <= k < j ensures s[k] != c {
      assert s[k] == s[..j][k];
    }
  }

  /** A string the split accepts is matched by the pattern, at the first `@` and the
      first `.` after it. */
  lemma SplitMatchesPattern(s: string)
    requires SplitsAsEmail(s)
    ensures MatchesEmailPattern(s)
  {
    var at := FirstIndex(s, '@').value;
    var domain := s[at + 1..];
    var d := FirstIndex(domain, '.').value;
    var dot := at + 1 + d;
    assert LocalPart(s[..at]) && DomainLabel(domain[..d]) && DomainTail(domain[d + 1..]);
    assert s[at + 1..dot] == domain[..d];
    assert s[dot + 1..] == domain[d + 1..];
    assert s[dot] == domain[d];
    assert 0 <= at < dot < |s| && s[at] == '@' && s[dot] == '.' &&
      LocalPart(s[..at]) && DomainLabel(s[at + 1..dot]) && DomainTail(s[dot + 1..]);
  }

  /** A string the pattern matches at any `@` and any `.` after it is accepted by the split:
      the local part holds no `@` and the label no `.`, so those are the first ones. */
  lemma PatternSplits(s: string, at: nat, dot: nat)
    requires 0 <= at < dot < |s| && s[at] == '@' && s[dot] == '.'
    requires LocalPart(s[..at]) && DomainLabel(s[at + 1..dot]) && DomainTail(s[dot + 1..])
    ensures SplitsAsEmail(s)
  {
    forall k | 0 <= k < at ensures s[..at][k] != '@' {
      assert WordChar(s[..at][k]) || s[..at][k] == '.' || s[..at][k] == '-';
    }
    FirstIndexAt(s, '@', at);
    var domain := s[at + 1..];
    var d := dot - at - 1;
    assert domain[..d] == s[at + 1..dot];
    assert domain[d + 1..] == s[dot + 1..];
    forall k | 0 <= k < d ensures domain[..d][k] != '.' {
      assert WordChar(domain[..d][k]) || domain[..d][k] == '-';
    }
    FirstIndexAt(domain, '.', d);
  }

  lemma SplitIffPattern(s: string)
    ensures SplitsAsEmail(s) <==> MatchesEmailPattern(s)
  {
    if SplitsAsEmail(s) {
      SplitMatchesPattern(s);
    }
    if MatchesEmailPattern(s) {
      var at, dot :| 0 <= at < dot < |s| && s[at] == '@' && s[dot] == '.' &&
        LocalPart(s[..at]) && DomainLabel(s[at + 1..dot]) && DomainTail(s[dot + 1..]);
      PatternSplits(s, at, dot);
    }
  }

  /** `validate_email`: accepts exactly the strings the pattern matches in full. */
  function EmailOk(s: string): (ok: bool)
    ensures ok <==> MatchesEmailPattern(s)
  {
    SplitIffPattern(s);
    SplitsAsEmail(s)
  }

  // ----- pydantic field checking -----

  /** One pydantic error, before `validate` drops its `ctx` entry. */
  datatype RawError = RawError(kind: string, loc: string, msg: string, ctx: Option<string>)

  function Missing(field: string): RawError {
    RawError("missing", field, "Field required", None)
  }

  function NotAString(field: string): RawError {
    RawError("string_type", field, "Input should be a valid string", None)
  }

  function ValueError(field: string, message: string): RawError {
    RawError("value_error", field, "Value error, " + message, Some(message))
  }

  /** The outcome of checking one field. `Raised`: a validator raised a `TypeError`. */
  datatype FieldOutcome = Omitted | Accepted(value: Option<string>) | Rejected(error: RawError) | Raised

  /** The field validator applied to a string value. */
  function ApplyRule(f: FieldSpec, s: string): FieldOutcome {
    match f.rule
    case NoRule => Accepted(Some(s))
    case PasswordLength =>
      if PasswordLengthOk(s) then Accepted(Some(s)) else Rejected(ValueError(f.name, PasswordError))
    case EmailShape =>
      if EmailOk(s) then Accepted(Some(s)) else Rejected(ValueError(f.name, "Email is invalid"))
  }

  /** The outcome of field `f` of a schema instantiated with `body`. */
  function CheckField(f: FieldSpec, body: Body): (o: FieldOutcome)
    ensures o.Omitted? <==> f.name !in body && !f.required
    ensures o.Accepted? ==> f.name in body && Cleans(body[f.name], o.value)
    ensures o.Raised? <==> f.name in body && body[f.name] == JNull && f.nullable && f.rule != NoRule
  {
    if f.name !in body then
      if f.required then Rejected(Missing(f.name)) else Omitted
    else
      match body[f.name]
      case JString(s) => ApplyRule(f, s)
      case JNull =>
        if !f.nullable then Rejected(NotAString(f.name))
        else if f.rule == NoRule then Accepted(None)
        else Raised
      case _ => Rejected(NotAString(f.name))
  }

  /** The result of instantiating a schema: the set fields, the first error, or an escaped
      exception. */
  datatype Checked = Cleaned(fields: Fields) | FirstError(error: RawError) | Crashed

  /** A body value and the field it is handed on as: a string as itself, a null as none. */
  predicate Cleans(j: Json, v: Option<string>) {
    (j == JNull && v.None?) || (j.JString? && v == Some(j.s))
  }

  /** `schema_class(**body).model_dump(exclude_unset=True)`. */
  function ValidateFields(schema: seq<FieldSpec>, body: Body): (r: Checked)
    ensures r.Cleaned? ==> forall k :: k in r.fields ==> k in body && Cleans(body[k], r.fields[k])
    decreases |schema|
  {
    if |schema| == 0 then Cleaned(map[])
    else
      var head := CheckField(schema[0], body);
      var rest := ValidateFields(schema[1..], body);
      if head.Raised? || rest.Crashed? then Crashed
      else if head.Rejected? then FirstError(head.error)
      else if rest.FirstError? then rest
      else if head.Accepted? then Cleaned(rest.fields[schema[0].name := head.value])
      else rest
  }

  predicate DistinctNames(schema: seq<FieldSpec>) {
    forall i, j :: 0 <= i < j < |schema| ==> schema[i].name != schema[j].name
  }
}
