/** What instantiating a schema promises: the reported error is the first failing field's,
    an escaping validator error is reported exactly when one raised, and the output holds
    exactly the supplied fields.
 */
module SchemaProperties {
  import opened Errors
  import opened Models
  import opened Schema

  // ----- instantiating a schema -----

  predicate Passes(o: FieldOutcome) {
    o.Omitted? || o.Accepted?
  }

  /** The validator of a field accepts the string `s`. */
  predicate RuleAccepts(rule: Rule, s: string) {
    match rule
    case NoRule => true
    case PasswordLength => PasswordLengthOk(s)
    case EmailShape => EmailOk(s)
  }

  /** A field passes exactly when it is omitted and optional, a string its validator
      accepts, or a null for a nullable field without a validator. */
  lemma PassesIff(f: FieldSpec, body: Body)
    ensures Passes(CheckField(f, body)) <==>
      || (f.name !in body && !f.required)
      || (f.name in body && body[f.name].JString? && RuleAccepts(f.rule, body[f.name].s))
      || (f.name in body && body[f.name] == JNull && f.nullable && f.rule == NoRule)
  {
  }

  /** The field at `i` is rejected and every field before it passed. */
  ghost predicate FirstRejectedAt(schema: seq<FieldSpec>, body: Body, i: int) {
    && 0 <= i < |schema|
    && CheckField(schema[i], body).Rejected?
    && forall j :: 0 <= j < i ==> Passes(CheckField(schema[j], body))
  }

  /** Instantiation escapes with an exception exactly when some field's validator raised. */
  lemma {:induction false} CrashedIffRaised(schema: seq<FieldSpec>, body: Body)
    ensures ValidateFields(schema, body).Crashed? <==>
      exists i :: 0 <= i < |schema| && CheckField(schema[i], body).Raised?
    decreases |schema|
  {
    if |schema| > 0 {
      CrashedIffRaised(schema[1..], body);
      if exists i :: 0 <= i < |schema| && CheckField(schema[i], body).Raised? {
        var i :| 0 <= i < |schema| && CheckField(schema[i], body).Raised?;
        if i > 0 {
          assert schema[1..][i - 1] == schema[i];
        }
      }
      if exists i :: 0 <= i < |schema[1..]| && CheckField(schema[1..][i], body).Raised? {
        var i :| 0 <= i < |schema[1..]| && CheckField(schema[1..][i], body).Raised?;
        assert schema[1..][i] == schema[i + 1];
      }
    }
  }

  /** Instantiation succeeds exactly when every field passes. */
  lemma {:induction false} CleanedIffAllPass(schema: seq<FieldSpec>, body: Body)
    ensures ValidateFields(schema, body).Cleaned? <==>
      forall i :: 0 <= i < |schema| ==> Passes(CheckField(schema[i], body))
    decreases |schema|
  {
    if |schema| > 0 {
      CleanedIffAllPass(schema[1..], body);
      if forall i :: 0 <= i < |schema| ==> Passes(CheckField(schema[i], body)) {
        forall i | 0 <= i < |schema[1..]|
          ensures Passes(CheckField(schema[1..][i], body))
        {
          assert schema[1..][i] == schema[i + 1];
        }
      }
      if ValidateFields(schema, body).Cleaned? {
        forall i | 0 <= i < |schema|
          ensures Passes(CheckField(schema[i], body))
        {
          if i > 0 {
            assert schema[1..][i - 1] == schema[i];
          }
        }
      }
    }
  }

  /** When no validator raised, the reported error is that of the first rejected field,
      and one is reported exactly when some field is rejected. */
  lemma {:induction false} FirstErrorIsFirstRejected(schema: seq<FieldSpec>, body: Body)
    requires forall i :: 0 <= i < |schema| ==> !CheckField(schema[i], body).Raised?
    ensures ValidateFields(schema, body).FirstError? <==>
      exists i :: FirstRejectedAt(schema, body, i)
    ensures forall i :: FirstRejectedAt(schema, body, i) ==>
      ValidateFields(schema, body) == FirstError(CheckField(schema[i], body).error)
    decreases |schema|
  {
    if |schema| > 0 {
      var tail := schema[1..];
      forall i | 0 <= i < |tail| ensures !CheckField(tail[i], body).Raised? {
        assert tail[i] == schema[i + 1];
      }
      FirstErrorIsFirstRejected(tail, body);
      CrashedIffRaised(tail, body);
      var head := CheckField(schema[0], body);
      forall i | FirstRejectedAt(schema, body, i)
        ensures ValidateFields(schema, body) == FirstError(CheckField(schema[i], body).error)
      {
        if i > 0 {
          assert Passes(head);
          assert FirstRejectedAt(tail, body, i - 1) by {
            forall j | 0 <= j < i - 1 ensures Passes(CheckField(tail[j], body)) {
              assert tail[j] == schema[j + 1];
            }
          }
        }
      }
      if ValidateFields(schema, body).FirstError? {
        if head.Rejected? {
          assert FirstRejectedAt(schema, body, 0);
        } else {
          var k :| FirstRejectedAt(tail, body, k);
          assert FirstRejectedAt(schema, body, k + 1) by {
            forall j | 0 <= j < k + 1 ensures Passes(CheckField(schema[j], body)) {
              if j > 0 { assert tail[j - 1] == schema[j]; }
            }
          }
        }
      }
    }
  }

  /** The validated output holds exactly the schema fields the body supplied, each with the
      supplied string, or `None` for a supplied null; defaults are never written. */
  lemma {:induction false} CleanedHoldsSuppliedFields(schema: seq<FieldSpec>, body: Body)
    requires DistinctNames(schema)
    requires ValidateFields(schema, body).Cleaned?
    ensures forall k :: k in ValidateFields(schema, body).fields <==>
      exists i :: 0 <= i < |schema| && schema[i].name == k && k in body
    ensures forall k :: k in ValidateFields(schema, body).fields ==>
      (body[k] == JNull && ValidateFields(schema, body).fields[k] == None) ||
      (body[k].JString? && ValidateFields(schema, body).fields[k] == Some(body[k].s))
    decreases |schema|
  {
    if |schema| > 0 {
      var tail := schema[1..];
      assert DistinctNames(tail) by {
        forall i, j | 0 <= i < j < |tail| ensures tail[i].name != tail[j].name {
          assert tail[i] == schema[i + 1] && tail[j] == schema[j + 1];
        }
      }
      CleanedHoldsSuppliedFields(tail, body);
      var out := ValidateFields(schema, body).fields;
      var rest := ValidateFields(tail, body).fields;
      var f := schema[0];
      forall k ensures k in out <==> exists i :: 0 <= i < |schema| && schema[i].name == k && k in body {
        if exists i :: 0 <= i < |schema| && schema[i].name == k && k in body {
          var i :| 0 <= i < |schema| && schema[i].name == k && k in body;
          if i > 0 {
            assert tail[i - 1] == schema[i];
          }
        }
        if k in out && k != f.name {
          assert k in rest;
          var i :| 0 <= i < |tail| && tail[i].name == k && k in body;
          assert schema[i + 1] == tail[i];
        }
      }
      forall k | k in rest ensures k != f.name {
        var i :| 0 <= i < |tail| && tail[i].name == k && k in body;
        assert schema[i + 1] == tail[i];
      }
    }
  }
}
