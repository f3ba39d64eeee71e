/**
 * The pipeline-A `SchemaIntrospector.validate_env_vars`: the model's
 * validation errors become `schema-validation` findings, then every required
 * model field absent from the table becomes a `missing-required-field`
 * finding. Loading the model from a Python file and the validation engine
 * itself are outside the model: the engine is a function from the key -> value
 * mapping to its list of errors, and the model's fields are given.
 */
module SchemaIntrospect {
  import opened Base
  import opened Json
  import opened EnvParser
  import opened Findings

  /** One entry of `ValidationError.errors()`: location, message, error type and the offending input if any. */
  datatype EngineError = EngineError(loc: seq<string>, msg: string, errorType: string, input: Option<Value>)

  /** One field of the model and whether the model requires it. */
  datatype ModelField = ModelField(name: string, required: bool)

  /** The mapping handed to the model: every key with its value (a later key overrides an earlier one). */
  function Values(t: Table): map<string, string> {
    if t == [] then map[] else Values(t[..|t| - 1])[t[|t| - 1].key := t[|t| - 1].value]
  }

  /** The field an error is about: the first location element, or `unknown`. */
  function FieldOf(e: EngineError): string {
    if e.loc == [] then "unknown" else e.loc[0]
  }

  /** `env_vars.get(field, {}).get("line", 1)`. */
  function LineOf(env: Table, field: string): int {
    match Lookup(env, field)
    case Some(f) => f.line
    case None => 1
  }

  function ErrorFinding(env: Table, e: EngineError): Finding {
    var field := FieldOf(e);
    Reported("schema-validation", "error", field + ": " + e.msg, LineOf(env, field),
             Some([Member("field", Str(field)), Member("error_type", Str(e.errorType)), Member("input", e.input.GetOr(Null))]))
  }

  function MissingFieldFinding(name: string): Finding {
    Reported("missing-required-field", "error", "Required field '" + name + "' is missing", 1, Some([Member("field", Str(name))]))
  }

  /** What one model field contributes to the missing-field check. */
  function MissingFieldOne(env: Table, field: ModelField): seq<Finding> {
    if field.required && !HasKey(env, field.name) then [MissingFieldFinding(field.name)] else []
  }

  function MissingFieldEach(env: Table, fields: seq<ModelField>): (r: seq<seq<Finding>>)
    ensures |r| == |fields| && forall i :: 0 <= i < |fields| ==> r[i] == MissingFieldOne(env, fields[i])
  {
    Map((field: ModelField) => MissingFieldOne(env, field), fields)
  }

  function ErrorFindings(env: Table, errors: seq<EngineError>): (r: seq<Finding>)
    ensures |r| == |errors| && forall i :: 0 <= i < |errors| ==> r[i] == ErrorFinding(env, errors[i])
  {
    Map((e: EngineError) => ErrorFinding(env, e), errors)
  }

  /** What `validate_env_vars` returns for the engine's errors and the model's fields. */
  function SchemaFindings(env: Table, errors: seq<EngineError>, fields: seq<ModelField>): seq<Finding> {
    ErrorFindings(env, errors) + Flatten(MissingFieldEach(env, fields))
  }

  class SchemaIntrospector {
    /** The fields of the loaded model, in declaration order. */
    const modelFields: seq<ModelField>
    /** Validation of the loaded model: no errors means the values are accepted. */
    const validate: map<string, string> -> seq<EngineError>

    constructor(modelFields: seq<ModelField>, validate: map<string, string> -> seq<EngineError>)
      ensures this.modelFields == modelFields && this.validate == validate
    {
      this.modelFields := modelFields;
      this.validate := validate;
    }

    /** `validate_env_vars`: the engine sees exactly the key -> value projection of the table. */
    method ValidateEnvVars(envVars: Table) returns (results: seq<Finding>)
      ensures results == SchemaFindings(envVars, validate(Values(envVars)), modelFields)
    {
      var envValues := Values(envVars);
      var errors := validate(envValues);
      results := ConvertErrors(envVars, errors);
      var missing := MissingFields(envVars, modelFields);
      results := results + missing;
    }
  }

  /** The loop over the engine's errors. */
  method ConvertErrors(envVars: Table, errors: seq<EngineError>) returns (results: seq<Finding>)
    ensures results == ErrorFindings(envVars, errors)
  {
    results := [];
    var i := 0;
    while i < |errors|
      invariant i <= |errors|
      invariant |results| == i && forall j :: 0 <= j < i ==> results[j] == ErrorFinding(envVars, errors[j])
    {
      var error := errors[i];
      var field := if error.loc != [] then error.loc[0] else "unknown";
      var fact := Lookup(envVars, field);
      var line := if fact.Some? then fact.value.line else 1;
      var finding := Reported("schema-validation", "error", field + ": " + error.msg, line,
                              Some([Member("field", Str(field)), Member("error_type", Str(error.errorType)),
                                    Member("input", error.input.GetOr(Null))]));
      assert finding == ErrorFinding(envVars, error);
      results := results + [finding];
      i := i + 1;
    }
  }

  /** The loop over the model's fields. */
  method MissingFields(envVars: Table, fields: seq<ModelField>) returns (results: seq<Finding>)
    ensures results == Flatten(MissingFieldEach(envVars, fields))
  {
    results := [];
    ghost var each := MissingFieldEach(envVars, fields);
    var i := 0;
    while i < |fields|
      invariant i <= |fields|
      invariant results == Flatten(each[..i])
    {
      FlattenPrefix(each, i);
      var field := fields[i];
      if field.required && Lookup(envVars, field.name).None? {
        results := results + [MissingFieldFinding(field.name)];
      }
      i := i + 1;
    }
    assert each[..i] == each;
  }

  // ----- What the findings mean -----

  /** The engine sees every key of the table and no other. */
  lemma {:induction false} ValuesKeys(t: Table)
    ensures forall k :: k in Values(t) <==> HasKey(t, k)
  {
    if t != [] {
      var n := |t| - 1;
      ValuesKeys(t[..n]);
      forall k ensures HasKey(t, k) <==> HasKey(t[..n], k) || k == t[n].key {
        if HasKey(t, k) && k != t[n].key {
          var i :| 0 <= i < |t| && t[i].key == k;
          assert t[..n][i].key == k;
        }
        if HasKey(t[..n], k) {
          var i :| 0 <= i < n && t[..n][i].key == k;
          assert t[i].key == k;
        }
      }
    }
  }

  /** With distinct keys (as in a dict), the engine sees each variable's own value. */
  lemma {:induction false} ValuesOf(t: Table, f: Fact)
    requires DistinctKeys(t) && f in t
    ensures f.key in Values(t) && Values(t)[f.key] == f.value
  {
    var n := |t| - 1;
    if t[n] != f {
      var i :| 0 <= i < |t| && t[i] == f;
      assert i < n && t[..n][i] == f;
      assert f.key != t[n].key;
      ValuesOf(t[..n], f);
    }
  }

  /**
   * One `schema-validation` finding per engine error, in the engine's order:
   * its field is the first location element or `unknown`, its line is that
   * variable's line, or 1 when the table has no such variable.
   */
  lemma ErrorFindingsMeaning(env: Table, errors: seq<EngineError>, i: nat)
    requires i < |errors|
    ensures var x := ErrorFindings(env, errors)[i];
            var field := if errors[i].loc == [] then "unknown" else errors[i].loc[0];
            x.ruleId == Some("schema-validation") && x.level == Some("error")
            && x.details.Some? && Names(x.details.value) == ["field", "error_type", "input"]
            && Get(x.details.value, "field") == Some(Str(field))
            && (HasKey(env, field) ==> exists f :: f in env && f.key == field && x.line == Some(f.line))
            && (!HasKey(env, field) ==> x.line == Some(1))
  {
  }

  /**
   * A `missing-required-field` finding is reported exactly for the required
   * model fields absent from the table, at line 1, with only `field` in its details.
   */
  lemma MissingFieldsExactly(env: Table, fields: seq<ModelField>, x: Finding)
    ensures x in Flatten(MissingFieldEach(env, fields))
        <==> exists field :: field in fields && field.required && !HasKey(env, field.name) && x == MissingFieldFinding(field.name)
  {
    var each := MissingFieldEach(env, fields);
    FlattenMember(each, x);
    if i :| 0 <= i < |each| && x in each[i] {
      assert fields[i] in fields;
    }
    if field :| field in fields && field.required && !HasKey(env, field.name) && x == MissingFieldFinding(field.name) {
      var i :| 0 <= i < |fields| && fields[i] == field;
      assert x in each[i];
    }
  }

  /** Every missing-field finding names the field in its details and sits at line 1. */
  lemma MissingFieldShape(name: string)
    ensures var x := MissingFieldFinding(name);
            x.line == Some(1) && x.details == Some([Member("field", Str(name))])
            && x.ruleId == Some("missing-required-field")
  {
  }

  /**
   * All validation findings come first, then all missing-field findings, and
   * the missing fields are reported whatever the engine said.
   */
  lemma SchemaFindingsOrder(env: Table, errors: seq<EngineError>, fields: seq<ModelField>)
    ensures var r := SchemaFindings(env, errors, fields);
            r[|errors|..] == Flatten(MissingFieldEach(env, fields))
            && (forall i :: 0 <= i < |errors| ==> r[i].ruleId == Some("schema-validation"))
            && (forall i :: |errors| <= i < |r| ==> r[i].ruleId == Some("missing-required-field"))
  {
    var r := SchemaFindings(env, errors, fields);
    var missing := Flatten(MissingFieldEach(env, fields));
    assert r[|errors|..] == missing;
    forall i | |errors| <= i < |r| ensures r[i].ruleId == Some("missing-required-field") {
      assert r[i] == missing[i - |errors|];
      assert missing[i - |errors|] in missing;
      MissingFieldsExactly(env, fields, r[i]);
    }
  }

  /** The missing-field test: whatever the engine reports, `database_url` is reported missing. */
  lemma MissingDatabaseUrlExample(errors: seq<EngineError>)
    ensures MissingFieldFinding("database_url")
            in SchemaFindings([Fact("app_name", "myapp", 1)], errors, [ModelField("app_name", true), ModelField("database_url", true)])
  {
    var env := [Fact("app_name", "myapp", 1)];
    var fields := [ModelField("app_name", true), ModelField("database_url", true)];
    assert !HasKey(env, "database_url");
    MissingFieldsExactly(env, fields, MissingFieldFinding("database_url"));
    assert fields[1] in fields;
  }
}
