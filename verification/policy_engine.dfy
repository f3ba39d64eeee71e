/**
 * The policy check of the CLI (`validate_policy`): findings for missing
 * required variables, present forbidden variables and names matched by a
 * `warn` pattern, in that order.
 */
module PolicyEngine {
  import opened Base
  import opened EnvParser
  import opened Findings
  import opened PolicyLoader

  function MissingFinding(name: string): Finding {
    Reported("missing-required-var", "error", "Required environment variable '" + name + "' is missing", 1, None)
  }

  function ForbiddenFinding(name: string, line: int): Finding {
    Reported("forbidden-var", "error", "Forbidden environment variable '" + name + "' is present", line, None)
  }

  /** A pattern hit: the entry's message, or the default naming the variable, at the variable's line. */
  function PatternFinding(rule: PatternRule, f: Fact): Finding {
    Reported("pattern-match", "warning", rule.message.GetOr("Variable '" + f.key + "' matches pattern"), f.line, None)
  }

  /** What one required name contributes. */
  function MissingOne(env: Table, name: string): seq<Finding> {
    if HasKey(env, name) then [] else [MissingFinding(name)]
  }

  /** What one forbidden name contributes. */
  function ForbiddenOne(env: Table, name: string): seq<Finding> {
    match Lookup(env, name)
    case Some(f) => [ForbiddenFinding(name, f.line)]
    case None => []
  }

  /**
   * What one pattern entry contributes for one variable. `matches(regex, name)`
   * stands for `re.compile(regex).match(name)` succeeding (anchored at the start).
   */
  function PatternOne(rule: PatternRule, f: Fact, matches: (string, string) -> bool): seq<Finding> {
    if matches(rule.regex, f.key) && rule.action == Some("warn") then [PatternFinding(rule, f)] else []
  }

  function MissingEach(env: Table, required: seq<string>): (r: seq<seq<Finding>>)
    ensures |r| == |required| && forall i :: 0 <= i < |required| ==> r[i] == MissingOne(env, required[i])
  {
    Map((name: string) => MissingOne(env, name), required)
  }

  function ForbiddenEach(env: Table, forbidden: seq<string>): (r: seq<seq<Finding>>)
    ensures |r| == |forbidden| && forall i :: 0 <= i < |forbidden| ==> r[i] == ForbiddenOne(env, forbidden[i])
  {
    Map((name: string) => ForbiddenOne(env, name), forbidden)
  }

  /** One pattern entry against every variable, in table order. */
  function RuleEach(env: Table, rule: PatternRule, matches: (string, string) -> bool): (r: seq<seq<Finding>>)
    ensures |r| == |env| && forall j :: 0 <= j < |env| ==> r[j] == PatternOne(rule, env[j], matches)
  {
    Map((f: Fact) => PatternOne(rule, f, matches), env)
  }

  function PatternEach(env: Table, rules: seq<PatternRule>, matches: (string, string) -> bool): (r: seq<seq<Finding>>)
    ensures |r| == |rules| && forall i :: 0 <= i < |rules| ==> r[i] == Flatten(RuleEach(env, rules[i], matches))
  {
    Map((rule: PatternRule) => Flatten(RuleEach(env, rule, matches)), rules)
  }

  /** The findings `validate_policy` returns: required, then forbidden, then patterns. */
  function PolicyFindings(env: Table, policy: Policy, matches: (string, string) -> bool): seq<Finding> {
    Flatten(MissingEach(env, policy.required))
    + Flatten(ForbiddenEach(env, policy.forbidden))
    + Flatten(PatternEach(env, policy.patterns, matches))
  }

  /** `validate_policy(env_vars, policy_rules)`: its three loops, in order. */
  method ValidatePolicy(envVars: Table, policy: Policy, matches: (string, string) -> bool) returns (results: seq<Finding>)
    ensures results == PolicyFindings(envVars, policy, matches)
  {
    var missing := MissingVars(envVars, policy.required);
    var present := ForbiddenVars(envVars, policy.forbidden);
    var hits := PatternMatches(envVars, policy.patterns, matches);
    results := missing + present + hits;
  }

  /** The loop over `required`. */
  method MissingVars(envVars: Table, required: seq<string>) returns (results: seq<Finding>)
    ensures results == Flatten(MissingEach(envVars, required))
  {
    results := [];
    ghost var each := MissingEach(envVars, required);
    var i := 0;
    while i < |required|
      invariant i <= |required|
      invariant results == Flatten(each[..i])
    {
      FlattenPrefix(each, i);
      var name := required[i];
      if Lookup(envVars, name).None? {
        results := results + [MissingFinding(name)];
      }
      i := i + 1;
    }
    assert each[..i] == each;
  }

  /** The loop over `forbidden`. */
  method ForbiddenVars(envVars: Table, forbidden: seq<string>) returns (results: seq<Finding>)
    ensures results == Flatten(ForbiddenEach(envVars, forbidden))
  {
    results := [];
    ghost var each := ForbiddenEach(envVars, forbidden);
    var i := 0;
    while i < |forbidden|
      invariant i <= |forbidden|
      invariant results == Flatten(each[..i])
    {
      FlattenPrefix(each, i);
      var name := forbidden[i];
      var hit := Lookup(envVars, name);
      if hit.Some? {
        results := results + [ForbiddenFinding(name, hit.value.line)];
      }
      i := i + 1;
    }
    assert each[..i] == each;
  }

  /** The loop over `patterns`. */
  method PatternMatches(envVars: Table, rules: seq<PatternRule>, matches: (string, string) -> bool) returns (results: seq<Finding>)
    ensures results == Flatten(PatternEach(envVars, rules, matches))
  {
    results := [];
    ghost var each := PatternEach(envVars, rules, matches);
    var i := 0;
    while i < |rules|
      invariant i <= |rules|
      invariant results == Flatten(each[..i])
    {
      FlattenPrefix(each, i);
      var more := PatternHits(envVars, rules[i], matches);
      results := results + more;
      i := i + 1;
    }
    assert each[..i] == each;
  }

  /** The inner loop of the pattern check: one entry against every variable. */
  method PatternHits(envVars: Table, rule: PatternRule, matches: (string, string) -> bool) returns (found: seq<Finding>)
    ensures found == Flatten(RuleEach(envVars, rule, matches))
  {
    found := [];
    ghost var each := RuleEach(envVars, rule, matches);
    var j := 0;
    while j < |envVars|
      invariant j <= |envVars|
      invariant found == Flatten(each[..j])
    {
      FlattenPrefix(each, j);
      var f := envVars[j];
      if matches(rule.regex, f.key) && rule.action == Some("warn") {
        found := found + [PatternFinding(rule, f)];
      }
      j := j + 1;
    }
    assert each[..j] == each;
  }

  // ----- What the findings mean -----

  /** A missing-required finding is reported exactly for the required names absent from the table, at line 1. */
  lemma MissingExactly(env: Table, policy: Policy, x: Finding)
    ensures x in Flatten(MissingEach(env, policy.required))
        <==> exists name :: name in policy.required && !HasKey(env, name) && x == MissingFinding(name)
  {
    var each := MissingEach(env, policy.required);
    FlattenMember(each, x);
    if i :| 0 <= i < |each| && x in each[i] {
      assert policy.required[i] in policy.required;
    }
    if name :| name in policy.required && !HasKey(env, name) && x == MissingFinding(name) {
      var i :| 0 <= i < |policy.required| && policy.required[i] == name;
      assert x in each[i];
    }
  }

  /** A forbidden-var finding is reported exactly for the forbidden names in the table, at that variable's line. */
  lemma ForbiddenExactly(env: Table, policy: Policy, x: Finding)
    ensures x in Flatten(ForbiddenEach(env, policy.forbidden))
        <==> exists f :: f in env && f.key in policy.forbidden && Lookup(env, f.key) == Some(f) && x == ForbiddenFinding(f.key, f.line)
  {
    var each := ForbiddenEach(env, policy.forbidden);
    FlattenMember(each, x);
    if i :| 0 <= i < |each| && x in each[i] {
      var f := Lookup(env, policy.forbidden[i]).value;
      assert f in env && f.key in policy.forbidden;
    }
    if f :| f in env && f.key in policy.forbidden && Lookup(env, f.key) == Some(f) && x == ForbiddenFinding(f.key, f.line) {
      var i :| 0 <= i < |policy.forbidden| && policy.forbidden[i] == f.key;
      assert x in each[i];
    }
  }

  /**
   * A pattern-match finding is reported exactly for a `warn` entry and a
   * variable whose name it matches, with the entry's message or the default.
   */
  lemma PatternExactly(env: Table, policy: Policy, matches: (string, string) -> bool, x: Finding)
    ensures x in Flatten(PatternEach(env, policy.patterns, matches))
        <==> exists rule, f :: rule in policy.patterns && f in env && rule.action == Some("warn")
               && matches(rule.regex, f.key) && x == PatternFinding(rule, f)
  {
    if x in Flatten(PatternEach(env, policy.patterns, matches)) {
      PatternSound(env, policy.patterns, matches, x);
    }
    if rule, f :| rule in policy.patterns && f in env && rule.action == Some("warn")
                  && matches(rule.regex, f.key) && x == PatternFinding(rule, f) {
      PatternComplete(env, policy.patterns, matches, rule, f);
    }
  }

  /** Every pattern-match finding comes from a `warn` entry and a variable it matches. */
  lemma PatternSound(env: Table, rules: seq<PatternRule>, matches: (string, string) -> bool, x: Finding)
    requires x in Flatten(PatternEach(env, rules, matches))
    ensures exists rule, f :: rule in rules && f in env && rule.action == Some("warn")
              && matches(rule.regex, f.key) && x == PatternFinding(rule, f)
  {
    var each := PatternEach(env, rules, matches);
    FlattenMember(each, x);
    var i :| 0 <= i < |each| && x in each[i];
    var f := RuleHit(env, rules[i], matches, x);
    assert rules[i] in rules;
  }

  /** A `warn` entry that matches a variable gives its finding. */
  lemma PatternComplete(env: Table, rules: seq<PatternRule>, matches: (string, string) -> bool, rule: PatternRule, f: Fact)
    requires rule in rules && f in env && rule.action == Some("warn") && matches(rule.regex, f.key)
    ensures PatternFinding(rule, f) in Flatten(PatternEach(env, rules, matches))
  {
    var x := PatternFinding(rule, f);
    var each := PatternEach(env, rules, matches);
    var i :| 0 <= i < |rules| && rules[i] == rule;
    var inner := RuleEach(env, rule, matches);
    var j :| 0 <= j < |env| && env[j] == f;
    assert x in inner[j];
    FlattenMember(inner, x);
    assert x in each[i];
    FlattenMember(each, x);
  }

  /** A finding of one entry comes from some variable that it matches. */
  lemma RuleHit(env: Table, rule: PatternRule, matches: (string, string) -> bool, x: Finding) returns (f: Fact)
    requires x in Flatten(RuleEach(env, rule, matches))
    ensures f in env && rule.action == Some("warn") && matches(rule.regex, f.key) && x == PatternFinding(rule, f)
  {
    var inner := RuleEach(env, rule, matches);
    FlattenMember(inner, x);
    var j :| 0 <= j < |inner| && x in inner[j];
    f := env[j];
  }

  /** Which of the three checks a finding comes from. */
  function Stage(x: Finding): int {
    if x.ruleId == Some("missing-required-var") then 0
    else if x.ruleId == Some("forbidden-var") then 1
    else 2
  }

  /** Every finding of the pieces has the given stage. */
  ghost predicate AllStage(ss: seq<seq<Finding>>, k: int) {
    forall i, x :: 0 <= i < |ss| && x in ss[i] ==> Stage(x) == k
  }

  lemma StageOfFlatten(ss: seq<seq<Finding>>, k: int, x: Finding)
    requires AllStage(ss, k) && x in Flatten(ss)
    ensures Stage(x) == k
  {
    FlattenMember(ss, x);
  }

  lemma MissingStage(env: Table, required: seq<string>)
    ensures AllStage(MissingEach(env, required), 0)
  {
  }

  lemma ForbiddenStage(env: Table, forbidden: seq<string>)
    ensures AllStage(ForbiddenEach(env, forbidden), 1)
  {
  }

  lemma PatternStage(env: Table, rules: seq<PatternRule>, matches: (string, string) -> bool)
    ensures AllStage(PatternEach(env, rules, matches), 2)
  {
    var pe := PatternEach(env, rules, matches);
    forall i, x | 0 <= i < |pe| && x in pe[i] ensures Stage(x) == 2 {
      var f := RuleHit(env, rules[i], matches, x);
    }
  }

  /** The required findings come first, then the forbidden ones, then the pattern ones. */
  lemma StagesInOrder(env: Table, policy: Policy, matches: (string, string) -> bool)
    ensures var r := PolicyFindings(env, policy, matches);
            forall i, j :: 0 <= i < j < |r| ==> Stage(r[i]) <= Stage(r[j])
  {
    var m, fb, pe := MissingEach(env, policy.required), ForbiddenEach(env, policy.forbidden), PatternEach(env, policy.patterns, matches);
    MissingStage(env, policy.required);
    ForbiddenStage(env, policy.forbidden);
    PatternStage(env, policy.patterns, matches);
    forall x | x in Flatten(m) ensures Stage(x) == 0 { StageOfFlatten(m, 0, x); }
    forall x | x in Flatten(fb) ensures Stage(x) == 1 { StageOfFlatten(fb, 1, x); }
    forall x | x in Flatten(pe) ensures Stage(x) == 2 { StageOfFlatten(pe, 2, x); }
    ThreeBlocks(Flatten(m), Flatten(fb), Flatten(pe));
  }

  /** Three blocks of stages 0, 1 and 2, joined in that order, are ordered by stage. */
  lemma ThreeBlocks(a: seq<Finding>, b: seq<Finding>, c: seq<Finding>)
    requires forall x :: x in a ==> Stage(x) == 0
    requires forall x :: x in b ==> Stage(x) == 1
    requires forall x :: x in c ==> Stage(x) == 2
    ensures var r := a + b + c;
            forall i, j :: 0 <= i < j < |r| ==> Stage(r[i]) <= Stage(r[j])
  {
    var r := a + b + c;
    forall i | 0 <= i < |r| ensures Stage(r[i]) == if i < |a| then 0 else if i < |a| + |b| then 1 else 2 {
      if i < |a| {
        assert r[i] == a[i];
      } else if i < |a| + |b| {
        assert r[i] == b[i - |a|];
      } else {
        assert r[i] == c[i - |a| - |b|];
      }
    }
  }

  /** No missing-required finding iff every required name is present. */
  lemma MissingNone(env: Table, required: seq<string>)
    ensures Flatten(MissingEach(env, required)) == [] <==> forall name :: name in required ==> HasKey(env, name)
  {
    var m := MissingEach(env, required);
    FlattenEmpty(m);
    if forall i :: 0 <= i < |m| ==> m[i] == [] {
      forall name | name in required ensures HasKey(env, name) {
        var i :| 0 <= i < |required| && required[i] == name;
        assert m[i] == [];
      }
    }
  }

  /** No forbidden-var finding iff no forbidden name is present. */
  lemma ForbiddenNone(env: Table, forbidden: seq<string>)
    ensures Flatten(ForbiddenEach(env, forbidden)) == [] <==> forall name :: name in forbidden ==> !HasKey(env, name)
  {
    var fb := ForbiddenEach(env, forbidden);
    FlattenEmpty(fb);
    if forall i :: 0 <= i < |fb| ==> fb[i] == [] {
      forall name | name in forbidden ensures !HasKey(env, name) {
        var i :| 0 <= i < |forbidden| && forbidden[i] == name;
        assert fb[i] == [];
      }
    }
  }

  /** No pattern-match finding iff no `warn` entry matches any variable. */
  lemma PatternNone(env: Table, rules: seq<PatternRule>, matches: (string, string) -> bool)
    ensures Flatten(PatternEach(env, rules, matches)) == []
        <==> forall rule, f :: rule in rules && f in env && rule.action == Some("warn") ==> !matches(rule.regex, f.key)
  {
    var pe := PatternEach(env, rules, matches);
    FlattenEmpty(pe);
    if forall i :: 0 <= i < |pe| ==> pe[i] == [] {
      forall rule, f | rule in rules && f in env && rule.action == Some("warn")
        ensures !matches(rule.regex, f.key)
      {
        var i :| 0 <= i < |rules| && rules[i] == rule;
        var j :| 0 <= j < |env| && env[j] == f;
        var inner := RuleEach(env, rule, matches);
        FlattenEmpty(inner);
        assert inner[j] == [];
      }
    }
    if forall rule, f :: rule in rules && f in env && rule.action == Some("warn") ==> !matches(rule.regex, f.key) {
      forall i | 0 <= i < |pe| ensures pe[i] == [] {
        if pe[i] != [] {
          var f := RuleHit(env, rules[i], matches, pe[i][0]);
        }
      }
    }
  }

  /**
   * The policy check finds nothing iff every required name is present, no
   * forbidden name is, and no `warn` entry matches any variable.
   */
  lemma CompliantIff(env: Table, policy: Policy, matches: (string, string) -> bool)
    ensures PolicyFindings(env, policy, matches) == []
        <==> (forall name :: name in policy.required ==> HasKey(env, name))
             && (forall name :: name in policy.forbidden ==> !HasKey(env, name))
             && (forall rule, f :: rule in policy.patterns && f in env && rule.action == Some("warn") ==> !matches(rule.regex, f.key))
  {
    MissingNone(env, policy.required);
    ForbiddenNone(env, policy.forbidden);
    PatternNone(env, policy.patterns, matches);
  }

  // ----- The CLI tests' cases -----

  /** Of two required names only the absent one is reported. */
  lemma ExampleRequired(matches: (string, string) -> bool)
    ensures PolicyFindings([Fact("APP_NAME", "test", 1)], Policy(["APP_NAME", "DATABASE_URL"], [], []), matches)
         == [MissingFinding("DATABASE_URL")]
  {
    var env := [Fact("APP_NAME", "test", 1)];
    var each := MissingEach(env, ["APP_NAME", "DATABASE_URL"]);
    assert HasKey(env, "APP_NAME") by { assert env[0].key == "APP_NAME"; }
    assert each == [[], [MissingFinding("DATABASE_URL")]];
    assert each[..1] == [[]];
  }

  /** A present forbidden name is reported at its line. */
  lemma ExampleForbidden(matches: (string, string) -> bool)
    ensures PolicyFindings([Fact("DEBUG", "true", 2)], Policy([], ["DEBUG"], []), matches)
         == [ForbiddenFinding("DEBUG", 2)]
  {
    var env := [Fact("DEBUG", "true", 2)];
    assert ForbiddenEach(env, ["DEBUG"]) == [[ForbiddenFinding("DEBUG", 2)]];
  }

  /** A `warn` entry that matches a variable gives one pattern-match warning with the entry's message. */
  lemma ExamplePattern(matches: (string, string) -> bool)
    requires matches("^TEST_.*", "TEST_VAR")
    ensures PolicyFindings([Fact("TEST_VAR", "test", 1)],
                           Policy([], [], [PatternRule("^TEST_.*", Some("warn"), Some("Test variable found"))]), matches)
         == [Reported("pattern-match", "warning", "Test variable found", 1, None)]
  {
    var rule := PatternRule("^TEST_.*", Some("warn"), Some("Test variable found"));
    var env := [Fact("TEST_VAR", "test", 1)];
    assert RuleEach(env, rule, matches) == [[PatternFinding(rule, env[0])]];
    assert Flatten(RuleEach(env, rule, matches)) == [PatternFinding(rule, env[0])];
    assert PatternEach(env, [rule], matches) == [[PatternFinding(rule, env[0])]];
  }
}
