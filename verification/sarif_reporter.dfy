/**
 * The pipeline-A `SARIFReporter`: result dicts become a SARIF 2.1.0 log with
 * one run, a rule catalogue sorted by id and the results sorted by rule and
 * line. SHA-256 is outside the model: the fingerprint is `digest` applied to
 * the text `rule_id:file:line`, where `digest` stands for the first sixteen hex
 * digits of the SHA-256 of that text.
 */
module SarifReporter {
  import opened Base
  import opened Json
  import opened Text
  import opened Ordering
  import opened Findings

  const SarifVersion := "2.1.0"
  const SchemaUri := "https://json.schemastore.org/sarif-2.1.0.json"
  const InformationUri := "https://github.com/canstralian/env-integrity-checK"
  const ColumnKind := "utf16CodeUnits"

  /** One entry of `tool.driver.rules`. */
  datatype Rule = Rule(id: string, name: string, shortDescription: string, help: string, level: string)

  /** One SARIF result: rule, level, message, one physical location, fingerprint and optional properties. */
  datatype SarifResult = SarifResult(
    ruleId: string,
    level: string,
    message: string,
    uri: string,
    startLine: int,
    startColumn: int,
    fingerprint: string,
    properties: Option<seq<Member>>)

  /** The single run: driver, rules, results, column kind and the optional `properties.metrics`. */
  datatype Run = Run(
    toolName: string,
    toolVersion: string,
    informationUri: string,
    rules: seq<Rule>,
    results: seq<SarifResult>,
    columnKind: string,
    metrics: Option<seq<Member>>)

  datatype Report = Report(version: string, schema: string, runs: seq<Run>)

  /** `_map_level`: the internal level, case-insensitively, as a SARIF level. */
  function MapLevel(level: string): string {
    var l := Lower(level);
    if l == "error" then "error"
    else if l == "warning" then "warning"
    else if l == "info" || l == "note" then "note"
    else "warning"
  }

  /** Python's cased characters, restricted to ASCII: what `str.title()` treats as part of a word. */
  predicate IsCased(c: char) {
    'a' <= c <= 'z' || 'A' <= c <= 'Z'
  }

  /** Python's `str.title()`: a letter after a letter is lower-cased, any other is upper-cased. */
  function Title(s: string): (r: string)
    ensures |r| == |s|
    ensures forall i :: 0 <= i < |s| ==> r[i] == if i > 0 && IsCased(s[i - 1]) then LowerChar(s[i]) else UpperChar(s[i])
  {
    seq(|s|, i requires 0 <= i < |s| => if i > 0 && IsCased(s[i - 1]) then LowerChar(s[i]) else UpperChar(s[i]))
  }

  /** `_rule_id_to_name`. */
  function RuleIdToName(ruleId: string): string {
    Title(ReplaceChar(ReplaceChar(ruleId, '-', ' '), '_', ' '))
  }

  /** The rule ids with a description and a help text of their own. */
  const KnownRules: seq<string> := ["schema-validation", "missing-required-field", "missing-required-var", "forbidden-var", "pattern-match", "secret-detected"]

  /** `_get_rule_description`. */
  function Description(ruleId: string): string {
    if ruleId == "schema-validation" then "Schema validation error"
    else if ruleId == "missing-required-field" then "Required field is missing"
    else if ruleId == "missing-required-var" then "Required environment variable is missing"
    else if ruleId == "forbidden-var" then "Forbidden environment variable detected"
    else if ruleId == "pattern-match" then "Environment variable matches warning pattern"
    else if ruleId == "secret-detected" then "Potential secret detected in environment file"
    else "Rule " + ruleId
  }

  /** `_get_rule_help`. */
  function Help(ruleId: string): string {
    if ruleId == "schema-validation" then "Environment variable does not match expected schema type or format."
    else if ruleId == "missing-required-field" then "A required field defined in the schema is not present in the environment file."
    else if ruleId == "missing-required-var" then "A required environment variable specified in policy is missing."
    else if ruleId == "forbidden-var" then "An environment variable that is forbidden by policy is present."
    else if ruleId == "pattern-match" then "Environment variable name matches a pattern defined in policy."
    else if ruleId == "secret-detected" then "Potential secret or sensitive credential detected by secrets scanner."
    else "Validation rule: " + ruleId
  }

  /** The text `_generate_fingerprint` hashes. */
  function FingerprintData(ruleId: string, filePath: string, line: int): string {
    ruleId + ":" + filePath + ":" + IntToString(line)
  }

  function RuleIdOf(f: Finding): string {
    f.ruleId.GetOr("unknown")
  }

  function LineOf(f: Finding): int {
    f.line.GetOr(1)
  }

  /** `_convert_to_sarif_result`. */
  function Convert(f: Finding, sourceFile: string, digest: string -> string): SarifResult {
    SarifResult(RuleIdOf(f), MapLevel(f.level.GetOr("warning")), f.message.GetOr("Validation error"),
                sourceFile, LineOf(f), f.column.GetOr(1),
                digest(FingerprintData(RuleIdOf(f), sourceFile, LineOf(f))), f.details)
  }

  /** The catalogue entry a result introduces. */
  function RuleFor(f: Finding): Rule {
    var id := RuleIdOf(f);
    Rule(id, RuleIdToName(id), Description(id), Help(id), MapLevel(f.level.GetOr("warning")))
  }

  function Ids(rules: seq<Rule>): (ids: seq<string>)
    ensures |ids| == |rules| && forall i :: 0 <= i < |rules| ==> ids[i] == rules[i].id
  {
    seq(|rules|, i requires 0 <= i < |rules| => rules[i].id)
  }

  /** `rules_dict` after the loop of `_extract_rules`: one entry per id, from the id's first result, in first-seen order. */
  function Catalogue(results: seq<Finding>): seq<Rule> {
    if results == [] then []
    else
      var c := Catalogue(results[..|results| - 1]);
      var f := results[|results| - 1];
      if RuleIdOf(f) in Ids(c) then c else c + [RuleFor(f)]
  }

  function RuleKey(r: Rule): Key {
    [S(r.id)]
  }

  /** The sort key of `generate_report`: `(ruleId, startLine)`. */
  function ResultKey(x: SarifResult): Key {
    [S(x.ruleId), N(x.startLine)]
  }

  function Rules(results: seq<Finding>): seq<Rule> {
    Sort(Catalogue(results), RuleKey)
  }

  function Converted(results: seq<Finding>, sourceFile: string, digest: string -> string): seq<SarifResult> {
    Map((f: Finding) => Convert(f, sourceFile, digest), results)
  }

  /** The report `generate_report` builds; `properties.metrics` only for a non-empty metrics dict. */
  function ReportOf(toolName: string, toolVersion: string, results: seq<Finding>, sourceFile: string,
                    metricsData: Option<seq<Member>>, digest: string -> string): Report
  {
    var metrics := if metricsData.Some? && metricsData.value != [] then metricsData else None;
    Report(SarifVersion, SchemaUri,
           [Run(toolName, toolVersion, InformationUri, Rules(results),
                Sort(Converted(results, sourceFile, digest), ResultKey), ColumnKind, metrics)])
  }

  lemma CataloguePrefix(results: seq<Finding>, n: nat)
    requires n < |results|
    ensures Catalogue(results[..n + 1])
         == (var c := Catalogue(results[..n]); if RuleIdOf(results[n]) in Ids(c) then c else c + [RuleFor(results[n])])
  {
    assert results[..n + 1][..n] == results[..n];
  }

  class SarifReporter {
    const toolName: string
    const toolVersion: string

    constructor(toolName: string, toolVersion: string)
      ensures this.toolName == toolName && this.toolVersion == toolVersion
    {
      this.toolName := toolName;
      this.toolVersion := toolVersion;
    }

    /** `generate_report`: convert every result, sort, and wrap in the run. */
    method GenerateReport(results: seq<Finding>, sourceFile: string, metricsData: Option<seq<Member>>, digest: string -> string)
      returns (report: Report)
      ensures report == ReportOf(toolName, toolVersion, results, sourceFile, metricsData, digest)
    {
      var rules := ExtractRules(results);
      var sarifResults := ConvertResults(results, sourceFile, digest);
      sarifResults := Sort(sarifResults, ResultKey);
      var run := Run(toolName, toolVersion, InformationUri, rules, sarifResults, ColumnKind, None);
      if metricsData.Some? && metricsData.value != [] {
        run := run.(metrics := metricsData);
      }
      report := Report(SarifVersion, SchemaUri, [run]);
    }

    /** The conversion loop of `generate_report`. */
    method ConvertResults(results: seq<Finding>, sourceFile: string, digest: string -> string) returns (sarifResults: seq<SarifResult>)
      ensures sarifResults == Converted(results, sourceFile, digest)
    {
      sarifResults := [];
      var i := 0;
      while i < |results|
        invariant i <= |results|
        invariant |sarifResults| == i && forall j :: 0 <= j < i ==> sarifResults[j] == Convert(results[j], sourceFile, digest)
      {
        sarifResults := sarifResults + [Convert(results[i], sourceFile, digest)];
        i := i + 1;
      }
    }

    /** `_extract_rules`: first occurrence of every id, then sorted by id. */
    method ExtractRules(results: seq<Finding>) returns (rules: seq<Rule>)
      ensures rules == Rules(results)
    {
      var rulesDict := [];
      var i := 0;
      while i < |results|
        invariant i <= |results|
        invariant rulesDict == Catalogue(results[..i])
      {
        CataloguePrefix(results, i);
        var ruleId := results[i].ruleId.GetOr("unknown");
        if ruleId !in Ids(rulesDict) {
          rulesDict := rulesDict + [RuleFor(results[i])];
        }
        i := i + 1;
      }
      assert results[..i] == results;
      rules := Sort(rulesDict, RuleKey);
    }
  }

  // ----- Levels, names, descriptions, fingerprints -----

  /** `_map_level` gives one of three SARIF levels and ignores case. */
  lemma MapLevelMeaning(level: string, other: string)
    ensures MapLevel(level) == "error" <==> Lower(level) == "error"
    ensures MapLevel(level) == "note" <==> Lower(level) == "info" || Lower(level) == "note"
    ensures MapLevel(level) == "warning" <==> !(Lower(level) in {"error", "info", "note"})
    ensures Lower(level) == Lower(other) ==> MapLevel(level) == MapLevel(other)
  {
  }

  /** The level-mapping test. */
  lemma MapLevelExamples()
    ensures MapLevel("error") == "error" && MapLevel("warning") == "warning" && MapLevel("info") == "note"
    ensures MapLevel("note") == "note" && MapLevel("unknown") == "warning" && MapLevel("ERROR") == "error"
  {
    assert Lower("error") == "error";
    assert Lower("warning") == "warning";
    assert Lower("info") == "info";
    assert Lower("note") == "note";
    assert Lower("unknown") == "unknown";
    assert Lower("ERROR") == "error";
  }

  lemma LowerUpperChar(c: char)
    ensures LowerChar(UpperChar(c)) == LowerChar(c) && LowerChar(LowerChar(c)) == LowerChar(c)
  {
  }

  /**
   * `_rule_id_to_name` keeps the length, turns every `-` and `_` into a space,
   * leaves none of either, and differs from the id with those replaced only in
   * letter case.
   */
  lemma RuleIdToNameMeaning(ruleId: string)
    ensures var name := RuleIdToName(ruleId);
            |name| == |ruleId|
            && (forall i :: 0 <= i < |ruleId| ==> (ruleId[i] == '-' || ruleId[i] == '_') ==> name[i] == ' ')
            && (forall i :: 0 <= i < |name| ==> name[i] != '-' && name[i] != '_')
            && Lower(name) == Lower(ReplaceChar(ReplaceChar(ruleId, '-', ' '), '_', ' '))
  {
    var spaced := ReplaceChar(ReplaceChar(ruleId, '-', ' '), '_', ' ');
    var name := RuleIdToName(ruleId);
    forall i | 0 <= i < |name| ensures Lower(name)[i] == Lower(spaced)[i] {
      LowerUpperChar(spaced[i]);
    }
  }

  /** Each word of the name starts with a capital: `api_key-id` is `Api Key Id`. */
  lemma RuleIdToNameExample()
    ensures RuleIdToName("api_key-id") == "Api Key Id"
  {
    var spaced := ReplaceChar(ReplaceChar("api_key-id", '-', ' '), '_', ' ');
    assert spaced == "api key id";
  }

  /** An id without a text of its own is named in the default description and help. */
  lemma DescriptionDefault(ruleId: string)
    requires ruleId !in KnownRules
    ensures Description(ruleId) == "Rule " + ruleId && Help(ruleId) == "Validation rule: " + ruleId
  {
    assert ruleId != KnownRules[0] && ruleId != KnownRules[1] && ruleId != KnownRules[2];
    assert ruleId != KnownRules[3] && ruleId != KnownRules[4] && ruleId != KnownRules[5];
  }

  /** Two fingerprints of one rule and file differ in their hashed text when their lines differ. */
  lemma FingerprintLineInjective(ruleId: string, filePath: string, a: int, b: int)
    requires FingerprintData(ruleId, filePath, a) == FingerprintData(ruleId, filePath, b)
    ensures a == b
  {
    var p := ruleId + ":" + filePath + ":";
    assert FingerprintData(ruleId, filePath, a)[|p|..] == IntToString(a);
    assert FingerprintData(ruleId, filePath, b)[|p|..] == IntToString(b);
    IntToStringInjective(a, b);
  }

  /** The fingerprint depends on the rule, the file and the line only. */
  lemma FingerprintDeterministic(f: Finding, g: Finding, sourceFile: string, digest: string -> string)
    requires RuleIdOf(f) == RuleIdOf(g) && LineOf(f) == LineOf(g)
    ensures Convert(f, sourceFile, digest).fingerprint == Convert(g, sourceFile, digest).fingerprint
  {
  }

  /**
   * A missing field takes its default: rule `unknown`, level `warning`,
   * message `Validation error`, line 1 and column 1; `properties` is there
   * iff `details` was.
   */
  lemma ConvertDefaults(f: Finding, sourceFile: string, digest: string -> string)
    ensures var x := Convert(f, sourceFile, digest);
            (f.ruleId.None? ==> x.ruleId == "unknown") && (f.ruleId.Some? ==> x.ruleId == f.ruleId.value)
            && (f.level.None? ==> x.level == "warning")
            && (f.message.None? ==> x.message == "Validation error") && (f.message.Some? ==> x.message == f.message.value)
            && (f.line.None? ==> x.startLine == 1) && (f.line.Some? ==> x.startLine == f.line.value)
            && (f.column.None? ==> x.startColumn == 1) && (f.column.Some? ==> x.startColumn == f.column.value)
            && (x.properties.Some? <==> f.details.Some?) && x.uri == sourceFile
  {
    assert Lower("warning") == "warning";
  }

  // ----- The rule catalogue -----

  predicate Mentions(results: seq<Finding>, id: string) {
    exists i :: 0 <= i < |results| && RuleIdOf(results[i]) == id
  }

  lemma MentionsSnoc(results: seq<Finding>, id: string)
    requires results != []
    ensures var n := |results| - 1;
            Mentions(results, id) <==> Mentions(results[..n], id) || RuleIdOf(results[n]) == id
  {
    var n := |results| - 1;
    if Mentions(results, id) && RuleIdOf(results[n]) != id {
      var i :| 0 <= i < |results| && RuleIdOf(results[i]) == id;
      assert results[..n][i] == results[i];
    }
    if Mentions(results[..n], id) {
      var i :| 0 <= i < n && RuleIdOf(results[..n][i]) == id;
      assert results[i] == results[..n][i];
    }
  }

  /** The catalogue has an entry for exactly the ids the results use. */
  lemma {:induction false} CatalogueIds(results: seq<Finding>, id: string)
    ensures id in Ids(Catalogue(results)) <==> Mentions(results, id)
  {
    if results != [] {
      var n := |results| - 1;
      CatalogueIds(results[..n], id);
      MentionsSnoc(results, id);
      var c := Catalogue(results[..n]);
      if RuleIdOf(results[n]) !in Ids(c) {
        assert Ids(c + [RuleFor(results[n])]) == Ids(c) + [RuleIdOf(results[n])];
      }
    }
  }

  ghost predicate DistinctIds(rules: seq<Rule>) {
    forall a, b :: 0 <= a < b < |rules| ==> rules[a].id != rules[b].id
  }

  /** The catalogue never lists an id twice. */
  lemma {:induction false} CatalogueDistinct(results: seq<Finding>)
    ensures DistinctIds(Catalogue(results))
  {
    if results != [] {
      var n := |results| - 1;
      CatalogueDistinct(results[..n]);
      var c := Catalogue(results[..n]);
      if RuleIdOf(results[n]) !in Ids(c) {
        forall a | 0 <= a < |c| ensures c[a].id != RuleIdOf(results[n]) {
          assert Ids(c)[a] == c[a].id;
        }
      }
    }
  }

  /** `x` is the entry built from the first result whose id is `x.id`. */
  ghost predicate FromFirstOccurrence(results: seq<Finding>, x: Rule) {
    exists i :: 0 <= i < |results| && x == RuleFor(results[i]) && forall j :: 0 <= j < i ==> RuleIdOf(results[j]) != x.id
  }

  /** Each entry, its level included, comes from the first result with its id. */
  lemma {:induction false} CatalogueFirst(results: seq<Finding>, x: Rule)
    requires x in Catalogue(results)
    ensures FromFirstOccurrence(results, x)
  {
    var n := |results| - 1;
    var c := Catalogue(results[..n]);
    if x in c {
      CatalogueFirst(results[..n], x);
      var i :| 0 <= i < n && x == RuleFor(results[..n][i]) && forall j :: 0 <= j < i ==> RuleIdOf(results[..n][j]) != x.id;
      assert results[i] == results[..n][i];
      assert forall j :: 0 <= j < i ==> results[j] == results[..n][j];
    } else {
      assert x == RuleFor(results[n]) && RuleIdOf(results[n]) !in Ids(c);
      forall j | 0 <= j < n ensures RuleIdOf(results[j]) != x.id {
        assert results[..n][j] == results[j];
        CatalogueIds(results[..n], x.id);
      }
    }
  }

  /**
   * The rules of the report: one entry per id the results use, none twice,
   * sorted by id, each built (level included) from the first result with its id.
   */
  lemma RulesMeaning(results: seq<Finding>)
    ensures var rules := Rules(results);
            SortedBy(rules, RuleKey) && DistinctIds(rules)
            && (forall id :: id in Ids(rules) <==> Mentions(results, id))
            && (forall x :: x in rules ==> FromFirstOccurrence(results, x))
  {
    var c := Catalogue(results);
    var rules := Rules(results);
    assert multiset(rules) == multiset(c);
    forall x | x in rules ensures x in c && FromFirstOccurrence(results, x) {
      assert x in multiset(rules);
      CatalogueFirst(results, x);
    }
    forall id ensures id in Ids(rules) <==> Mentions(results, id) {
      CatalogueIds(results, id);
      SameIds(rules, c, id);
    }
    CatalogueDistinct(results);
    SortedDistinct(rules, c);
  }

  lemma SameIds(r: seq<Rule>, c: seq<Rule>, id: string)
    requires multiset(r) == multiset(c)
    ensures id in Ids(r) <==> id in Ids(c)
  {
    if id in Ids(r) {
      var i :| 0 <= i < |r| && Ids(r)[i] == id;
      assert r[i] in multiset(c);
      var j :| 0 <= j < |c| && c[j] == r[i];
      assert Ids(c)[j] == id;
    }
    if id in Ids(c) {
      var j :| 0 <= j < |c| && Ids(c)[j] == id;
      assert c[j] in multiset(r);
      var i :| 0 <= i < |r| && r[i] == c[j];
      assert Ids(r)[i] == id;
    }
  }

  /** A permutation of a catalogue without repeated ids has none either. */
  lemma SortedDistinct(r: seq<Rule>, c: seq<Rule>)
    requires multiset(r) == multiset(c) && DistinctIds(c)
    ensures DistinctIds(r)
  {
    forall a, b | 0 <= a < b < |r| ensures r[a].id != r[b].id {
      if r[a].id == r[b].id {
        assert r[a] in multiset(c) && r[b] in multiset(c);
        var i :| 0 <= i < |c| && c[i] == r[a];
        var j :| 0 <= j < |c| && c[j] == r[b];
        assert i == j;
        CountTwo(r, a, b);
        CountOne(c, i);
      }
    }
  }

  /** An element at two positions occurs at least twice. */
  lemma CountTwo<T>(r: seq<T>, a: nat, b: nat)
    requires a < b < |r| && r[a] == r[b]
    ensures multiset(r)[r[a]] >= 2
  {
    assert r == r[..a] + [r[a]] + r[a + 1..b] + [r[b]] + r[b + 1..];
  }

  /** In a catalogue without repeated ids, every entry occurs once. */
  lemma CountOne(c: seq<Rule>, i: nat)
    requires DistinctIds(c) && i < |c|
    ensures multiset(c)[c[i]] == 1
  {
    assert c == c[..i] + [c[i]] + c[i + 1..];
    assert c[i] !in c[..i] && c[i] !in c[i + 1..];
  }

  // ----- The report -----

  /**
   * The report's results: one per input result, a permutation of the converted
   * results, sorted by `(ruleId, startLine)`, and results with equal keys keep
   * their input order (Python's sort is stable).
   */
  lemma ReportResults(toolName: string, toolVersion: string, results: seq<Finding>, sourceFile: string,
                      metricsData: Option<seq<Member>>, digest: string -> string)
    ensures var out := ReportOf(toolName, toolVersion, results, sourceFile, metricsData, digest).runs[0].results;
            var converted := Converted(results, sourceFile, digest);
            |out| == |results| && multiset(out) == multiset(converted) && SortedBy(out, ResultKey)
            && forall k :: Select(out, ResultKey, k) == Select(converted, ResultKey, k)
  {
    var converted := Converted(results, sourceFile, digest);
    forall k ensures Select(Sort(converted, ResultKey), ResultKey, k) == Select(converted, ResultKey, k) {
      SortStable(converted, ResultKey, k);
    }
  }

  /**
   * The header is SARIF 2.1.0 with the schemastore schema, one run of the
   * configured tool, and `properties.metrics` exactly when the metrics dict is
   * present and non-empty.
   */
  lemma ReportHeader(toolName: string, toolVersion: string, results: seq<Finding>, sourceFile: string,
                     metricsData: Option<seq<Member>>, digest: string -> string)
    ensures var report := ReportOf(toolName, toolVersion, results, sourceFile, metricsData, digest);
            report.version == "2.1.0" && report.schema == "https://json.schemastore.org/sarif-2.1.0.json"
            && |report.runs| == 1 && report.runs[0].toolName == toolName && report.runs[0].toolVersion == toolVersion
            && (report.runs[0].metrics.Some? <==> metricsData.Some? && metricsData.value != [])
            && (report.runs[0].metrics.Some? ==> report.runs[0].metrics == metricsData)
  {
  }

  /** The results test: one `schema-validation` error at line 5 comes out as such. */
  lemma ResultExample(digest: string -> string)
    ensures var f := Finding(Some("schema-validation"), Some("error"), Some("Invalid value"), Some(5), Some(1), None);
            var x := ReportOf("test-tool", "1.0.0", [f], "test.env", None, digest).runs[0].results;
            |x| == 1 && x[0].ruleId == "schema-validation" && x[0].level == "error"
            && x[0].message == "Invalid value" && x[0].startLine == 5
  {
    var f := Finding(Some("schema-validation"), Some("error"), Some("Invalid value"), Some(5), Some(1), None);
    var x := Convert(f, "test.env", digest);
    assert Converted([f], "test.env", digest) == [x];
    SortSingleton(x, ResultKey);
    assert x.level == "error" by {
      assert Lower("error") == "error";
    }
  }

  /** The rules test: two results with two ids give two rules with those ids. */
  lemma RulesExample()
    ensures var a := Reported("schema-validation", "error", "Error 1", 1, None);
            var b := Reported("secret-detected", "error", "Error 2", 2, None);
            var rules := Rules([a, b]);
            |rules| == 2 && "schema-validation" in Ids(rules) && "secret-detected" in Ids(rules)
  {
    var a := Reported("schema-validation", "error", "Error 1", 1, None);
    var b := Reported("secret-detected", "error", "Error 2", 2, None);
    var results := [a, b];
    TwoRuleCatalogue(a, b);
    assert Mentions(results, "schema-validation") by { assert RuleIdOf(results[0]) == "schema-validation"; }
    assert Mentions(results, "secret-detected") by { assert RuleIdOf(results[1]) == "secret-detected"; }
    RulesMeaning(results);
  }

  lemma TwoRuleCatalogue(a: Finding, b: Finding)
    requires RuleIdOf(a) != RuleIdOf(b)
    ensures |Catalogue([a, b])| == 2
  {
    assert [a, b][..1] == [a] && [a][..0] == [];
    assert Catalogue([a]) == [RuleFor(a)];
    assert Ids([RuleFor(a)]) == [RuleIdOf(a)];
  }
}
