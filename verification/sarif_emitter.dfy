/**
 * The pipeline-B SARIF emitter (`emit_sarif` in
 * `src/env_integrity_check/sarif_reporter.py`): every item of every section
 * of a findings dictionary becomes one result, the results are sorted by
 * rule, file, line and message, and the document has one run. Python raises
 * `KeyError` when an item has no `message`; here that is the `Failure` case.
 * Writing the document out as JSON is outside the model.
 */
module SarifEmitter {
  import opened Base
  import opened Ordering
  import opened EnvSchema
  import opened SnippetSanitizer

  const SarifSchemaUri := "https://json.schemastore.org/sarif-2.1.0.json"
  const SrcRoot := "%SRCROOT%"
  const EmitterName := "env-integrity-check"
  /** The rule of an item without `type`. */
  const DefaultRule := "ENV"
  /** The rule the snippet sanitizer is told about. */
  const SnippetRule := "ENV003"

  /** One result: rule, level, message text, location and the region's snippet. */
  datatype Emitted = Emitted(ruleId: string, level: string, message: string, uri: string, uriBaseId: string,
                             startLine: int, snippet: string)

  /** The document: version, schema, the single run's tool name and its results. */
  datatype Document = Document(version: string, schema: string, toolName: string, results: seq<Emitted>)

  /** Every item of every section has a `message`. */
  predicate AllHaveMessages(findings: seq<Section>) {
    forall i, j :: 0 <= i < |findings| && 0 <= j < |findings[i].items| ==> findings[i].items[j].message.Some?
  }

  /** The result for one item of the section `level`. */
  function ResultOf(level: string, item: Item, uri: string): Emitted {
    var message := item.message.GetOr("");
    Emitted(item.ruleType.GetOr(DefaultRule), level, message, uri, SrcRoot, item.line.GetOr(1),
            SanitizeForSarif(item.key.GetOr(""), message, SnippetRule))
  }

  function SectionResults(section: Section, uri: string): (r: seq<Emitted>)
    ensures |r| == |section.items|
    ensures forall j :: 0 <= j < |r| ==> r[j] == ResultOf(section.name, section.items[j], uri)
  {
    Map((item: Item) => ResultOf(section.name, item, uri), section.items)
  }

  function EachSection(findings: seq<Section>, uri: string): (r: seq<seq<Emitted>>)
    ensures |r| == |findings| && forall i :: 0 <= i < |findings| ==> r[i] == SectionResults(findings[i], uri)
  {
    Map((section: Section) => SectionResults(section, uri), findings)
  }

  /** The results in section order, then item order, before sorting. */
  function Collected(findings: seq<Section>, uri: string): seq<Emitted> {
    Flatten(EachSection(findings, uri))
  }

  /** The sort key: `(ruleId, uri, startLine, message text)`. */
  function EmitKey(r: Emitted): Key {
    [S(r.ruleId), S(r.uri), N(r.startLine), S(r.message)]
  }

  /** What `emit_sarif` returns, or the failure it raises. */
  function EmitOf(findings: seq<Section>, uri: string): Result<Document, string> {
    if AllHaveMessages(findings) then
      Ok(Document("2.1.0", SarifSchemaUri, EmitterName, Sort(Collected(findings, uri), EmitKey)))
    else
      Err("message")
  }

  /** `emit_sarif` (its `policy` argument is unused). */
  method EmitSarif(findings: seq<Section>, filePath: string) returns (r: Result<Document, string>)
    ensures r == EmitOf(findings, filePath)
  {
    var results: seq<Emitted> := [];
    ghost var each := EachSection(findings, filePath);
    var i := 0;
    while i < |findings|
      invariant i <= |findings|
      invariant results == Flatten(each[..i])
      invariant forall p, j :: 0 <= p < i && 0 <= j < |findings[p].items| ==> findings[p].items[j].message.Some?
    {
      FlattenPrefix(each, i);
      var section := findings[i];
      var converted, missing := ConvertSection(section, filePath);
      if missing < |section.items| {
        return Err("message");
      }
      results := results + converted;
      i := i + 1;
    }
    assert each[..i] == each;
    results := Sort(results, EmitKey);
    r := Ok(Document("2.1.0", SarifSchemaUri, EmitterName, results));
  }

  /**
   * The loop over one section's items: the results so far and the position
   * of the first item without a message (`|items|` when there is none).
   */
  method ConvertSection(section: Section, filePath: string) returns (results: seq<Emitted>, missing: nat)
    ensures missing <= |section.items|
    ensures forall j :: 0 <= j < missing ==> section.items[j].message.Some?
    ensures missing < |section.items| ==> section.items[missing].message.None?
    ensures missing == |section.items| ==> results == SectionResults(section, filePath)
  {
    results := [];
    var j := 0;
    while j < |section.items|
      invariant j <= |section.items|
      invariant forall q :: 0 <= q < j ==> section.items[q].message.Some?
      invariant |results| == j && forall q :: 0 <= q < j ==> results[q] == ResultOf(section.name, section.items[q], filePath)
    {
      var item := section.items[j];
      if item.message.None? {
        return results, j;
      }
      results := results + [Emitted(item.ruleType.GetOr(DefaultRule), section.name, item.message.value, filePath,
                                    SrcRoot, item.line.GetOr(1),
                                    SanitizeForSarif(item.key.GetOr(""), item.message.GetOr(""), SnippetRule))];
      j := j + 1;
    }
    missing := j;
  }

  // ----- What the document holds -----

  /** The number of items over all sections. */
  function TotalItems(findings: seq<Section>): nat {
    if findings == [] then 0 else TotalItems(findings[..|findings| - 1]) + |findings[|findings| - 1].items|
  }

  /** One result per item. */
  lemma {:induction false} CollectedCount(findings: seq<Section>, uri: string)
    ensures |Collected(findings, uri)| == TotalItems(findings)
  {
    if findings != [] {
      var n := |findings| - 1;
      CollectedCount(findings[..n], uri);
      assert EachSection(findings, uri)[..n] == EachSection(findings[..n], uri);
    }
  }

  /** The results before sorting are exactly one per (section, item), made by `ResultOf`. */
  lemma CollectedMembers(findings: seq<Section>, uri: string, x: Emitted)
    ensures x in Collected(findings, uri) <==>
            exists i, j :: 0 <= i < |findings| && 0 <= j < |findings[i].items|
                           && x == ResultOf(findings[i].name, findings[i].items[j], uri)
  {
    var each := EachSection(findings, uri);
    FlattenMember(each, x);
    if i :| 0 <= i < |each| && x in each[i] {
      var j :| 0 <= j < |each[i]| && each[i][j] == x;
    }
    if i, j :| 0 <= i < |findings| && 0 <= j < |findings[i].items| && x == ResultOf(findings[i].name, findings[i].items[j], uri) {
      assert each[i][j] == x;
    }
  }

  /**
   * The emitter fails exactly when some item has no message. Otherwise the
   * document is SARIF 2.1.0 with one run of `env-integrity-check`, holding one
   * result per item, sorted by `(ruleId, uri, startLine, message)`; it is a
   * permutation of the collected results, and results with equal keys keep
   * their section-then-item order.
   */
  lemma EmitMeaning(findings: seq<Section>, uri: string)
    ensures EmitOf(findings, uri).Err? <==>
            exists i, j :: 0 <= i < |findings| && 0 <= j < |findings[i].items| && findings[i].items[j].message.None?
    ensures EmitOf(findings, uri).Ok? ==>
            var d := EmitOf(findings, uri).value;
            d.version == "2.1.0" && d.schema == SarifSchemaUri && d.toolName == EmitterName
            && |d.results| == TotalItems(findings)
            && multiset(d.results) == multiset(Collected(findings, uri))
            && SortedBy(d.results, EmitKey)
            && forall k :: Select(d.results, EmitKey, k) == Select(Collected(findings, uri), EmitKey, k)
  {
    CollectedCount(findings, uri);
    forall k ensures Select(Sort(Collected(findings, uri), EmitKey), EmitKey, k) == Select(Collected(findings, uri), EmitKey, k) {
      SortStable(Collected(findings, uri), EmitKey, k);
    }
  }

  /**
   * The order is fully determined: any arrangement that is sorted by
   * `(ruleId, uri, startLine, message)` and keeps results with equal keys in
   * section-then-item order is the emitted one, so two runs over the same
   * findings produce the same document.
   */
  lemma EmitCanonical(findings: seq<Section>, uri: string, r: seq<Emitted>)
    requires EmitOf(findings, uri).Ok?
    requires SortedBy(r, EmitKey)
    requires forall k :: Select(r, EmitKey, k) == Select(Collected(findings, uri), EmitKey, k)
    ensures r == EmitOf(findings, uri).value.results
  {
    SortCanonical(r, Collected(findings, uri), EmitKey);
  }

  /**
   * Every result of the document comes from one item of one section: its
   * rule is the item's `type` or `ENV`, its level is the section's name, its
   * line is the item's or 1, its location is the given path under
   * `%SRCROOT%`, and its snippet is the sanitized message under the item's
   * key (empty when absent) for rule `ENV003`.
   */
  lemma EmittedFields(findings: seq<Section>, uri: string, x: Emitted)
    requires EmitOf(findings, uri).Ok? && x in EmitOf(findings, uri).value.results
    ensures exists i, j :: 0 <= i < |findings| && 0 <= j < |findings[i].items| &&
              var item := findings[i].items[j];
              x.ruleId == item.ruleType.GetOr(DefaultRule) && x.level == findings[i].name
              && item.message == Some(x.message) && x.startLine == item.line.GetOr(1)
              && x.uri == uri && x.uriBaseId == SrcRoot
              && x.snippet == SanitizeForSarif(item.key.GetOr(""), x.message, SnippetRule)
  {
    var c := Collected(findings, uri);
    assert x in multiset(Sort(c, EmitKey));
    assert x in c;
    CollectedMembers(findings, uri, x);
  }

  /** No snippet shows more than 103 characters, and none shows a value under a sensitive key. */
  lemma SnippetsSafe(findings: seq<Section>, uri: string, x: Emitted)
    requires EmitOf(findings, uri).Ok? && x in EmitOf(findings, uri).value.results
    ensures |x.snippet| <= MaxSnippet + 3
    ensures forall i, j :: 0 <= i < |findings| && 0 <= j < |findings[i].items|
              && findings[i].items[j].key.Some? && IsSensitiveKey(findings[i].items[j].key.value)
              && x == ResultOf(findings[i].name, findings[i].items[j], uri)
              ==> x.snippet == RedactedMarker
  {
    EmittedFields(findings, uri, x);
  }

  /** What `validate_env` produces always has messages, so it is emitted, one result per error and warning. */
  lemma ValidateEnvEmits(lines: seq<string>, validate: map<string, string> -> seq<SchemaIntrospect.EngineError>, uri: string)
    ensures var f := Findings(lines, validate);
            EmitOf(f, uri).Ok? && |EmitOf(f, uri).value.results| == |f[0].items| + |f[1].items|
  {
    var f := Findings(lines, validate);
    FindingsShape(lines, validate);
    assert AllHaveMessages(f) by {
      forall i, j | 0 <= i < |f| && 0 <= j < |f[i].items| ensures f[i].items[j].message.Some? {
        if i == 1 {
          assert f[1].items[j] in f[1].items;
        }
      }
    }
    CollectedCount(f, uri);
    TwoSections(f);
  }

  lemma TwoSections(f: seq<Section>)
    requires |f| == 2
    ensures TotalItems(f) == |f[0].items| + |f[1].items|
  {
    assert f[..1][..0] == [] && f[..1][0] == f[0];
    assert TotalItems(f[..1]) == |f[0].items|;
  }

  /**
   * The stability test: one placeholder warning for `DATABASE_URL` at line 1
   * gives one result with the default rule, the section name as level, and
   * the message itself as snippet.
   */
  lemma StabilityExample(uri: string)
    ensures var item := Item(Some("DATABASE_URL"), Some("Contains placeholder"), None, Some(1));
            var f := [Section("warnings", [item]), Section("errors", [])];
            var d := EmitOf(f, uri);
            d.Ok? && d.value.results == [Emitted("ENV", "warnings", "Contains placeholder", uri, SrcRoot, 1, "Contains placeholder")]
  {
    var item := Item(Some("DATABASE_URL"), Some("Contains placeholder"), None, Some(1));
    var f := [Section("warnings", [item]), Section("errors", [])];
    DatabaseUrlNotSensitive();
    var x := ResultOf("warnings", item, uri);
    assert x == Emitted("ENV", "warnings", "Contains placeholder", uri, SrcRoot, 1, "Contains placeholder");
    var each := EachSection(f, uri);
    assert |each[0]| == 1 && each[0][0] == x && |each[1]| == 0;
    assert each[0] == [x] && each[1] == [];
    assert each == [[x], []];
    assert Flatten(each[..1]) == [x] by {
      assert each[..1][..0] == [];
      assert Flatten(each[..1]) == Flatten(each[..1][..0]) + [x];
    }
    assert Collected(f, uri) == Flatten(each[..1]) + [];
    SortSingleton(x, EmitKey);
  }
}
