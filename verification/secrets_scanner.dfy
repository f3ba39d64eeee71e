/**
 * The pipeline-A `SecretsScanner`: each hit of the secret-detection library
 * becomes a `secret-detected` finding, and a failure of the library is turned
 * into one `secrets-scan-error` warning instead of propagating. The library,
 * the file system and the temporary file are outside the model: a scan is
 * given as the hits it produced before it stopped and, when it failed, the
 * text of the exception.
 */
module SecretsScanner {
  import opened Base
  import opened Json
  import opened EnvParser
  import opened Findings

  /** One detected secret: its type and its 1-based line. */
  datatype Hit = Hit(secretType: string, line: int)

  /**
   * What the library did: the hits processed, in order (over every scanned
   * file), and the exception text if the scan failed after those hits.
   */
  datatype Scan = Scan(hits: seq<Hit>, failure: Option<string>)

  /** `_find_var_at_line`: the first variable, in table order, defined at `line`, else `""`. */
  function VarAtLine(env: Table, line: int): (name: string)
    ensures (exists i :: 0 <= i < |env| && env[i].line == line && name == env[i].key
                         && forall j :: 0 <= j < i ==> env[j].line != line)
         || (name == "" && forall j :: 0 <= j < |env| ==> env[j].line != line)
  {
    if env == [] then ""
    else if env[0].line == line then env[0].key
    else
      var name := VarAtLine(env[1..], line);
      assert forall j :: 1 <= j < |env| ==> env[j] == env[1..][j - 1];
      name
  }

  function HitFinding(env: Table, hit: Hit): Finding {
    var name := VarAtLine(env, hit.line);
    Reported("secret-detected", "error", "Potential " + hit.secretType + " detected in " + (if name == "" then "environment file" else name),
             hit.line, Some([Member("secret_type", Str(hit.secretType)), Member("variable", Str(name))]))
  }

  function ContentHitFinding(hit: Hit): Finding {
    Reported("secret-detected", "error", "Potential " + hit.secretType + " detected", hit.line,
             Some([Member("secret_type", Str(hit.secretType))]))
  }

  function ScanErrorFinding(error: string): Finding {
    Finding(Some("secrets-scan-error"), Some("warning"), Some("Secrets scanning encountered an error: " + error), Some(1), None, None)
  }

  /** The failure fallback: one warning after whatever was already found. */
  function Fallback(failure: Option<string>): seq<Finding> {
    if failure.Some? then [ScanErrorFinding(failure.value)] else []
  }

  function FileFindings(env: Table, scan: Scan): seq<Finding> {
    Map((hit: Hit) => HitFinding(env, hit), scan.hits) + Fallback(scan.failure)
  }

  function ContentFindings(scan: Scan): seq<Finding> {
    Map(ContentHitFinding, scan.hits) + Fallback(scan.failure)
  }

  /** `_find_var_at_line`. */
  method FindVarAtLine(envVars: Table, lineNum: int) returns (name: string)
    ensures name == VarAtLine(envVars, lineNum)
  {
    var i := 0;
    while i < |envVars|
      invariant i <= |envVars|
      invariant VarAtLine(envVars, lineNum) == VarAtLine(envVars[i..], lineNum)
    {
      if envVars[i].line == lineNum {
        return envVars[i].key;
      }
      assert envVars[i..][1..] == envVars[i + 1..];
      i := i + 1;
    }
    return "";
  }

  /** `scan_env_file`, given what the library did. */
  method ScanEnvFile(scan: Scan, envVars: Table) returns (results: seq<Finding>)
    ensures results == FileFindings(envVars, scan)
  {
    results := [];
    var i := 0;
    while i < |scan.hits|
      invariant i <= |scan.hits|
      invariant |results| == i && forall j :: 0 <= j < i ==> results[j] == HitFinding(envVars, scan.hits[j])
    {
      var secret := scan.hits[i];
      var varName := FindVarAtLine(envVars, secret.line);
      results := results + [Reported("secret-detected", "error",
                                     "Potential " + secret.secretType + " detected in " + (if varName == "" then "environment file" else varName),
                                     secret.line,
                                     Some([Member("secret_type", Str(secret.secretType)), Member("variable", Str(varName))]))];
      i := i + 1;
    }
    if scan.failure.Some? {
      results := results + [ScanErrorFinding(scan.failure.value)];
    }
  }

  /** `scan_env_content`, given what the library did. */
  method ScanEnvContent(scan: Scan) returns (results: seq<Finding>)
    ensures results == ContentFindings(scan)
  {
    results := [];
    var i := 0;
    while i < |scan.hits|
      invariant i <= |scan.hits|
      invariant |results| == i && forall j :: 0 <= j < i ==> results[j] == ContentHitFinding(scan.hits[j])
    {
      var secret := scan.hits[i];
      results := results + [ContentHitFinding(secret)];
      i := i + 1;
    }
    if scan.failure.Some? {
      results := results + [ScanErrorFinding(scan.failure.value)];
    }
  }

  // ----- What the findings mean -----

  /** No variable at the line: `_find_var_at_line` gives `""`. */
  lemma NoVarAtLine(env: Table, line: int)
    requires forall f :: f in env ==> f.line != line
    ensures VarAtLine(env, line) == ""
  {
    forall j | 0 <= j < |env| ensures env[j].line != line {
      assert env[j] in env;
    }
  }

  /**
   * The finding for one hit: a `secret-detected` error at the hit's line,
   * naming the variable defined there, or the environment file when there is
   * none; the details carry the secret type and the variable.
   */
  lemma HitFindingMeaning(env: Table, hit: Hit)
    ensures var x := HitFinding(env, hit);
            x.ruleId == Some("secret-detected") && x.level == Some("error") && x.line == Some(hit.line)
            && x.details.Some? && Names(x.details.value) == ["secret_type", "variable"]
            && Get(x.details.value, "secret_type") == Some(Str(hit.secretType))
            && Get(x.details.value, "variable") == Some(Str(VarAtLine(env, hit.line)))
            && (VarAtLine(env, hit.line) != "" ==> x.message == Some("Potential " + hit.secretType + " detected in " + VarAtLine(env, hit.line)))
            && ((forall f :: f in env ==> f.line != hit.line) ==>
                  x.message == Some("Potential " + hit.secretType + " detected in " + "environment file"))
  {
    if forall f :: f in env ==> f.line != hit.line {
      NoVarAtLine(env, hit.line);
    }
  }

  /**
   * The failure fallback: the findings made before the failure stay, and
   * exactly one `secrets-scan-error` warning at line 1 follows them; without
   * a failure there is none.
   */
  lemma FallbackMeaning(env: Table, scan: Scan)
    ensures var r := FileFindings(env, scan);
            var n := |scan.hits|;
            |r| == n + (if scan.failure.Some? then 1 else 0)
            && (forall i :: 0 <= i < n ==> r[i] == HitFinding(env, scan.hits[i]) && r[i].ruleId == Some("secret-detected"))
            && (scan.failure.Some? ==> r[n].ruleId == Some("secrets-scan-error") && r[n].level == Some("warning") && r[n].line == Some(1))
  {
  }

  /** A content-scan finding carries only the secret type in its details. */
  lemma ContentHitMeaning(scan: Scan, i: nat)
    requires i < |scan.hits|
    ensures var x := ContentFindings(scan)[i];
            x.ruleId == Some("secret-detected") && x.line == Some(scan.hits[i].line)
            && x.details == Some([Member("secret_type", Str(scan.hits[i].secretType))])
  {
  }

  /** The test of `_find_var_at_line`. */
  lemma FindVarExample()
    ensures var env := [Fact("VAR1", "value1", 1), Fact("VAR2", "value2", 3), Fact("VAR3", "value3", 5)];
            VarAtLine(env, 3) == "VAR2" && VarAtLine(env, 5) == "VAR3" && VarAtLine(env, 99) == ""
  {
  }
}
