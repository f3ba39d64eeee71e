/**
 * The pipeline-A `Metrics` collector: a mutable record of counters about one
 * validation run. Each `record_*` call overwrites one counter; `to_dict`
 * hands out a copy of the record. The creation timestamp comes from the
 * clock, which is outside the model: it is a constructor parameter.
 */
module Metrics {
  import opened Base
  import opened Json

  /** The keys of the metrics dictionary, in insertion order. */
  const MetricNames: seq<string> :=
    ["timestamp", "file_size_bytes", "env_var_count", "schema_violations",
     "secrets_found", "policy_violations", "policy_loaded"]

  /** The metrics dictionary for the given counter values, keys in insertion order. */
  function MetricsDict(timestamp: string, fileSize: int, envVars: int, schema: int, secrets: int, policy: int,
                       loaded: bool): seq<Member>
  {
    [Member("timestamp", Str(timestamp)),
     Member("file_size_bytes", Num(fileSize)),
     Member("env_var_count", Num(envVars)),
     Member("schema_violations", Num(schema)),
     Member("secrets_found", Num(secrets)),
     Member("policy_violations", Num(policy)),
     Member("policy_loaded", Bool(loaded))]
  }

  class Metrics {
    var timestamp: string
    var fileSizeBytes: int
    var envVarCount: int
    var schemaViolations: int
    var secretsFound: int
    var policyViolations: int
    var policyLoaded: bool

    /** A fresh collector: every counter 0, no policy loaded, stamped with `now`. */
    constructor(now: string)
      ensures timestamp == now
      ensures fileSizeBytes == 0 && envVarCount == 0
      ensures schemaViolations == 0 && secretsFound == 0 && policyViolations == 0
      ensures !policyLoaded
    {
      timestamp := now;
      fileSizeBytes := 0;
      envVarCount := 0;
      schemaViolations := 0;
      secretsFound := 0;
      policyViolations := 0;
      policyLoaded := false;
    }

    /** `record_file_size`: overwrites the file size; nothing else changes. */
    method RecordFileSize(size: int)
      modifies this
      ensures fileSizeBytes == size
      ensures timestamp == old(timestamp) && envVarCount == old(envVarCount)
      ensures schemaViolations == old(schemaViolations) && secretsFound == old(secretsFound)
      ensures policyViolations == old(policyViolations) && policyLoaded == old(policyLoaded)
    {
      fileSizeBytes := size;
    }

    /** `record_env_var_count`: overwrites the variable count; nothing else changes. */
    method RecordEnvVarCount(count: int)
      modifies this
      ensures envVarCount == count
      ensures timestamp == old(timestamp) && fileSizeBytes == old(fileSizeBytes)
      ensures schemaViolations == old(schemaViolations) && secretsFound == old(secretsFound)
      ensures policyViolations == old(policyViolations) && policyLoaded == old(policyLoaded)
    {
      envVarCount := count;
    }

    /** `record_schema_violations`: overwrites the schema count; nothing else changes. */
    method RecordSchemaViolations(count: int)
      modifies this
      ensures schemaViolations == count
      ensures timestamp == old(timestamp) && fileSizeBytes == old(fileSizeBytes)
      ensures envVarCount == old(envVarCount) && secretsFound == old(secretsFound)
      ensures policyViolations == old(policyViolations) && policyLoaded == old(policyLoaded)
    {
      schemaViolations := count;
    }

    /** `record_secrets_found`: overwrites the secrets count; nothing else changes. */
    method RecordSecretsFound(count: int)
      modifies this
      ensures secretsFound == count
      ensures timestamp == old(timestamp) && fileSizeBytes == old(fileSizeBytes)
      ensures envVarCount == old(envVarCount) && schemaViolations == old(schemaViolations)
      ensures policyViolations == old(policyViolations) && policyLoaded == old(policyLoaded)
    {
      secretsFound := count;
    }

    /** `record_policy_violations`: overwrites the policy count; nothing else changes. */
    method RecordPolicyViolations(count: int)
      modifies this
      ensures policyViolations == count
      ensures timestamp == old(timestamp) && fileSizeBytes == old(fileSizeBytes)
      ensures envVarCount == old(envVarCount) && schemaViolations == old(schemaViolations)
      ensures secretsFound == old(secretsFound) && policyLoaded == old(policyLoaded)
    {
      policyViolations := count;
    }

    /** `record_policy_loaded`: the flag becomes true whatever it was; nothing else changes. */
    method RecordPolicyLoaded()
      modifies this
      ensures policyLoaded
      ensures timestamp == old(timestamp) && fileSizeBytes == old(fileSizeBytes)
      ensures envVarCount == old(envVarCount) && schemaViolations == old(schemaViolations)
      ensures secretsFound == old(secretsFound) && policyViolations == old(policyViolations)
    {
      policyLoaded := true;
    }

    /** The record as a dictionary. */
    function Dict(): seq<Member>
      reads this
    {
      MetricsDict(timestamp, fileSizeBytes, envVarCount, schemaViolations, secretsFound, policyViolations, policyLoaded)
    }

    /**
     * `to_dict`: a copy of the record. The result is a value, so later
     * `record_*` calls leave it as it was.
     */
    method ToDict() returns (d: seq<Member>)
      ensures d == Dict()
      ensures Names(d) == MetricNames
    {
      d := Dict();
    }

    /** `get_total_violations`. */
    function TotalViolations(): int
      reads this
    {
      schemaViolations + secretsFound + policyViolations
    }
  }

  /**
   * Reading the dictionary at each of its keys gives back the counter it was
   * built from.
   */
  lemma DictFields(t: string, f: int, e: int, s: int, k: int, p: int, l: bool)
    ensures Get(MetricsDict(t, f, e, s, k, p, l), "timestamp") == Some(Str(t))
    ensures Get(MetricsDict(t, f, e, s, k, p, l), "file_size_bytes") == Some(Num(f))
    ensures Get(MetricsDict(t, f, e, s, k, p, l), "env_var_count") == Some(Num(e))
    ensures Get(MetricsDict(t, f, e, s, k, p, l), "schema_violations") == Some(Num(s))
    ensures Get(MetricsDict(t, f, e, s, k, p, l), "secrets_found") == Some(Num(k))
    ensures Get(MetricsDict(t, f, e, s, k, p, l), "policy_violations") == Some(Num(p))
    ensures Get(MetricsDict(t, f, e, s, k, p, l), "policy_loaded") == Some(Bool(l))
  {
    SizeFields(t, f, e, s, k, p, l);
    ViolationFields(t, f, e, s, k, p, l);
    LoadedField(t, f, e, s, k, p, l);
  }

  lemma LoadedField(t: string, f: int, e: int, s: int, k: int, p: int, l: bool)
    ensures Get(MetricsDict(t, f, e, s, k, p, l), "policy_loaded") == Some(Bool(l))
  {
    assert "policy_loaded"[0] != "env_var_count"[0] && "policy_loaded"[0] != "secrets_found"[0];
    GetAt(MetricsDict(t, f, e, s, k, p, l), 6, "policy_loaded");
  }

  lemma SizeFields(t: string, f: int, e: int, s: int, k: int, p: int, l: bool)
    ensures var d := MetricsDict(t, f, e, s, k, p, l);
            Get(d, "timestamp") == Some(Str(t)) && Get(d, "file_size_bytes") == Some(Num(f))
            && Get(d, "env_var_count") == Some(Num(e))
  {
    var d := MetricsDict(t, f, e, s, k, p, l);
    GetAt(d, 0, "timestamp");
    GetAt(d, 1, "file_size_bytes");
    GetAt(d, 2, "env_var_count");
  }

  lemma ViolationFields(t: string, f: int, e: int, s: int, k: int, p: int, l: bool)
    ensures var d := MetricsDict(t, f, e, s, k, p, l);
            Get(d, "schema_violations") == Some(Num(s)) && Get(d, "secrets_found") == Some(Num(k))
            && Get(d, "policy_violations") == Some(Num(p))
  {
    var d := MetricsDict(t, f, e, s, k, p, l);
    assert "secrets_found"[0] != "env_var_count"[0];
    GetAt(d, 3, "schema_violations");
    GetAt(d, 4, "secrets_found");
    PolicyField(t, f, e, s, k, p, l);
  }

  lemma PolicyField(t: string, f: int, e: int, s: int, k: int, p: int, l: bool)
    ensures Get(MetricsDict(t, f, e, s, k, p, l), "policy_violations") == Some(Num(p))
  {
    assert "policy_violations"[0] != "schema_violations"[0];
    GetAt(MetricsDict(t, f, e, s, k, p, l), 5, "policy_violations");
  }

  /**
   * The total is the sum of the three violation counters as the dictionary
   * reports them; the file size and the variable count do not enter it.
   */
  lemma TotalViolationsMeaning(m: Metrics, schema: int, secrets: int, policy: int)
    requires Get(m.Dict(), "schema_violations") == Some(Num(schema))
    requires Get(m.Dict(), "secrets_found") == Some(Num(secrets))
    requires Get(m.Dict(), "policy_violations") == Some(Num(policy))
    ensures m.TotalViolations() == schema + secrets + policy
  {
    DictFields(m.timestamp, m.fileSizeBytes, m.envVarCount, m.schemaViolations, m.secretsFound, m.policyViolations, m.policyLoaded);
  }

  /**
   * The initialisation test: a fresh collector reports zeros, no policy
   * and a timestamp, and no violations in total.
   */
  method FreshExample(now: string) returns (d: seq<Member>, total: int)
    ensures Get(d, "file_size_bytes") == Some(Num(0)) && Get(d, "env_var_count") == Some(Num(0))
    ensures Get(d, "schema_violations") == Some(Num(0)) && Get(d, "secrets_found") == Some(Num(0))
    ensures Get(d, "policy_violations") == Some(Num(0)) && Get(d, "policy_loaded") == Some(Bool(false))
    ensures HasName(d, "timestamp")
    ensures total == 0
  {
    var m := new Metrics(now);
    d := m.ToDict();
    DictFields(m.timestamp, m.fileSizeBytes, m.envVarCount, m.schemaViolations, m.secretsFound, m.policyViolations, m.policyLoaded);
    total := m.TotalViolations();
  }

  /**
   * The recording and total tests: every counter reads back what was last
   * recorded, the flag stays set when recorded twice, the total is 2 + 1 + 3,
   * and a dictionary taken earlier keeps its old values.
   */
  method RecordingExample(now: string) returns (early: seq<Member>, d: seq<Member>, total: int)
    ensures Get(early, "file_size_bytes") == Some(Num(512)) && Get(early, "env_var_count") == Some(Num(5))
    ensures Get(d, "file_size_bytes") == Some(Num(1024)) && Get(d, "env_var_count") == Some(Num(10))
    ensures Get(d, "schema_violations") == Some(Num(2)) && Get(d, "secrets_found") == Some(Num(1))
    ensures Get(d, "policy_violations") == Some(Num(3)) && Get(d, "policy_loaded") == Some(Bool(true))
    ensures total == 6
  {
    var m := new Metrics(now);
    m.RecordFileSize(512);
    m.RecordEnvVarCount(5);
    early := m.ToDict();
    DictFields(m.timestamp, m.fileSizeBytes, m.envVarCount, m.schemaViolations, m.secretsFound, m.policyViolations, m.policyLoaded);
    m.RecordFileSize(1024);
    m.RecordEnvVarCount(10);
    m.RecordSchemaViolations(2);
    m.RecordSecretsFound(1);
    m.RecordPolicyViolations(3);
    m.RecordPolicyLoaded();
    m.RecordPolicyLoaded();
    d := m.ToDict();
    DictFields(m.timestamp, m.fileSizeBytes, m.envVarCount, m.schemaViolations, m.secretsFound, m.policyViolations, m.policyLoaded);
    total := m.TotalViolations();
  }
}
