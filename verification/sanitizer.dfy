/**
 * The pipeline-A `Sanitizer`: it redacts values under sensitive keys in a
 * result's `details`, rewrites `KEY=value` text in messages and strings, and
 * redacts sensitive entries of an env-var table. The redaction text is fixed
 * when the object is built.
 */
module Sanitizer {
  import opened Base
  import opened Json
  import opened Findings
  import opened SensitiveText

  /** What a value under a sensitive key becomes: a non-empty string, a dict or a list is replaced. */
  function RedactSensitive(red: string, v: Value): Value {
    if (v.Str? && v.s != "") || v.Obj? || v.Arr? then Str(red) else v
  }

  /** What a value under a non-sensitive key, or a list item, becomes. */
  function Clean(red: string, v: Value): Value
    decreases v
  {
    match v
    case Obj(ms) => Obj(CleanMembers(red, ms))
    case Arr(items) => Arr(CleanItems(red, items))
    case Str(s) => Str(SanitizeText(red, s))
    case _ => v
  }

  /** One entry of `_sanitize_dict`'s output. */
  function CleanEntry(red: string, m: Member): Member
    decreases m
  {
    Member(m.name, if IsSensitiveKey(m.name) then RedactSensitive(red, m.value) else Clean(red, m.value))
  }

  /** `_sanitize_dict`, entry by entry in order. */
  function CleanMembers(red: string, ms: seq<Member>): seq<Member>
    decreases ms
  {
    if ms == [] then [] else CleanMembers(red, ms[..|ms| - 1]) + [CleanEntry(red, ms[|ms| - 1])]
  }

  /** `_sanitize_list`, item by item in order. */
  function CleanItems(red: string, items: seq<Value>): seq<Value>
    decreases items
  {
    if items == [] then [] else CleanItems(red, items[..|items| - 1]) + [Clean(red, items[|items| - 1])]
  }

  /** `sanitize_result`: a copy in which only `message` and `details` are rewritten. */
  function SanitizedResult(red: string, f: Finding): Finding {
    f.(message := if f.message.Some? then Some(SanitizeText(red, f.message.value)) else None,
       details := if f.details.Some? then Some(CleanMembers(red, f.details.value)) else None)
  }

  /** One entry of `sanitize_env_vars`'s output. */
  function EnvEntry(red: string, m: Member): Member {
    if !IsSensitiveKey(m.name) then m
    else if m.value.Obj? && HasName(m.value.members, "value") then Member(m.name, Obj(Put(m.value.members, "value", Str(red))))
    else Member(m.name, Str(red))
  }

  function SanitizedEnv(red: string, env: seq<Member>): (r: seq<Member>)
    ensures |r| == |env| && forall i :: 0 <= i < |env| ==> r[i] == EnvEntry(red, env[i])
  {
    seq(|env|, i requires 0 <= i < |env| => EnvEntry(red, env[i]))
  }

  lemma CleanMembersPrefix(red: string, ms: seq<Member>, n: nat)
    requires n < |ms|
    ensures CleanMembers(red, ms[..n + 1]) == CleanMembers(red, ms[..n]) + [CleanEntry(red, ms[n])]
  {
    assert ms[..n + 1][..n] == ms[..n];
  }

  lemma CleanItemsPrefix(red: string, items: seq<Value>, n: nat)
    requires n < |items|
    ensures CleanItems(red, items[..n + 1]) == CleanItems(red, items[..n]) + [Clean(red, items[n])]
  {
    assert items[..n + 1][..n] == items[..n];
  }

  class Sanitizer {
    const redactionText: string

    constructor(redactionText: string := "***REDACTED***")
      ensures this.redactionText == redactionText
    {
      this.redactionText := redactionText;
    }

    /** `sanitize_result`. */
    method SanitizeResult(result: Finding) returns (sanitized: Finding)
      ensures sanitized == SanitizedResult(redactionText, result)
    {
      sanitized := result;
      if result.message.Some? {
        sanitized := sanitized.(message := Some(SanitizeText(redactionText, result.message.value)));
      }
      if result.details.Some? {
        var details := SanitizeDict(result.details.value);
        sanitized := sanitized.(details := Some(details));
      }
    }

    /** `_sanitize_dict`. */
    method SanitizeDict(data: seq<Member>) returns (sanitized: seq<Member>)
      ensures sanitized == CleanMembers(redactionText, data)
      decreases data, 1
    {
      sanitized := [];
      var i := 0;
      while i < |data|
        invariant i <= |data|
        invariant sanitized == CleanMembers(redactionText, data[..i])
      {
        CleanMembersPrefix(redactionText, data, i);
        var key, value := data[i].name, data[i].value;
        var out: Value;
        if IsSensitiveKey(key) {
          if (value.Str? && value.s != "") || value.Obj? || value.Arr? {
            out := Str(redactionText);
          } else {
            out := value;
          }
        } else {
          out := SanitizeValue(value);
        }
        sanitized := sanitized + [Member(key, out)];
        i := i + 1;
      }
      assert data[..i] == data;
    }

    /** `_sanitize_list`. */
    method SanitizeList(data: seq<Value>) returns (sanitized: seq<Value>)
      ensures sanitized == CleanItems(redactionText, data)
      decreases data, 1
    {
      sanitized := [];
      var i := 0;
      while i < |data|
        invariant i <= |data|
        invariant sanitized == CleanItems(redactionText, data[..i])
      {
        CleanItemsPrefix(redactionText, data, i);
        var out := SanitizeValue(data[i]);
        sanitized := sanitized + [out];
        i := i + 1;
      }
      assert data[..i] == data;
    }

    /** The type dispatch both loops share: dicts and lists recurse, strings are rewritten. */
    method SanitizeValue(value: Value) returns (out: Value)
      ensures out == Clean(redactionText, value)
      decreases value, 0
    {
      match value {
        case Obj(ms) =>
          var inner := SanitizeDict(ms);
          out := Obj(inner);
        case Arr(items) =>
          var inner := SanitizeList(items);
          out := Arr(inner);
        case Str(s) =>
          out := Str(SanitizeText(redactionText, s));
        case _ =>
          out := value;
      }
    }

    /** `sanitize_env_vars`. */
    method SanitizeEnvVars(envVars: seq<Member>) returns (sanitized: seq<Member>)
      ensures sanitized == SanitizedEnv(redactionText, envVars)
    {
      sanitized := [];
      var i := 0;
      while i < |envVars|
        invariant i <= |envVars|
        invariant |sanitized| == i && forall j :: 0 <= j < i ==> sanitized[j] == EnvEntry(redactionText, envVars[j])
      {
        var key, value := envVars[i].name, envVars[i].value;
        if IsSensitiveKey(key) {
          if value.Obj? && HasName(value.members, "value") {
            sanitized := sanitized + [Member(key, Obj(Put(value.members, "value", Str(redactionText))))];
          } else {
            sanitized := sanitized + [Member(key, Str(redactionText))];
          }
        } else {
          sanitized := sanitized + [envVars[i]];
        }
        i := i + 1;
      }
    }
  }

  // ----- What sanitising preserves and what it guarantees -----

  /** `_sanitize_dict` keeps every key, in order, and rewrites each value by its key's rule. */
  lemma {:induction false} CleanMembersEntries(red: string, ms: seq<Member>)
    ensures |CleanMembers(red, ms)| == |ms|
    ensures forall i :: 0 <= i < |ms| ==> CleanMembers(red, ms)[i] == CleanEntry(red, ms[i])
  {
    if ms != [] {
      var n := |ms| - 1;
      CleanMembersEntries(red, ms[..n]);
      assert forall i :: 0 <= i < n ==> ms[..n][i] == ms[i];
    }
  }

  /** `_sanitize_list` keeps the length and rewrites item by item. */
  lemma {:induction false} CleanItemsEntries(red: string, items: seq<Value>)
    ensures |CleanItems(red, items)| == |items|
    ensures forall i :: 0 <= i < |items| ==> CleanItems(red, items)[i] == Clean(red, items[i])
  {
    if items != [] {
      var n := |items| - 1;
      CleanItemsEntries(red, items[..n]);
      assert forall i :: 0 <= i < n ==> items[..n][i] == items[i];
    }
  }

  /** The output of `_sanitize_dict` has exactly the input's keys, in the input's order. */
  lemma CleanMembersKeys(red: string, ms: seq<Member>)
    ensures Names(CleanMembers(red, ms)) == Names(ms)
  {
    CleanMembersEntries(red, ms);
  }

  /** A value that may stay under a sensitive key: the redaction text, or a scalar that is not a non-empty string. */
  predicate SafeUnderSensitiveKey(red: string, v: Value) {
    v == Str(red) || v == Str("") || v.Null? || v.Bool? || v.Num?
  }

  /** At every depth, every sensitive key holds a safe value. */
  ghost predicate Redacted(red: string, v: Value)
    decreases v
  {
    match v
    case Obj(ms) => forall i :: 0 <= i < |ms| ==>
                      if IsSensitiveKey(ms[i].name) then SafeUnderSensitiveKey(red, ms[i].value) else Redacted(red, ms[i].value)
    case Arr(items) => forall i :: 0 <= i < |items| ==> Redacted(red, items[i])
    case _ => true
  }

  /**
   * Whatever goes in, nothing comes out of the sanitiser under a sensitive key
   * at any depth but the configured redaction text or a harmless scalar.
   */
  lemma {:induction false} CleanRedacts(red: string, v: Value)
    ensures Redacted(red, Clean(red, v))
    decreases v
  {
    match v {
      case Obj(ms) =>
        CleanMembersEntries(red, ms);
        var out := CleanMembers(red, ms);
        forall i | 0 <= i < |out|
          ensures if IsSensitiveKey(out[i].name) then SafeUnderSensitiveKey(red, out[i].value) else Redacted(red, out[i].value)
        {
          assert out[i] == CleanEntry(red, ms[i]);
          if !IsSensitiveKey(ms[i].name) {
            CleanRedacts(red, ms[i].value);
          }
        }
      case Arr(items) =>
        CleanItemsEntries(red, items);
        var out := CleanItems(red, items);
        forall i | 0 <= i < |out| ensures Redacted(red, out[i]) {
          CleanRedacts(red, items[i]);
        }
      case _ =>
    }
  }

  /** Sanitised details are redacted at every depth. */
  lemma ResultRedacted(red: string, f: Finding)
    requires f.details.Some?
    ensures Redacted(red, Obj(SanitizedResult(red, f).details.value))
  {
    CleanRedacts(red, Obj(f.details.value));
  }

  /** `sanitize_result` leaves every field but `message` and `details` as it was, and keeps which fields exist. */
  lemma ResultOtherFields(red: string, f: Finding)
    ensures var r := SanitizedResult(red, f);
            r.ruleId == f.ruleId && r.level == f.level && r.line == f.line && r.column == f.column
            && r.message.Some? == f.message.Some? && r.details.Some? == f.details.Some?
  {
  }

  /**
   * `sanitize_env_vars` keeps the keys in order; a sensitive entry that is a
   * dict with `value` keeps its keys and every field but `value`, which becomes
   * the redaction text; a non-sensitive entry is untouched.
   */
  lemma EnvEntryRule(red: string, m: Member)
    ensures EnvEntry(red, m).name == m.name
    ensures !IsSensitiveKey(m.name) ==> EnvEntry(red, m) == m
    ensures IsSensitiveKey(m.name) && m.value.Obj? && HasName(m.value.members, "value") ==>
              var out := EnvEntry(red, m).value;
              out.Obj? && Names(out.members) == Names(m.value.members)
              && Get(out.members, "value") == Some(Str(red))
              && forall k :: k != "value" ==> Get(out.members, k) == Get(m.value.members, k)
    ensures IsSensitiveKey(m.name) && !(m.value.Obj? && HasName(m.value.members, "value")) ==> EnvEntry(red, m).value == Str(red)
  {
    if IsSensitiveKey(m.name) && m.value.Obj? && HasName(m.value.members, "value") {
      var ms := m.value.members;
      forall k | k != "value" ensures Get(Put(ms, "value", Str(red)), k) == Get(ms, k) {
        GetPut(ms, "value", Str(red), k);
      }
      GetPut(ms, "value", Str(red), "line");
      PutGetSame(ms, "value", Str(red));
    }
  }

  /** After `Put` of a name that is present, looking it up gives the new value. */
  lemma {:induction false} PutGetSame(ms: seq<Member>, name: string, v: Value)
    requires HasName(ms, name)
    ensures Get(Put(ms, name, v), name) == Some(v)
  {
    if ms[0].name != name {
      assert HasName(ms[1..], name) by {
        var i :| 0 <= i < |ms| && ms[i].name == name;
        assert ms[1..][i - 1].name == name;
      }
      assert Put(ms, name, v)[1..] == Put(ms[1..], name, v);
      PutGetSame(ms[1..], name, v);
    }
  }

  /** The environment table keeps its keys, in order. */
  lemma EnvKeys(red: string, env: seq<Member>)
    ensures Names(SanitizedEnv(red, env)) == Names(env)
  {
  }
}

module SanitizerExamples {
  import opened Base
  import opened Json
  import opened Findings
  import opened SensitiveText
  import opened Sanitizer
  import Text

  /** A case-insensitive match gives the lower-cased characters one by one. */
  lemma CiAtChars(t: string, p: nat, w: string)
    requires CiAt(t, p, w)
    ensures forall j :: 0 <= j < |w| ==> Text.LowerChar(t[p + j]) == w[j]
  {
    forall j | 0 <= j < |w| ensures Text.LowerChar(t[p + j]) == w[j] {
      assert t[p..p + |w|][j] == t[p + j];
    }
  }

  /** Every letter of a word found in the key is a letter of the lower-cased key. */
  lemma CiAtLetters(k: string, p: nat, w: string)
    requires CiAt(k, p, w)
    ensures forall c :: c in w ==> c in Text.Lower(k)
  {
    CiAtChars(k, p, w);
    forall c | c in w ensures c in Text.Lower(k) {
      var j :| 0 <= j < |w| && w[j] == c;
      assert Text.Lower(k)[p + j] == c;
    }
  }

  /** A word with a letter that the lower-cased key lacks occurs nowhere in the key. */
  lemma AbsentLetter(k: string, w: string, c: char)
    requires c in w && c !in Text.Lower(k)
    ensures forall p :: !CiAt(k, p, w)
  {
    forall p: nat ensures !CiAt(k, p, w) {
      if CiAt(k, p, w) {
        CiAtLetters(k, p, w);
      }
    }
  }

  /** `letters[i]` is a letter of the `i`-th word and `api` has a letter the key lacks. */
  lemma NotSensitiveByLetters(k: string, letters: seq<char>, apiLetter: char)
    requires |letters| == |Words|
    requires forall i :: 0 <= i < |Words| ==> letters[i] in Words[i] && letters[i] !in Text.Lower(k)
    requires apiLetter in "api" && apiLetter !in Text.Lower(k)
    ensures !IsSensitiveKey(k)
  {
    forall i | 0 <= i < |Words| ensures forall p :: !CiAt(k, p, Words[i]) {
      AbsentLetter(k, Words[i], letters[i]);
    }
    AbsentLetter(k, "api", apiLetter);
  }

  /** `username` holds no sensitive word. */
  lemma NotSensitiveUsername()
    ensures !IsSensitiveKey("username")
  {
    assert Text.Lower("username") == "username";
    NotSensitiveByLetters("username", "pctktcpp", 'p');
  }

  lemma NotSensitiveAppName()
    ensures !IsSensitiveKey("app_name")
  {
    assert Text.Lower("app_name") == "app_name";
    NotSensitiveByLetters("app_name", "sstkucrs", 'i');
  }

  lemma NotSensitiveAdmin()
    ensures !IsSensitiveKey("admin")
  {
    assert Text.Lower("admin") == "admin";
    NotSensitiveByLetters("admin", "pstkucpp", 'p');
  }

  lemma NotSensitiveConfig()
    ensures !IsSensitiveKey("config")
  {
    assert Text.Lower("config") == "config";
    NotSensitiveByLetters("config", "pstkuepp", 'p');
  }

  lemma NotSensitiveMyapp()
    ensures !IsSensitiveKey("myapp")
  {
    assert Text.Lower("myapp") == "myapp";
    NotSensitiveByLetters("myapp", "sstkucrs", 'i');
  }

  lemma NotSensitiveAppNameUpper()
    ensures !IsSensitiveKey("APP_NAME")
  {
    assert Text.Lower("APP_NAME") == "app_name";
    NotSensitiveByLetters("APP_NAME", "sstkucrs", 'i');
  }

  /** A word found at `p` makes the key sensitive. */
  lemma SensitiveAt(k: string, p: nat, i: nat)
    requires i < |Words| && p + |Words[i]| <= |k| && Text.Lower(k[p..p + |Words[i]|]) == Words[i]
    ensures IsSensitiveKey(k)
  {
    assert WordAt(k, p);
  }

  /** The sensitive keys of the sanitiser's tests. */
  lemma SensitivePassword()
    ensures IsSensitiveKey("password") && IsSensitiveKey("PASSWORD")
  {
    assert IsSensitiveKey("password") by {
      assert "password"[0..8] == "password";
      assert Text.Lower("password") == "password";
      SensitiveAt("password", 0, 0);
    }
    assert IsSensitiveKey("PASSWORD") by {
      assert "PASSWORD"[0..8] == "PASSWORD";
      assert Text.Lower("PASSWORD") == "password";
      SensitiveAt("PASSWORD", 0, 0);
    }
  }

  lemma SensitiveApiKey()
    ensures IsSensitiveKey("API_KEY") && IsSensitiveKey("api_key")
  {
    SensitiveAt("API_KEY", 4, 3);
    SensitiveAt("api_key", 4, 3);
  }

  lemma SensitiveSecret()
    ensures IsSensitiveKey("secret_token") && IsSensitiveKey("secret_key")
  {
    SensitiveAt("secret_token", 0, 1);
    SensitiveAt("secret_key", 0, 1);
  }

  /** A non-empty string under a sensitive key becomes the redaction text. */
  lemma RedactedEntry(red: string, k: string, s: string)
    requires IsSensitiveKey(k) && s != ""
    ensures CleanEntry(red, Member(k, Str(s))) == Member(k, Str(red))
  {
  }

  /** A string without a sensitive word, under a key that is not sensitive, is kept. */
  lemma KeptEntry(red: string, k: string, s: string)
    requires !IsSensitiveKey(k) && !IsSensitiveKey(s)
    ensures CleanEntry(red, Member(k, Str(s))) == Member(k, Str(s))
  {
    PlainTextUnchanged(red, s);
  }

  lemma CleanTwo(red: string, a: Member, b: Member)
    ensures CleanMembers(red, [a, b]) == [CleanEntry(red, a), CleanEntry(red, b)]
  {
    assert [a, b][..1] == [a];
    assert CleanMembers(red, [a]) == [CleanEntry(red, a)] by {
      assert [a][..0] == [];
    }
  }

  lemma CleanThree(red: string, a: Member, b: Member, c: Member)
    ensures CleanMembers(red, [a, b, c]) == [CleanEntry(red, a), CleanEntry(red, b), CleanEntry(red, c)]
  {
    assert [a, b, c][..2] == [a, b];
    CleanTwo(red, a, b);
  }

  /** `details` with `password`, `username` and `api_key`: the first and last are redacted, whatever the redaction text. */
  lemma SensitiveKeysExample(red: string)
    ensures CleanMembers(red, [Member("password", Str("mypassword")), Member("username", Str("admin")), Member("api_key", Str("key123"))])
         == [Member("password", Str(red)), Member("username", Str("admin")), Member("api_key", Str(red))]
  {
    CleanThree(red, Member("password", Str("mypassword")), Member("username", Str("admin")), Member("api_key", Str("key123")));
    SensitivePassword();
    SensitiveApiKey();
    NotSensitiveUsername();
    NotSensitiveAdmin();
    RedactedEntry(red, "password", "mypassword");
    KeptEntry(red, "username", "admin");
    RedactedEntry(red, "api_key", "key123");
  }

  /** A nested dict: `secret_key` inside `config` is redacted, `app_name` is kept. */
  lemma NestedExample(red: string)
    ensures CleanMembers(red, [Member("config", Obj([Member("secret_key", Str("secret123")), Member("app_name", Str("myapp"))]))])
         == [Member("config", Obj([Member("secret_key", Str(red)), Member("app_name", Str("myapp"))]))]
  {
    var config := [Member("secret_key", Str("secret123")), Member("app_name", Str("myapp"))];
    SensitiveSecret();
    NotSensitiveAppName();
    NotSensitiveMyapp();
    NotSensitiveConfig();
    CleanTwo(red, config[0], config[1]);
    RedactedEntry(red, "secret_key", "secret123");
    KeptEntry(red, "app_name", "myapp");
    KeptObject(red, "config", config);
  }

  /** A dict under a key that is not sensitive, alone in its parent, is cleaned entry by entry. */
  lemma KeptObject(red: string, k: string, ms: seq<Member>)
    requires !IsSensitiveKey(k)
    ensures CleanMembers(red, [Member(k, Obj(ms))]) == [Member(k, Obj(CleanMembers(red, ms)))]
  {
    var m := Member(k, Obj(ms));
    assert [m][..0] == [];
    assert CleanMembers(red, [m]) == [CleanEntry(red, m)];
    assert Clean(red, m.value) == Obj(CleanMembers(red, ms));
  }

  /** The message `API_KEY=secret123` of the basic test loses its value; `details` is sanitised too. */
  lemma BasicExample()
    ensures var f := Finding(None, None, Some("API_KEY" + "=" + "secret123"), None, None, Some([Member("input", Str("secret123"))]));
            SanitizedResult("***REDACTED***", f).message == Some("API_KEY" + "=" + "***REDACTED***")
  {
    ExampleApiKey();
  }

  /** A sensitive `{"value": v, "line": n}` entry keeps its line and loses its value. */
  lemma EnvRedactedEntry(red: string, k: string, v: Value, line: Value)
    requires IsSensitiveKey(k)
    ensures EnvEntry(red, Member(k, Obj([Member("value", v), Member("line", line)])))
         == Member(k, Obj([Member("value", Str(red)), Member("line", line)]))
  {
    var ms := [Member("value", v), Member("line", line)];
    assert HasName(ms, "value") by { assert ms[0].name == "value"; }
    assert Put(ms, "value", Str(red)) == [Member("value", Str(red)), Member("line", line)];
  }

  /** A custom redaction text is the one written. */
  lemma CustomRedactionExample()
    ensures CleanMembers("[HIDDEN]", [Member("password", Str("secret123"))]) == [Member("password", Str("[HIDDEN]"))]
  {
    SensitivePassword();
    RedactedEntry("[HIDDEN]", "password", "secret123");
    assert [Member("password", Str("secret123"))][..0] == [];
  }

  lemma EnvThree(red: string, a: Member, b: Member, c: Member)
    ensures SanitizedEnv(red, [a, b, c]) == [EnvEntry(red, a), EnvEntry(red, b), EnvEntry(red, c)]
  {
  }

  /** The env-var table of the sanitiser's test. */
  lemma EnvVarsExample(red: string)
    ensures SanitizedEnv(red, [Member("API_KEY", Obj([Member("value", Str("key123")), Member("line", Num(1))])),
                               Member("APP_NAME", Obj([Member("value", Str("myapp")), Member("line", Num(2))])),
                               Member("PASSWORD", Obj([Member("value", Str("secret")), Member("line", Num(3))]))])
         == [Member("API_KEY", Obj([Member("value", Str(red)), Member("line", Num(1))])),
             Member("APP_NAME", Obj([Member("value", Str("myapp")), Member("line", Num(2))])),
             Member("PASSWORD", Obj([Member("value", Str(red)), Member("line", Num(3))]))]
  {
    EnvThree(red, Member("API_KEY", Obj([Member("value", Str("key123")), Member("line", Num(1))])),
                  Member("APP_NAME", Obj([Member("value", Str("myapp")), Member("line", Num(2))])),
                  Member("PASSWORD", Obj([Member("value", Str("secret")), Member("line", Num(3))])));
    SensitivePassword();
    SensitiveApiKey();
    NotSensitiveAppNameUpper();
    EnvRedactedEntry(red, "API_KEY", Str("key123"), Num(1));
    EnvRedactedEntry(red, "PASSWORD", Str("secret"), Num(3));
  }
}
