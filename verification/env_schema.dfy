/**
 * The pipeline-B environment check (`src/env_integrity_check/schema_introspect.py`):
 * a cruder `.env` reader than the CLI's, and `validate_env`, which collects
 * the model's validation errors and a warning for every placeholder value
 * into a findings dictionary with an `errors` and a `warnings` section.
 * Reading the file, importing the model and loading the default policy are
 * outside the model: the file is given as its text and the model as a
 * validation function.
 */
module EnvSchema {
  import opened Base
  import opened Text
  import SchemaIntrospect
  import EnvParser

  /** One entry of the `env` dictionary. */
  datatype Pair = Pair(key: string, value: string)

  /** A Python dict from key to value, in insertion order. */
  type Env = seq<Pair>

  predicate HasKey(env: Env, k: string) {
    exists i :: 0 <= i < |env| && env[i].key == k
  }

  ghost predicate DistinctKeys(env: Env) {
    forall i, j :: 0 <= i < j < |env| ==> env[i].key != env[j].key
  }

  /** Position of `k` in the dictionary, or `|env|` when it is absent. */
  function Position(env: Env, k: string): (i: nat)
    ensures i <= |env|
    ensures forall j :: 0 <= j < i ==> env[j].key != k
    ensures i < |env| ==> env[i].key == k
  {
    if env == [] || env[0].key == k then 0 else 1 + Position(env[1..], k)
  }

  /** `env.get(k)`. */
  function ValueOf(env: Env, k: string): (r: Option<string>)
    ensures r.Some? <==> HasKey(env, k)
  {
    var i := Position(env, k);
    if i < |env| then Some(env[i].value) else None
  }

  /** `env[k] = v`: an existing key keeps its place and takes the new value; a new key goes last. */
  function Put(env: Env, k: string, v: string): (r: Env)
    ensures HasKey(env, k) ==> r == env[Position(env, k) := Pair(k, v)]
    ensures !HasKey(env, k) ==> r == env + [Pair(k, v)]
  {
    var i := Position(env, k);
    if i < |env| then env[i := Pair(k, v)] else env + [Pair(k, v)]
  }

  /**
   * What one line of the file contributes: nothing when it is blank or its
   * raw text starts with `#`; otherwise the trimmed text before the first
   * `=` and the trimmed text after it (`""` when there is no `=`).
   */
  function LineEntry(line: string): Option<Pair> {
    if Strip(line) == [] || StartsWith(line, "#") then None
    else
      var (key, value) := Partition(line);
      Some(Pair(Strip(key), Strip(value)))
  }

  /** `line.partition("=")` without the separator: the text before the first `=` and the text after it. */
  function Partition(line: string): (string, string) {
    var eq := IndexOf(line, '=');
    (line[..eq], if eq == |line| then "" else line[eq + 1..])
  }

  /** The dictionary after reading the lines in order. */
  function EnvOf(lines: seq<string>): Env {
    if lines == [] then []
    else
      var env := EnvOf(lines[..|lines| - 1]);
      match LineEntry(lines[|lines| - 1])
      case None => env
      case Some(p) => Put(env, p.key, p.value)
  }

  lemma EnvOfPrefix(lines: seq<string>, n: nat)
    requires n < |lines|
    ensures EnvOf(lines[..n + 1]) == match LineEntry(lines[n])
                                     case None => EnvOf(lines[..n])
                                     case Some(p) => Put(EnvOf(lines[..n]), p.key, p.value)
  {
    assert lines[..n + 1][..n] == lines[..n];
  }

  /** `parse_env`, on the file's text. */
  method ParseEnv(content: string) returns (env: Env)
    ensures env == EnvOf(SplitLines(content))
  {
    var lines := SplitLines(content);
    env := [];
    var n := 0;
    while n < |lines|
      invariant n <= |lines|
      invariant env == EnvOf(lines[..n])
    {
      EnvOfPrefix(lines, n);
      var line := lines[n];
      if Strip(line) != [] && !StartsWith(line, "#") {
        var (key, value) := Partition(line);
        env := Put(env, Strip(key), Strip(value));
      }
      n := n + 1;
    }
    assert lines[..n] == lines;
  }

  // ----- validate_env -----

  /** One finding of the dictionary: the keys an item may carry. */
  datatype Item = Item(key: Option<string>, message: Option<string>, ruleType: Option<string>, line: Option<int>)

  /** One section of the findings dictionary: its name and its items. */
  datatype Section = Section(name: string, items: seq<Item>)

  const PlaceholderMessage := "Contains placeholder or empty value."

  /** The values treated as placeholders, after trimming and upper-casing. */
  const Placeholders: seq<string> := ["TODO", "CHANGEME", "XXX", ""]

  predicate IsPlaceholder(value: string) {
    Upper(Strip(value)) in Placeholders
  }

  /** `".".join(str(l) for l in loc)`. */
  function JoinLoc(loc: seq<string>): string {
    if loc == [] then ""
    else if |loc| == 1 then loc[0]
    else loc[0] + "." + JoinLoc(loc[1..])
  }

  function ErrorItem(e: SchemaIntrospect.EngineError): Item {
    Item(Some(JoinLoc(e.loc)), Some(e.msg), Some(e.errorType), None)
  }

  function WarningItem(key: string): Item {
    Item(Some(key), Some(PlaceholderMessage), None, None)
  }

  function ErrorItems(errors: seq<SchemaIntrospect.EngineError>): (r: seq<Item>)
    ensures |r| == |errors| && forall i :: 0 <= i < |errors| ==> r[i] == ErrorItem(errors[i])
  {
    Map(ErrorItem, errors)
  }

  /** One warning per entry whose value `flag` accepts, in dictionary order. */
  function Flagged(env: Env, flag: string -> bool): seq<Item> {
    if env == [] then []
    else
      var last := env[|env| - 1];
      Flagged(env[..|env| - 1], flag) + (if flag(last.value) then [WarningItem(last.key)] else [])
  }

  /** The placeholder warnings. */
  function Warnings(env: Env): seq<Item> {
    Flagged(env, IsPlaceholder)
  }

  /** The keyword arguments the model receives: every key with its value. */
  function AsMap(env: Env): map<string, string> {
    if env == [] then map[] else AsMap(env[..|env| - 1])[env[|env| - 1].key := env[|env| - 1].value]
  }

  /** What `validate_env` returns as findings for the file's lines. */
  function Findings(lines: seq<string>, validate: map<string, string> -> seq<SchemaIntrospect.EngineError>): seq<Section> {
    var env := EnvOf(lines);
    [Section("errors", ErrorItems(validate(AsMap(env)))), Section("warnings", Warnings(env))]
  }

  /** `validate_env`, without the default policy it also returns. */
  method ValidateEnv(content: string, validate: map<string, string> -> seq<SchemaIntrospect.EngineError>)
    returns (findings: seq<Section>)
    ensures findings == Findings(SplitLines(content), validate)
  {
    var env := ParseEnv(content);
    var errors := validate(AsMap(env));
    var errorItems := ConvertErrors(errors);
    var warnings := PlaceholderWarnings(env);
    findings := [Section("errors", errorItems), Section("warnings", warnings)];
  }

  /** The loop over the engine's errors. */
  method ConvertErrors(errors: seq<SchemaIntrospect.EngineError>) returns (items: seq<Item>)
    ensures items == ErrorItems(errors)
  {
    items := [];
    var i := 0;
    while i < |errors|
      invariant i <= |errors|
      invariant |items| == i && forall j :: 0 <= j < i ==> items[j] == ErrorItem(errors[j])
    {
      var err := errors[i];
      items := items + [Item(Some(JoinLoc(err.loc)), Some(err.msg), Some(err.errorType), None)];
      i := i + 1;
    }
  }

  /** The placeholder loop over the dictionary. */
  method PlaceholderWarnings(env: Env) returns (warnings: seq<Item>)
    ensures warnings == Warnings(env)
  {
    warnings := [];
    var n := 0;
    while n < |env|
      invariant n <= |env|
      invariant warnings == Warnings(env[..n])
    {
      assert env[..n + 1][..n] == env[..n];
      if Upper(Strip(env[n].value)) in Placeholders {
        warnings := warnings + [WarningItem(env[n].key)];
      }
      n := n + 1;
    }
    assert env[..n] == env;
  }

  // ----- What the reader does -----

  /** A line is skipped exactly when it is blank or its untrimmed text starts with `#`. */
  lemma LineSkipped(line: string)
    ensures LineEntry(line).None? <==> Strip(line) == [] || StartsWith(line, "#")
  {
  }

  /** A line with a character other than white space is not blank. */
  lemma NotBlank(s: string, i: nat)
    requires i < |s| && !IsSpace(s[i])
    ensures Strip(s) != []
  {
    var j := StripSlice(s);
    assert i < j || j + |Strip(s)| <= i || j <= i < j + |Strip(s)|;
  }

  /** In `k + "=" + v` with no `=` in `k`, the split is at the `=` after `k`. */
  lemma RenderedSplit(k: string, v: string)
    requires forall c :: 0 <= c < |k| ==> k[c] != '='
    ensures Partition(k + "=" + v) == (k, v)
  {
    var line := EnvParser.SplitAround(k, '=', v);
    IndexOfAfter(k, "=" + v, '=');
  }

  /** `k + "=" + v` is neither blank nor, when `k` does not start with `#`, a comment. */
  lemma RenderedKept(k: string, v: string)
    requires k == [] || k[0] != '#'
    ensures Strip(k + "=" + v) != [] && !StartsWith(k + "=" + v, "#")
  {
    var line := k + "=" + v;
    assert line[|k|] == '=';
    NotBlank(line, |k|);
    assert line[0] == if k == [] then '=' else k[0];
  }

  /**
   * `key=value` reads back as the trimmed key and the trimmed value: the
   * split is at the first `=`, so the value may hold more `=`, and quotes
   * around it stay.
   */
  lemma LineRendered(k: string, v: string)
    requires forall c :: 0 <= c < |k| ==> k[c] != '='
    requires k == [] || k[0] != '#'
    ensures LineEntry(k + "=" + v) == Some(Pair(Strip(k), Strip(v)))
  {
    RenderedSplit(k, v);
    RenderedKept(k, v);
  }

  /** A line without `=` becomes a key with the empty value. */
  lemma LineWithoutEquals(line: string)
    requires forall c :: 0 <= c < |line| ==> line[c] != '='
    requires Strip(line) != [] && !StartsWith(line, "#")
    ensures LineEntry(line) == Some(Pair(Strip(line), ""))
  {
    assert IndexOf(line, '=') == |line|;
    assert line[..|line|] == line;
  }

  /**
   * An indented comment is not a comment here: ` # note` (without `=`)
   * becomes a key that starts with `#`, with the empty value.
   */
  lemma IndentedCommentKept(note: string)
    requires forall c :: 0 <= c < |note| ==> note[c] != '='
    ensures var line := " #" + note;
            LineEntry(line) == Some(Pair(Strip(line), "")) && StartsWith(Strip(line), "#")
  {
    var line := " #" + note;
    IndentedStrip(line);
    forall c | 0 <= c < |line| ensures line[c] != '=' {
      if c >= 2 { assert line[c] == note[c - 2]; }
    }
    LineWithoutEquals(line);
  }

  /** Stripping a line that is one space and then `#...` leaves the `#` first. */
  lemma IndentedStrip(line: string)
    requires |line| >= 2 && line[0] == ' ' && line[1] == '#'
    ensures Strip(line) != [] && Strip(line)[0] == '#' && !StartsWith(line, "#")
  {
    NotBlank(line, 1);
    var j := StripSlice(line);
    assert !IsSpace(line[1]) && IsSpace(line[0]);
    assert Strip(line)[0] == line[j];
  }

  /**
   * A value without white space at its ends is kept verbatim: no quotes
   * are removed, so `K="v"` has the value `"v"` with its quotes.
   */
  lemma ValueVerbatim(k: string, v: string)
    requires forall c :: 0 <= c < |k| ==> k[c] != '='
    requires k == [] || k[0] != '#'
    requires v == [] || (!IsSpace(v[0]) && !IsSpace(v[|v| - 1]))
    ensures LineEntry(k + "=" + v) == Some(Pair(Strip(k), v))
  {
    StripFixed(v);
    LineRendered(k, v);
  }

  /** The value a key has after the last line that assigns it, if any does. */
  function LastValue(lines: seq<string>, k: string): Option<string> {
    if lines == [] then None
    else
      var e := LineEntry(lines[|lines| - 1]);
      if e.Some? && e.value.key == k then Some(e.value.value) else LastValue(lines[..|lines| - 1], k)
  }

  /** The first entry with key `k` is at `i`. */
  lemma {:induction false} PositionIs(env: Env, k: string, i: nat)
    requires i < |env| && env[i].key == k
    requires forall j :: 0 <= j < i ==> env[j].key != k
    ensures Position(env, k) == i
  {
    if i > 0 {
      PositionIs(env[1..], k, i - 1);
    }
  }

  /** Reading after `Put` sees the new value for its key and the old one elsewhere. */
  lemma ValueOfPut(env: Env, k: string, v: string, other: string)
    ensures ValueOf(Put(env, k, v), other) == if other == k then Some(v) else ValueOf(env, other)
  {
    var r := Put(env, k, v);
    var p := Position(env, k);
    assert forall j :: 0 <= j < |env| ==> r[j].key == env[j].key;
    if other == k {
      PositionIs(r, k, p);
    } else if HasKey(env, other) {
      var q := Position(env, other);
      assert r[q] == env[q];
      PositionIs(r, other, q);
    } else {
      assert forall j :: 0 <= j < |r| ==> r[j].key != other;
    }
  }

  /** The last assignment of a key wins. */
  lemma {:induction false} LastOccurrenceWins(lines: seq<string>, k: string)
    ensures ValueOf(EnvOf(lines), k) == LastValue(lines, k)
  {
    if lines != [] {
      var n := |lines| - 1;
      LastOccurrenceWins(lines[..n], k);
      var e := LineEntry(lines[n]);
      if e.Some? {
        ValueOfPut(EnvOf(lines[..n]), e.value.key, e.value.value, k);
      }
    }
  }

  /** Assigning keeps the keys distinct. */
  lemma PutDistinct(env: Env, k: string, v: string)
    requires DistinctKeys(env)
    ensures DistinctKeys(Put(env, k, v))
  {
  }

  /** Every key occurs once in the dictionary. */
  lemma {:induction false} EnvDistinct(lines: seq<string>)
    ensures DistinctKeys(EnvOf(lines))
  {
    if lines != [] {
      var n := |lines| - 1;
      EnvDistinct(lines[..n]);
      var e := LineEntry(lines[n]);
      if e.Some? {
        PutDistinct(EnvOf(lines[..n]), e.value.key, e.value.value);
      }
    }
  }

  // ----- What validate_env reports -----

  lemma {:induction false} FlaggedExactly(env: Env, flag: string -> bool, k: string)
    ensures WarningItem(k) in Flagged(env, flag) <==> exists i :: 0 <= i < |env| && env[i].key == k && flag(env[i].value)
  {
    if env != [] {
      var n := |env| - 1;
      FlaggedExactly(env[..n], flag, k);
      assert forall i :: 0 <= i < n ==> env[..n][i] == env[i];
    }
  }

  /** A warning names a key exactly when that key holds a placeholder. */
  lemma WarningsExactly(env: Env, k: string)
    ensures WarningItem(k) in Warnings(env) <==> exists i :: 0 <= i < |env| && env[i].key == k && IsPlaceholder(env[i].value)
  {
    FlaggedExactly(env, IsPlaceholder, k);
  }

  lemma {:induction false} FlaggedWitness(env: Env, flag: string -> bool, x: Item) returns (k: string)
    requires x in Flagged(env, flag)
    ensures x == WarningItem(k)
  {
    var n := |env| - 1;
    if x in Flagged(env[..n], flag) {
      k := FlaggedWitness(env[..n], flag, x);
    } else {
      k := env[n].key;
    }
  }

  /** Every warning is a placeholder warning about a key of the dictionary. */
  lemma FlaggedKeys(env: Env, flag: string -> bool, x: Item)
    requires x in Flagged(env, flag)
    ensures x.key.Some? && HasKey(env, x.key.value) && x == WarningItem(x.key.value)
  {
    var k := FlaggedWitness(env, flag, x);
    FlaggedExactly(env, flag, k);
  }

  lemma {:induction false} FlaggedOnePerKey(env: Env, flag: string -> bool)
    requires DistinctKeys(env)
    ensures |Flagged(env, flag)| <= |env|
    ensures forall i, j :: 0 <= i < j < |Flagged(env, flag)| ==> Flagged(env, flag)[i].key != Flagged(env, flag)[j].key
  {
    if env != [] {
      var n := |env| - 1;
      var prefix := env[..n];
      FlaggedOnePerKey(prefix, flag);
      var w := Flagged(prefix, flag);
      if flag(env[n].value) {
        forall i | 0 <= i < |w| ensures w[i].key != Some(env[n].key) {
          FlaggedKeys(prefix, flag, w[i]);
          var q :| 0 <= q < n && prefix[q].key == w[i].key.value;
        }
      }
    }
  }

  /**
   * Reading a file gives at most one placeholder warning per key, and never
   * more warnings than keys.
   */
  lemma WarningsOnePerKey(lines: seq<string>)
    ensures var w := Warnings(EnvOf(lines));
            |w| <= |EnvOf(lines)| && forall i, j :: 0 <= i < j < |w| ==> w[i].key != w[j].key
  {
    EnvDistinct(lines);
    FlaggedOnePerKey(EnvOf(lines), IsPlaceholder);
  }

  /**
   * The findings dictionary has exactly an `errors` and a `warnings`
   * section, one error per engine error whose key is the joined location,
   * and every warning carries the placeholder message.
   */
  lemma FindingsShape(lines: seq<string>, validate: map<string, string> -> seq<SchemaIntrospect.EngineError>)
    ensures var f := Findings(lines, validate);
            |f| == 2 && f[0].name == "errors" && f[1].name == "warnings"
            && |f[0].items| == |validate(AsMap(EnvOf(lines)))|
            && (forall i :: 0 <= i < |f[0].items| ==>
                  f[0].items[i].key == Some(JoinLoc(validate(AsMap(EnvOf(lines)))[i].loc))
                  && f[0].items[i].message == Some(validate(AsMap(EnvOf(lines)))[i].msg))
            && (forall x :: x in f[1].items ==> x.message == Some(PlaceholderMessage) && x.key.Some?)
  {
    var env := EnvOf(lines);
    forall x | x in Warnings(env) ensures x.message == Some(PlaceholderMessage) && x.key.Some? {
      FlaggedKeys(env, IsPlaceholder, x);
    }
  }

  /** The model receives every key of the dictionary with its value. */
  lemma {:induction false} AsMapAgrees(env: Env, k: string)
    requires DistinctKeys(env)
    ensures k in AsMap(env) <==> HasKey(env, k)
    ensures k in AsMap(env) ==> ValueOf(env, k) == Some(AsMap(env)[k])
  {
    if env != [] {
      var n := |env| - 1;
      AsMapAgrees(env[..n], k);
      if k != env[n].key && HasKey(env, k) {
        var q := Position(env, k);
        assert q < n;
        assert Position(env[..n], k) == q;
      }
      if k == env[n].key {
        assert Position(env, k) == n;
      }
    }
  }

  /** A dotted location: `database.url`. */
  lemma JoinLocExample()
    ensures JoinLoc(["database", "url"]) == "database.url"
  {
  }

  /** Placeholders are recognised in any case. */
  lemma PlaceholderExamples()
    ensures IsPlaceholder("todo") && IsPlaceholder("")
  {
    StripFixed("todo");
    assert Upper("todo") == "TODO";
    StripFixed("");
  }

  /** A value whose trimmed length is not 0, 3, 4 or 8 is never a placeholder. */
  lemma NotPlaceholderByLength(value: string)
    requires |Strip(value)| !in {0, 3, 4, 8}
    ensures !IsPlaceholder(value)
  {
    var u := Upper(Strip(value));
    assert |u| == |Strip(value)|;
    assert forall i :: 0 <= i < |Placeholders| ==> |Placeholders[i]| in {0, 3, 4, 8};
  }
}
