/**
 * The `.env` parser of the CLI (`parse_env_file`): raw text becomes an
 * insertion-ordered table key -> (value, line).
 */
module EnvParser {
  import opened Base
  import opened Text

  /** One entry of the table: `env_vars[key] == {"value": value, "line": line}`. */
  datatype Fact = Fact(key: string, value: string, line: int)

  /** A Python dict from key to fact data, in insertion order. */
  type Table = seq<Fact>

  predicate HasKey(t: Table, k: string) {
    exists i :: 0 <= i < |t| && t[i].key == k
  }

  ghost predicate DistinctKeys(t: Table) {
    forall i, j :: 0 <= i < j < |t| ==> t[i].key != t[j].key
  }

  /** Position of `k` in the table, or `|t|` when it is absent. */
  function IndexOfKey(t: Table, k: string): (i: nat)
    ensures i <= |t|
    ensures forall j :: 0 <= j < i ==> t[j].key != k
    ensures i < |t| ==> t[i].key == k
    ensures i == |t| <==> !HasKey(t, k)
  {
    if t == [] || t[0].key == k then 0 else 1 + IndexOfKey(t[1..], k)
  }

  /** Python's `env_vars.get(k)`. */
  function Lookup(t: Table, k: string): (r: Option<Fact>)
    ensures r.Some? <==> HasKey(t, k)
    ensures r.Some? ==> r.value in t && r.value.key == k
  {
    var i := IndexOfKey(t, k);
    if i < |t| then Some(t[i]) else None
  }

  /**
   * Python's `env_vars[f.key] = ...` on an ordered dict: an existing key keeps
   * its position and gets the new data; a new key is appended.
   */
  function Assign(t: Table, f: Fact): (r: Table)
    ensures HasKey(t, f.key) ==> r == t[IndexOfKey(t, f.key) := f]
    ensures !HasKey(t, f.key) ==> r == t + [f]
  {
    var i := IndexOfKey(t, f.key);
    if i < |t| then t[i := f] else t + [f]
  }

  /** Assigning keeps the keys distinct. */
  lemma AssignDistinct(t: Table, f: Fact)
    requires DistinctKeys(t)
    ensures DistinctKeys(Assign(t, f))
    ensures forall k :: HasKey(Assign(t, f), k) <==> HasKey(t, k) || k == f.key
  {
    var r := Assign(t, f);
    if HasKey(t, f.key) {
      var i := IndexOfKey(t, f.key);
      forall k | HasKey(t, k) ensures HasKey(r, k) {
        var j :| 0 <= j < |t| && t[j].key == k;
        assert r[j].key == k;
      }
    } else {
      forall k | HasKey(t, k) ensures HasKey(r, k) {
        var j :| 0 <= j < |t| && t[j].key == k;
        assert r[j].key == k;
      }
      assert r[|t|].key == f.key;
    }
  }

  /** A key and its value as one line of the file defines them. */
  datatype Entry = Entry(key: string, value: string)

  /** Drops one pair of matching quotes; a lone quote character becomes "" (Python's `v[1:-1]`). */
  function Unquote(v: string): string {
    if |v| > 0 && v[0] == v[|v| - 1] && (v[0] == '"' || v[0] == '\'') then
      (if |v| == 1 then "" else v[1..|v| - 1])
    else v
  }

  /**
   * What one line contributes: nothing for a blank line, a comment or a line
   * without `=`; otherwise the trimmed text before the first `=` and the
   * trimmed, unquoted text after it.
   */
  function ParseLine(raw: string): Option<Entry> {
    Assignment(Strip(raw))
  }

  /** `ParseLine` on the already stripped line. */
  function Assignment(line: string): Option<Entry> {
    if line == [] || line[0] == '#' then None
    else
      var eq := IndexOf(line, '=');
      if eq == |line| then None
      else Some(Entry(Strip(line[..eq]), Unquote(Strip(line[eq + 1..]))))
  }

  /** A line contributes an entry exactly when it is not blank, not a comment and has an `=`. */
  lemma ParseLineSkips(raw: string)
    ensures ParseLine(raw).None? <==>
      var line := Strip(raw); line == [] || line[0] == '#' || forall c :: 0 <= c < |line| ==> line[c] != '='
  {
    IndexOfFirst(Strip(raw), '=');
  }

  /** A key has no whitespace at either end and no `=`. */
  lemma ParseLineKey(raw: string)
    requires ParseLine(raw).Some?
    ensures var k := ParseLine(raw).value.key;
      (k == [] || (!IsSpace(k[0]) && !IsSpace(k[|k| - 1]))) && forall c :: 0 <= c < |k| ==> k[c] != '='
  {
    var line := Strip(raw);
    var before := line[..IndexOf(line, '=')];
    assert ParseLine(raw).value.key == Strip(before);
    IndexOfPrefix(line, '=');
    StripKeepsAbsent(before, '=');
  }

  /** What each line contributes, in file order. */
  function Entries(lines: seq<string>): (es: seq<Option<Entry>>)
    ensures |es| == |lines|
  {
    Map(ParseLine, lines)
  }

  /** The table after reading the entries in order; entry `i` (0-based) is on line `i + 1`. */
  function Build(es: seq<Option<Entry>>): Table
    decreases |es|
  {
    if es == [] then []
    else Step(Build(es[..|es| - 1]), es[|es| - 1], |es|)
  }

  /** The table after one more line, numbered `lineNum`. */
  function Step(t: Table, e: Option<Entry>, lineNum: int): Table {
    match e
    case None => t
    case Some(e) => Assign(t, Fact(e.key, e.value, lineNum))
  }

  /** The table `parse_env_file` returns for the given lines. */
  function Parsed(lines: seq<string>): Table {
    Build(Entries(lines))
  }

  lemma BuildSnoc(es: seq<Option<Entry>>, e: Option<Entry>)
    ensures Build(es + [e]) == Step(Build(es), e, |es| + 1)
  {
    assert (es + [e])[..|es|] == es;
  }

  lemma BuildPrefix(es: seq<Option<Entry>>, n: nat)
    requires n < |es|
    ensures Build(es[..n + 1]) == Step(Build(es[..n]), es[n], n + 1)
  {
    assert es[..n + 1][..n] == es[..n];
  }

  /** `parse_env_file`: fills the table line by line. */
  method ParseEnvFile(content: string) returns (envVars: Table)
    ensures envVars == Parsed(SplitLines(content))
  {
    var lines := SplitLines(content);
    ghost var es := Entries(lines);
    envVars := [];
    var n := 0;
    assert es[..0] == [];
    while n < |lines|
      invariant 0 <= n <= |lines|
      invariant envVars == Build(es[..n])
    {
      BuildPrefix(es, n);
      var e := ParseLine(lines[n]);
      if e.Some? {
        envVars := Assign(envVars, Fact(e.value.key, e.value.value, n + 1));
      }
      n := n + 1;
    }
    assert es[..|lines|] == es;
  }

  /** Entry `e` assigns the key `k`. */
  predicate Defines(e: Option<Entry>, k: string) {
    e.Some? && e.value.key == k
  }

  /** The index of the first entry that assigns `k`, or `|es|` when none does. */
  function FirstDefining(es: seq<Option<Entry>>, k: string): (i: nat)
    ensures i <= |es|
    ensures i < |es| ==> Defines(es[i], k)
    ensures forall j :: 0 <= j < i ==> !Defines(es[j], k)
  {
    if es == [] || Defines(es[0], k) then 0 else 1 + FirstDefining(es[1..], k)
  }

  /** One more entry changes the first defining line only when there was none. */
  lemma FirstDefiningSnoc(es: seq<Option<Entry>>, e: Option<Entry>, k: string)
    ensures FirstDefining(es + [e], k) ==
      if FirstDefining(es, k) < |es| then FirstDefining(es, k)
      else if Defines(e, k) then |es| else |es| + 1
  {
    var all := es + [e];
    var a := FirstDefining(es, k);
    var b := FirstDefining(all, k);
    if a < |es| {
      assert all[a] == es[a];
    } else {
      assert all[|es|] == e;
    }
  }

  /**
   * The fact recorded for a key is justified by the entries: its line number
   * points at an entry that assigns exactly this key and value, and no later
   * entry assigns the key again.
   */
  ghost predicate Justified(es: seq<Option<Entry>>, f: Fact) {
    1 <= f.line <= |es|
    && es[f.line - 1] == Some(Entry(f.key, f.value))
    && forall j :: f.line <= j < |es| ==> !Defines(es[j], f.key)
  }

  lemma JustifiedSnoc(es: seq<Option<Entry>>, e: Option<Entry>, f: Fact)
    requires Justified(es, f) && !Defines(e, f.key)
    ensures Justified(es + [e], f)
  {
    var all := es + [e];
    assert all[f.line - 1] == es[f.line - 1];
    forall j | f.line <= j < |all| ensures !Defines(all[j], f.key) {
      if j < |es| {
        assert all[j] == es[j];
      }
    }
  }

  /** An entry that assigns none of the recorded keys leaves every fact justified. */
  lemma JustifiedKept(es: seq<Option<Entry>>, e: Option<Entry>, t: Table)
    requires forall i :: 0 <= i < |t| ==> Justified(es, t[i]) && !Defines(e, t[i].key)
    ensures forall i :: 0 <= i < |t| ==> Justified(es + [e], t[i])
  {
    forall i | 0 <= i < |t| ensures Justified(es + [e], t[i]) {
      JustifiedSnoc(es, e, t[i]);
    }
  }

  /** The fact an entry records is justified by that entry. */
  lemma JustifiedNew(es: seq<Option<Entry>>, e: Entry)
    ensures Justified(es + [Some(e)], Fact(e.key, e.value, |es| + 1))
  {
    assert (es + [Some(e)])[|es|] == Some(e);
  }

  /** An entry that re-assigns the key at position `p` justifies the updated table. */
  lemma JustifiedReplace(es: seq<Option<Entry>>, t: Table, e: Entry, p: nat, r: Table)
    requires DistinctKeys(t) && p < |t| && t[p].key == e.key
    requires r == t[p := Fact(e.key, e.value, |es| + 1)]
    requires forall i :: 0 <= i < |t| ==> Justified(es, t[i])
    ensures forall i :: 0 <= i < |r| ==> Justified(es + [Some(e)], r[i])
  {
    forall i | 0 <= i < |r| ensures Justified(es + [Some(e)], r[i]) {
      if i == p {
        JustifiedNew(es, e);
      } else {
        JustifiedSnoc(es, Some(e), t[i]);
      }
    }
  }

  /** An entry that assigns a new key justifies the extended table. */
  lemma JustifiedAppend(es: seq<Option<Entry>>, t: Table, e: Entry, r: Table)
    requires !HasKey(t, e.key)
    requires r == t + [Fact(e.key, e.value, |es| + 1)]
    requires forall i :: 0 <= i < |t| ==> Justified(es, t[i])
    ensures forall i :: 0 <= i < |r| ==> Justified(es + [Some(e)], r[i])
  {
    forall i | 0 <= i < |r| ensures Justified(es + [Some(e)], r[i]) {
      if i == |t| {
        JustifiedNew(es, e);
      } else {
        assert r[i] == t[i];
        JustifiedSnoc(es, Some(e), t[i]);
      }
    }
  }

  /** One more entry keeps every fact of the table justified. */
  lemma StepJustified(es: seq<Option<Entry>>, e: Option<Entry>, all: seq<Option<Entry>>, t: Table)
    requires all == es + [e]
    requires DistinctKeys(t)
    requires forall i :: 0 <= i < |t| ==> Justified(es, t[i])
    ensures forall i :: 0 <= i < |Step(t, e, |all|)| ==> Justified(all, Step(t, e, |all|)[i])
  {
    match e
    case None =>
      JustifiedKept(es, e, t);
    case Some(x) =>
      var f := Fact(x.key, x.value, |all|);
      if HasKey(t, x.key) {
        var p := IndexOfKey(t, x.key);
        JustifiedReplace(es, t, x, p, t[p := f]);
      } else {
        JustifiedAppend(es, t, x, t + [f]);
      }
  }

  /** The keys of the table are distinct and are exactly the keys some entry assigns. */
  lemma {:induction false} BuildKeys(es: seq<Option<Entry>>)
    ensures DistinctKeys(Build(es))
    ensures forall k :: HasKey(Build(es), k) <==> FirstDefining(es, k) < |es|
    decreases |es|
  {
    if es != [] {
      var init := es[..|es| - 1];
      var e := es[|es| - 1];
      assert es == init + [e];
      BuildKeys(init);
      forall k ensures FirstDefining(es, k) < |es| <==> FirstDefining(init, k) < |init| || Defines(e, k) {
        FirstDefiningSnoc(init, e, k);
      }
      match e
      case None =>
      case Some(x) =>
        AssignDistinct(Build(init), Fact(x.key, x.value, |es|));
    }
  }

  /**
   * Every recorded fact comes from the last entry that assigns its key: a
   * repeated key takes the value and line of its last assignment.
   */
  lemma {:induction false} BuildJustified(es: seq<Option<Entry>>)
    ensures forall i :: 0 <= i < |Build(es)| ==> Justified(es, Build(es)[i])
    decreases |es|
  {
    if es != [] {
      var init := es[..|es| - 1];
      assert es == init + [es[|es| - 1]];
      BuildJustified(init);
      BuildKeys(init);
      StepJustified(init, es[|es| - 1], es, Build(init));
    }
  }

  /** Keys already assigned keep their first defining line when an entry is added. */
  lemma FirstDefiningKept(es: seq<Option<Entry>>, e: Option<Entry>, all: seq<Option<Entry>>, t: Table)
    requires all == es + [e]
    requires forall k :: HasKey(t, k) <==> FirstDefining(es, k) < |es|
    ensures forall i :: 0 <= i < |t| ==> FirstDefining(all, t[i].key) == FirstDefining(es, t[i].key) < |es|
  {
    forall i | 0 <= i < |t| ensures FirstDefining(all, t[i].key) == FirstDefining(es, t[i].key) < |es| {
      assert HasKey(t, t[i].key);
      FirstDefiningSnoc(es, e, t[i].key);
    }
  }

  /** The keys of `t` appear in the order of their first assignment. */
  ghost predicate FirstSeenOrder(es: seq<Option<Entry>>, t: Table) {
    forall i, j :: 0 <= i < j < |t| ==> FirstDefining(es, t[i].key) < FirstDefining(es, t[j].key)
  }

  /** A table with the same keys in the same places keeps the order. */
  lemma OrderSameKeys(es: seq<Option<Entry>>, all: seq<Option<Entry>>, t: Table, r: Table)
    requires FirstSeenOrder(es, t)
    requires forall i :: 0 <= i < |t| ==> FirstDefining(all, t[i].key) == FirstDefining(es, t[i].key)
    requires |r| == |t| && forall i :: 0 <= i < |t| ==> r[i].key == t[i].key
    ensures FirstSeenOrder(all, r)
  {
  }

  /** Appending an element of higher rank than all others keeps ranks increasing. */
  lemma AppendHighest<T>(t: seq<T>, x: T, rank: T -> int)
    requires forall i, j :: 0 <= i < j < |t| ==> rank(t[i]) < rank(t[j])
    requires forall i :: 0 <= i < |t| ==> rank(t[i]) < rank(x)
    ensures forall i, j :: 0 <= i < j < |t + [x]| ==> rank((t + [x])[i]) < rank((t + [x])[j])
  {
    var r := t + [x];
    forall i, j | 0 <= i < j < |r| ensures rank(r[i]) < rank(r[j]) {
      assert r[i] == t[i];
      if j < |t| {
        assert r[j] == t[j];
      }
    }
  }

  /** A key first assigned by the new last entry goes last. */
  lemma OrderAppend(es: seq<Option<Entry>>, all: seq<Option<Entry>>, t: Table, f: Fact)
    requires FirstSeenOrder(es, t)
    requires forall i :: 0 <= i < |t| ==> FirstDefining(all, t[i].key) == FirstDefining(es, t[i].key) < |es|
    requires FirstDefining(all, f.key) == |es|
    ensures FirstSeenOrder(all, t + [f])
  {
    AppendHighest(t, f, (g: Fact) => FirstDefining(all, g.key));
  }

  /** One more entry keeps the table in first-assignment order. */
  lemma StepOrder(es: seq<Option<Entry>>, e: Option<Entry>, all: seq<Option<Entry>>, t: Table)
    requires all == es + [e]
    requires forall k :: HasKey(t, k) <==> FirstDefining(es, k) < |es|
    requires FirstSeenOrder(es, t)
    ensures FirstSeenOrder(all, Step(t, e, |all|))
  {
    FirstDefiningKept(es, e, all, t);
    match e
    case None =>
      OrderSameKeys(es, all, t, t);
    case Some(x) =>
      var f := Fact(x.key, x.value, |all|);
      if HasKey(t, x.key) {
        var p := IndexOfKey(t, x.key);
        OrderSameKeys(es, all, t, t[p := f]);
      } else {
        FirstDefiningSnoc(es, e, x.key);
        OrderAppend(es, all, t, f);
      }
  }

  /**
   * The table lists keys in the order of the lines that first assign them: a
   * repeated key keeps its first-seen position.
   */
  lemma {:induction false} BuildOrder(es: seq<Option<Entry>>)
    ensures FirstSeenOrder(es, Build(es))
    decreases |es|
  {
    if es != [] {
      var init := es[..|es| - 1];
      assert es == init + [es[|es| - 1]];
      BuildOrder(init);
      BuildKeys(init);
      StepOrder(init, es[|es| - 1], es, Build(init));
    }
  }

  /** `key=value` with a bare key and a trimmed value splits at the `=`. */
  lemma AssignmentRendered(k: string, v: string)
    requires k != [] && k[0] != '#'
    requires forall c :: 0 <= c < |k| ==> k[c] != '='
    ensures Assignment(k + "=" + v) == Some(Entry(Strip(k), Unquote(Strip(v))))
  {
    var line := SplitAround(k, '=', v);
    IndexOfAfter(k, "=" + v, '=');
  }

  /** The pieces around position `|a|` of `a + [c] + b`. */
  lemma SplitAround(a: string, c: char, b: string) returns (s: string)
    ensures s == a + [c] + b && s == a + ([c] + b)
    ensures |s| == |a| + 1 + |b| && s[0..|a|] == a && s[|a|] == c && s[|a| + 1..] == b
  {
    s := a + [c] + b;
    assert s[0..|a|] == a;
    assert s[|a| + 1..] == b;
  }

  /** A line written as `key=value` reads back as that key and value. */
  lemma ParseLineRendered(k: string, v: string)
    requires k != [] && !IsSpace(k[0]) && !IsSpace(k[|k| - 1]) && k[0] != '#'
    requires forall c :: 0 <= c < |k| ==> k[c] != '='
    requires v == [] || (!IsSpace(v[0]) && !IsSpace(v[|v| - 1]))
    ensures ParseLine(k + "=" + v) == Some(Entry(k, Unquote(v)))
  {
    var line := k + "=" + v;
    assert line[0] == k[0];
    assert line[|line| - 1] == if v == [] then '=' else v[|v| - 1];
    StripFixed(line);
    AssignmentRendered(k, v);
    StripFixed(k);
    StripFixed(v);
  }

  /** The value keeps every `=` after the first; only surrounding quotes go. */
  lemma ParseLineQuoted(k: string, v: string, q: char)
    requires k != [] && !IsSpace(k[0]) && !IsSpace(k[|k| - 1]) && k[0] != '#'
    requires forall c :: 0 <= c < |k| ==> k[c] != '='
    requires q == '"' || q == '\''
    ensures ParseLine(k + "=" + [q] + v + [q]) == Some(Entry(k, v))
  {
    var w := [q] + v + [q];
    assert k + "=" + [q] + v + [q] == k + "=" + w;
    ParseLineRendered(k, w);
    assert w[1..|w| - 1] == v;
  }

  /** A lone quote character as the value reads back as the empty value. */
  lemma ParseLineLoneQuote(k: string, q: char)
    requires k != [] && !IsSpace(k[0]) && !IsSpace(k[|k| - 1]) && k[0] != '#'
    requires forall c :: 0 <= c < |k| ==> k[c] != '='
    requires q == '"' || q == '\''
    ensures ParseLine(k + "=" + [q]) == Some(Entry(k, ""))
  {
    ParseLineRendered(k, [q]);
  }

  /** Comments and blank lines are skipped and three assignments give three facts. */
  lemma ExampleBasic()
    ensures Parsed(["", "# Comment", "APP_NAME" + "=" + "myapp",
                    "DATABASE_URL" + "=" + "postgresql://localhost/db", "DEBUG" + "=" + "true"])
      == [Fact("APP_NAME", "myapp", 3), Fact("DATABASE_URL", "postgresql://localhost/db", 4), Fact("DEBUG", "true", 5)]
  {
    var lines := ["", "# Comment", "APP_NAME" + "=" + "myapp",
                  "DATABASE_URL" + "=" + "postgresql://localhost/db", "DEBUG" + "=" + "true"];
    var x, y, z := Entry("APP_NAME", "myapp"), Entry("DATABASE_URL", "postgresql://localhost/db"), Entry("DEBUG", "true");
    var es := Entries(lines);
    assert es == [None, None, Some(x), Some(y), Some(z)] by {
      MapFive(ParseLine, lines);
      ExampleBasicLines();
    }
    ExampleBasicKeys();
    ExampleBasicTable(es, x, y, z);
  }

  lemma ExampleBasicKeys()
    ensures "APP_NAME" != "DATABASE_URL" && "APP_NAME" != "DEBUG" && "DATABASE_URL" != "DEBUG"
  {
    assert "APP_NAME"[0] != "DATABASE_URL"[0] && "APP_NAME"[0] != "DEBUG"[0] && "DATABASE_URL"[1] != "DEBUG"[1];
  }

  lemma ExampleBasicLines()
    ensures ParseLine("") == None && ParseLine("# Comment") == None
    ensures ParseLine("APP_NAME" + "=" + "myapp") == Some(Entry("APP_NAME", "myapp"))
    ensures ParseLine("DATABASE_URL" + "=" + "postgresql://localhost/db") == Some(Entry("DATABASE_URL", "postgresql://localhost/db"))
    ensures ParseLine("DEBUG" + "=" + "true") == Some(Entry("DEBUG", "true"))
  {
    StripFixed("# Comment");
    ExampleAppName();
    ExampleDatabaseUrl();
    ExampleDebug();
  }

  lemma ExampleAppName()
    ensures ParseLine("APP_NAME" + "=" + "myapp") == Some(Entry("APP_NAME", "myapp"))
  {
    ParseLineRendered("APP_NAME", "myapp");
  }

  lemma ExampleDatabaseUrl()
    ensures ParseLine("DATABASE_URL" + "=" + "postgresql://localhost/db") == Some(Entry("DATABASE_URL", "postgresql://localhost/db"))
  {
    ParseLineRendered("DATABASE_URL", "postgresql://localhost/db");
  }

  lemma ExampleDebug()
    ensures ParseLine("DEBUG" + "=" + "true") == Some(Entry("DEBUG", "true"))
  {
    ParseLineRendered("DEBUG", "true");
  }

  lemma ExampleBasicTable(es: seq<Option<Entry>>, x: Entry, y: Entry, z: Entry)
    requires es == [None, None, Some(x), Some(y), Some(z)]
    requires x.key != y.key && x.key != z.key && y.key != z.key
    ensures Build(es) == [Fact(x.key, x.value, 3), Fact(y.key, y.value, 4), Fact(z.key, z.value, 5)]
  {
    var a := Fact(x.key, x.value, 3);
    var d := Fact(y.key, y.value, 4);
    var e2: seq<Option<Entry>> := [None, None];
    BuildSnoc([None], None);
    assert [None] + [None] == e2;
    BuildSnoc(e2, Some(x));
    BuildSnoc(e2 + [Some(x)], Some(y));
    AssignNew([a], d);
    BuildSnoc(e2 + [Some(x)] + [Some(y)], Some(z));
    AssignNew([a, d], Fact(z.key, z.value, 5));
    assert e2 + [Some(x)] + [Some(y)] + [Some(z)] == es;
  }

  /** A key that no entry of the table has is appended. */
  lemma AssignNew(t: Table, f: Fact)
    requires forall i :: 0 <= i < |t| ==> t[i].key != f.key
    ensures Assign(t, f) == t + [f]
  {
  }

  /** Both kinds of quotes are removed from a quoted value. */
  lemma ExampleQuotes()
    ensures Parsed(["SECRET_KEY" + "=" + ['"'] + "my secret value" + ['"'], "API_KEY" + "=" + ['\''] + "another-key" + ['\'']])
      == [Fact("SECRET_KEY", "my secret value", 1), Fact("API_KEY", "another-key", 2)]
  {
    var lines := ["SECRET_KEY" + "=" + ['"'] + "my secret value" + ['"'], "API_KEY" + "=" + ['\''] + "another-key" + ['\'']];
    MapTwo(ParseLine, lines);
    ExampleSecretKey();
    ExampleApiKey();
    ExampleQuotesTable([Some(Entry("SECRET_KEY", "my secret value")), Some(Entry("API_KEY", "another-key"))]);
  }

  lemma ExampleSecretKey()
    ensures ParseLine("SECRET_KEY" + "=" + ['"'] + "my secret value" + ['"']) == Some(Entry("SECRET_KEY", "my secret value"))
  {
    ParseLineQuoted("SECRET_KEY", "my secret value", '"');
  }

  lemma ExampleApiKey()
    ensures ParseLine("API_KEY" + "=" + ['\''] + "another-key" + ['\'']) == Some(Entry("API_KEY", "another-key"))
  {
    ParseLineQuoted("API_KEY", "another-key", '\'');
  }

  lemma ExampleQuotesTable(es: seq<Option<Entry>>)
    requires es == [Some(Entry("SECRET_KEY", "my secret value")), Some(Entry("API_KEY", "another-key"))]
    ensures Build(es) == [Fact("SECRET_KEY", "my secret value", 1), Fact("API_KEY", "another-key", 2)]
  {
    BuildPrefix(es, 0);
    BuildPrefix(es, 1);
    assert es[..2] == es;
  }

  /** Blank lines between and around two assignments give two facts on lines 3 and 6. */
  lemma ExampleBlankLines()
    ensures Parsed(["", "", "VAR1" + "=" + "value1", "", "", "VAR2" + "=" + "value2", ""])
      == [Fact("VAR1", "value1", 3), Fact("VAR2", "value2", 6)]
  {
    var lines := ["", "", "VAR1" + "=" + "value1", "", "", "VAR2" + "=" + "value2", ""];
    var x, y := Entry("VAR1", "value1"), Entry("VAR2", "value2");
    var es := Entries(lines);
    assert es == [None, None, Some(x), None, None, Some(y), None] by {
      MapSeven(ParseLine, lines);
      ExampleBlankLinesParsed();
    }
    assert x.key[3] != y.key[3];
    ExampleBlankTable(es, x, y);
  }

  lemma ExampleBlankLinesParsed()
    ensures ParseLine("") == None
    ensures ParseLine("VAR1" + "=" + "value1") == Some(Entry("VAR1", "value1"))
    ensures ParseLine("VAR2" + "=" + "value2") == Some(Entry("VAR2", "value2"))
  {
    ParseLineRendered("VAR1", "value1");
    ExampleVar2();
  }

  lemma ExampleVar2()
    ensures ParseLine("VAR2" + "=" + "value2") == Some(Entry("VAR2", "value2"))
  {
    ParseLineRendered("VAR2", "value2");
  }

  lemma ExampleBlankTable(es: seq<Option<Entry>>, x: Entry, y: Entry)
    requires es == [None, None, Some(x), None, None, Some(y), None]
    requires x.key != y.key
    ensures Build(es) == [Fact(x.key, x.value, 3), Fact(y.key, y.value, 6)]
  {
    var a := Fact(x.key, x.value, 3);
    var b := Fact(y.key, y.value, 6);
    var p2: seq<Option<Entry>> := [None, None];
    BuildSnoc([None], None);
    assert [None] + [None] == p2;
    var p3 := p2 + [Some(x)];
    BuildSnoc(p2, Some(x));
    var p5 := p3 + [None] + [None];
    BuildSnoc(p3, None);
    BuildSnoc(p3 + [None], None);
    assert Build(p5) == [a];
    BuildSnoc(p5, Some(y));
    AssignNew([a], b);
    BuildSnoc(p5 + [Some(y)], None);
    assert p5 + [Some(y)] + [None] == es;
  }
}
