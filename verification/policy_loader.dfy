/**
 * The policy loader (`PolicyLoader.load` and `_validate_policy`): a parsed
 * YAML document is accepted unchanged when it has the policy shape, and
 * otherwise rejected with the first problem found.
 */
module PolicyLoader {
  import opened Base
  import opened Json

  /** The top-level sections a policy may have. */
  const Sections: set<string> := {"required", "forbidden", "patterns", "metadata"}

  /** Why a policy document is rejected, in the order the checks run. */
  datatype PolicyError =
    | Empty                                     // the document is null
    | NotMapping(typeName: string)              // `policy.keys()` fails
    | InvalidSection(name: string)
    | NotAList(section: string)
    | ItemNotString(section: string)
    | PatternNotMapping
    | MissingRegex
    | RegexNotString
    | InvalidRegex(regex: string, reason: string)

  /** Python's `type(v).__name__` for a loaded YAML value. */
  function TypeName(v: Value): string {
    match v
    case Null => "NoneType"
    case Bool(_) => "bool"
    case Num(_) => "int"
    case Str(_) => "str"
    case Arr(_) => "list"
    case Obj(_) => "dict"
  }

  /**
   * The text of the `ValueError` that `load` raises. Every failure inside the
   * `try`, the empty-document one included, is caught by the generic handler
   * and re-raised with the "Error loading policy: " prefix.
   */
  function Message(e: PolicyError): string {
    "Error loading policy: " +
    match e
    case Empty => "Policy file is empty"
    case NotMapping(t) => "'" + t + "' object has no attribute 'keys'"
    case InvalidSection(n) => "Invalid policy section: " + n
    case NotAList(s) => "'" + s + "' section must be a list"
    case ItemNotString(s) => "Items in '" + s + "' must be strings"
    case PatternNotMapping => "Items in 'patterns' must be dictionaries"
    case MissingRegex => "Pattern must have 'regex' field"
    case RegexNotString => "Pattern 'regex' must be a string"
    case InvalidRegex(r, why) => "Invalid regex pattern '" + r + "': " + why
  }

  /** The first section name that is not allowed, if any. */
  function CheckSections(names: seq<string>): Option<PolicyError> {
    if names == [] then None
    else if names[0] !in Sections then Some(InvalidSection(names[0]))
    else CheckSections(names[1..])
  }

  /** The check of a `required` or `forbidden` section: absent, or a list of strings. */
  function CheckStrings(found: Option<Value>, section: string): Option<PolicyError> {
    match found
    case None => None
    case Some(Arr(items)) =>
      if forall i :: 0 <= i < |items| ==> items[i].Str? then None else Some(ItemNotString(section))
    case Some(_) => Some(NotAList(section))
  }

  /**
   * The check of one pattern entry. `compileError(r)` is the message of the
   * `re.error` that compiling `r` raises, or `None` when `r` compiles.
   */
  function CheckPattern(p: Value, compileError: string -> Option<string>): Option<PolicyError> {
    if !p.Obj? then Some(PatternNotMapping)
    else
      match Get(p.members, "regex")
      case None => Some(MissingRegex)
      case Some(Str(r)) => (match compileError(r) case None => None case Some(why) => Some(InvalidRegex(r, why)))
      case Some(_) => Some(RegexNotString)
  }

  /** The first failing pattern entry, in list order. */
  function CheckPatterns(ps: seq<Value>, compileError: string -> Option<string>): Option<PolicyError> {
    if ps == [] then None
    else if CheckPattern(ps[0], compileError).Some? then CheckPattern(ps[0], compileError)
    else CheckPatterns(ps[1..], compileError)
  }

  function CheckPatternSection(found: Option<Value>, compileError: string -> Option<string>): Option<PolicyError> {
    match found
    case None => None
    case Some(Arr(ps)) => CheckPatterns(ps, compileError)
    case Some(_) => Some(NotAList("patterns"))
  }

  /** `_validate_policy`: the first problem, checked section names first, then required, forbidden, patterns. */
  function Validate(v: Value, compileError: string -> Option<string>): Option<PolicyError> {
    if !v.Obj? then Some(NotMapping(TypeName(v)))
    else
      var ms := v.members;
      Verdict(Names(ms), Get(ms, "required"), Get(ms, "forbidden"), Get(ms, "patterns"), compileError)
  }

  /** The checks of `_validate_policy` on a mapping, given its names and its three checked sections. */
  function Verdict(names: seq<string>, required: Option<Value>, forbidden: Option<Value>, patterns: Option<Value>,
                   compileError: string -> Option<string>): Option<PolicyError> {
    if CheckSections(names).Some? then CheckSections(names)
    else if CheckStrings(required, "required").Some? then CheckStrings(required, "required")
    else if CheckStrings(forbidden, "forbidden").Some? then CheckStrings(forbidden, "forbidden")
    else CheckPatternSection(patterns, compileError)
  }

  /** `PolicyLoader.load` after the YAML parse: the document itself, or the reason it is rejected. */
  function Load(doc: Value, compileError: string -> Option<string>): (r: Result<Value, PolicyError>)
    ensures r.Ok? ==> r.value == doc
    ensures doc.Null? ==> r == Err(Empty)
  {
    if doc.Null? then Err(Empty)
    else
      match Validate(doc, compileError)
      case None => Ok(doc)
      case Some(e) => Err(e)
  }

  // ----- The accepted shape, stated independently of the check order -----

  /** A section that is absent or a list of strings. */
  ghost predicate StringList(ms: seq<Member>, section: string) {
    var s := Get(ms, section);
    s.Some? ==> s.value.Arr? && forall i :: 0 <= i < |s.value.items| ==> s.value.items[i].Str?
  }

  /** A pattern entry: a mapping whose `regex` is a string that compiles. */
  ghost predicate GoodPattern(p: Value, compileError: string -> Option<string>) {
    p.Obj? && Get(p.members, "regex").Some? && Get(p.members, "regex").value.Str?
    && compileError(Get(p.members, "regex").value.s).None?
  }

  /** A `patterns` section that is absent or a list of good pattern entries. */
  ghost predicate PatternList(ms: seq<Member>, compileError: string -> Option<string>) {
    var s := Get(ms, "patterns");
    s.Some? ==> s.value.Arr? && forall i :: 0 <= i < |s.value.items| ==> GoodPattern(s.value.items[i], compileError)
  }

  /** The shape of a valid policy document. */
  ghost predicate WellFormed(v: Value, compileError: string -> Option<string>) {
    && v.Obj?
    && (forall i :: 0 <= i < |v.members| ==> v.members[i].name in Sections)
    && StringList(v.members, "required")
    && StringList(v.members, "forbidden")
    && PatternList(v.members, compileError)
  }

  lemma {:induction false} CheckSectionsNone(names: seq<string>)
    ensures CheckSections(names).None? <==> forall i :: 0 <= i < |names| ==> names[i] in Sections
  {
    if names != [] {
      CheckSectionsNone(names[1..]);
      assert forall i :: 1 <= i < |names| ==> names[i] == names[1..][i - 1];
    }
  }

  lemma {:induction false} CheckPatternsNone(ps: seq<Value>, compileError: string -> Option<string>)
    ensures CheckPatterns(ps, compileError).None? <==> forall i :: 0 <= i < |ps| ==> GoodPattern(ps[i], compileError)
  {
    if ps != [] {
      CheckPatternsNone(ps[1..], compileError);
      assert forall i :: 1 <= i < |ps| ==> ps[i] == ps[1..][i - 1];
    }
  }

  /** A document is loaded iff it is not null and has the policy shape. */
  lemma LoadAccepts(doc: Value, compileError: string -> Option<string>)
    ensures Load(doc, compileError).Ok? <==> !doc.Null? && WellFormed(doc, compileError)
  {
    if doc.Obj? {
      var ms := doc.members;
      CheckSectionsNone(Names(ms));
      StringsNone(ms, "required");
      StringsNone(ms, "forbidden");
      PatternSectionNone(ms, compileError);
    }
  }

  lemma StringsNone(ms: seq<Member>, section: string)
    ensures CheckStrings(Get(ms, section), section).None? <==> StringList(ms, section)
  {
  }

  lemma PatternSectionNone(ms: seq<Member>, compileError: string -> Option<string>)
    ensures CheckPatternSection(Get(ms, "patterns"), compileError).None? <==> PatternList(ms, compileError)
  {
    var p := Get(ms, "patterns");
    if p.Some? && p.value.Arr? {
      CheckPatternsNone(p.value.items, compileError);
    }
  }

  /** The `metadata` section is never inspected: replacing its value does not change the verdict. */
  lemma MetadataIgnored(ms: seq<Member>, m: Value, compileError: string -> Option<string>)
    ensures Validate(Obj(Put(ms, "metadata", m)), compileError) == Validate(Obj(ms), compileError)
  {
    GetPut(ms, "metadata", m, "required");
    GetPut(ms, "metadata", m, "forbidden");
    GetPut(ms, "metadata", m, "patterns");
  }

  /** A reported bad section names a top-level key of the document that is not allowed. */
  lemma {:induction false} InvalidSectionNamed(names: seq<string>)
    requires CheckSections(names).Some?
    ensures CheckSections(names).value.InvalidSection?
    ensures CheckSections(names).value.name in names && CheckSections(names).value.name !in Sections
  {
    if names[0] in Sections {
      InvalidSectionNamed(names[1..]);
    }
  }

  /** A reported bad regex is the `regex` of one of the pattern entries, and it does not compile. */
  lemma {:induction false} InvalidRegexNamed(ps: seq<Value>, compileError: string -> Option<string>, r: string, why: string)
    requires CheckPatterns(ps, compileError) == Some(InvalidRegex(r, why))
    ensures compileError(r) == Some(why)
    ensures exists i :: 0 <= i < |ps| && ps[i].Obj? && Get(ps[i].members, "regex") == Some(Str(r))
  {
    if CheckPattern(ps[0], compileError).None? {
      InvalidRegexNamed(ps[1..], compileError, r, why);
      var i :| 0 <= i < |ps[1..]| && ps[1..][i].Obj? && Get(ps[1..][i].members, "regex") == Some(Str(r));
      assert ps[i + 1] == ps[1..][i];
    } else {
      assert ps[0].Obj? && Get(ps[0].members, "regex") == Some(Str(r));
    }
  }

  // ----- The typed view the policy engine works on -----

  /** One `patterns` entry: its regex and, when they are strings, its action and message. */
  datatype PatternRule = PatternRule(regex: string, action: Option<string>, message: Option<string>)

  /** A loaded policy; an absent section reads as an empty list. */
  datatype Policy = Policy(required: seq<string>, forbidden: seq<string>, patterns: seq<PatternRule>)

  /** The string held by `name`, if it is present and a string. */
  function StringAt(ms: seq<Member>, name: string): Option<string> {
    match Get(ms, name)
    case Some(Str(s)) => Some(s)
    case _ => None
  }

  function StringsOf(ms: seq<Member>, section: string): (r: seq<string>)
    ensures Get(ms, section).Some? && Get(ms, section).value.Arr? ==> |r| == |Get(ms, section).value.items|
  {
    match Get(ms, section)
    case Some(Arr(items)) => seq(|items|, i requires 0 <= i < |items| => if items[i].Str? then items[i].s else "")
    case _ => []
  }

  function RuleOf(p: Value): PatternRule {
    if p.Obj? then PatternRule(StringAt(p.members, "regex").GetOr(""), StringAt(p.members, "action"), StringAt(p.members, "message"))
    else PatternRule("", None, None)
  }

  /** The accepted document read as a typed policy. */
  function Decode(v: Value): (r: Policy)
    requires v.Obj?
  {
    var ms := v.members;
    var ps := match Get(ms, "patterns") case Some(Arr(items)) => items case _ => [];
    Policy(StringsOf(ms, "required"), StringsOf(ms, "forbidden"), seq(|ps|, i requires 0 <= i < |ps| => RuleOf(ps[i])))
  }

  /** Decoding a loaded policy keeps every required and forbidden name and, entry by entry, every pattern's regex. */
  lemma DecodeFaithful(v: Value, compileError: string -> Option<string>)
    requires WellFormed(v, compileError)
    ensures forall s :: s in Decode(v).required <==> Get(v.members, "required").Some? && Str(s) in Get(v.members, "required").value.items
    ensures forall s :: s in Decode(v).forbidden <==> Get(v.members, "forbidden").Some? && Str(s) in Get(v.members, "forbidden").value.items
    ensures var ps := Get(v.members, "patterns");
            ps.Some? ==> |Decode(v).patterns| == |ps.value.items| && forall i :: 0 <= i < |ps.value.items| ==> Get(ps.value.items[i].members, "regex") == Some(Str(Decode(v).patterns[i].regex))
    ensures Get(v.members, "patterns").None? ==> Decode(v).patterns == []
  {
    DecodeStrings(v.members, "required");
    DecodeStrings(v.members, "forbidden");
    var ps := Get(v.members, "patterns");
    if ps.Some? {
      var items := ps.value.items;
      forall i | 0 <= i < |items|
        ensures Get(items[i].members, "regex") == Some(Str(Decode(v).patterns[i].regex))
      {
        assert GoodPattern(items[i], compileError);
        assert Decode(v).patterns[i] == RuleOf(items[i]);
      }
    }
  }

  lemma DecodeStrings(ms: seq<Member>, section: string)
    requires StringList(ms, section)
    ensures forall s :: s in StringsOf(ms, section) <==> Get(ms, section).Some? && Str(s) in Get(ms, section).value.items
  {
    if Get(ms, section).Some? {
      var items := Get(ms, section).value.items;
      forall s ensures s in StringsOf(ms, section) <==> Str(s) in items {
        if s in StringsOf(ms, section) {
          var i :| 0 <= i < |items| && StringsOf(ms, section)[i] == s;
          assert items[i] == Str(s);
        }
        if Str(s) in items {
          var i :| 0 <= i < |items| && items[i] == Str(s);
          assert StringsOf(ms, section)[i] == s;
        }
      }
    }
  }

  /** A two-section policy like the one in the loader's tests is returned as written. */
  lemma ExampleValid(compileError: string -> Option<string>)
    ensures var doc := Obj([Member("required", Arr([Str("APP_NAME"), Str("DATABASE_URL")])),
                            Member("forbidden", Arr([Str("DEBUG")]))]);
            Load(doc, compileError) == Ok(doc)
  {
    var ms := [Member("required", Arr([Str("APP_NAME"), Str("DATABASE_URL")])), Member("forbidden", Arr([Str("DEBUG")]))];
    var names: seq<string> := ["required", "forbidden"];
    assert Names(ms) == names;
    assert names[1..] == ["forbidden"];
    assert CheckSections(names[1..]) == None;
  }

  /** An unknown section is rejected, and `required` that is not a list is rejected. */
  lemma ExampleRejected(compileError: string -> Option<string>)
    ensures Load(Obj([Member("invalid_section", Arr([Str("value")]))]), compileError) == Err(InvalidSection("invalid_section"))
    ensures Load(Obj([Member("required", Str("not_a_list"))]), compileError) == Err(NotAList("required"))
  {
    assert CheckSections(Names([Member("required", Str("not_a_list"))])) == None;
  }
}
