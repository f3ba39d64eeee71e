/**
 * The sensitive-word pattern of the pipeline-A `Sanitizer` and its text
 * redaction (`_is_sensitive_key` and `_sanitize_text`). Both regular
 * expressions are matched with IGNORECASE; the scanners below follow the
 * leftmost-match, continue-after-the-match order of Python's `re.sub`.
 * Case folding and `\b` cover ASCII letters, digits and `_` only.
 */
module SensitiveText {
  import opened Base
  import opened Text

  /** The alternatives of `SENSITIVE_PATTERNS` other than `api[_-]?key`. */
  const Words: seq<string> := ["password", "secret", "token", "key", "auth", "credential", "private", "passphrase"]

  /** The lower-case word `w` occurs at `p` of `t`, ignoring ASCII case. */
  predicate CiAt(t: string, p: nat, w: string) {
    p + |w| <= |t| && Lower(t[p..p + |w|]) == w
  }

  /** The alternative `api[_-]?key` matches at `p`. */
  predicate ApiKeyAt(t: string, p: nat) {
    CiAt(t, p, "api") && (CiAt(t, p + 3, "key") || (p + 3 < |t| && (t[p + 3] == '_' || t[p + 3] == '-') && CiAt(t, p + 4, "key")))
  }

  /** Some alternative of the sensitive-word pattern matches at `p`. */
  predicate WordAt(t: string, p: nat) {
    (exists i :: 0 <= i < |Words| && CiAt(t, p, Words[i])) || ApiKeyAt(t, p)
  }

  /** `_is_sensitive_key`: the pattern is found somewhere in the key (`re.search`). */
  predicate IsSensitiveKey(k: string) {
    exists p :: 0 <= p < |k| && WordAt(k, p)
  }

  /** A character of the regex class `\w`. */
  predicate IsWordChar(c: char) {
    'a' <= c <= 'z' || 'A' <= c <= 'Z' || '0' <= c <= '9' || c == '_'
  }

  predicate IsQuote(c: char) {
    c == '"' || c == '\''
  }

  /** `\b` before position `p` when `t[p]` is a word character. */
  predicate WordStart(t: string, p: nat) {
    p == 0 || (p <= |t| && !IsWordChar(t[p - 1]))
  }

  /** The first index from `i` on whose character satisfies `stop`, or `|t|`. */
  function Until(t: string, i: nat, stop: char -> bool): (j: nat)
    requires i <= |t|
    ensures i <= j <= |t|
    decreases |t| - i
  {
    if i == |t| || stop(t[i]) then i else Until(t, i + 1, stop)
  }

  /** `\s*` from `i`: the first index that is not white space. */
  function SkipSpace(t: string, i: nat): (j: nat)
    requires i <= |t|
    ensures i <= j <= |t|
  {
    Until(t, i, NotSpace)
  }

  predicate NotSpace(c: char) {
    !IsSpace(c)
  }

  predicate KeyStop(c: char) {
    c == '=' || IsSpace(c)
  }

  predicate ValueStop(c: char) {
    IsQuote(c) || IsSpace(c) || c == ',' || c == ';'
  }

  /** Where a match's first group ends and where the whole match ends. */
  datatype Span = Span(groupEnd: nat, end: nat)

  /**
   * The first substitution's pattern, `\b(word)[^=\s]*\s*=\s*["']?([^"'\s,;]+)["']?`,
   * tried at `p`. Every quantifier in it stops at the first character it cannot
   * take, so no backtracking can change the outcome.
   */
  function AssignmentAt(t: string, p: nat): (m: Option<Span>)
    requires p < |t|
    ensures m.Some? ==> p <= m.value.groupEnd < m.value.end <= |t|
  {
    if !(WordStart(t, p) && WordAt(t, p)) then None
    else
      var g := Until(t, p, KeyStop);
      var a := SkipSpace(t, g);
      if a == |t| || t[a] != '=' then None
      else
        match ValueEnd(t, a + 1)
        case None => None
        case Some(e) => Some(Span(g, e))
  }

  /** `\s*["']?([^"'\s,;]+)["']?` from `i`: where it ends, if it matches. */
  function ValueEnd(t: string, i: nat): (e: Option<nat>)
    requires i <= |t|
    ensures e.Some? ==> i < e.value <= |t|
  {
    var b := SkipSpace(t, i);
    var c := if b < |t| && IsQuote(t[b]) then b + 1 else b;
    var d := Until(t, c, ValueStop);
    if d == c then None
    else Some(if d < |t| && IsQuote(t[d]) then d + 1 else d)
  }

  /** The first `re.sub`: each `KEY=value` becomes `KEY=<redaction>`, scanning `t` from `p`. */
  function RedactAssignments(red: string, t: string, p: nat): string
    requires p <= |t|
    decreases |t| - p
  {
    if p == |t| then ""
    else
      match AssignmentAt(t, p)
      case Some(m) => t[p..m.groupEnd] + "=" + red + RedactAssignments(red, t, m.end)
      case None => [t[p]] + RedactAssignments(red, t, p + 1)
  }

  /**
   * The second substitution's pattern, `["'](word)[^"']*["']\s*:\s*["']([^"']+)["']`,
   * tried at `p`; the first group ends at the value's opening quote.
   */
  function QuotedPairAt(t: string, p: nat): (m: Option<Span>)
    requires p < |t|
    ensures m.Some? ==> p < m.value.groupEnd < m.value.end <= |t|
  {
    if !(IsQuote(t[p]) && WordAt(t, p + 1)) then None
    else
      var q := Until(t, p + 1, IsQuote);
      if q == |t| then None
      else
        var a := SkipSpace(t, q + 1);
        if a == |t| || t[a] != ':' then None
        else
          var b := SkipSpace(t, a + 1);
          if b == |t| || !IsQuote(t[b]) then None
          else
            var d := Until(t, b + 1, IsQuote);
            if d == b + 1 || d == |t| then None else Some(Span(b, d + 1))
  }

  /** The second `re.sub`: each `"key": "value"` gets the value `"<redaction>"`. */
  function RedactPairs(red: string, t: string, p: nat): string
    requires p <= |t|
    decreases |t| - p
  {
    if p == |t| then ""
    else
      match QuotedPairAt(t, p)
      case Some(m) => t[p..m.groupEnd] + "\"" + red + "\"" + RedactPairs(red, t, m.end)
      case None => [t[p]] + RedactPairs(red, t, p + 1)
  }

  /** `_sanitize_text`: both substitutions, in order. */
  function SanitizeText(red: string, text: string): string {
    var once := RedactAssignments(red, text, 0);
    RedactPairs(red, once, 0)
  }

  // ----- `_is_sensitive_key` is a plain substring test -----

  lemma LowerSlice(t: string, a: nat, b: nat)
    requires a <= b <= |t|
    ensures Lower(t[a..b]) == Lower(t)[a..b]
  {
  }

  /** A case-insensitive occurrence is an occurrence in the lower-cased text, and back. */
  lemma CiAtContains(t: string, w: string)
    ensures (exists p :: 0 <= p && CiAt(t, p, w)) <==> Contains(Lower(t), w)
  {
    if p :| 0 <= p && CiAt(t, p, w) {
      LowerSlice(t, p, p + |w|);
      ContainsAt(Lower(t), w, p);
    }
    if Contains(Lower(t), w) {
      var p := ContainsWitness(Lower(t), w);
      LowerSlice(t, p, p + |w|);
      assert CiAt(t, p, w);
    }
  }

  /**
   * A key is sensitive iff its lower-cased form contains one of the eight
   * words: the `api[_-]?key` alternative adds nothing, since it contains `key`.
   */
  lemma SensitiveIffWord(k: string)
    ensures IsSensitiveKey(k) <==> exists i :: 0 <= i < |Words| && Contains(Lower(k), Words[i])
  {
    if IsSensitiveKey(k) {
      var p :| 0 <= p < |k| && WordAt(k, p);
      if i :| 0 <= i < |Words| && CiAt(k, p, Words[i]) {
        CiAtContains(k, Words[i]);
      } else {
        var q := if CiAt(k, p + 3, "key") then p + 3 else p + 4;
        assert CiAt(k, q, Words[3]);
        CiAtContains(k, Words[3]);
      }
    }
    if i :| 0 <= i < |Words| && Contains(Lower(k), Words[i]) {
      CiAtContains(k, Words[i]);
      var p :| 0 <= p && CiAt(k, p, Words[i]);
      assert WordAt(k, p);
    }
  }

  // ----- What the redaction leaves alone and what it replaces -----

  /** Where no sensitive word starts at a `\b`, the first substitution changes nothing. */
  lemma {:induction false} AssignmentsNoWord(red: string, t: string, p: nat)
    requires p <= |t|
    requires forall q :: p <= q < |t| ==> !(WordStart(t, q) && WordAt(t, q))
    ensures RedactAssignments(red, t, p) == t[p..]
    decreases |t| - p
  {
    if p < |t| {
      AssignmentsNoWord(red, t, p + 1);
      assert t[p..] == [t[p]] + t[p + 1..];
    }
  }

  lemma {:induction false} PairsNoQuote(red: string, t: string, p: nat)
    requires p <= |t|
    requires forall q :: p <= q < |t| ==> !IsQuote(t[q])
    ensures RedactPairs(red, t, p) == t[p..]
    decreases |t| - p
  {
    if p < |t| {
      PairsNoQuote(red, t, p + 1);
      assert t[p..] == [t[p]] + t[p + 1..];
    }
  }

  lemma {:induction false} PairsNoWord(red: string, t: string, p: nat)
    requires p <= |t|
    requires forall q :: p <= q < |t| ==> !WordAt(t, q)
    ensures RedactPairs(red, t, p) == t[p..]
    decreases |t| - p
  {
    if p < |t| {
      PairsNoWord(red, t, p + 1);
      assert t[p..] == [t[p]] + t[p + 1..];
    }
  }

  /** Text in which no sensitive word occurs comes out unchanged. */
  lemma PlainTextUnchanged(red: string, text: string)
    requires !IsSensitiveKey(text)
    ensures SanitizeText(red, text) == text
  {
    AssignmentsNoWord(red, text, 0);
    PairsNoWord(red, text, 0);
  }

  /**
   * `\b` keeps a sensitive word that follows a word character from starting a
   * match: `DB_PASSWORD=x` passes the first substitution untouched, although
   * `DB_PASSWORD` is a sensitive key. So text without quotes whose every
   * sensitive word follows a word character comes out unchanged.
   */
  lemma GluedWordsUnchanged(red: string, text: string)
    requires forall q :: 0 <= q < |text| && WordAt(text, q) ==> !WordStart(text, q)
    requires forall q :: 0 <= q < |text| ==> !IsQuote(text[q])
    ensures SanitizeText(red, text) == text
  {
    AssignmentsNoWord(red, text, 0);
    PairsNoQuote(red, text, 0);
  }

  /** No alternative of the pattern begins with a letter other than `p`, `s`, `t`, `k`, `a` or `c`. */
  lemma NotWordAtByFirst(t: string, p: nat)
    requires p < |t|
    requires LowerChar(t[p]) !in "pstkac"
    ensures !WordAt(t, p)
  {
  }

  /** `DB_PASSWORD` is sensitive, yet `DB_PASSWORD=x` keeps its value. */
  lemma GluedKeyExample(red: string)
    ensures IsSensitiveKey("DB_PASSWORD")
    ensures SanitizeText(red, "DB_PASSWORD=x") == "DB_PASSWORD=x"
  {
    GluedKeySensitive();
    GluedKeyUnchanged(red);
  }

  lemma GluedKeySensitive()
    ensures IsSensitiveKey("DB_PASSWORD")
  {
    var k := "DB_PASSWORD";
    assert k[3..11] == "PASSWORD" && Lower("PASSWORD") == "password";
    assert CiAt(k, 3, Words[0]);
    assert WordAt(k, 3);
  }

  lemma GluedKeyUnchanged(red: string)
    ensures SanitizeText(red, "DB_PASSWORD=x") == "DB_PASSWORD=x"
  {
    var t := "DB_PASSWORD=x";
    assert forall q :: 0 <= q < 11 ==> IsWordChar(t[q]);
    assert forall q :: 0 <= q < |t| ==> !IsQuote(t[q]);
    NotWordAtByFirst(t, 0);
    NotWordAtByFirst(t, 12);
    GluedWordsUnchanged(red, t);
  }

  lemma {:induction false} UntilAt(t: string, i: nat, stop: char -> bool, j: nat)
    requires i <= j <= |t|
    requires forall k :: i <= k < j ==> !stop(t[k])
    requires j < |t| ==> stop(t[j])
    ensures Until(t, i, stop) == j
    decreases j - i
  {
    if i < j {
      UntilAt(t, i + 1, stop, j);
    }
  }

  lemma CiAtExtend(k: string, rest: string, p: nat, w: string)
    requires CiAt(k, p, w)
    ensures CiAt(k + rest, p, w)
  {
    assert (k + rest)[p..p + |w|] == k[p..p + |w|];
  }

  /** A sensitive word in front of the key is still one in front of the key and more. */
  lemma WordAtExtend(k: string, rest: string)
    requires WordAt(k, 0)
    ensures WordAt(k + rest, 0)
  {
    if i :| 0 <= i < |Words| && CiAt(k, 0, Words[i]) {
      CiAtExtend(k, rest, 0, Words[i]);
    } else {
      CiAtExtend(k, rest, 0, "api");
      if CiAt(k, 3, "key") {
        CiAtExtend(k, rest, 3, "key");
      } else {
        CiAtExtend(k, rest, 4, "key");
        assert (k + rest)[3] == k[3];
      }
    }
  }

  /**
   * An assignment `KEY=value` whose key starts with a sensitive word has its
   * value replaced by the redaction text, and nothing else changes.
   */
  lemma AssignmentRedacted(red: string, k: string, v: string)
    requires WordAt(k, 0)
    requires forall i :: 0 <= i < |k| ==> !KeyStop(k[i]) && !IsQuote(k[i])
    requires v != [] && forall i :: 0 <= i < |v| ==> !ValueStop(v[i])
    requires forall i :: 0 <= i < |red| ==> !IsQuote(red[i])
    ensures SanitizeText(red, k + "=" + v) == k + "=" + red
  {
    var t := k + "=" + v;
    AssignmentMatch(k, v);
    assert t[0..|k|] == k;
    var out := k + "=" + red;
    assert RedactAssignments(red, t, 0) == out;
    PairsNoQuote(red, out, 0);
  }

  /** The first pattern matches all of such an assignment, its group being the key. */
  lemma AssignmentMatch(k: string, v: string)
    requires WordAt(k, 0)
    requires forall i :: 0 <= i < |k| ==> !KeyStop(k[i])
    requires v != [] && forall i :: 0 <= i < |v| ==> !ValueStop(v[i])
    ensures AssignmentAt(k + "=" + v, 0) == Some(Span(|k|, |k| + 1 + |v|))
  {
    var t := k + "=" + v;
    assert k + ("=" + v) == t;
    WordAtExtend(k, "=" + v);
    KeyUntilEquals(k, v);
    AssignedValueEnd(k, v);
    AssignmentAtStart(t, |k|, |k| + 1 + |v|);
  }

  lemma AssignmentAtStart(t: string, g: nat, e: nat)
    requires WordAt(t, 0) && g < |t|
    requires Until(t, 0, KeyStop) == g && SkipSpace(t, g) == g && t[g] == '='
    requires ValueEnd(t, g + 1) == Some(e)
    ensures AssignmentAt(t, 0) == Some(Span(g, e))
  {
  }

  lemma AssignedValueEnd(k: string, v: string)
    requires v != [] && forall i :: 0 <= i < |v| ==> !ValueStop(v[i])
    ensures (k + "=" + v)[|k|] == '='
    ensures ValueEnd(k + "=" + v, |k| + 1) == Some(|k| + 1 + |v|)
  {
    var t := k + "=" + v;
    assert forall j :: |k| + 1 <= j < |t| ==> t[j] == v[j - |k| - 1];
    ValueEndPlain(t, |k| + 1);
  }

  lemma KeyUntilEquals(k: string, v: string)
    requires forall i :: 0 <= i < |k| ==> !KeyStop(k[i])
    ensures Until(k + "=" + v, 0, KeyStop) == |k| && SkipSpace(k + "=" + v, |k|) == |k|
  {
    var t := k + "=" + v;
    assert forall i :: 0 <= i < |k| ==> t[i] == k[i];
    UntilAt(t, 0, KeyStop, |k|);
    UntilAt(t, |k|, NotSpace, |k|);
  }

  /** A value of plain characters up to the end of the text is matched to the end. */
  lemma ValueEndPlain(t: string, i: nat)
    requires i < |t| && forall j :: i <= j < |t| ==> !ValueStop(t[j])
    ensures ValueEnd(t, i) == Some(|t|)
  {
    UntilAt(t, i, NotSpace, i);
    UntilAt(t, i, ValueStop, |t|);
  }

  /** The case of the sanitiser's test: a message `API_KEY=secret123`. */
  lemma ExampleApiKey()
    ensures SanitizeText("***REDACTED***", "API_KEY" + "=" + "secret123") == "API_KEY" + "=" + "***REDACTED***"
  {
    assert ApiKeyAt("API_KEY", 0) by {
      assert "API_KEY"[0..3] == "API" && "API_KEY"[4..7] == "KEY";
      assert Lower("API") == "api";
      assert Lower("KEY") == "key";
    }
    AssignmentRedacted("***REDACTED***", "API_KEY", "secret123");
  }
}
