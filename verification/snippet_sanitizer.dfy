/**
 * The pipeline-B snippet sanitizer (`src/env_integrity_check/sanitizer.py`):
 * the text a SARIF region shows is replaced by a fixed marker when the
 * variable's name looks sensitive or the rule is the secret rule, and is
 * otherwise cut to 100 characters.
 */
module SnippetSanitizer {
  import opened Text

  /** `SENSITIVE_KEYS`: a key is sensitive when its lower-case form contains one of these. */
  const SensitiveKeys: seq<string> :=
    ["password", "passwd", "pwd", "secret", "token", "key", "api_key",
     "auth", "credential", "private", "cert", "certificate"]

  const RedactedMarker := "[REDACTED]"

  /** The rule whose snippets are always hidden. */
  const SecretRule := "SEC001"

  /** The longest snippet kept whole. */
  const MaxSnippet := 100

  /** `is_sensitive_key`: some sensitive word occurs in the lower-cased key. */
  predicate IsSensitiveKey(key: string) {
    exists i :: 0 <= i < |SensitiveKeys| && Contains(Lower(key), SensitiveKeys[i])
  }

  /** `_sanitize_snippet`. */
  function SanitizeSnippet(value: string, ruleId: string): (r: string)
    ensures |r| <= MaxSnippet + 3
    ensures ruleId == SecretRule ==> r == RedactedMarker
    ensures ruleId != SecretRule && |value| <= MaxSnippet ==> r == value
    ensures ruleId != SecretRule && |value| > MaxSnippet ==>
              |r| == MaxSnippet + 3 && r[..MaxSnippet] == value[..MaxSnippet] && r[MaxSnippet..] == "..."
  {
    if ruleId == SecretRule then RedactedMarker
    else if |value| > MaxSnippet then value[..MaxSnippet] + "..."
    else value
  }

  /** `sanitize_for_sarif`: the key is checked before the rule and the length. */
  function SanitizeForSarif(key: string, value: string, ruleId: string): (r: string)
    ensures IsSensitiveKey(key) || ruleId == SecretRule ==> r == RedactedMarker
    ensures !IsSensitiveKey(key) ==> r == SanitizeSnippet(value, ruleId)
  {
    if IsSensitiveKey(key) then RedactedMarker else SanitizeSnippet(value, ruleId)
  }

  // ----- What the sanitizer guarantees -----

  /**
   * A snippet never leaks more than the first 100 characters of the value:
   * the result is the marker, the whole short value, or its first 100
   * characters followed by an ellipsis.
   */
  lemma SnippetBounded(key: string, value: string, ruleId: string)
    ensures var r := SanitizeForSarif(key, value, ruleId);
            |r| <= MaxSnippet + 3
            && (r == RedactedMarker || r == value || r == value[..MaxSnippet] + "...")
  {
  }

  /** Under a sensitive key the snippet does not depend on the value at all. */
  lemma SensitiveHidesValue(key: string, v1: string, v2: string, ruleId: string)
    requires IsSensitiveKey(key)
    ensures SanitizeForSarif(key, v1, ruleId) == SanitizeForSarif(key, v2, ruleId)
  {
  }

  /** Sanitizing a snippet a second time changes nothing. */
  lemma {:induction false} SnippetIdempotent(value: string, ruleId: string)
    ensures SanitizeSnippet(SanitizeSnippet(value, ruleId), ruleId) == SanitizeSnippet(value, ruleId)
  {
    var once := SanitizeSnippet(value, ruleId);
    if ruleId != SecretRule && |value| > MaxSnippet {
      assert once[..MaxSnippet] == value[..MaxSnippet];
      assert once[..MaxSnippet] + "..." == once;
    }
  }

  /** Sanitizing for SARIF a second time, under the same key and rule, changes nothing. */
  lemma SanitizeForSarifIdempotent(key: string, value: string, ruleId: string)
    ensures SanitizeForSarif(key, SanitizeForSarif(key, value, ruleId), ruleId) == SanitizeForSarif(key, value, ruleId)
  {
    SnippetIdempotent(value, ruleId);
  }

  /** Lower-casing distributes over concatenation. */
  lemma LowerConcat(a: string, b: string)
    ensures Lower(a + b) == Lower(a) + Lower(b)
  {
  }

  /** Lower-casing twice is lower-casing once. */
  lemma LowerIdempotent(s: string)
    ensures Lower(Lower(s)) == Lower(s)
  {
  }

  /** Sensitivity ignores ASCII case. */
  lemma SensitiveIgnoresCase(key: string)
    ensures IsSensitiveKey(Lower(key)) <==> IsSensitiveKey(key)
  {
    LowerIdempotent(key);
  }

  /** A key that contains a sensitive key is sensitive: `DB_PASSWORD_OLD` because of `PASSWORD`. */
  lemma {:induction false} SensitiveWithin(a: string, key: string, b: string)
    requires IsSensitiveKey(key)
    ensures IsSensitiveKey(a + key + b)
  {
    var i :| 0 <= i < |SensitiveKeys| && Contains(Lower(key), SensitiveKeys[i]);
    var w := SensitiveKeys[i];
    var p := ContainsWitness(Lower(key), w);
    LowerConcat(a + key, b);
    LowerConcat(a, key);
    var whole := Lower(a + key + b);
    assert whole == Lower(a) + Lower(key) + Lower(b);
    assert whole[|a| + p..|a| + p + |w|] == Lower(key)[p..p + |w|];
    ContainsAt(whole, w, |a| + p);
  }

  /** Every character of a word that occurs in a text occurs in the text. */
  lemma PresentChar(s: string, w: string, c: char)
    requires Contains(s, w) && c in w
    ensures c in s
  {
    var p := ContainsWitness(s, w);
    var j :| 0 <= j < |w| && w[j] == c;
    assert s[p + j] == w[j];
  }

  /** A word cannot occur in a text that lacks one of its characters. */
  lemma AbsentChar(s: string, w: string, c: char)
    requires c in w && c !in s
    ensures !Contains(s, w)
  {
    if Contains(s, w) {
      PresentChar(s, w, c);
    }
  }

  /** Upper-case keys naming a password or an API key are sensitive. */
  lemma SensitiveExamples()
    ensures IsSensitiveKey("DB_PASSWORD") && IsSensitiveKey("API_KEY")
  {
    assert Lower("DB_PASSWORD") == "db_password";
    ContainsAt("db_password", "password", 3);
    assert Lower("API_KEY") == "api_key";
    ContainsAt("api_key", "api_key", 0);
    assert SensitiveKeys[0] == "password" && SensitiveKeys[6] == "api_key";
  }

  /** `DATABASE_URL` is not sensitive: no `p`, `c`, `k` or `h`, so no word fits. */
  lemma DatabaseUrlNotSensitive()
    ensures !IsSensitiveKey("DATABASE_URL")
  {
    var k := Lower("DATABASE_URL");
    assert k == "database_url";
    forall i | 0 <= i < |SensitiveKeys| ensures !Contains(k, SensitiveKeys[i]) {
      var w := SensitiveKeys[i];
      if i <= 2 || i == 9 { AbsentChar(k, w, 'p'); }
      else if i == 3 || i == 8 || i == 10 || i == 11 { AbsentChar(k, w, 'c'); }
      else if i == 7 { AbsentChar(k, w, 'h'); }
      else { AbsentChar(k, w, 'k'); }
    }
  }
}
