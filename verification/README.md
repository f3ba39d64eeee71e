# env-integrity-check, modelled in Dafny

env-integrity-check validates `.env` files and reports what it finds as
SARIF. The repository has two pipelines, and this project models the core
of both.

- **Pipeline A** (`env_integrity_check/`) does the following:
  - It parses `KEY=VALUE` lines into a table of facts: key, unquoted value and line.
  - It checks the table against a policy document (required variables, forbidden variables, `warn` patterns) after validating the document's shape.
  - It turns the errors of a schema engine into findings, adding one for every required model field that is missing.
  - It wraps the hits of a secret-detection library into findings, degrading to a single warning when the library fails.
  - It redacts sensitive values in findings, keeps counters about a run in a mutable `Metrics` object, and renders everything as a SARIF 2.1.0 log. That log has a rule catalogue and results sorted by rule and line, each result carrying a fingerprint.
- **Pipeline B** (`src/env_integrity_check/`) does the following:
  - It parses the file into a plain key to value dictionary.
  - It builds a findings dictionary with an `errors` and a `warnings` section. The errors are the schema engine's errors; the warnings flag values that are placeholders.
  - It emits SARIF with snippets cut to 100 characters or redacted under sensitive keys.
  - It sorts the results by rule, file, line and message.

## Files and form

- `base.dfy` holds `Option`, `Result`, elementwise `Map` and `Flatten`.
- `text.dfy` holds Python string operations: `strip`, `splitlines`, ASCII `lower`/`upper`, `in` and `find`.
- `json.dfy` holds the JSON and YAML values, with objects as ordered member lists.
- `ordering.dfy` holds tuple keys and Python's stable `sort`, written as an insertion sort.
- Pipeline A has one file per source file:
  - `env_parser.dfy` and `policy_engine.dfy` model `cli.py`.
  - `policy_loader.dfy`, `schema_introspect.dfy`, `secrets_scanner.dfy`, `metrics.dfy` and `sarif_reporter.dfy` model the file of the same name.
  - `sanitizer.dfy` and `sensitive_text.dfy` model `sanitizer.py`.
  - `findings.dfy` holds the result dictionary the files share.
- Pipeline B has three files:
  - `env_schema.dfy` models `schema_introspect.py`.
  - `snippet_sanitizer.dfy` models `sanitizer.py`.
  - `sarif_emitter.dfy` models `sarif_reporter.py`.

Code that loops in the source is a `method` with a `while` loop, proved equal to a specification function, and the properties are lemmas about that function. This covers the parsers, the policy check, the error conversions, the rule extraction, the secret scanning, the placeholder loop and the SARIF emitter. `Metrics` is a class whose `record_*` methods update its fields in place. The `Sanitizer`, the `SARIFReporter` and the `SchemaIntrospector` are classes because the source's are; their fields are set once, at construction (the redaction text, the tool name and version, the model's fields and validator), so they are `const`. Pure helpers are functions.

Some behaviours of the code are easy to misread; the model states them as the code has them:

- **A one-character quote value.** In pipeline A, a value that is one quote character becomes the empty value, because the code takes `v[1:-1]` (`EnvParser.ParseLineLoneQuote`). It is not kept as it is.
- **Lines without `=`.** Pipeline B keeps them as a key with the empty value (`EnvSchema.LineWithoutEquals`). Pipeline A ignores such lines.
- **Comments in pipeline B.** Pipeline B checks `#` on the untrimmed line, so an indented `# note` becomes a key (`EnvSchema.IndentedCommentKept`). Pipeline B also keeps the quotes around values (`EnvSchema.ValueVerbatim`).
- **Ties in the sort.** Both sorts are stable. Results with equal sort keys keep their input order (`SarifReporter.ReportResults`, `SarifEmitter.EmitMeaning`), so shuffling results that tie does change the output.
- **The `level` in pipeline B.** Pipeline B's `level` is the name of the findings section (`errors` or `warnings`), not a SARIF level (`SarifEmitter.EmittedFields`).
- **A missing `message` in pipeline B.** An item without a `message` makes `emit_sarif` raise `KeyError`. Here that is the `Err` case (`SarifEmitter.EmitMeaning`).

## Model

| member | source | states |
|---|---|---|
| EnvParser.ParseEnvFile | env_integrity_check/cli.py:140-157 | the table built line by line equals the specification table of the split lines |
| EnvParser.ParseLineSkips | env_integrity_check/cli.py:144-149 | a line contributes nothing exactly when its trimmed text is empty, starts with `#` or has no `=` |
| EnvParser.ParseLineKey | env_integrity_check/cli.py:150-151 | a parsed key has no white space at either end and contains no `=` |
| EnvParser.ParseLineRendered | env_integrity_check/cli.py:149-156 | a line written as `key=value` reads back as that key and the unquoted value |
| EnvParser.ParseLineQuoted | env_integrity_check/cli.py:154-155 | one pair of matching quotes is removed and every later `=` stays in the value |
| EnvParser.ParseLineLoneQuote | env_integrity_check/cli.py:154-155 | a value that is one quote character becomes the empty value |
| EnvParser.AssignDistinct | env_integrity_check/cli.py:156 | assigning into the dict keeps keys distinct and adds exactly the assigned key |
| EnvParser.BuildKeys | env_integrity_check/cli.py:142-157 | the table's keys are distinct and are exactly the keys some line assigns |
| EnvParser.BuildJustified | env_integrity_check/cli.py:143-156 | every fact holds the value and 1-based line of the last line assigning its key |
| EnvParser.BuildOrder | env_integrity_check/cli.py:156 | the keys appear in the order of their first assignment |
| EnvParser.ExampleBasic | tests/test_cli.py:11-24 | comments and blank lines are skipped and three assignments give three facts |
| EnvParser.ExampleQuotes | tests/test_cli.py:27-33 | both kinds of quotes are removed |
| EnvParser.ExampleBlankLines | tests/test_cli.py:36-43 | facts keep their own line numbers (3 and 6) across blank lines |
| PolicyEngine.ValidatePolicy | env_integrity_check/cli.py:160-210 | the three loops produce the specification's findings in order |
| PolicyEngine.MissingExactly | env_integrity_check/cli.py:165-175 | a missing-required-var finding exists exactly for each required name absent from the table, at line 1 |
| PolicyEngine.ForbiddenExactly | env_integrity_check/cli.py:178-188 | a forbidden-var finding exists exactly for each forbidden name present, at that variable's line |
| PolicyEngine.PatternExactly | env_integrity_check/cli.py:191-208 | a pattern-match warning exists exactly for a `warn` entry matching a variable name, with the entry's message or the default |
| PolicyEngine.PatternSound | env_integrity_check/cli.py:191-208 | every pattern-match warning comes from some `warn` entry and some variable whose name it matches |
| PolicyEngine.PatternComplete | env_integrity_check/cli.py:191-208 | every `warn` entry that matches a variable's name yields that variable's warning |
| PolicyEngine.StagesInOrder | env_integrity_check/cli.py:162-210 | all required findings come first, then the forbidden ones, then the pattern ones |
| PolicyEngine.CompliantIff | env_integrity_check/cli.py:160-210 | no findings iff every required name is present, no forbidden name is, and no `warn` entry matches |
| PolicyEngine.ExampleRequired | tests/test_cli.py:46-59 | only the absent required variable is reported |
| PolicyEngine.ExampleForbidden | tests/test_cli.py:62-75 | a present forbidden variable is reported at its line |
| PolicyEngine.ExamplePattern | tests/test_cli.py:78-97 | a matching `warn` entry gives one warning with its message |
| PolicyLoader.Load | env_integrity_check/policy_loader.py:33-48 | an accepted document is returned unchanged, and an empty document is rejected |
| PolicyLoader.LoadAccepts | env_integrity_check/policy_loader.py:33-100 | a document loads iff it is not empty, has only allowed sections, string lists and compilable `regex` strings |
| PolicyLoader.MetadataIgnored | env_integrity_check/policy_loader.py:61-100 | the value of `metadata` never changes the verdict |
| PolicyLoader.InvalidSectionNamed | env_integrity_check/policy_loader.py:61-64 | a rejected section is a top-level key that is not allowed |
| PolicyLoader.InvalidRegexNamed | env_integrity_check/policy_loader.py:86-100 | a rejected regex is one of the entries' regexes, with the compiler's message |
| PolicyLoader.DecodeFaithful | env_integrity_check/policy_loader.py:66-92 | the typed policy keeps every required and forbidden name and each entry's regex |
| PolicyLoader.ExampleValid | tests/test_policy_loader.py:11-30 | a two-section policy is returned as written |
| PolicyLoader.ExampleRejected | tests/test_policy_loader.py:75-103 | an unknown section and a non-list `required` are rejected with their reasons |
| SchemaIntrospect.SchemaIntrospector.ValidateEnvVars | env_integrity_check/schema_introspect.py:49-120 | the engine receives exactly the key to value projection, and the findings are the specification's |
| SchemaIntrospect.ValuesKeys | env_integrity_check/schema_introspect.py:62 | the engine sees every key of the table and no other |
| SchemaIntrospect.ValuesOf | env_integrity_check/schema_introspect.py:62 | the engine sees each variable's own value |
| SchemaIntrospect.ErrorFindingsMeaning | env_integrity_check/schema_introspect.py:69-85 | one schema-validation error per engine error, for the first location element or `unknown`, at that variable's line or 1 |
| SchemaIntrospect.MissingFieldsExactly | env_integrity_check/schema_introspect.py:88-118 | a missing-required-field finding exists exactly for each required model field absent from the table |
| SchemaIntrospect.SchemaFindingsOrder | env_integrity_check/schema_introspect.py:59-120 | validation findings precede missing-field findings, and the latter do not depend on the engine |
| SchemaIntrospect.MissingDatabaseUrlExample | tests/test_schema_introspect.py:57-79 | a missing required field is reported whatever the engine says |
| SecretsScanner.FindVarAtLine | env_integrity_check/secrets_scanner.py:134-139 | the loop returns the first variable defined at the line, else `""` |
| SecretsScanner.VarAtLine | env_integrity_check/secrets_scanner.py:134-139 | the name is the key of the first fact at that line, or `""` when no fact has it |
| SecretsScanner.ScanEnvFile | env_integrity_check/secrets_scanner.py:20-76 | one finding per hit in order, then the fallback warning if the scan failed |
| SecretsScanner.ScanEnvContent | env_integrity_check/secrets_scanner.py:78-132 | the same for a scan of content, without variable names |
| SecretsScanner.HitFindingMeaning | env_integrity_check/secrets_scanner.py:47-63 | a secret-detected error at the hit's line naming the variable there, or the environment file |
| SecretsScanner.FallbackMeaning | env_integrity_check/secrets_scanner.py:65-74 | the findings made before a failure stay, and exactly one secrets-scan-error warning at line 1 follows |
| SecretsScanner.FindVarExample | tests/test_secrets_scanner.py:33-44 | lines 3, 5 and 99 give `VAR2`, `VAR3` and `""` |
| Sanitizer.Sanitizer.constructor | env_integrity_check/sanitizer.py:25-35 | the redaction text is the given one, `***REDACTED***` by default |
| Sanitizer.Sanitizer.SanitizeResult | env_integrity_check/sanitizer.py:37-57 | the result is the specification's sanitized copy |
| Sanitizer.Sanitizer.SanitizeDict | env_integrity_check/sanitizer.py:82-103 | the loop's output equals the entry-by-entry cleaning |
| Sanitizer.Sanitizer.SanitizeList | env_integrity_check/sanitizer.py:105-117 | the loop's output equals the item-by-item cleaning |
| Sanitizer.Sanitizer.SanitizeEnvVars | env_integrity_check/sanitizer.py:123-142 | the loop's output equals the entry-by-entry env rule |
| Sanitizer.CleanMembersKeys | env_integrity_check/sanitizer.py:84-103 | the sanitized dict has exactly the input's keys, in order |
| Sanitizer.CleanRedacts | env_integrity_check/sanitizer.py:82-117 | at every depth, a sensitive key holds only the redaction text or a harmless scalar |
| Sanitizer.ResultRedacted | env_integrity_check/sanitizer.py:54-55 | sanitized details are redacted at every depth |
| Sanitizer.ResultOtherFields | env_integrity_check/sanitizer.py:47-57 | only `message` and `details` change, and which fields exist is kept |
| Sanitizer.EnvEntryRule | env_integrity_check/sanitizer.py:133-142 | a sensitive dict entry loses only its `value`, another sensitive entry becomes the text, and others are untouched |
| Sanitizer.EnvKeys | env_integrity_check/sanitizer.py:133-142 | the env table keeps its keys in order |
| SanitizerExamples.SensitiveKeysExample | tests/test_sanitizer.py:24-39 | `password` and `api_key` are redacted and `username` is kept |
| SanitizerExamples.NestedExample | tests/test_sanitizer.py:42-57 | a nested `secret_key` is redacted and `app_name` is kept |
| SanitizerExamples.EnvVarsExample | tests/test_sanitizer.py:60-73 | a sensitive variable loses its value and keeps its line |
| SanitizerExamples.SensitivePassword | tests/test_sanitizer.py:76-84 | `password` in either case is sensitive |
| SanitizerExamples.NotSensitiveUsername | tests/test_sanitizer.py:83 | `username` is not sensitive |
| SanitizerExamples.CustomRedactionExample | tests/test_sanitizer.py:87-96 | a custom redaction text is the one written |
| SensitiveText.SensitiveIffWord | env_integrity_check/sanitizer.py:13-121 | a key is sensitive iff its lower-cased form contains one of the eight words |
| SensitiveText.PlainTextUnchanged | env_integrity_check/sanitizer.py:59-80 | text without a sensitive word comes out unchanged |
| SensitiveText.AssignmentRedacted | env_integrity_check/sanitizer.py:64-70 | `KEY=value` whose key begins with a sensitive word gets the redaction text as its value and nothing else changes |
| SensitiveText.GluedWordsUnchanged | env_integrity_check/sanitizer.py:64-70 | the `\b` in the pattern means a sensitive word right after a letter, digit or `_` starts no match: quote-free text whose every sensitive word is so placed comes out unchanged |
| SensitiveText.GluedKeyExample | env_integrity_check/sanitizer.py:64-70 | `DB_PASSWORD` is a sensitive key, yet `DB_PASSWORD=x` keeps its value |
| SensitiveText.AssignmentMatch | env_integrity_check/sanitizer.py:66 | the pattern matches the whole assignment, and its group is the key |
| SarifReporter.SarifReporter.GenerateReport | env_integrity_check/sarif_reporter.py:24-79 | the report built is the specification's report |
| SarifReporter.SarifReporter.ExtractRules | env_integrity_check/sarif_reporter.py:81-103 | the loop gives the first-seen catalogue sorted by id |
| SarifReporter.MapLevelMeaning | env_integrity_check/sarif_reporter.py:144-152 | `error` iff the lower-cased level is `error`, `note` iff `info`/`note`, otherwise `warning`; case is ignored |
| SarifReporter.MapLevelExamples | tests/test_sarif_reporter.py:103-111 | the five cases of the level-mapping test (`error`, `warning`, `info`, `note` and an unknown level), plus `ERROR` for case-insensitivity |
| SarifReporter.RuleIdToNameMeaning | env_integrity_check/sarif_reporter.py:154-156 | the length is kept, every `-` and `_` becomes a space, and only letter case differs otherwise |
| SarifReporter.RuleIdToNameExample | env_integrity_check/sarif_reporter.py:154-156 | `api_key-id` becomes `Api Key Id` |
| SarifReporter.DescriptionDefault | env_integrity_check/sarif_reporter.py:158-180 | an unknown id gets `Rule <id>` and `Validation rule: <id>` |
| SarifReporter.FingerprintLineInjective | env_integrity_check/sarif_reporter.py:182-188 | different lines of one rule and file give different hashed texts |
| SarifReporter.FingerprintDeterministic | env_integrity_check/sarif_reporter.py:182-188 | the fingerprint depends only on the rule, the file and the line |
| SarifReporter.ConvertDefaults | env_integrity_check/sarif_reporter.py:105-142 | missing fields default to `unknown`, `warning`, `Validation error`, line 1 and column 1; `properties` iff `details` |
| SarifReporter.CatalogueIds | env_integrity_check/sarif_reporter.py:85-100 | the catalogue lists exactly the ids the results use |
| SarifReporter.CatalogueDistinct | env_integrity_check/sarif_reporter.py:87 | no id is listed twice |
| SarifReporter.CatalogueFirst | env_integrity_check/sarif_reporter.py:86-100 | each entry, level included, is built from the first result with its id |
| SarifReporter.RulesMeaning | env_integrity_check/sarif_reporter.py:81-103 | the rules are sorted by id, distinct, cover exactly the used ids and come from first occurrences |
| SarifReporter.ReportResults | env_integrity_check/sarif_reporter.py:45-51 | one result per input, a permutation of the converted results, sorted by `(ruleId, startLine)` and stable |
| SarifReporter.ReportHeader | env_integrity_check/sarif_reporter.py:53-77 | SARIF 2.1.0 with one run of the tool, and metrics exactly when given and non-empty |
| SarifReporter.ResultExample | tests/test_sarif_reporter.py:40-60 | one schema-validation error at line 5 is reported as such |
| SarifReporter.RulesExample | tests/test_sarif_reporter.py:63-87 | two ids give two rules with those ids |
| Metrics.Metrics.constructor | env_integrity_check/metrics.py:12-22 | every counter is 0, no policy is loaded and the timestamp is the given one |
| Metrics.Metrics.RecordFileSize | env_integrity_check/metrics.py:24-26 | sets the file size and changes nothing else |
| Metrics.Metrics.RecordEnvVarCount | env_integrity_check/metrics.py:28-30 | sets the variable count and changes nothing else |
| Metrics.Metrics.RecordSchemaViolations | env_integrity_check/metrics.py:32-34 | sets the schema count and changes nothing else |
| Metrics.Metrics.RecordSecretsFound | env_integrity_check/metrics.py:36-38 | sets the secrets count and changes nothing else |
| Metrics.Metrics.RecordPolicyViolations | env_integrity_check/metrics.py:40-42 | sets the policy count and changes nothing else |
| Metrics.Metrics.RecordPolicyLoaded | env_integrity_check/metrics.py:44-46 | sets the flag whatever it was and changes nothing else |
| Metrics.Metrics.ToDict | env_integrity_check/metrics.py:48-50 | a value copy of the record with the seven keys in insertion order |
| Metrics.DictFields | env_integrity_check/metrics.py:14-50 | reading each key of the dictionary gives back its counter |
| Metrics.TotalViolationsMeaning | env_integrity_check/metrics.py:52-58 | the total is the sum of the three violation counters the dictionary reports |
| Metrics.FreshExample | tests/test_metrics.py:10-20 | a fresh collector reports zeros, no policy and a timestamp |
| Metrics.RecordingExample | tests/test_metrics.py:23-63 | counters read back the last recorded values, the total is 6, and an earlier dictionary is unaffected |
| EnvSchema.ParseEnv | src/env_integrity_check/schema_introspect.py:13-19 | the loop's dictionary equals the specification dictionary of the split lines |
| EnvSchema.LineSkipped | src/env_integrity_check/schema_introspect.py:16 | a line is skipped iff it is blank or its untrimmed text starts with `#` |
| EnvSchema.LineRendered | src/env_integrity_check/schema_introspect.py:17-18 | `key=value` reads back as the trimmed key and the trimmed value |
| EnvSchema.LineWithoutEquals | src/env_integrity_check/schema_introspect.py:17-18 | a line without `=` becomes a key with the empty value |
| EnvSchema.IndentedCommentKept | src/env_integrity_check/schema_introspect.py:16-18 | an indented `# note` becomes a key starting with `#` |
| EnvSchema.ValueVerbatim | src/env_integrity_check/schema_introspect.py:17-18 | quotes around a value are kept |
| EnvSchema.ValueOfPut | src/env_integrity_check/schema_introspect.py:18 | after an assignment, its key reads the new value and other keys are unchanged |
| EnvSchema.LastOccurrenceWins | src/env_integrity_check/schema_introspect.py:15-18 | each key's value is the one from the last line assigning it |
| EnvSchema.EnvDistinct | src/env_integrity_check/schema_introspect.py:14-19 | every key occurs once |
| EnvSchema.ValidateEnv | src/env_integrity_check/schema_introspect.py:21-45 | the findings built by the loops equal the specification's two sections |
| EnvSchema.WarningsExactly | src/env_integrity_check/schema_introspect.py:38-44 | a key is warned about exactly when its value is a placeholder |
| EnvSchema.FlaggedKeys | src/env_integrity_check/schema_introspect.py:41-44 | every warning is the placeholder warning about a key of the dictionary |
| EnvSchema.WarningsOnePerKey | src/env_integrity_check/schema_introspect.py:39-44 | at most one warning per key, and no more warnings than keys |
| EnvSchema.FindingsShape | src/env_integrity_check/schema_introspect.py:25-44 | two sections `errors` and `warnings`, one error per engine error keyed by its joined location, and warnings carry the placeholder message |
| EnvSchema.AsMapAgrees | src/env_integrity_check/schema_introspect.py:28 | the model receives every key with its value |
| EnvSchema.JoinLocExample | src/env_integrity_check/schema_introspect.py:31 | the location `database`, `url` joins to `database.url` |
| EnvSchema.PlaceholderExamples | src/env_integrity_check/schema_introspect.py:40 | `todo` and `""` are placeholders |
| EnvSchema.NotPlaceholderByLength | src/env_integrity_check/schema_introspect.py:40 | a value whose trimmed length is not 0, 3, 4 or 8 is never a placeholder |
| SnippetSanitizer.SanitizeSnippet | src/env_integrity_check/sanitizer.py:12-17 | `SEC001` gives the marker, a short value is kept, and a long one becomes its first 100 characters plus `...` |
| SnippetSanitizer.SanitizeForSarif | src/env_integrity_check/sanitizer.py:19-22 | a sensitive key or `SEC001` gives the marker, and otherwise the snippet rule applies |
| SnippetSanitizer.SnippetBounded | src/env_integrity_check/sanitizer.py:12-22 | at most 103 characters: the marker, the value, or its first 100 characters plus `...` |
| SnippetSanitizer.SensitiveHidesValue | src/env_integrity_check/sanitizer.py:19-21 | under a sensitive key the snippet does not depend on the value |
| SnippetSanitizer.SnippetIdempotent | src/env_integrity_check/sanitizer.py:12-17 | sanitizing a snippet twice is sanitizing it once |
| SnippetSanitizer.SanitizeForSarifIdempotent | src/env_integrity_check/sanitizer.py:19-22 | sanitizing twice under the same key and rule is sanitizing once |
| SnippetSanitizer.SensitiveIgnoresCase | src/env_integrity_check/sanitizer.py:8-10 | sensitivity ignores ASCII case |
| SnippetSanitizer.SensitiveWithin | src/env_integrity_check/sanitizer.py:8-10 | a key containing a sensitive key is sensitive |
| SnippetSanitizer.SensitiveExamples | src/env_integrity_check/sanitizer.py:3-10 | `DB_PASSWORD` and `API_KEY` are sensitive |
| SnippetSanitizer.DatabaseUrlNotSensitive | src/env_integrity_check/sanitizer.py:3-10 | `DATABASE_URL` is not sensitive |
| SarifEmitter.EmitSarif | src/env_integrity_check/sarif_reporter.py:7-34 | the nested loops and the sort give the specification document, or the failure for a missing message |
| SarifEmitter.ConvertSection | src/env_integrity_check/sarif_reporter.py:11-23 | returns the first item without a message, or, when every item has one, one result per item |
| SarifEmitter.CollectedCount | src/env_integrity_check/sarif_reporter.py:9-23 | one result per item over all sections |
| SarifEmitter.CollectedMembers | src/env_integrity_check/sarif_reporter.py:10-23 | the unsorted results are exactly the conversions of the (section, item) pairs |
| SarifEmitter.EmitMeaning | src/env_integrity_check/sarif_reporter.py:7-34 | fails iff some item has no message; otherwise SARIF 2.1.0 with one result per item, a permutation sorted by `(ruleId, uri, startLine, message)` whose ties keep section-then-item order |
| SarifEmitter.EmitCanonical | src/env_integrity_check/sarif_reporter.py:25-27 | any stable sorted arrangement of the collected results is the emitted one, so the output is determined by the input |
| SarifEmitter.EmittedFields | src/env_integrity_check/sarif_reporter.py:13-20 | each result has rule = `type` or `ENV`, level = section name, line = `line` or 1, the path under `%SRCROOT%`, and the snippet sanitized for `ENV003` |
| SarifEmitter.SnippetsSafe | src/env_integrity_check/sarif_reporter.py:20 | no snippet exceeds 103 characters, and the snippet under a sensitive key is `[REDACTED]` |
| SarifEmitter.ValidateEnvEmits | src/env_integrity_check/sarif_reporter.py:7-34 | findings of `validate_env` are always emitted, one result per error and warning |
| SarifEmitter.StabilityExample | tests/test_sarif_stability.py:5-12 | the test's single warning gives one result with rule `ENV`, level `warnings`, line 1 and the message as snippet |
| Ordering.SortStable | src/env_integrity_check/sarif_reporter.py:25-27 | the sort keeps the input order among elements with equal keys |
| Ordering.SortCanonical | env_integrity_check/sarif_reporter.py:50-51 | a sorted sequence with the input's per-key order is the sort's result |
| Text.SplitTerminated | env_integrity_check/cli.py:143 | `splitlines` recovers lines that were each ended by a newline |
| Text.StripSlice | env_integrity_check/cli.py:144 | `strip` keeps a slice and drops only white space |

## Left out

- File reads are left out: contents arrive as text parameters. Writing the report, the CLI `main` functions of both pipelines and their exit codes are also left out. Pipeline B's `main` compares `error` with `errors` in its fail-on check; that check is not part of this model.
- The YAML parser is left out; the policy loader starts from the parsed document. `PolicyLoader.create_example_policy` and pipeline B's `policy_loader` are also left out: the former only writes a constant, the latter is a file read plus a constant.
- The `policy` value that pipeline B's `validate_env` returns is left out, because it comes from `load_policy`. Its `policy` argument to `emit_sarif` is unused.
- Loading the Pydantic model (`_load_schema`, `load_model`) and `get_schema_info` are left out. The validation engine is a function parameter, the model's fields are a parameter, and the model's error locations are strings; integer location parts are not modelled.
- The detect-secrets library and the temporary file are left out. A scan is given as the hits it produced and the failure text, if any. Pipeline B's `secrets_scanner` is left out.
- SHA-256 is left out: the fingerprint is a `digest` parameter applied to the hashed text.
- The clock is left out: `Metrics` takes its timestamp as a constructor parameter.
- `Metrics.__str__` and pipeline B's `metrics` are left out; they are display text and timing only.
- Python's regular-expression engine is left out. The `warn` patterns and the compilability check are parameters. The sanitizer's two fixed patterns are written out as scanners that follow `re.sub`'s leftmost, non-overlapping order.
- Case folding, `\w` and `\b` cover ASCII only. `str.isspace` is modelled exactly, with Python's full set of white-space characters.
- JSON `null` for a `message`, `type` or `line` is treated as an absent key. A non-string `type` that would make the sort raise `TypeError` is not modelled.
- PolicyLoader.RuleOf: a pattern `message` that is present but not a string (a number, or `yes`, which YAML reads as true) reads as absent, so the model reports the default text. The source puts that value into the finding unchanged, and sanitizing the finding's text would then fail with `TypeError`; findings carry string messages here.
- Python's in-place `list.sort` is modelled as a pure function on sequences.
- `src/env_integrity_check/rules.py`, the `__init__` files and `examples/*.py` are not part of this model.
- SensitiveText.SanitizeText: its properties are proved for text without a sensitive word, for a single `KEY=value` assignment whose key begins with a sensitive word, and for quote-free text whose sensitive words all follow a word character; a key whose word follows a non-word character inside it (`my-password=x`), and text with several matches, are not covered.
- SarifReporter.Description: the six known ids are not proved to have texts different from the defaults.
