/** The result record that the pipeline-A detectors hand to the sanitiser and the reporter. */
module Findings {
  import opened Base
  import Json

  /**
   * A result dict: `rule_id`, `level`, `message`, `location: {line, column}` and
   * `details`, each of which may be missing (the reporter supplies defaults).
   */
  datatype Finding = Finding(
    ruleId: Option<string>,
    level: Option<string>,
    message: Option<string>,
    line: Option<int>,
    column: Option<int>,
    details: Option<seq<Json.Member>>)

  /** A result as every detector builds it: rule, level, message and `location: {"line": line}`. */
  function Reported(ruleId: string, level: string, message: string, line: int,
                    details: Option<seq<Json.Member>>): Finding
  {
    Finding(Some(ruleId), Some(level), Some(message), Some(line), None, details)
  }
}
