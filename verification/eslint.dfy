/** The shape of the static analyzer's output as the report pipeline reads
    it: one result per file, holding the file's full source text and its
    diagnostics. Only the fields the pipeline reads or writes are kept. */
module Eslint {
  import opened Js

  /** One diagnostic. `line` is 1-based; `ruleId` is null for a fatal parse
      error; `endLine`, `column` and `endColumn` may be absent. */
  datatype RawMessage = RawMessage(
    ruleId: Option<string>,
    severity: int,
    message: string,
    line: int,
    column: Option<int>,
    endLine: Option<int>,
    endColumn: Option<int>)

  /** One file's result: absolute path, diagnostics in emission order, and
      the whole source text. */
  datatype FileReport = FileReport(filePath: string, messages: seq<RawMessage>, source: string)
}
