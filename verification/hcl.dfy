/** The HCL-side vocabulary the validator produces: 1-based source positions,
    ranges, text edits, code actions and diagnostics. */
module Hcl {
  import opened Wrappers

  /** A 1-based position in a source file. The byte offset HCL also keeps
      is not modelled. */
  datatype Pos = Pos(line: int, column: int)

  /** A span of a named source file. */
  datatype Range = Range(filename: string, start: Pos, end: Pos)

  /** HCL's diagnostic severity enumeration (`DiagInvalid` is its zero value).
      Any other integer may also occur, since the Go type is a plain int. */
  type DiagnosticSeverity = int
  const DiagInvalid: DiagnosticSeverity := 0
  const DiagError: DiagnosticSeverity := 1
  const DiagWarning: DiagnosticSeverity := 2

  /** Replace the text of `range` with `newText`; an empty range is an insertion. */
  datatype TextEdit = TextEdit(range: Range, newText: string)

  /** A named, kinded bundle of edits offered as a fix. */
  datatype CodeAction = CodeAction(message: string, kind: string, edits: seq<TextEdit>)

  /** A validation finding. `subject` is nil when the finding has no location. */
  datatype Diagnostic = Diagnostic(
    severity: DiagnosticSeverity,
    summary: string,
    detail: string,
    subject: Option<Range>,
    codeActions: seq<CodeAction>)

  /** An edit that inserts without replacing anything. */
  predicate IsInsertion(e: TextEdit)
  {
    e.range.start == e.range.end
  }
}
