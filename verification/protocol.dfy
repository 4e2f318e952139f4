/** The Language Server Protocol side: 0-based positions, diagnostics and
    code actions whose edits are grouped by document URI. */
module Protocol {
  import opened Wrappers

  /** A 0-based line and character offset. The protocol's unsigned 32-bit
      width is not modelled. */
  datatype Position = Position(line: int, character: int)

  datatype LspRange = LspRange(start: Position, end: Position)

  /** The zero value of a protocol range, used when a diagnostic has no subject. */
  const ZeroRange: LspRange := LspRange(Position(0, 0), Position(0, 0))

  /** Severity values as the Language Server Protocol numbers them; 0 is the
      Go zero value, which the protocol treats as "not given". */
  type DiagnosticSeverity = int
  const SeverityUnset: DiagnosticSeverity := 0
  const SeverityError: DiagnosticSeverity := 1
  const SeverityWarning: DiagnosticSeverity := 2

  datatype LspTextEdit = LspTextEdit(range: LspRange, newText: string)

  /** A code action. `changes` is the workspace edit's map from document URI
      to that document's edits, in order; it is nil when the action edits nothing. */
  datatype LspCodeAction = LspCodeAction(
    title: string,
    kind: string,
    changes: Option<map<string, seq<LspTextEdit>>>)

  /** A protocol diagnostic; `data` carries the attached code actions. */
  datatype LspDiagnostic = LspDiagnostic(
    range: LspRange,
    severity: DiagnosticSeverity,
    source: string,
    message: string,
    data: Slice<LspCodeAction>)
}
