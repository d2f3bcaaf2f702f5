/** The shapes the editor host and the language-server protocol expect from the glue. */
module Editor {
  import opened Facade

  /** Zero-based line and column, as `TextDocument.positionAt` returns them. */
  datatype Position = Position(line: nat, character: nat)

  datatype Range = Range(start: Position, end: Position)

  /** `TextDocument.positionAt` of the document whose content is the given text.
      It belongs to an external library, so the model takes it as a parameter. */
  type PositionAt = (string, int) -> Position

  /** `DiagnosticSeverity` of the protocol (1 = Error ... 4 = Hint). */
  datatype Severity = Error | Warning | Information | Hint

  datatype Diagnostic = Diagnostic(message: string, range: Range, severity: Severity)

  /** The glue only ever writes the protocol's `CompletionItemKind.Text` (the constant 1).
      The vscode API, which receives the item unconverted, reads 1 as `Method`. */
  datatype CompletionItemKind = Text

  /** `labelText` is the item's `label` (a word Dafny reserves). */
  datatype CompletionItem = CompletionItem(labelText: string, kind: CompletionItemKind, data: Proposal)

  /** One `builder.push(range, tokenType)` on a `SemanticTokensBuilder`. */
  datatype SemanticToken = SemanticToken(range: Range, tokenType: string)
}
