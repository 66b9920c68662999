/**
 * The Language Server Protocol value types the server exchanges with its client
 * (the `lsp_types` crate). Line and character numbers are `u32` on the wire; no
 * operation of the model performs arithmetic on them that could wrap, so they are
 * modelled as `nat` (the one subtraction that could underflow is a precondition of
 * the semantic-token encoder).
 */
module Lsp {
  import opened Wrappers

  datatype Position = Position(line: nat, character: nat)

  datatype Range = Range(start: Position, end: Position)

  datatype TextEdit = TextEdit(range: Range, newText: string)

  /** A completion candidate: the label shown, its detail and documentation strings, and an optional edit. */
  datatype CompletionItem = CompletionItem(
    labelText: string,
    detail: string,
    documentation: string,
    textEdit: Option<TextEdit>)

  /** One `TextDocumentContentChangeEvent`: a ranged edit, or (without a range) the whole new text. */
  datatype ContentChange = ContentChange(range: Option<Range>, text: string)
}
