/**
 * What the tree-sitter queries deliver for a BUILD file: the rule calls it
 * declares, and the ranges of its keyword names and string literals. The
 * queries themselves are not modelled; these values are inputs.
 */
module Targets {
  import opened Lsp

  /** One rule call: its `name` attribute, its rule type, and the ranges of the call, the rule type and the whole call. */
  datatype BazelTarget = BazelTarget(
    name: string,
    ruleType: string,
    range: Range,
    ruleTypeRange: Range,
    ruleCallRange: Range)

  /** The range of one keyword name in a rule call. */
  datatype BazelAttribute = BazelAttribute(range: Range)

  /** The range of one string literal. */
  datatype BazelString = BazelString(range: Range)
}
