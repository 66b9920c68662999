# bazel-lsp core, modelled in Dafny

bazel-lsp is a Language Server Protocol server for Bazel `BUILD` files. This
project models the logic at its centre and proves what it does:

- **The target trie** (`src/target_trie.rs`). It is a character trie over
  target paths. `insert_target` splits a path at its first `:`. It walks the
  package part one `/`-separated segment at a time, dropping the `/`, and
  marks `is_package_end` after every segment but the last. It then walks the
  rule name, sets `is_end` and appends the rule. `starts_with` walks a typed
  prefix the same way: a prefix without `:` is all package, so its `/` are
  dropped too. It then collects every non-empty rule group below the node it
  reaches.
  - Modules `Trie` and `TrieKeys`.
  - `TargetTrie` is a class with a mutable `root`. The nodes are a value
    tree, because the Rust nodes own their children. A ghost log of every
    insertion gives the class its meaning.
- **The deps sorter** (`sort_deps_in_text` and `position_to_byte_index` in
  `src/parser.rs`). For every `deps = [...]` argument:
  - the list is split into lines and filtered;
  - entries are deduplicated by dependency name, keeping the first;
  - entries are sorted byte-wise and re-emitted in a fixed layout;
  - the replacements are spliced into the text in descending start order,
    at byte offsets computed from (line, character) positions.
  - Modules `Parser`, `SortDeps` and `Positions`. Tree-sitter's part (the list
    text and the range of each `deps` argument) is an input.
- **The server helpers** (`src/server.rs`):
  - the completion trigger after the last quote of a line (`"//` or `":`);
  - the items offered from the open file and from the workspace trie;
  - the replacement text of a workspace item;
  - the indexing of a BUILD file's targets;
  - code-lens classification by rule suffix;
  - the relative encoding of semantic tokens from the "Semantic Tokens"
    section of the Language Server Protocol 3.17 specification;
  - the document store that applies `didChange` edits.
  - Modules `Completion`, `Indexer`, `CodeLens`, `SemanticTokens` and
    `Documents`. `Documents.Backend` is a class with the document map as a
    field.

Shared modules:
- `Text` models Rust's `str` operations on `seq<char>`, with each char one
  Unicode scalar value and UTF-8 widths for byte offsets. The operations are
  `lines`, `split`, `trim`, `trim_end_matches`, `find`, `rfind`, byte-wise
  ordering and `replace_range`. `replace_range` gives `None` where Rust would
  panic.
- `Lsp` holds positions and ranges.
- `Targets` holds the parser's target, attribute and string records.
- `Wrappers` holds `Option`.

`position_to_byte_index` exists twice, at src/parser.rs:391-419 and
src/server.rs:478-506. The two copies are identical, and
`Positions.PositionToByteIndex` models both.

Three behaviours of the code are worth stating up front:
- **Key split.** Paths are split at the FIRST `:`, and only the text up to a
  second `:` is used as the rule name (`TrieKeys.KeyIgnoresRest`).
- **Colon trigger.** After a `":` trigger the typed text has the colon
  removed. So `create_edit_text_in_workspace` returns the full label, not
  `:name`. It returns `:name` only when the line reads `"//:` or `"::`
  (`Completion.EditTextForLine`).
- **Code points.** `position_to_byte_index` counts Unicode scalar values, not
  UTF-16 code units. The model counts code points as the code does.

## Model

| member | source | states |
|---|---|---|
| Trie.TargetTrie.constructor | src/target_trie.rs:34-45 | a new trie has no rule group, no package end and an empty insertion log |
| Trie.TargetTrie.InsertTarget | src/target_trie.rs:47-82 | only the group at the path's key changes, by appending the rule; the package ends gained are exactly the path's segment boundaries; the trie stays well formed and matches its log |
| Trie.TargetTrie.StartsWith | src/target_trie.rs:84-138 | returns one non-empty group for exactly every end whose key extends the query key, each once; for the empty prefix the flattened groups are the multiset of every inserted rule |
| Trie.TargetTrie.EmptyPrefixIsEverything | src/target_trie.rs:88-99 | the groups of all ends, flattened, are every rule ever inserted, with multiplicity |
| Trie.TargetKey | src/target_trie.rs:50-78 | the segment loops compute the insertion key (package without `/`, then rule name) and the depths of the package boundaries |
| Trie.InsertNodeHere | src/target_trie.rs:57-81 | at the node reached, insertion keeps the char, sets `is_end` and appends the rule only at the end of the key, sets `is_package_end` only at a marked depth, and adds at most the child for the next char |
| Trie.InsertAlong | src/target_trie.rs:57-81 | the walk that creates missing children, marks package ends and appends the rule equals the recursive insertion |
| Trie.WalkQuery | src/target_trie.rs:101-125 | the prefix walk reaches the node at the query key, or nothing when a char has no child |
| Trie.Descend | src/target_trie.rs:110-115 | the char-by-char descent reaches the node at the walked text, or stops at the first missing child |
| Trie.CollectGroups | src/target_trie.rs:127-135 | the stack walk reports the group of every end in the subtree exactly once |
| Trie.SubtreeMatches | src/target_trie.rs:127-135 | the ends below the node reached by the query key are exactly the matches of that key |
| Trie.MatchesMonotone | src/target_trie.rs:127-135 | a longer query key matches a subset of the keys a shorter one matches |
| Trie.NoNodeNoMatches | src/target_trie.rs:108-125 | when some prefix of the query key has no node, nothing matches |
| Trie.EndsAtGroup | src/target_trie.rs:80-81 | in a well-formed trie a node is an end exactly when its group is non-empty |
| Trie.InsertGroup | src/target_trie.rs:73-81 | insertion appends the rule to the group at the inserted key and leaves every other group unchanged |
| Trie.InsertEndsAt | src/target_trie.rs:80 | insertion makes the inserted key an end and changes no other end |
| Trie.InsertPackageEndAt | src/target_trie.rs:57-70 | insertion sets `is_package_end` exactly at the marked depths of the walked key |
| Trie.InsertWellFormed | src/target_trie.rs:47-82 | insertion keeps the trie well formed: a node is an end exactly when its group is non-empty, and every child carries its own char |
| Trie.InsertKeepsLog | src/target_trie.rs:47-82 | after an insertion the groups and package ends are those the extended log describes |
| Trie.GroupOfContains | src/target_trie.rs:80-81 | every inserted rule is in the group of its path's key |
| Trie.FlattenGroupsAt | src/target_trie.rs:88-99 | the groups at distinct keys, flattened, are the multiset of the rules logged under those keys |
| TrieKeys.QueryKeyMonotone | src/target_trie.rs:101-106 | extending the typed prefix extends the walked key |
| TrieKeys.QueryKeyOfPath | src/target_trie.rs:50-55 | a path with a `:` or without `/` is queried under the key it is inserted under |
| TrieKeys.InsertThenQuery | src/target_trie.rs:47-125 | round trip: after inserting a rule under such a path, any typed prefix of the path reports the path's group, which ends with the rule |
| TrieKeys.SlashPathWithoutColonIsNotFound | src/target_trie.rs:101-106 | `a/b` is inserted under `a/b` but queried under `ab`, so it is never found by its own path |
| TrieKeys.KeyOfLabel | src/target_trie.rs:50-78 | the key of `pkg:name` is `pkg` without `/` followed by `name`, for insertion and for queries |
| TrieKeys.KeyIgnoresRest | src/target_trie.rs:50-55 | text after a second `:` does not change the key |
| TrieKeys.LeadingSlashesIgnored | src/target_trie.rs:57-65 | `//pkg:name` and `pkg:name` have the same key |
| TrieKeys.SlashesCollide | src/target_trie.rs:57-78 | the distinct labels `a/b:x` and `ab:x` share the key `abx` |
| TrieKeys.PackageEndsOfTwoSegments | src/target_trie.rs:57-70 | `a/b:name` marks the node after `a` as a package end and no other |
| TrieKeys.LeadingSlashesMarkRoot | src/target_trie.rs:57-70 | `//a:name` marks only the root, reached after the two empty leading segments |
| TrieKeys.ReinsertKeepsOrder | src/target_trie.rs:80-81 | inserting twice under one path keeps both rules in one group, in insertion order |
| Parser.ClassifyByDepLine | src/parser.rs:321-327 | the blank-line and lone-comma checks decide nothing the entry test would not |
| Parser.EntryMeaning | src/parser.rs:327-337 | a kept entry's line is the trimmed line without trailing commas, starts with a quote, and its text before `#` is its name in quotes |
| Parser.PanicMeaning | src/parser.rs:333-334 | a line makes the source panic exactly when its key text is a lone quote |
| Parser.CommaBeforeCommentIsDropped | src/parser.rs:327-333 | `"x",  # c` is dropped, because its key text `"x",` does not end in a quote |
| Parser.DepLineOfClean | src/parser.rs:327 | a line without surrounding blanks or trailing comma is kept as it is |
| Parser.KeyBeforeComment | src/parser.rs:330-332 | the key text of an entry with a comment is the trimmed text before the `#` |
| Parser.BlankIsSkipped | src/parser.rs:322-325 | a blank line is skipped |
| Parser.CollectMeaning | src/parser.rs:321-338 | the collected entries are exactly the first entry of each name, each name once; collection fails exactly when a line panics |
| Parser.PanicStops | src/parser.rs:333-334 | one panicking line makes the whole list fail |
| Parser.CollectLines | src/parser.rs:321-341 | the line loop computes the collected entries |
| Parser.CollectDeps | src/parser.rs:318-342 | reading a list (trim, brackets, lines) computes its entries; an unbracketed list has none |
| Parser.CollectDistinct | src/parser.rs:336-338 | entries with distinct names are all kept, in order |
| Parser.SortByNameSorted | src/parser.rs:363 | the sorted entries ascend byte-wise by name and are a permutation of the input |
| Parser.SortIsDetermined | src/parser.rs:363 | two ascending permutations of entries with distinct names are equal, so any sort gives this result |
| Parser.SortKeepsDistinct | src/parser.rs:363 | sorting keeps the names distinct |
| Parser.SortByName | src/parser.rs:363 | the sorted entries are the collected ones, with multiplicity |
| Parser.Replacement | src/parser.rs:318-374 | a list yields a replacement exactly when reading it does not panic |
| Parser.FormatDepsShape | src/parser.rs:365-374 | the emitted text is `deps = ` and the list; it is exactly `deps = []` when no entry survives |
| Parser.ReclassifyEmitted | src/parser.rs:368-373 | an emitted entry line, indented and with its comma, reads back as the entry it came from |
| Parser.EmittedListReads | src/parser.rs:318-373 | an emitted non-empty list reads back as the entries it was emitted from |
| Parser.EmptyListReads | src/parser.rs:365-366 | `[]` reads back as no entries |
| Parser.EmittedListIsStable | src/parser.rs:318-374 | normalising an emitted list reproduces the same entries and text |
| Parser.EntryReparses | src/parser.rs:321-337 | a kept entry without a trailing comma stands alone on an emitted line |
| Parser.CollectedReparse | src/parser.rs:321-338 | every collected entry without a trailing comma reads back alone, and the names are distinct |
| Parser.SortedReparse | src/parser.rs:363 | sorting keeps the entries readable and their names distinct |
| Parser.NormalizeIdempotent | src/parser.rs:318-374 | normalising a normalised list gives the same text |
| Parser.TrailingCommaIsShed | src/parser.rs:327-373 | an entry whose own text ends with a comma does not read back as itself |
| Parser.CommasShortenLine | src/parser.rs:327 | reading back such an emitted line gives a shorter text |
| SortDeps.CollectChanges | src/parser.rs:303-380 | the loop over the matches records, in match order, the byte range and normalised text of each argument; it fails when a list panics |
| SortDeps.ChangeOf | src/parser.rs:376-378 | a match yields a change exactly when its list reads without a panic, and the change's text is the list's normalised text |
| SortDeps.Changes | src/parser.rs:303-380 | the recorded changes are one per match |
| SortDeps.ChangesFailAt | src/parser.rs:303-380 | the changes are missing only when the list of some match panics |
| SortDeps.SortByStartDesc | src/parser.rs:383 | the changes are re-ordered by descending start without losing or adding any |
| SortDeps.SortDescSorted | src/parser.rs:383 | the descending insertion sort orders any sequence by its key and is a permutation of it |
| SortDeps.ApplyChangesOrdered | src/parser.rs:384-386 | splicing succeeds only when every change starts at or before its end |
| SortDeps.NormalizedSource | src/parser.rs:382-388 | a text without deps arguments is returned unchanged |
| SortDeps.NoChangesStops | src/parser.rs:303-380 | once one match panics, the whole operation does |
| SortDeps.ApplyInOrder | src/parser.rs:384-386 | the splice loop applies each change in turn and fails at the first that panics |
| SortDeps.SortDepsInText | src/parser.rs:303-389 | the method computes the normalised source |
| SortDeps.ApplyDisjoint | src/parser.rs:382-386 | splicing non-overlapping changes highest first equals replacing every span of the original at once |
| SortDeps.SplicedKeepsOutside | src/parser.rs:382-386 | the text before the lowest span and after the highest one is kept |
| SortDeps.OneMatchReplacesArgument | src/parser.rs:361-386 | one deps argument is replaced char for char by its normalised text, with the text around it kept |
| SortDeps.ChangesAreByteChanges | src/parser.rs:376-378 | without carriage returns, the changes recorded are the byte ranges of the matches' char spans, each with its normalised text |
| SortDeps.SortCommutes | src/parser.rs:383 | sorting the byte changes by start is sorting the char spans by start, so the order does not depend on the byte widths |
| SortDeps.SortChains | src/parser.rs:383 | sorted by descending start, non-empty non-overlapping spans each lie wholly after the ones behind them |
| SortDeps.MatchesReplaceArguments | src/parser.rs:376-386 | without carriage returns, when every match lies on existing lines, reads without a panic and covers a non-empty run of chars apart from every other match, the result replaces each match's chars by its normalised text and keeps everything else |
| Positions.PositionToByteIndex | src/parser.rs:391-419 | the two counter loops compute the bytes of the lines above (each plus one newline byte) plus the UTF-8 width of the first `min(character, line length)` chars |
| Positions.ByteIndexBounds | src/parser.rs:391-419 | on an existing line the offset lies within that line's bytes, before its newline byte; past the last line it is the length of all lines with their newlines |
| Positions.TextBefore | src/parser.rs:391-419 | the text counted before a position on an existing line (the lines above with their newlines, then the first chars of its own line) is a prefix of a text without carriage returns |
| Positions.ByteIndexCountsTextBefore | src/parser.rs:391-419 | without carriage returns, the offset is the UTF-8 length of the text before the position |
| Positions.CrlfCountsOneByte | src/parser.rs:392-398 | a CRLF line ending is counted as one byte, so the next line's offset is one byte short |
| Completion.TriggerMeaning | src/server.rs:861-883 | a trigger follows the last quote: its mark, a tail of the line that is the typed text, and an offset one byte past the quote; a line without a quote has none |
| Completion.TriggerAfterLastQuote | src/server.rs:862-876 | whatever precedes the last quote, `//`, then `:`, then anything else after it decide DoubleSlash, Colon or no trigger |
| Completion.TriggerBounds | src/server.rs:862-870 | the typed text is a tail of the line and the trigger offset is within its bytes |
| Completion.FileItemsMember | src/server.rs:656-672 | an item is offered exactly when it is the item of a target whose name extends the typed text |
| Completion.FileItemsAppend | src/server.rs:658-671 | the file items keep the order of the targets |
| Completion.FileItems | src/server.rs:656-672 | the filter keeps at most one item per target |
| Completion.CompletionInFile | src/server.rs:630-675 | nothing for a `//` trigger or unreadable targets, no items without a trigger, at most one item per target |
| Completion.EditTextInWorkspace | src/server.rs:388-403 | the edit text is the full label or `:name`, and the full label without a trigger |
| Completion.WorkspaceItemEdit | src/server.rs:694-715 | the item is labelled with the full label; its edit runs from (cursor line, `trigger_pos`) to the cursor, or from column 0 without a trigger, and writes `create_edit_text_in_workspace`'s text: the full label or `:name`, and the full label without a trigger |
| Completion.EditTextForLine | src/server.rs:392-399 | read from the line, the edit is `:name` exactly when the last quote is followed by `//:` or `::` |
| Completion.CompletionInWorkspace | src/server.rs:677-721 | one item per rule of every group the trie answers for the typed text, in order, none without a trigger |
| Completion.GroupItems | src/server.rs:690-717 | the inner loop gives one item per rule of a group, in order |
| Completion.WorkspaceItemsAppend | src/server.rs:689-718 | the items of two runs of rules are the items of each |
| Completion.IndexedRuleIsOffered | src/server.rs:683-686 | every rule inserted under a key that extends the query key is offered |
| Completion.TypedPathIsOffered | src/server.rs:683-686 | a rule is offered for every typed prefix of its path, when the path has a `:` or no `/` |
| Completion.OfferedRuleWasIndexed | src/server.rs:683-686 | every offered rule was inserted under a key that extends the query key |
| Completion.CursorPrefix | src/server.rs:321-322 | the line up to the cursor is the prefix of the line whose UTF-8 length is the cursor's character, when one exists |
| Completion.HandleCompletion | src/server.rs:296-334 | nothing outside deps or without a trigger; otherwise the workspace items or the open file's items |
| Indexer.PopulateTrie | src/server.rs:611-624 | every target of the file is inserted, in order, under `name` or `pkg:name` with full label `//pkg:name`; nothing when the targets cannot be read |
| Indexer.RuleOf | src/server.rs:618-621 | the stored rule keeps the target's name, and its label is `//` followed by the insertion path (`//:name` in the root package) |
| Indexer.IndexEntries | src/server.rs:611-624 | one insertion per target, in order, with the target's name; outside the root package each label is `//` followed by the path inserted under, and in the root package the path is the bare name |
| Indexer.PathKey | src/server.rs:612-616 | a target's key is its package without `/` followed by its name |
| Indexer.TypedLabelWalksKey | src/server.rs:612-623 | typing any prefix of `pkg:name` walks a prefix of the target's key |
| Indexer.IndexedTargetIsOffered | src/server.rs:611-623 | after indexing, each target is offered for every typed prefix of `pkg:name`, with its label `//pkg:name` |
| CodeLens.CodeLenses | src/server.rs:179-229 | the lenses are those of every target in order, none when the targets cannot be extracted |
| CodeLens.LensesForLength | src/server.rs:181-228 | each target gets one or two lenses: the file has at least as many lenses as targets and at most twice as many |
| CodeLens.LensCounts | src/server.rs:181-228 | there are as many Build lenses as targets, as many Test lenses as `*_test` targets and as many Run lenses as other `*_binary` targets |
| CodeLens.TargetLensCounts | src/server.rs:188-227 | each target gets one Build lens, plus one Test or Run lens as its rule type says |
| CodeLens.LensesBelongToTargets | src/server.rs:181-227 | every lens sits on a target's rule type and acts on that target's label |
| CodeLens.LabelIsIndexedLabel | src/server.rs:182-186 | the label a lens acts on is the full label the indexer stores for the target |
| SemanticTokens.AllTokensMember | src/server.rs:526-538 | token type 0, 1 or 2 marks exactly the ranges of the targets' rule types, the attributes and the strings |
| SemanticTokens.CollectTokens | src/server.rs:526-538 | the three push loops gather every range with its type |
| SemanticTokens.SortByStartSorted | src/server.rs:540-547 | the tokens are ordered by (start line, start char) and are the pushed tokens with multiplicity |
| SemanticTokens.SortByStart | src/server.rs:540-547 | the sorted tokens are the pushed tokens, with multiplicity |
| SemanticTokens.EncodeOne | src/server.rs:552-580 | a token keeps its range's length and type with no modifier, and, when it starts at or after the previous token, adding its deltas to the previous start gives back its own start |
| SemanticTokens.EncodeFrom | src/server.rs:552-584 | one encoded token per sorted token |
| SemanticTokens.EncodeFields | src/server.rs:574-580 | every encoded token keeps its range's length and type and has no modifiers |
| SemanticTokens.DecodeEncode | src/server.rs:549-584 | summing the line deltas, and the start deltas within a line, gives back every sorted start position |
| SemanticTokens.Encode | src/server.rs:549-584 | the encoding loop keeps the previous line and start and emits the relative encoding of the sorted tokens |
| SemanticTokens.GetSemanticTokens | src/server.rs:508-590 | the data is the relative encoding of the pushed tokens in start order |
| SemanticTokens.TokensDecode | src/server.rs:540-584 | a client decodes every start of the file's tokens, in start order, from the data |
| Documents.Backend.constructor | src/server.rs:406-414 | the server starts with no open document |
| Documents.Backend.DidOpen | src/server.rs:114-125 | opening records the document's text under its URI and changes no other entry |
| Documents.Backend.UpdateDocumentContent | src/server.rs:455-476 | the changes are applied in order to the stored text (empty when unknown) and only this URI's entry changes; a panicking change stores nothing |
| Documents.ApplyAppend | src/server.rs:464-473 | two runs of changes are applied one after the other |
| Documents.FullChangeResets | src/server.rs:470-472 | a change without a range replaces the text, so what came before it no longer matters |
| Documents.RangedChangeSplices | src/server.rs:465-469 | a ranged change replaces exactly the text between its two positions and keeps the rest |
| Documents.ApplyContentChanges | src/server.rs:463-473 | no change keeps the text; when the last change has no range, a successful result is its text; when no change has a range, the result is the last change's text |
| Text.ReplaceRange | src/parser.rs:385 | `replace_range` succeeds only on ordered offsets within the text, and the result's byte length grows by the new text and shrinks by the range |
| Text.LinesLackNewline | src/parser.rs:321 | no line of `str::lines` holds a newline |
| Text.Trim | src/parser.rs:322 | the trimmed text is empty or starts and ends with a non-blank char |
| Text.TrimIsSlice | src/parser.rs:322 | `str::trim` returns a slice of its input with only whitespace before and after it |
| Text.TrimStartDropsBlanks | src/parser.rs:322 | everything `trim_start` drops is whitespace |
| Text.TrimEndDropsBlanks | src/parser.rs:322 | everything `trim_end` drops is whitespace |
| Text.TrimEndMatches | src/parser.rs:327 | the result is a prefix that does not end with the char, and everything dropped is that char |
| Text.LastIndexOf | src/server.rs:862 | `rfind` finds the char at the index it returns |
| Text.LastIndexOfMeaning | src/server.rs:862 | the index found is the last occurrence, and there is none exactly when the char is absent |

## Left out

- Tree-sitter parsing and queries (`parse`, `extract_targets`, `extract_attributes`, `extract_strings`, the deps query) belong to a foreign library. Their results are inputs: the targets, ranges and list texts, with `None` where an extraction fails.
- `is_in_deps_attribute` is given as a boolean input of `HandleCompletion`. So is whether the file lies in a workspace folder.
- tower-lsp plumbing is protocol I/O and concurrency: async handlers, `initialize` capabilities, `publish_diagnostics`, refresh requests, log messages and the `RwLock` locking.
- `execute_bazel_command` and `execute_command` spawn processes and stream their output. They are not part of this model.
- src/bazel.rs (workspace and package lookup through the filesystem) and src/main.rs are not part of this model. The package path and the targets of a BUILD file are inputs of the indexer and the code lenses.
- The `formatting` handler and the parse-failure error of `sort_deps_in_text` are left out. The tree-sitter parse is not modelled, so `SortDepsInText` starts from its matches.
- `HashMap` iteration order in `starts_with` is unspecified. `StartsWith` is specified by the set of keys reported, and every other use of its result is up to order (multisets and membership).
- `u32` fields are modelled as `nat`. Every subtraction the code guards stays guarded. The unguarded one is listed below.
- SemanticTokens.GetSemanticTokens: requires every range to end at or after its start column. The source's `end.character - start.character` would underflow otherwise.
- Completion.HandleCompletion: requires the cursor's character to be a byte offset that ends a char of its line. The source's `&line[..character]` panics otherwise.
- Completion.CompletionInWorkspace and Completion.HandleCompletion: the item's `kind` (`CompletionItemKind::TEXT`) is not modelled. The label, the detail and documentation strings and the text edit are.
- Documents.Backend.UpdateDocumentContent: a change that makes `replace_range` panic leaves the store unchanged. In the source the handler panics while holding the write lock.
- Parser.NormalizeIdempotent: requires entries without a trailing comma. A kept line such as `"x" # c,` loses that comma on a second pass (`Parser.TrailingCommaIsShed`), so the source is not idempotent on it.
- Positions.PositionToByteIndex: counts characters as Unicode scalar values, like the code. The protocol's UTF-16 code units are not modelled, and neither is a column given in bytes (the trigger offset and tree-sitter columns are byte offsets that the code passes on as characters).
- Positions.ByteIndexCountsTextBefore: assumes a text without carriage returns. With CRLF endings the offset is one byte short per line, which `Positions.CrlfCountsOneByte` exhibits.
- Trie.TargetTrie.StartsWith: returns the groups by value, not references into the trie. It and the insertion walk rebuild a value tree instead of mutating nodes in place.
- SortDeps.MatchesReplaceArguments: assumes the matches cover non-empty, non-overlapping runs of chars, as distinct `deps` arguments do, and a text without carriage returns. The query's matches are an input, so the model does not derive this.
- SemanticTokens.SortByStart: the order among tokens with the same start is not stated. Rust's `sort_by` is stable, and no lemma proves that the model's insertion sort is. That order decides the order of their encodings.
- `RuleInfo` is declared in src/target_trie.rs:3-6 with only `name`, but every caller builds it with `name` and `full_build_path`. The model has both fields.
