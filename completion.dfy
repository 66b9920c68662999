/**
 * Label completion in src/server.rs: the trigger after the last quote of the
 * line up to the cursor (`"//` or `":`), the items offered from the targets of
 * the open file, the items offered from the workspace trie, and the handler
 * that chooses between them.
 */
module Completion {
  import opened Wrappers
  import opened Text
  import opened Lsp
  import opened Targets
  import opened Trie
  import opened TrieKeys

  datatype TriggerType = DoubleSlash | Colon

  /** A trigger: its kind, the byte offset just after its quote, and the text typed after the `//` or `:`. */
  datatype TriggerResult = TriggerResult(triggerType: TriggerType, triggerPos: nat, textAfterTrigger: string)

  /** The chars of the trigger mark that follows the quote. */
  function Mark(t: TriggerType): string
  {
    match t
    case DoubleSlash => "//"
    case Colon => ":"
  }

  // ---------------------------------------------------------------------------
  // The trigger

  /** `starts_with("//")`. */
  predicate StartsWithSlashes(s: string)
  {
    |s| >= 2 && s[0] == '/' && s[1] == '/'
  }

  /** `starts_with(':')`. */
  predicate StartsWithColon(s: string)
  {
    |s| >= 1 && s[0] == ':'
  }

  /** `find_trigger_position`: the trigger the text after the last `"` of the line opens, if any. */
  function FindTriggerPosition(line: string): Option<TriggerResult>
  {
    match LastIndexOf(line, '"')
    case None => None
    case Some(q) =>
      TriggerAfter(line[q + 1..], ByteLen(line[..q]) + 1)
  }

  /**
   * What a trigger is: after the last `"` of the line, a `//` or a `:` opens a
   * label, and the typed text is what follows that mark.
   */
  predicate OpensTrigger(line: string, t: TriggerResult)
  {
    var k := |line| - |t.textAfterTrigger|;
    var q := k - |Mark(t.triggerType)| - 1;
    && 0 <= q
    && line[q] == '"' && '"' !in line[q + 1..]
    && line[q + 1..k] == Mark(t.triggerType)
    && line[k..] == t.textAfterTrigger
    && t.triggerPos == ByteLen(line[..q]) + 1
  }

  /** Every trigger found is one the line opens; a line without a quote has none. */
  lemma TriggerMeaning(line: string)
    ensures FindTriggerPosition(line).Some? ==> OpensTrigger(line, FindTriggerPosition(line).value)
    ensures '"' !in line ==> FindTriggerPosition(line).None?
  {
    LastIndexOfMeaning(line, '"');
    match LastIndexOf(line, '"')
    case None =>
    case Some(q) =>
      assert FindTriggerPosition(line) == TriggerAfter(line[q + 1..], ByteLen(line[..q]) + 1);
      TriggerAfterQuoteOpens(line, q);
  }

  lemma TriggerAfterQuoteOpens(line: string, q: nat)
    requires q < |line| && line[q] == '"' && '"' !in line[q + 1..]
    ensures var r := TriggerAfter(line[q + 1..], ByteLen(line[..q]) + 1);
      r.Some? ==> OpensTrigger(line, r.value)
  {
    var after := line[q + 1..];
    if StartsWithSlashes(after) {
      assert after[2..] == line[q + 3..];
      assert line[q + 1..q + 3] == "//";
      MarkOpensTrigger(line, q, DoubleSlash);
    } else if StartsWithColon(after) {
      assert after[1..] == line[q + 2..];
      assert line[q + 1..q + 2] == ":";
      MarkOpensTrigger(line, q, Colon);
    }
  }

  lemma MarkOpensTrigger(line: string, q: nat, kind: TriggerType)
    requires q + 1 + |Mark(kind)| <= |line| && line[q] == '"' && '"' !in line[q + 1..]
    requires line[q + 1..q + 1 + |Mark(kind)|] == Mark(kind)
    ensures OpensTrigger(line, TriggerResult(kind, ByteLen(line[..q]) + 1, line[q + 1 + |Mark(kind)|..]))
  {
  }

  /** The trigger opened by the text `after` a quote, whose offset is `pos`. */
  function TriggerAfter(after: string, pos: nat): Option<TriggerResult>
  {
    if StartsWithSlashes(after) then Some(TriggerResult(DoubleSlash, pos, after[2..]))
    else if StartsWithColon(after) then Some(TriggerResult(Colon, pos, after[1..]))
    else None
  }

  /**
   * The converse: whatever precedes the last quote, the text after it alone
   * decides the trigger, and the trigger offset is one byte past the quote.
   */
  lemma TriggerAfterLastQuote(p: string, a: string)
    requires '"' !in a
    ensures FindTriggerPosition(p + ['"'] + a) ==
      if StartsWithSlashes(a) then Some(TriggerResult(DoubleSlash, ByteLen(p) + 1, a[2..]))
      else if StartsWithColon(a) then Some(TriggerResult(Colon, ByteLen(p) + 1, a[1..]))
      else None
  {
    LastIndexOfSplit(p, '"', a);
    TriggerAtQuote(p, a);
  }

  lemma TriggerAtQuote(p: string, a: string)
    requires LastIndexOf(p + ['"'] + a, '"') == Some(|p|)
    ensures FindTriggerPosition(p + ['"'] + a) == TriggerAfter(a, ByteLen(p) + 1)
  {
    var line := p + ['"'] + a;
    assert line[..|p|] == p;
    assert line[|p| + 1..] == a;
  }

  /** The trigger text is a tail of the line and the trigger offset lies within the line's bytes. */
  lemma TriggerBounds(line: string)
    requires FindTriggerPosition(line).Some?
    ensures var t := FindTriggerPosition(line).value;
      && |t.textAfterTrigger| < |line|
      && t.textAfterTrigger == line[|line| - |t.textAfterTrigger|..]
      && t.triggerPos <= ByteLen(line)
  {
    TriggerMeaning(line);
    var t := FindTriggerPosition(line).value;
    var q := |line| - |t.textAfterTrigger| - |Mark(t.triggerType)| - 1;
    assert line == line[..q] + line[q..];
    ByteLenAppend(line[..q], line[q..]);
  }

  // ---------------------------------------------------------------------------
  // Items from the open file

  /** The item offered for a target of the open file: its bare name, without an edit. */
  function FileItem(t: BazelTarget): CompletionItem
  {
    CompletionItem(t.name, "Target: " + t.name, "Bazel target: " + t.name, None)
  }

  /** The items for the targets whose name starts with `typed`, in the targets' order. */
  function FileItems(targets: seq<BazelTarget>, typed: string): (items: seq<CompletionItem>)
    ensures |items| <= |targets|
  {
    if targets == [] then []
    else
      var last := targets[|targets| - 1];
      FileItems(targets[..|targets| - 1], typed) + if typed <= last.name then [FileItem(last)] else []
  }

  /** An item is offered exactly when it is the item of a target whose name extends the typed text. */
  lemma {:induction false} FileItemsMember(targets: seq<BazelTarget>, typed: string, item: CompletionItem)
    ensures item in FileItems(targets, typed) <==>
      exists i | 0 <= i < |targets| :: typed <= targets[i].name && item == FileItem(targets[i])
    decreases |targets|
  {
    if targets != [] {
      var init, last := targets[..|targets| - 1], targets[|targets| - 1];
      FileItemsMember(init, typed, item);
      FileItemsSnoc(targets, typed, item);
      if item in FileItems(init, typed) {
        var i :| 0 <= i < |init| && typed <= init[i].name && item == FileItem(init[i]);
        assert targets[i] == init[i];
      }
      if exists i | 0 <= i < |targets| :: typed <= targets[i].name && item == FileItem(targets[i]) {
        var i :| 0 <= i < |targets| && typed <= targets[i].name && item == FileItem(targets[i]);
        if i < |init| {
          assert init[i] == targets[i];
        }
      }
    }
  }

  /** The items keep the order of the targets: filtering two runs of targets is filtering each. */
  lemma {:induction false} FileItemsAppend(a: seq<BazelTarget>, b: seq<BazelTarget>, typed: string)
    ensures FileItems(a + b, typed) == FileItems(a, typed) + FileItems(b, typed)
    decreases |b|
  {
    if b == [] {
      assert a + b == a;
    } else {
      var b', last := b[..|b| - 1], b[|b| - 1];
      var extra := if typed <= last.name then [FileItem(last)] else [];
      FileItemsAppend(a, b', typed);
      assert FileItems(a + b, typed) == FileItems(a + b', typed) + extra by {
        assert (a + b)[..|a + b| - 1] == a + b';
        assert (a + b)[|a + b| - 1] == last;
      }
      assert FileItems(b, typed) == FileItems(b', typed) + extra;
    }
  }

  lemma FileItemsSnoc(targets: seq<BazelTarget>, typed: string, item: CompletionItem)
    requires targets != []
    ensures var init, last := targets[..|targets| - 1], targets[|targets| - 1];
      item in FileItems(targets, typed) <==>
        item in FileItems(init, typed) || (typed <= last.name && item == FileItem(last))
  {
  }

  /**
   * `completion_in_file`: nothing for a `//` trigger (a label from another
   * package cannot be in this file) or when the file's targets cannot be read;
   * no items without a trigger; otherwise the items of the targets whose name
   * extends the typed text.
   */
  function CompletionInFile(trigger: Option<TriggerResult>, targets: Option<seq<BazelTarget>>): (r: Option<seq<CompletionItem>>)
    ensures trigger.Some? && trigger.value.triggerType == DoubleSlash ==> r.None?
    ensures targets.None? ==> r.None?
    ensures r.Some? && trigger.None? ==> r.value == []
    ensures r.Some? ==> |r.value| <= |targets.value|
  {
    if trigger.Some? && trigger.value.triggerType == DoubleSlash then None
    else if targets.None? then None
    else if trigger.None? then Some([])
    else Some(FileItems(targets.value, trigger.value.textAfterTrigger))
  }

  // ---------------------------------------------------------------------------
  // Items from the workspace

  /**
   * `create_edit_text_in_workspace`: the rule's bare `:name` when the typed
   * text itself starts with `:`, and its full label otherwise.
   */
  function EditTextInWorkspace(trigger: Option<TriggerResult>, rule: RuleInfo): (r: string)
    ensures r == rule.fullBuildPath || r == ":" + rule.name
    ensures trigger.None? ==> r == rule.fullBuildPath
  {
    match trigger
    case None => rule.fullBuildPath
    case Some(t) =>
      if StartsWithSlashes(t.textAfterTrigger) then rule.fullBuildPath
      else if StartsWithColon(t.textAfterTrigger) then ":" + rule.name
      else rule.fullBuildPath
  }

  /**
   * Read from the line: the edit is the bare `:name` exactly when the last
   * quote is followed by `//:` or `::`; after a plain `":` or `"//` it is the
   * full label.
   */
  lemma EditTextForLine(p: string, a: string, rule: RuleInfo)
    requires '"' !in a
    ensures var trigger := FindTriggerPosition(p + ['"'] + a);
      EditTextInWorkspace(trigger, rule) ==
        if (StartsWithSlashes(a) && StartsWithColon(a[2..])) || (StartsWithColon(a) && StartsWithColon(a[1..]))
        then ":" + rule.name
        else rule.fullBuildPath
  {
    TriggerAfterLastQuote(p, a);
  }

  /** The item offered for a workspace rule: its full label, replacing the text from the trigger to the cursor. */
  function WorkspaceItem(rule: RuleInfo, position: Position, trigger: Option<TriggerResult>): CompletionItem
  {
    var from := Position(position.line, if trigger.Some? then trigger.value.triggerPos else 0);
    CompletionItem(
      rule.fullBuildPath,
      "Target: " + rule.fullBuildPath,
      "Bazel target: " + rule.fullBuildPath,
      Some(TextEdit(Range(from, position), EditTextInWorkspace(trigger, rule))))
  }

  /**
   * A workspace item is labelled with the rule's full label, and its edit, on
   * the cursor's line from the trigger offset up to the cursor, writes the
   * edit text of `create_edit_text_in_workspace` (the full label or `:name`);
   * without a trigger it starts at column 0 and writes the full label.
   */
  lemma WorkspaceItemEdit(rule: RuleInfo, position: Position, trigger: Option<TriggerResult>)
    ensures var item := WorkspaceItem(rule, position, trigger);
      && item.labelText == rule.fullBuildPath && item.textEdit.Some?
      && item.textEdit.value.range.end == position
      && item.textEdit.value.range.start.line == position.line
      && item.textEdit.value.newText == EditTextInWorkspace(trigger, rule)
      && (item.textEdit.value.newText == rule.fullBuildPath || item.textEdit.value.newText == ":" + rule.name)
      && (trigger.Some? ==> item.textEdit.value.range.start == Position(position.line, trigger.value.triggerPos))
      && (trigger.None? ==> item.textEdit.value == TextEdit(Range(Position(position.line, 0), position), rule.fullBuildPath))
  {
  }

  function WorkspaceItems(rules: seq<RuleInfo>, position: Position, trigger: Option<TriggerResult>): seq<CompletionItem>
  {
    seq(|rules|, i requires 0 <= i < |rules| => WorkspaceItem(rules[i], position, trigger))
  }

  /** What `TargetTrie::starts_with` answers for a query key: the non-empty groups of exactly the matching keys, each once. */
  ghost predicate Answers(root: TrieNode, q: string, groups: seq<seq<RuleInfo>>, keys: seq<string>)
  {
    && |groups| == |keys| && Distinct(keys)
    && (forall i | 0 <= i < |keys| :: groups[i] == Group(root, keys[i]))
    && (forall k :: k in keys <==> k in Matches(root, q))
  }

  /**
   * `completion_in_workspace`: for every group the trie answers for the typed
   * text (none without a trigger), one item per rule of the group, in order.
   */
  method CompletionInWorkspace(trie: TargetTrie, position: Position, trigger: Option<TriggerResult>)
    returns (items: seq<CompletionItem>, ghost groups: seq<seq<RuleInfo>>, ghost keys: seq<string>)
    requires trie.Valid()
    ensures items == WorkspaceItems(Flatten(groups), position, trigger)
    ensures trigger.None? ==> groups == []
    ensures trigger.Some? ==> Answers(trie.root, QueryKey(trigger.value.textAfterTrigger), groups, keys)
  {
    var matching: seq<seq<RuleInfo>> := [];
    keys := [];
    if trigger.Some? {
      matching, keys := trie.StartsWith(trigger.value.textAfterTrigger);
    }
    groups := matching;
    items := [];
    var g := 0;
    while g < |matching|
      invariant g <= |matching|
      invariant items == WorkspaceItems(Flatten(matching[..g]), position, trigger)
    {
      ghost var done := Flatten(matching[..g]);
      var more := GroupItems(matching[g], position, trigger);
      WorkspaceItemsAppend(done, matching[g], position, trigger);
      items := items + more;
      assert matching[..g + 1][..g] == matching[..g];
      g := g + 1;
    }
    assert matching[..g] == matching;
  }

  /** The inner loop of `completion_in_workspace`: one item per rule of a group, in order. */
  method GroupItems(rules: seq<RuleInfo>, position: Position, trigger: Option<TriggerResult>) returns (items: seq<CompletionItem>)
    ensures items == WorkspaceItems(rules, position, trigger)
  {
    items := [];
    var r := 0;
    while r < |rules|
      invariant r <= |rules|
      invariant items == WorkspaceItems(rules[..r], position, trigger)
    {
      assert rules[..r + 1] == rules[..r] + [rules[r]];
      WorkspaceItemsAppend(rules[..r], [rules[r]], position, trigger);
      items := items + [WorkspaceItem(rules[r], position, trigger)];
      r := r + 1;
    }
    assert rules[..r] == rules;
  }

  lemma WorkspaceItemsAppend(a: seq<RuleInfo>, b: seq<RuleInfo>, position: Position, trigger: Option<TriggerResult>)
    ensures WorkspaceItems(a + b, position, trigger)
         == WorkspaceItems(a, position, trigger) + WorkspaceItems(b, position, trigger)
  {
  }

  // ---------------------------------------------------------------------------
  // What the workspace offers

  lemma {:induction false} FlattenMember<T>(groups: seq<seq<T>>, x: T)
    ensures x in Flatten(groups) <==> exists g | 0 <= g < |groups| :: x in groups[g]
    decreases |groups|
  {
    if groups != [] {
      var init := groups[..|groups| - 1];
      FlattenMember(init, x);
      if exists g | 0 <= g < |init| :: x in init[g] {
        var g :| 0 <= g < |init| && x in init[g];
        assert groups[g] == init[g];
      }
      if exists g | 0 <= g < |groups| :: x in groups[g] {
        var g :| 0 <= g < |groups| && x in groups[g];
        if g < |init| {
          assert init[g] == groups[g];
        }
      }
    }
  }

  /** A rule in the group the log keeps at `k` was inserted under a path with key `k`. */
  lemma {:induction false} GroupOfMember(log: seq<(string, RuleInfo)>, k: string, rule: RuleInfo) returns (j: nat)
    requires rule in GroupOf(log, k)
    ensures j < |log| && log[j].1 == rule && InsertKey(log[j].0) == k
    decreases |log|
  {
    var init := log[..|log| - 1];
    if rule in GroupOf(init, k) {
      j := GroupOfMember(init, k, rule);
    } else {
      j := |log| - 1;
    }
  }

  /**
   * Every indexed rule is offered: when the key walked for the typed text is a
   * prefix of the key a rule was inserted under, the rule is among the rules
   * the trie answers.
   */
  lemma IndexedRuleIsOffered(root: TrieNode, log: seq<(string, RuleInfo)>, groups: seq<seq<RuleInfo>>,
                             keys: seq<string>, typed: string, i: nat)
    requires WellFormed(root) && forall k :: Group(root, k) == GroupOf(log, k)
    requires Answers(root, QueryKey(typed), groups, keys)
    requires i < |log| && QueryKey(typed) <= InsertKey(log[i].0)
    ensures log[i].1 in Flatten(groups)
  {
    var rule, k := log[i].1, InsertKey(log[i].0);
    GroupOfContains(log, i);
    EndsAtGroup(root, k);
    MatchesMember(root, QueryKey(typed), k);
    var g :| 0 <= g < |keys| && keys[g] == k;
    FlattenMember(groups, rule);
  }

  /** In particular a rule is offered for any typed prefix of its path, when the path has a `:` or no `/`. */
  lemma TypedPathIsOffered(root: TrieNode, log: seq<(string, RuleInfo)>, groups: seq<seq<RuleInfo>>,
                           keys: seq<string>, typed: string, i: nat)
    requires WellFormed(root) && forall k :: Group(root, k) == GroupOf(log, k)
    requires Answers(root, QueryKey(typed), groups, keys)
    requires i < |log| && typed <= log[i].0
    requires ':' in log[i].0 || '/' !in log[i].0
    ensures log[i].1 in Flatten(groups)
  {
    QueryKeyMonotone(typed, log[i].0);
    QueryKeyOfPath(log[i].0);
    IndexedRuleIsOffered(root, log, groups, keys, typed, i);
  }

  /** And nothing else is: every offered rule was inserted under a path whose key extends the query key. */
  lemma OfferedRuleWasIndexed(root: TrieNode, log: seq<(string, RuleInfo)>, groups: seq<seq<RuleInfo>>,
                              keys: seq<string>, typed: string, rule: RuleInfo) returns (j: nat)
    requires forall k :: Group(root, k) == GroupOf(log, k)
    requires Answers(root, QueryKey(typed), groups, keys)
    requires rule in Flatten(groups)
    ensures j < |log| && log[j].1 == rule && QueryKey(typed) <= InsertKey(log[j].0)
  {
    FlattenMember(groups, rule);
    var g :| 0 <= g < |groups| && rule in groups[g];
    MatchesMember(root, QueryKey(typed), keys[g]);
    j := GroupOfMember(log, keys[g], rule);
  }

  // ---------------------------------------------------------------------------
  // The handler

  /** `text.lines().nth(n).unwrap_or("")`. */
  function LineAt(text: string, n: nat): string
  {
    var lines := Lines(text);
    if n < |lines| then lines[n] else ""
  }

  /**
   * `&line[..character]`: the cursor's character is read as a byte offset into
   * the line; the slice exists only when that offset ends a char of the line.
   */
  function CursorPrefix(line: string, character: nat): (r: Option<string>)
    ensures r.Some? ==> r.value <= line && ByteLen(r.value) == character
    ensures r.None? ==> forall i | 0 <= i <= |line| :: ByteLen(line[..i]) != character
  {
    match CharIndexOfByte(line, character)
    case None => None
    case Some(i) => Some(line[..i])
  }

  /**
   * `completion`: no items (`None`) outside a `deps` attribute or without a
   * trigger; otherwise the workspace items when the file is in a workspace
   * folder, and the open file's items when it is not. Whether the cursor is
   * inside `deps`, whether the file is in the workspace and the targets of the
   * open file are given. The source slices the line at the cursor's character
   * and panics when that is not a byte offset ending a char of the line: that
   * is this method's precondition.
   */
  method HandleCompletion(trie: TargetTrie, text: string, position: Position, inDeps: bool, inWorkspace: bool,
                          fileTargets: Option<seq<BazelTarget>>)
    returns (response: Option<seq<CompletionItem>>, ghost groups: seq<seq<RuleInfo>>, ghost keys: seq<string>)
    requires trie.Valid()
    requires inDeps ==> CursorPrefix(LineAt(text, position.line), position.character).Some?
    ensures !inDeps ==> response == None
    ensures inDeps ==>
      var upToCursor := CursorPrefix(LineAt(text, position.line), position.character).value;
      match FindTriggerPosition(upToCursor)
      case None => response == None
      case Some(t) =>
        if inWorkspace then
          && response == Some(WorkspaceItems(Flatten(groups), position, Some(t)))
          && Answers(trie.root, QueryKey(t.textAfterTrigger), groups, keys)
        else response == CompletionInFile(Some(t), fileTargets)
  {
    groups, keys := [], [];
    if !inDeps {
      return None, groups, keys;
    }
    var line := LineAt(text, position.line);
    var upToCursor := CursorPrefix(line, position.character).value;
    var trigger := FindTriggerPosition(upToCursor);
    if trigger.None? {
      return None, groups, keys;
    }
    if inWorkspace {
      var items;
      items, groups, keys := CompletionInWorkspace(trie, position, trigger);
      response := Some(items);
    } else {
      response := CompletionInFile(trigger, fileTargets);
    }
  }
}
