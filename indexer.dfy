/**
 * `populate_trie_from_build_file` in src/server.rs: every target of a BUILD
 * file is inserted into the workspace trie under `package:name` (just `name`
 * in the root package), as a rule whose full label is `//package:name`.
 * Reading the file, parsing it and locating its package are not modelled: the
 * package path and the targets (`None` when the file cannot be read or parsed)
 * are inputs.
 */
module Indexer {
  import opened Wrappers
  import opened Text
  import opened Targets
  import opened Trie
  import opened TrieKeys
  import opened Completion

  /** The path a target is inserted under: its name in the root package, `package:name` elsewhere. */
  function TargetPath(pkg: string, name: string): string
  {
    if pkg == [] then name else pkg + [':'] + name
  }

  /** The rule a target is stored as: its name and its full label `//package:name`. */
  function RuleOf(pkg: string, name: string): (r: RuleInfo)
    ensures r.name == name
    ensures pkg != [] ==> r.fullBuildPath == "//" + TargetPath(pkg, name)
    ensures pkg == [] ==> r.fullBuildPath == "//:" + TargetPath(pkg, name)
  {
    RuleInfo(name, "//" + pkg + [':'] + name)
  }

  /** The insertions the file makes, in the order of its targets. */
  function IndexEntries(pkg: string, targets: seq<BazelTarget>): (r: seq<(string, RuleInfo)>)
    ensures |r| == |targets|
    ensures forall i | 0 <= i < |r| :: r[i].1.name == targets[i].name
    ensures pkg != [] ==> forall i | 0 <= i < |r| :: r[i].1.fullBuildPath == "//" + r[i].0
    ensures pkg == [] ==> forall i | 0 <= i < |r| :: r[i].0 == targets[i].name
  {
    seq(|targets|, i requires 0 <= i < |targets| => (TargetPath(pkg, targets[i].name), RuleOf(pkg, targets[i].name)))
  }

  /** The targets of one BUILD file, inserted in order; nothing when they could not be read. */
  method PopulateTrie(trie: TargetTrie, pkg: string, targets: Option<seq<BazelTarget>>)
    requires trie.Valid()
    modifies trie
    ensures trie.Valid()
    ensures trie.inserted == old(trie.inserted) + if targets.Some? then IndexEntries(pkg, targets.value) else []
  {
    if targets.None? {
      return;
    }
    var ts := targets.value;
    ghost var before := trie.inserted;
    var i := 0;
    while i < |ts|
      invariant i <= |ts|
      invariant trie.Valid()
      invariant trie.inserted == before + IndexEntries(pkg, ts[..i])
    {
      var name := ts[i].name;
      trie.InsertTarget(TargetPath(pkg, name), RuleOf(pkg, name));
      assert IndexEntries(pkg, ts[..i + 1]) == IndexEntries(pkg, ts[..i]) + [(TargetPath(pkg, name), RuleOf(pkg, name))];
      i := i + 1;
    }
    assert ts[..i] == ts;
  }

  /** The key a target is stored at: its package without `/`, then its name, in the root package as elsewhere. */
  lemma PathKey(pkg: string, name: string)
    requires ':' !in pkg && ':' !in name
    ensures InsertKey(TargetPath(pkg, name)) == Remove(pkg, '/') + name
  {
    if pkg == [] {
      assert Remove([], '/') == [];
    } else {
      KeyOfLabel(pkg, name);
    }
  }

  /** Typing any prefix of `package:name` (`:name` in the root package) walks a prefix of the target's key. */
  lemma TypedLabelWalksKey(pkg: string, name: string, typed: string)
    requires ':' !in pkg && ':' !in name
    requires typed <= pkg + [':'] + name
    ensures QueryKey(typed) <= Remove(pkg, '/') + name
  {
    QueryKeyMonotone(typed, pkg + [':'] + name);
    KeyOfLabel(pkg, name);
  }

  /**
   * After a file is indexed, each of its targets is offered for every typed
   * prefix of `package:name`, with the rule's full label `//package:name`.
   */
  lemma IndexedTargetIsOffered(root: TrieNode, before: seq<(string, RuleInfo)>, pkg: string, targets: seq<BazelTarget>,
                               groups: seq<seq<RuleInfo>>, keys: seq<string>, typed: string, t: nat)
    requires WellFormed(root)
    requires forall k :: Group(root, k) == GroupOf(before + IndexEntries(pkg, targets), k)
    requires Answers(root, QueryKey(typed), groups, keys)
    requires t < |targets| && ':' !in pkg && ':' !in targets[t].name
    requires typed <= pkg + [':'] + targets[t].name
    ensures RuleOf(pkg, targets[t].name) in Flatten(groups)
    ensures RuleOf(pkg, targets[t].name).fullBuildPath == "//" + pkg + [':'] + targets[t].name
  {
    var log := before + IndexEntries(pkg, targets);
    var i := |before| + t;
    assert log[i] == (TargetPath(pkg, targets[t].name), RuleOf(pkg, targets[t].name));
    PathKey(pkg, targets[t].name);
    TypedLabelWalksKey(pkg, targets[t].name, typed);
    IndexedRuleIsOffered(root, log, groups, keys, typed, i);
  }
}
