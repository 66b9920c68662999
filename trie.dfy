/**
 * The target trie of src/target_trie.rs: a character trie that indexes build
 * targets by a key made of their package path and rule name, and answers
 * prefix queries with the rule groups stored below the prefix.
 *
 * Each node owns its children exclusively (no sharing, no back references), so a
 * node is a value: `TrieNode` is a datatype and `TargetTrie` is a class whose
 * `root` field the insertion replaces. The abstract state of a trie is its ghost
 * insertion log `inserted`; `Valid` ties every key's rule group and every
 * package-end flag to that log.
 */
module Trie {
  import opened Wrappers
  import opened Text

  /** One build target: its local name and its label `//<package>:<name>`. */
  datatype RuleInfo = RuleInfo(name: string, fullBuildPath: string)

  /** One trie node (`TrieNode`): the char it is keyed by, its two flags, its rule group and its children. */
  datatype TrieNode = TrieNode(
    ch: char,
    isEnd: bool,
    isPackageEnd: bool,
    rules: seq<RuleInfo>,
    children: map<char, TrieNode>)

  /** `TrieNode::new(c)`. */
  function NewNode(c: char): TrieNode
  {
    TrieNode(c, false, false, [], map[])
  }

  /** The char stored at the root by `TargetTrie::new`. */
  const RootChar: char := '\0'

  predicate Distinct<T(==)>(s: seq<T>)
  {
    forall i, j | 0 <= i < j < |s| :: s[i] != s[j]
  }

  // ---------------------------------------------------------------------------
  // Keys

  /**
   * How `insert_target` splits a path: with a `:`, the text before the first `:`
   * is the package part and the text between the first and second `:` the rule
   * part; without one, the whole path is the rule part.
   */
  function InsertSplit(path: string): (string, string)
  {
    if ':' in path then
      var parts := Split(path, ':');
      SplitCount(path, ':');
      (parts[0], parts[1])
    else
      ([], path)
  }

  /** How `starts_with` splits a non-empty prefix: as `InsertSplit`, except that a prefix without `:` is all package part. */
  function QuerySplit(prefix: string): (string, string)
  {
    if ':' in prefix then
      var parts := Split(prefix, ':');
      SplitCount(prefix, ':');
      (parts[0], parts[1])
    else
      (prefix, [])
  }

  /** The chars `insert_target` walks: the package part without its `/`, then the rule part. */
  function InsertKey(path: string): string
  {
    Remove(InsertSplit(path).0, '/') + InsertSplit(path).1
  }

  /** The chars `starts_with` walks: the package part without its `/`, then the rule part. */
  function QueryKey(prefix: string): string
  {
    Remove(QuerySplit(prefix).0, '/') + QuerySplit(prefix).1
  }

  /**
   * The depths (numbers of key chars walked) at which `insert_target` sets
   * `is_package_end`: after each `/`-separated segment of the package part but the last.
   */
  function PackageMarks(path: string): set<nat>
  {
    var pkg := InsertSplit(path).0;
    if pkg == [] then {}
    else
      var parts := Split(pkg, '/');
      set j | 0 <= j < |parts| - 1 :: SegmentEnd(parts, j)
  }

  /** The number of key chars up to the end of package segment `j`. */
  function SegmentEnd(parts: seq<string>, j: nat): nat
    requires j < |parts|
  {
    |Concat(parts[..j + 1])|
  }

  /** The keys of the nodes `insert_target` marks as package ends. */
  ghost function MarkKeys(path: string): set<string>
  {
    var key := InsertKey(path);
    set i | i in PackageMarks(path) && i <= |key| :: key[..i]
  }

  // ---------------------------------------------------------------------------
  // Reading a trie

  /** The node reached from `n` by following the chars of `k`, if every step has a child. */
  function Find(n: TrieNode, k: string): Option<TrieNode>
    decreases |k|
  {
    if k == [] then Some(n)
    else if k[0] in n.children then Find(n.children[k[0]], k[1..])
    else None
  }

  /** The rule group stored at key `k`. */
  function Group(n: TrieNode, k: string): seq<RuleInfo>
  {
    match Find(n, k)
    case Some(m) => m.rules
    case None => []
  }

  /** The node at `k` exists, has `is_end` set and a non-empty group: the test `starts_with` applies. */
  predicate EndsAt(n: TrieNode, k: string)
  {
    match Find(n, k)
    case Some(m) => m.isEnd && m.rules != []
    case None => false
  }

  /** The node at `k` exists and has `is_package_end` set. */
  predicate PackageEndAt(n: TrieNode, k: string)
  {
    match Find(n, k)
    case Some(m) => m.isPackageEnd
    case None => false
  }

  /** The keys of all nodes of the subtree `n`. */
  ghost function Paths(n: TrieNode): set<string>
  {
    {[]} + (set c, p | c in n.children && p in Paths(n.children[c]) :: [c] + p)
  }

  /** The keys `starts_with` reports for query key `q`: the ends at or below `q`. */
  ghost function Matches(n: TrieNode, q: string): set<string>
  {
    set k | k in Paths(n) && q <= k && EndsAt(n, k)
  }

  /** Children are keyed by their own char, and a node has rules exactly when `is_end` is set. */
  ghost predicate WellFormed(n: TrieNode)
  {
    (n.isEnd <==> n.rules != [])
    && forall c | c in n.children :: n.children[c].ch == c && WellFormed(n.children[c])
  }

  // ---------------------------------------------------------------------------
  // Lemmas about reading

  lemma {:induction false} FindAppend(n: TrieNode, a: string, b: string)
    ensures Find(n, a + b) == match Find(n, a) case None => None case Some(m) => Find(m, b)
    decreases |a|
  {
    if a == [] {
      assert a + b == b;
    } else {
      assert (a + b)[0] == a[0];
      assert (a + b)[1..] == a[1..] + b;
      if a[0] in n.children {
        FindAppend(n.children[a[0]], a[1..], b);
      }
    }
  }

  lemma FindSnoc(n: TrieNode, k: string, m: TrieNode, c: char)
    requires Find(n, k) == Some(m) && c in m.children
    ensures Find(n, k + [c]) == Some(m.children[c])
  {
    FindAppend(n, k, [c]);
  }

  /** The keys of a subtree are exactly the keys that can be walked. */
  lemma {:induction false} PathsFind(n: TrieNode, k: string)
    ensures k in Paths(n) <==> Find(n, k).Some?
    decreases |k|
  {
    if k != [] {
      if k in Paths(n) {
        var c, p :| c in n.children && p in Paths(n.children[c]) && k == [c] + p;
        assert c == k[0] && p == k[1..];
        PathsFind(n.children[c], p);
      }
      if Find(n, k).Some? {
        PathsFind(n.children[k[0]], k[1..]);
        assert k == [k[0]] + k[1..];
      }
    }
  }

  /** Membership in `Matches` needs no reference to `Paths`. */
  lemma MatchesMember(n: TrieNode, q: string, k: string)
    ensures k in Matches(n, q) <==> q <= k && EndsAt(n, k)
  {
    PathsFind(n, k);
  }

  lemma {:induction false} FindWellFormed(n: TrieNode, k: string)
    requires WellFormed(n) && Find(n, k).Some?
    ensures WellFormed(Find(n, k).value)
    decreases |k|
  {
    if k != [] {
      FindWellFormed(n.children[k[0]], k[1..]);
    }
  }

  /** In a well-formed trie, a key ends exactly where its group is non-empty. */
  lemma EndsAtGroup(n: TrieNode, k: string)
    requires WellFormed(n)
    ensures EndsAt(n, k) <==> Group(n, k) != []
  {
    if Find(n, k).Some? {
      FindWellFormed(n, k);
    }
  }

  /** If no node exists at some prefix `w` of the query key, nothing matches the query (`starts_with` returns early, empty). */
  lemma NoNodeNoMatches(n: TrieNode, w: string, q: string)
    requires Find(n, w) == None && w <= q
    ensures Matches(n, q) == {}
  {
    forall k | q <= k
      ensures !EndsAt(n, k)
    {
      assert k == w + k[|w|..];
      FindAppend(n, w, k[|w|..]);
    }
    forall k | k in Matches(n, q)
      ensures false
    {
      MatchesMember(n, q, k);
    }
  }

  /** The ends of a subtree are the matches of the empty key. */
  lemma AllEndsMatchEmpty(n: TrieNode, keys: seq<string>)
    requires forall k :: k in keys <==> k in Paths(n) && EndsAt(n, k)
    ensures forall k :: k in keys <==> k in Matches(n, [])
  {
    forall k
      ensures k in keys <==> k in Matches(n, [])
    {
      MatchesMember(n, [], k);
      PathsFind(n, k);
    }
  }

  /** The char-by-char walk of `starts_with` from `from` along `s`: the node reached, or `None` at the first char without a child. */
  method Descend(from: TrieNode, s: string) returns (reached: Option<TrieNode>)
    ensures reached == Find(from, s)
  {
    var current := from;
    for j := 0 to |s|
      invariant Find(from, s[..j]) == Some(current)
    {
      if s[j] !in current.children {
        assert s == s[..j] + s[j..];
        FindAppend(from, s[..j], s[j..]);
        return None;
      }
      FindSnoc(from, s[..j], current, s[j]);
      assert s[..j + 1] == s[..j] + [s[j]];
      current := current.children[s[j]];
    }
    assert s[..|s|] == s;
    return Some(current);
  }

  /** Prefix monotonicity: a longer query key matches a subset of the keys a shorter one matches. */
  lemma MatchesMonotone(n: TrieNode, q1: string, q2: string)
    requires q1 <= q2
    ensures Matches(n, q2) <= Matches(n, q1)
  {
  }

  // ---------------------------------------------------------------------------
  // Insertion, as a function

  /**
   * What `insert_target` does to the subtree `n` it has reached after walking
   * `depth` chars of `key`: sets `is_package_end` when `depth` is a mark, then
   * either ends the walk (sets `is_end`, appends `rule`) or continues into the
   * child for `key[depth]`, creating it when absent.
   */
  function InsertNode(n: TrieNode, key: string, marks: set<nat>, depth: nat, rule: RuleInfo): TrieNode
    requires depth <= |key|
    decreases |key| - depth
  {
    var m := if depth in marks then n.(isPackageEnd := true) else n;
    if depth == |key| then
      m.(isEnd := true, rules := m.rules + [rule])
    else
      var c := key[depth];
      var child := if c in m.children then m.children[c] else NewNode(c);
      m.(children := m.children[c := InsertNode(child, key, marks, depth + 1, rule)])
  }

  /**
   * At the node reached, insertion keeps the char, sets `is_end` and appends
   * the rule only at the end of the key, sets `is_package_end` only at a mark,
   * and adds at most the child for the next char.
   */
  lemma InsertNodeHere(n: TrieNode, key: string, marks: set<nat>, depth: nat, rule: RuleInfo)
    requires depth <= |key|
    ensures var r := InsertNode(n, key, marks, depth, rule);
      && r.ch == n.ch
      && r.isEnd == (n.isEnd || depth == |key|)
      && r.isPackageEnd == (n.isPackageEnd || depth in marks)
      && r.rules == (if depth == |key| then n.rules + [rule] else n.rules)
      && r.children.Keys == (if depth == |key| then n.children.Keys else n.children.Keys + {key[depth]})
  {
  }

  lemma NewNodeEmpty(c: char, k: string)
    ensures Group(NewNode(c), k) == [] && !EndsAt(NewNode(c), k) && !PackageEndAt(NewNode(c), k)
  {
  }

  /** Insertion appends `rule` to the group at the inserted key and changes no other group. */
  lemma {:induction false} InsertGroup(n: TrieNode, key: string, marks: set<nat>, depth: nat, rule: RuleInfo, k: string)
    requires depth <= |key|
    ensures Group(InsertNode(n, key, marks, depth, rule), k)
         == if k == key[depth..] then Group(n, k) + [rule] else Group(n, k)
    decreases |key| - depth
  {
    if depth < |key| && k != [] && k[0] == key[depth] {
      var c := key[depth];
      var child := if c in n.children then n.children[c] else NewNode(c);
      InsertGroup(child, key, marks, depth + 1, rule, k[1..]);
      assert key[depth..] == [c] + key[depth + 1..];
      assert k == [c] + k[1..];
      NewNodeEmpty(c, k[1..]);
    }
  }

  /** Insertion makes the inserted key an end and changes no other key's end status. */
  lemma {:induction false} InsertEndsAt(n: TrieNode, key: string, marks: set<nat>, depth: nat, rule: RuleInfo, k: string)
    requires depth <= |key|
    ensures EndsAt(InsertNode(n, key, marks, depth, rule), k) <==> EndsAt(n, k) || k == key[depth..]
    decreases |key| - depth
  {
    if depth < |key| && k != [] && k[0] == key[depth] {
      var c := key[depth];
      var child := if c in n.children then n.children[c] else NewNode(c);
      InsertEndsAt(child, key, marks, depth + 1, rule, k[1..]);
      assert key[depth..] == [c] + key[depth + 1..];
      assert k == [c] + k[1..];
      NewNodeEmpty(c, k[1..]);
    }
  }

  /** Insertion sets `is_package_end` exactly at the marked nodes of the walked key. */
  lemma {:induction false} InsertPackageEndAt(n: TrieNode, key: string, marks: set<nat>, depth: nat, rule: RuleInfo, k: string)
    requires depth <= |key|
    ensures PackageEndAt(InsertNode(n, key, marks, depth, rule), k)
        <==> PackageEndAt(n, k) || (k <= key[depth..] && depth + |k| in marks)
    decreases |key| - depth
  {
    if depth < |key| && k != [] && k[0] == key[depth] {
      var c := key[depth];
      var child := if c in n.children then n.children[c] else NewNode(c);
      InsertPackageEndAt(child, key, marks, depth + 1, rule, k[1..]);
      assert key[depth..] == [c] + key[depth + 1..];
      assert k == [c] + k[1..];
      NewNodeEmpty(c, k[1..]);
    }
  }

  /** Insertion keeps the trie well formed and the char of the subtree root. */
  lemma {:induction false} InsertWellFormed(n: TrieNode, key: string, marks: set<nat>, depth: nat, rule: RuleInfo)
    requires depth <= |key| && WellFormed(n)
    ensures WellFormed(InsertNode(n, key, marks, depth, rule))
    ensures InsertNode(n, key, marks, depth, rule).ch == n.ch
    decreases |key| - depth
  {
    if depth < |key| {
      var c := key[depth];
      var child := if c in n.children then n.children[c] else NewNode(c);
      InsertWellFormed(child, key, marks, depth + 1, rule);
    }
  }

  // ---------------------------------------------------------------------------
  // The insertion log

  /** The group the log puts at key `k`: the rules inserted under paths with key `k`, in insertion order. */
  ghost function GroupOf(log: seq<(string, RuleInfo)>, k: string): seq<RuleInfo>
  {
    if log == [] then []
    else
      var last := log[|log| - 1];
      GroupOf(log[..|log| - 1], k) + (if InsertKey(last.0) == k then [last.1] else [])
  }

  /** The keys the log marks as package ends. */
  ghost function MarkedKeys(log: seq<(string, RuleInfo)>): set<string>
  {
    if log == [] then {} else MarkedKeys(log[..|log| - 1]) + MarkKeys(log[|log| - 1].0)
  }

  /** The rules of the log, in insertion order. */
  ghost function AllRules(log: seq<(string, RuleInfo)>): seq<RuleInfo>
  {
    if log == [] then [] else AllRules(log[..|log| - 1]) + [log[|log| - 1].1]
  }

  /** The rules of the log whose key is in `keys`, in insertion order. */
  ghost function RulesWithKeyIn(log: seq<(string, RuleInfo)>, keys: set<string>): seq<RuleInfo>
  {
    if log == [] then []
    else
      var last := log[|log| - 1];
      RulesWithKeyIn(log[..|log| - 1], keys) + (if InsertKey(last.0) in keys then [last.1] else [])
  }

  /** The groups of the log at each of `keys`, in that order. */
  ghost function GroupsAt(log: seq<(string, RuleInfo)>, keys: seq<string>): seq<seq<RuleInfo>>
  {
    if keys == [] then [] else GroupsAt(log, keys[..|keys| - 1]) + [GroupOf(log, keys[|keys| - 1])]
  }

  function Flatten<T>(groups: seq<seq<T>>): seq<T>
  {
    if groups == [] then [] else Flatten(groups[..|groups| - 1]) + groups[|groups| - 1]
  }

  lemma {:induction false} GroupsAtIndex(log: seq<(string, RuleInfo)>, keys: seq<string>)
    ensures |GroupsAt(log, keys)| == |keys|
    ensures forall i | 0 <= i < |keys| :: GroupsAt(log, keys)[i] == GroupOf(log, keys[i])
    decreases |keys|
  {
    if keys != [] {
      var n := |keys| - 1;
      var init := keys[..n];
      GroupsAtIndex(log, init);
      var gs := GroupsAt(log, keys);
      assert gs == GroupsAt(log, init) + [GroupOf(log, keys[n])];
      forall i | 0 <= i < |keys|
        ensures gs[i] == GroupOf(log, keys[i])
      {
        if i < n {
          assert init[i] == keys[i];
        }
      }
    }
  }

  /** Every logged rule is in the group of its path's key. */
  lemma {:induction false} GroupOfContains(log: seq<(string, RuleInfo)>, i: nat)
    requires i < |log|
    ensures log[i].1 in GroupOf(log, InsertKey(log[i].0))
    decreases |log|
  {
    if i < |log| - 1 {
      GroupOfContains(log[..|log| - 1], i);
    }
  }

  lemma {:induction false} RulesWithKeyInAdd(log: seq<(string, RuleInfo)>, keys: set<string>, k: string)
    requires k !in keys
    ensures multiset(RulesWithKeyIn(log, keys + {k}))
         == multiset(RulesWithKeyIn(log, keys)) + multiset(GroupOf(log, k))
    decreases |log|
  {
    if log != [] {
      RulesWithKeyInAdd(log[..|log| - 1], keys, k);
    }
  }

  /** Flattening the groups at distinct keys gives the multiset of the rules logged under those keys. */
  lemma {:induction false} FlattenGroupsAt(log: seq<(string, RuleInfo)>, keys: seq<string>)
    requires Distinct(keys)
    ensures multiset(Flatten(GroupsAt(log, keys)))
         == multiset(RulesWithKeyIn(log, set k | k in keys))
    decreases |keys|
  {
    if keys == [] {
      assert (set k | k in keys) == {};
      RulesWithNoKeys(log);
    } else {
      var init, last := keys[..|keys| - 1], keys[|keys| - 1];
      FlattenGroupsAt(log, init);
      assert (set k | k in keys) == (set k | k in init) + {last};
      RulesWithKeyInAdd(log, (set k | k in init), last);
      var g := GroupsAt(log, keys);
      assert g[..|g| - 1] == GroupsAt(log, init);
    }
  }

  lemma {:induction false} RulesWithNoKeys(log: seq<(string, RuleInfo)>)
    ensures RulesWithKeyIn(log, {}) == []
    decreases |log|
  {
    if log != [] {
      RulesWithNoKeys(log[..|log| - 1]);
    }
  }

  /** When `keys` covers every logged path's key, the rules under `keys` are all logged rules. */
  /** Every key the log inserted under is among the keys an empty query reports. */
  lemma LoggedKeysMatch(root: TrieNode, log: seq<(string, RuleInfo)>, keys: seq<string>)
    requires WellFormed(root)
    requires forall k :: Group(root, k) == GroupOf(log, k)
    requires forall k :: k in keys <==> k in Matches(root, [])
    ensures forall i | 0 <= i < |log| :: InsertKey(log[i].0) in (set k | k in keys)
  {
    forall i | 0 <= i < |log|
      ensures InsertKey(log[i].0) in (set k | k in keys)
    {
      var k := InsertKey(log[i].0);
      GroupOfContains(log, i);
      EndsAtGroup(root, k);
      MatchesMember(root, [], k);
    }
  }

  lemma {:induction false} RulesWithAllKeys(log: seq<(string, RuleInfo)>, keys: set<string>)
    requires forall i | 0 <= i < |log| :: InsertKey(log[i].0) in keys
    ensures RulesWithKeyIn(log, keys) == AllRules(log)
    decreases |log|
  {
    if log != [] {
      RulesWithAllKeys(log[..|log| - 1], keys);
    }
  }

  /** The query key is the package segments, concatenated, followed by the rule part. */
  lemma QueryKeyOfParts(prefix: string)
    ensures QueryKey(prefix) == Concat(Split(QuerySplit(prefix).0, '/')) + QuerySplit(prefix).1
  {
    ConcatSplit(QuerySplit(prefix).0, '/');
  }

  /** When the first `i + 1` segments cannot be walked, neither can all of them followed by `rest`. */
  lemma MissInParts(n: TrieNode, parts: seq<string>, i: nat, rest: string)
    requires i < |parts| && Find(n, Concat(parts[..i + 1])).None?
    ensures Find(n, Concat(parts) + rest).None?
  {
    var head := Concat(parts[..i + 1]);
    var tail := Concat(parts[i + 1..]) + rest;
    assert Concat(parts) + rest == head + tail by {
      assert parts == parts[..i + 1] + parts[i + 1..];
      ConcatAppend(parts[..i + 1], parts[i + 1..]);
    }
    FindAppend(n, head, tail);
  }

  lemma ConcatSnoc(parts: seq<string>, i: nat)
    requires i < |parts|
    ensures Concat(parts[..i + 1]) == Concat(parts[..i]) + parts[i]
  {
    assert parts[..i + 1][..i] == parts[..i];
  }

  // ---------------------------------------------------------------------------
  // Collecting the groups of a subtree

  /** The keys of the subtree `n` placed below key `k`. */
  ghost function Sub(k: string, n: TrieNode): set<string>
  {
    set p | p in Paths(n) :: k + p
  }

  /** The keys below the children `cs` of the node `n` at key `k`. */
  ghost function ChildSubs(k: string, n: TrieNode, cs: set<char>): set<string>
  {
    set c, p | c in cs && c in n.children && p in Paths(n.children[c]) :: k + [c] + p
  }

  /** The keys below all nodes on a stack of (key, node) pairs. */
  ghost function StackPaths(ks: seq<string>, ns: seq<TrieNode>): set<string>
    requires |ks| == |ns|
  {
    if ks == [] then {}
    else StackPaths(ks[..|ks| - 1], ns[..|ns| - 1]) + Sub(ks[|ks| - 1], ns[|ns| - 1])
  }

  /** Each stack entry's keys are disjoint from those of the entries beneath it. */
  ghost predicate StackDisjoint(ks: seq<string>, ns: seq<TrieNode>)
    requires |ks| == |ns|
  {
    ks == [] ||
    (StackDisjoint(ks[..|ks| - 1], ns[..|ns| - 1])
     && Sub(ks[|ks| - 1], ns[|ns| - 1]) !! StackPaths(ks[..|ks| - 1], ns[..|ns| - 1]))
  }

  lemma SubRoot(n: TrieNode)
    ensures Sub([], n) == Paths(n)
  {
    assert forall p: string :: [] + p == p;
  }

  lemma SubUnfold(k: string, n: TrieNode)
    ensures Sub(k, n) == {k} + ChildSubs(k, n, n.children.Keys)
  {
    assert k + [] == k;
    assert forall c: char, p: string :: k + ([c] + p) == k + [c] + p;
  }

  lemma ChildSubsLonger(k: string, n: TrieNode, cs: set<char>, x: string)
    requires x in ChildSubs(k, n, cs)
    ensures |x| > |k| && x[|k|] in cs
  {
  }

  lemma ChildSubsNone(k: string, n: TrieNode)
    ensures ChildSubs(k, n, {}) == {}
  {
  }

  lemma ChildSubsAdd(k: string, n: TrieNode, cs: set<char>, c: char)
    requires c in n.children
    ensures ChildSubs(k, n, cs + {c}) == ChildSubs(k, n, cs) + Sub(k + [c], n.children[c])
  {
  }

  lemma ChildSubsSeparate(k: string, n: TrieNode, cs: set<char>, c: char)
    requires c !in cs && c in n.children
    ensures Sub(k + [c], n.children[c]) !! ChildSubs(k, n, cs)
  {
    forall x | x in Sub(k + [c], n.children[c])
      ensures x[|k|] == c && |x| > |k|
    {
      var p :| p in Paths(n.children[c]) && x == k + [c] + p;
    }
    forall x | x in ChildSubs(k, n, cs)
      ensures x !in Sub(k + [c], n.children[c])
    {
      ChildSubsLonger(k, n, cs, x);
    }
  }

  /** The set bookkeeping of one pop of the stack walk. */
  lemma PopStep(all: set<string>, visited: set<string>, stacked: set<string>, below: set<string>,
                key: string, sub: set<string>, kids: set<string>)
    requires all == visited + stacked && visited !! stacked
    requires stacked == below + sub && sub !! below
    requires sub == {key} + kids && key !in kids
    ensures all == (visited + {key}) + (below + kids)
    ensures (visited + {key}) !! (below + kids)
    ensures all - (visited + {key}) < all - visited
  {
    assert key in all - visited;
  }

  /** The bookkeeping of popping the top `(key, node)` of the stack and marking `key` visited. */
  lemma PopFacts(all: set<string>, visited: set<string>, ks: seq<string>, ns: seq<TrieNode>)
    requires |ks| == |ns| > 0
    requires all == visited + StackPaths(ks, ns) && visited !! StackPaths(ks, ns)
    requires StackDisjoint(ks, ns)
    ensures var key, node := ks[|ks| - 1], ns[|ns| - 1];
      var ks', ns' := ks[..|ks| - 1], ns[..|ns| - 1];
      && StackDisjoint(ks', ns')
      && Sub(key, node) !! StackPaths(ks', ns')
      && key !in visited
      && all == (visited + {key}) + (StackPaths(ks', ns') + ChildSubs(key, node, node.children.Keys))
      && (visited + {key}) !! (StackPaths(ks', ns') + ChildSubs(key, node, node.children.Keys))
      && all - (visited + {key}) < all - visited
  {
    var key, node := ks[|ks| - 1], ns[|ns| - 1];
    var ks', ns' := ks[..|ks| - 1], ns[..|ns| - 1];
    var kids := ChildSubs(key, node, node.children.Keys);
    SubUnfold(key, node);
    forall x | x in kids
      ensures x != key
    {
      ChildSubsLonger(key, node, node.children.Keys, x);
    }
    PopStep(all, visited, StackPaths(ks, ns), StackPaths(ks', ns'), key, Sub(key, node), kids);
  }

  /** Each stack entry is the node at its key. */
  ghost predicate StackAt(start: TrieNode, ks: seq<string>, ns: seq<TrieNode>)
  {
    |ks| == |ns| && forall i | 0 <= i < |ns| :: Find(start, ks[i]) == Some(ns[i])
  }

  /** The state of the push loop after pushing the children `done` of the node at `key` above `below`. */
  ghost predicate Pushed(start: TrieNode, key: string, node: TrieNode, below: set<string>, done: set<char>,
                         ks: seq<string>, ns: seq<TrieNode>)
  {
    && StackAt(start, ks, ns)
    && StackDisjoint(ks, ns)
    && StackPaths(ks, ns) == below + ChildSubs(key, node, done)
  }

  /** Pushing the child for `c` of the node at `key` extends the stack's keys by that child's subtree. */
  lemma PushOne(start: TrieNode, key: string, node: TrieNode, below: set<string>, done: set<char>,
                ks: seq<string>, ns: seq<TrieNode>, c: char)
    requires Pushed(start, key, node, below, done, ks, ns)
    requires Find(start, key) == Some(node) && Sub(key, node) !! below
    requires c in node.children && c !in done
    ensures Pushed(start, key, node, below, done + {c}, ks + [key + [c]], ns + [node.children[c]])
  {
    var ks', ns' := ks + [key + [c]], ns + [node.children[c]];
    assert ks'[..|ks'| - 1] == ks && ns'[..|ns'| - 1] == ns;
    FindSnoc(start, key, node, c);
    ChildSubsAdd(key, node, done, c);
    PushedSeparate(key, node, below, done, c);
  }

  /** The subtree of a child not yet pushed is disjoint from everything on the stack. */
  lemma PushedSeparate(key: string, node: TrieNode, below: set<string>, done: set<char>, c: char)
    requires Sub(key, node) !! below
    requires c in node.children && c !in done
    ensures Sub(key + [c], node.children[c]) !! below + ChildSubs(key, node, done)
  {
    ChildSubsSeparate(key, node, done, c);
    SubUnfold(key, node);
    ChildSubsAdd(key, node, node.children.Keys - {c}, c);
    assert node.children.Keys - {c} + {c} == node.children.Keys;
  }

  /** The inner loop of the stack walk: pushes every child of `node` (at key `key`) onto the stack. */
  method PushChildren(ghost start: TrieNode, ghost key: string, node: TrieNode, ghost below: set<string>,
                      stack: seq<TrieNode>, ghost stackKeys: seq<string>)
    returns (pushed: seq<TrieNode>, ghost pushedKeys: seq<string>)
    requires Find(start, key) == Some(node) && Sub(key, node) !! below
    requires Pushed(start, key, node, below, {}, stackKeys, stack)
    ensures Pushed(start, key, node, below, node.children.Keys, pushedKeys, pushed)
  {
    pushed, pushedKeys := stack, stackKeys;
    var remaining := node.children.Keys;
    ghost var done: set<char> := {};
    while remaining != {}
      invariant remaining <= node.children.Keys && done == node.children.Keys - remaining
      invariant Pushed(start, key, node, below, done, pushedKeys, pushed)
      decreases remaining
    {
      var c :| c in remaining;
      PushOne(start, key, node, below, done, pushedKeys, pushed, c);
      pushed := pushed + [node.children[c]];
      pushedKeys := pushedKeys + [key + [c]];
      remaining := remaining - {c};
      done := done + {c};
    }
    assert done == node.children.Keys;
  }

  /** The groups reported so far: those of the ends among the visited keys, each once. */
  ghost predicate Reported(start: TrieNode, visited: set<string>, result: seq<seq<RuleInfo>>, keys: seq<string>)
  {
    && |result| == |keys| && Distinct(keys)
    && (forall i | 0 <= i < |keys| ::
          keys[i] in visited && result[i] == Group(start, keys[i]) && EndsAt(start, keys[i]))
    && (forall k | k in visited && EndsAt(start, k) :: k in keys)
  }

  /** The stack holds the nodes at its keys, and its subtrees partition the unvisited keys. */
  ghost predicate Pending(start: TrieNode, visited: set<string>, ks: seq<string>, ns: seq<TrieNode>)
  {
    && StackAt(start, ks, ns)
    && Paths(start) == visited + StackPaths(ks, ns)
    && visited !! StackPaths(ks, ns)
    && StackDisjoint(ks, ns)
  }

  /** Visiting `key` reports its group when it is an end. */
  lemma ReportStep(start: TrieNode, visited: set<string>, result: seq<seq<RuleInfo>>, keys: seq<string>,
                   key: string, node: TrieNode)
    requires Reported(start, visited, result, keys)
    requires key !in visited && Find(start, key) == Some(node)
    ensures node.isEnd && node.rules != [] ==> Reported(start, visited + {key}, result + [node.rules], keys + [key])
    ensures !(node.isEnd && node.rules != []) ==> Reported(start, visited + {key}, result, keys)
  {
  }

  /** Popping the top `(key, node)` and pushing its children keeps the partition, with `key` now visited. */
  method PopAndPush(ghost start: TrieNode, ghost visited: set<string>, stack: seq<TrieNode>, ghost stackKeys: seq<string>)
    returns (node: TrieNode, ghost key: string, next: seq<TrieNode>, ghost nextKeys: seq<string>)
    requires stack != [] && Pending(start, visited, stackKeys, stack)
    ensures node == stack[|stack| - 1] && key == stackKeys[|stackKeys| - 1]
    ensures key !in visited && Find(start, key) == Some(node)
    ensures Pending(start, visited + {key}, nextKeys, next)
    ensures Paths(start) - (visited + {key}) < Paths(start) - visited
  {
    node := stack[|stack| - 1];
    key := stackKeys[|stackKeys| - 1];
    PopFacts(Paths(start), visited, stackKeys, stack);
    ghost var ks := stackKeys[..|stackKeys| - 1];
    var ns := stack[..|stack| - 1];
    ChildSubsNone(key, node);
    assert StackPaths(ks, ns) + ChildSubs(key, node, {}) == StackPaths(ks, ns);
    next, nextKeys := PushChildren(start, key, node, StackPaths(ks, ns), ns, ks);
  }

  /**
   * The stack walk of `starts_with` (the loop over `stack`, popping a node,
   * reporting its group when `is_end` is set and the group is non-empty, pushing
   * all its children in the map's arbitrary order): reports each end of the
   * subtree `start` exactly once, with the group stored there.
   */
  method CollectGroups(start: TrieNode) returns (result: seq<seq<RuleInfo>>, ghost keys: seq<string>)
    ensures |result| == |keys| && Distinct(keys)
    ensures forall i | 0 <= i < |keys| :: result[i] == Group(start, keys[i]) && EndsAt(start, keys[i])
    ensures forall k :: k in keys <==> k in Paths(start) && EndsAt(start, k)
  {
    result, keys := [], [];
    var stack := [start];
    ghost var stackKeys: seq<string> := [[]];
    ghost var visited: set<string> := {};
    SubRoot(start);
    assert StackPaths(stackKeys, stack) == Paths(start) by {
      assert stackKeys[..0] == [] && stack[..0] == [];
    }
    while stack != []
      invariant Pending(start, visited, stackKeys, stack)
      invariant Reported(start, visited, result, keys)
      decreases Paths(start) - visited
    {
      var node;
      ghost var key;
      node, key, stack, stackKeys := PopAndPush(start, visited, stack, stackKeys);
      ReportStep(start, visited, result, keys, key, node);
      if node.isEnd && node.rules != [] {
        result := result + [node.rules];
        keys := keys + [key];
      }
      visited := visited + {key};
    }
  }

  /**
   * The walk of `starts_with` for a non-empty prefix: the chars of each
   * `/`-separated segment of the package part, then those of the rule part
   * when there is one; `None` as soon as a char has no child.
   */
  method WalkQuery(root: TrieNode, prefix: string) returns (reached: Option<TrieNode>)
    ensures reached == Find(root, QueryKey(prefix))
  {
    var (packagePath, rulePrefix) := QuerySplit(prefix);
    var parts := Split(packagePath, '/');
    ghost var q := QueryKey(prefix);
    QueryKeyOfParts(prefix);
    var current := root;
    ghost var walked: string := [];
    for i := 0 to |parts|
      invariant walked == Concat(parts[..i])
      invariant Find(root, walked) == Some(current)
    {
      var next := Descend(current, parts[i]);
      FindAppend(root, walked, parts[i]);
      ConcatSnoc(parts, i);
      if next.None? {
        MissInParts(root, parts, i, rulePrefix);
        return None;
      }
      current := next.value;
      walked := walked + parts[i];
    }
    assert parts[..|parts|] == parts;
    if rulePrefix != [] {
      var next := Descend(current, rulePrefix);
      FindAppend(root, walked, rulePrefix);
      if next.None? {
        return None;
      }
      current := next.value;
    } else {
      assert q == walked;
    }
    return Some(current);
  }

  /**
   * The key walk of `insert_target`: the chars of each `/`-separated package
   * segment in turn (marking the depth after every segment but the last), then
   * the chars of the rule name.
   */
  method TargetKey(path: string) returns (key: string, marks: set<nat>)
    ensures key == InsertKey(path) && marks == PackageMarks(path)
  {
    var (packagePath, ruleName) := InsertSplit(path);
    key, marks := [], {};
    if packagePath != [] {
      var parts := Split(packagePath, '/');
      for i := 0 to |parts|
        invariant key == Concat(parts[..i])
        invariant marks == set j | 0 <= j < i && j < |parts| - 1 :: SegmentEnd(parts, j)
      {
        ConcatSnoc(parts, i);
        key := key + parts[i];
        assert |key| == SegmentEnd(parts, i);
        if i < |parts| - 1 {
          marks := marks + {|key|};
        }
        assert marks == set j | 0 <= j < i + 1 && j < |parts| - 1 :: SegmentEnd(parts, j);
      }
      assert parts[..|parts|] == parts;
      ConcatSplit(packagePath, '/');
    }
    key := key + ruleName;
  }

  /**
   * The node walk of `insert_target` along `key` from `root`: creates missing
   * children, sets `is_package_end` at the marked depths, then `is_end` and the
   * new rule at the end. It keeps the nodes it passed (`spine`) and re-attaches
   * the updated node to them on the way back up.
   */
  method InsertAlong(root: TrieNode, key: string, marks: set<nat>, rule: RuleInfo) returns (updated: TrieNode)
    ensures updated == InsertNode(root, key, marks, 0, rule)
  {
    ghost var target := InsertNode(root, key, marks, 0, rule);
    var spine: seq<TrieNode> := [];
    var current := root;
    var depth := 0;
    while depth < |key|
      invariant depth <= |key| && |spine| == depth
      invariant Rebuild(spine, key, InsertNode(current, key, marks, depth, rule)) == target
    {
      if depth in marks {
        current := current.(isPackageEnd := true);
      }
      var c := key[depth];
      var child := if c in current.children then current.children[c] else NewNode(c);
      assert (spine + [current])[..depth] == spine;
      spine := spine + [current];
      current := child;
      depth := depth + 1;
    }
    if depth in marks {
      current := current.(isPackageEnd := true);
    }
    current := current.(isEnd := true, rules := current.rules + [rule]);
    while spine != []
      invariant |spine| <= |key|
      invariant Rebuild(spine, key, current) == target
    {
      var parent := spine[|spine| - 1];
      current := parent.(children := parent.children[key[|spine| - 1] := current]);
      spine := spine[..|spine| - 1];
    }
    updated := current;
  }

  // ---------------------------------------------------------------------------
  // The trie

  /** `TargetTrie`: the root of the index, and the log of what was inserted. */
  class TargetTrie {
    var root: TrieNode
    /** The `(path, rule)` pairs inserted so far, in insertion order. */
    ghost var inserted: seq<(string, RuleInfo)>

    /** The root is the `'\0'` node; every key's group and package-end flag is the one the log gives it. */
    ghost predicate Valid()
      reads this
    {
      && root.ch == RootChar
      && WellFormed(root)
      && (forall k :: Group(root, k) == GroupOf(inserted, k))
      && (forall k :: PackageEndAt(root, k) <==> k in MarkedKeys(inserted))
    }

    /** `TargetTrie::new`: an empty trie. */
    constructor ()
      ensures Valid() && inserted == []
      ensures forall k :: Group(root, k) == [] && !PackageEndAt(root, k)
    {
      root := TrieNode(RootChar, false, false, [], map[]);
      inserted := [];
    }

    /**
     * `insert_target(path, rule)`: walks the key of `path` from the root,
     * creating the missing nodes and setting `is_package_end` after each
     * package segment but the last, then sets `is_end` and appends `rule` at
     * the node reached. The walk keeps the nodes it passed (`spine`) and
     * re-attaches the updated node to them on the way back up.
     */
    method InsertTarget(path: string, rule: RuleInfo)
      requires Valid()
      modifies this
      ensures Valid()
      ensures inserted == old(inserted) + [(path, rule)]
      ensures root == InsertNode(old(root), InsertKey(path), PackageMarks(path), 0, rule)
      ensures forall k :: Group(root, k) == if k == InsertKey(path) then old(Group(root, k)) + [rule] else old(Group(root, k))
      ensures forall k :: PackageEndAt(root, k) <==> old(PackageEndAt(root, k)) || k in MarkKeys(path)
    {
      var key, marks := TargetKey(path);
      var updated := InsertAlong(root, key, marks, rule);
      InsertKeepsLog(root, inserted, path, rule);
      root := updated;
      inserted := inserted + [(path, rule)];
    }

    /**
     * `starts_with(prefix)`: the rule groups of every end at or below the node
     * reached by walking the query key of `prefix` (the whole trie for an empty
     * prefix), each exactly once, in an unspecified order; nothing when some char
     * of the walk has no child. `keys` names the key each group is stored at.
     */
    method StartsWith(prefix: string) returns (result: seq<seq<RuleInfo>>, ghost keys: seq<string>)
      requires Valid()
      ensures |result| == |keys| && Distinct(keys)
      ensures forall i | 0 <= i < |keys| :: result[i] == Group(root, keys[i]) && result[i] != []
      ensures forall k :: k in keys <==> k in Matches(root, QueryKey(prefix))
      ensures prefix == [] ==> multiset(Flatten(result)) == multiset(AllRules(inserted))
    {
      if prefix == [] {
        result, keys := CollectGroups(root);
        assert QueryKey(prefix) == [];
        AllEndsMatchEmpty(root, keys);
        EmptyPrefixIsEverything(result, keys);
        return;
      }

      var reached := WalkQuery(root, prefix);
      ghost var q := QueryKey(prefix);
      if reached.None? {
        NoNodeNoMatches(root, q, q);
        return [], [];
      }
      var current := reached.value;

      var below;
      ghost var relKeys;
      below, relKeys := CollectGroups(current);
      result := below;
      keys := seq(|relKeys|, i requires 0 <= i < |relKeys| => q + relKeys[i]);
      SubtreeMatches(root, q, current, relKeys, keys);
    }

    /** With an empty prefix the flattened groups are every rule ever inserted, with multiplicity. */
    lemma EmptyPrefixIsEverything(result: seq<seq<RuleInfo>>, keys: seq<string>)
      requires Valid()
      requires |result| == |keys| && Distinct(keys)
      requires forall i | 0 <= i < |keys| :: result[i] == Group(root, keys[i])
      requires forall k :: k in keys <==> k in Matches(root, [])
      ensures multiset(Flatten(result)) == multiset(AllRules(inserted))
    {
      assert result == GroupsAt(inserted, keys) by {
        GroupsAtIndex(inserted, keys);
      }
      FlattenGroupsAt(inserted, keys);
      LoggedKeysMatch(root, inserted, keys);
      RulesWithAllKeys(inserted, set k | k in keys);
    }
  }

  /** Insertion keeps the log abstraction: the new trie is the one the extended log describes. */
  lemma InsertKeepsLog(before: TrieNode, log: seq<(string, RuleInfo)>, path: string, rule: RuleInfo)
    requires WellFormed(before)
    requires forall k :: Group(before, k) == GroupOf(log, k)
    requires forall k :: PackageEndAt(before, k) <==> k in MarkedKeys(log)
    ensures var after := InsertNode(before, InsertKey(path), PackageMarks(path), 0, rule);
      && WellFormed(after) && after.ch == before.ch
      && (forall k :: Group(after, k) == GroupOf(log + [(path, rule)], k))
      && (forall k :: Group(after, k) == if k == InsertKey(path) then Group(before, k) + [rule] else Group(before, k))
      && (forall k :: PackageEndAt(after, k) <==> k in MarkedKeys(log + [(path, rule)]))
      && (forall k :: PackageEndAt(after, k) <==> PackageEndAt(before, k) || k in MarkKeys(path))
  {
    InsertWellFormed(before, InsertKey(path), PackageMarks(path), 0, rule);
    InsertKeepsGroups(before, log, path, rule);
    InsertKeepsMarks(before, log, path, rule);
  }

  lemma InsertKeepsGroups(before: TrieNode, log: seq<(string, RuleInfo)>, path: string, rule: RuleInfo)
    requires forall k :: Group(before, k) == GroupOf(log, k)
    ensures var after := InsertNode(before, InsertKey(path), PackageMarks(path), 0, rule);
      && (forall k :: Group(after, k) == GroupOf(log + [(path, rule)], k))
      && (forall k :: Group(after, k) == if k == InsertKey(path) then Group(before, k) + [rule] else Group(before, k))
  {
    var key, marks := InsertKey(path), PackageMarks(path);
    var log' := log + [(path, rule)];
    assert log'[..|log'| - 1] == log;
    forall k
      ensures Group(InsertNode(before, key, marks, 0, rule), k)
           == if k == key then Group(before, k) + [rule] else Group(before, k)
    {
      InsertGroup(before, key, marks, 0, rule, k);
    }
  }

  lemma InsertKeepsMarks(before: TrieNode, log: seq<(string, RuleInfo)>, path: string, rule: RuleInfo)
    requires forall k :: PackageEndAt(before, k) <==> k in MarkedKeys(log)
    ensures var after := InsertNode(before, InsertKey(path), PackageMarks(path), 0, rule);
      && (forall k :: PackageEndAt(after, k) <==> k in MarkedKeys(log + [(path, rule)]))
      && (forall k :: PackageEndAt(after, k) <==> PackageEndAt(before, k) || k in MarkKeys(path))
  {
    var key, marks := InsertKey(path), PackageMarks(path);
    var log' := log + [(path, rule)];
    assert log'[..|log'| - 1] == log;
    forall k
      ensures PackageEndAt(InsertNode(before, key, marks, 0, rule), k) <==> PackageEndAt(before, k) || k in MarkKeys(path)
    {
      InsertPackageEndAt(before, key, marks, 0, rule, k);
      if k <= key && |k| in marks {
        assert k == key[..|k|];
      }
    }
  }

  /** The ends below the node at `q` are the matches of `q`, shifted by `q`. */
  lemma SubtreeMatches(root: TrieNode, q: string, m: TrieNode, rel: seq<string>, keys: seq<string>)
    requires Find(root, q) == Some(m)
    requires Distinct(rel)
    requires forall k :: k in rel <==> k in Paths(m) && EndsAt(m, k)
    requires |keys| == |rel| && forall i | 0 <= i < |rel| :: keys[i] == q + rel[i]
    ensures Distinct(keys)
    ensures forall i | 0 <= i < |rel| :: Group(root, keys[i]) == Group(m, rel[i]) && EndsAt(root, keys[i])
    ensures forall k :: k in keys <==> k in Matches(root, q)
  {
    forall i | 0 <= i < |rel|
      ensures Group(root, keys[i]) == Group(m, rel[i]) && EndsAt(root, keys[i])
    {
      assert rel[i] in rel;
      FindAppend(root, q, rel[i]);
    }
    forall i, j | 0 <= i < j < |keys|
      ensures keys[i] != keys[j]
    {
      assert rel[i] == keys[i][|q|..] && rel[j] == keys[j][|q|..];
    }
    forall k
      ensures k in keys <==> k in Matches(root, q)
    {
      MatchesMember(root, q, k);
      if k in keys {
        var i :| 0 <= i < |keys| && keys[i] == k;
        assert q <= k;
      }
      if q <= k && EndsAt(root, k) {
        var p := k[|q|..];
        assert k == q + p;
        FindAppend(root, q, p);
        PathsFind(m, p);
        var i :| 0 <= i < |rel| && rel[i] == p;
        assert keys[i] == k;
      }
    }
  }

  /**
   * Rebuilds a walked path bottom-up: attaches `node` as the child for `key[i]`
   * of `spine[i]`, from the deepest spine node up to the root.
   */
  function Rebuild(spine: seq<TrieNode>, key: string, node: TrieNode): TrieNode
    requires |spine| <= |key|
    decreases |spine|
  {
    if spine == [] then node
    else
      var i := |spine| - 1;
      Rebuild(spine[..i], key, spine[i].(children := spine[i].children[key[i] := node]))
  }
}
