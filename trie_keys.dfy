/**
 * Properties of the keys the target trie of src/target_trie.rs builds from
 * target paths and query prefixes, and what they mean for a query after an
 * insertion.
 */
module TrieKeys {
  import opened Wrappers
  import opened Text
  import opened Trie

  /** The two pieces around the first `:` of a text that has one. */
  lemma ColonParts(s: string, i: nat)
    requires i < |s| && s[i] == ':' && ':' !in s[..i]
    ensures |Split(s, ':')| >= 2
    ensures Split(s, ':')[0] == s[..i]
    ensures Split(s, ':')[1] == Split(s[i + 1..], ':')[0]
  {
    var p, q := s[..i], s[i + 1..];
    assert s == p + [':'] + q;
    SplitFirst(p, ':', q);
    var parts := Split(s, ':');
    assert parts[1..] == Split(q, ':');
    assert parts[1] == parts[1..][0];
  }

  /** A typed prefix that extends another walks a key that extends the other's. */
  lemma QueryKeyMonotone(a: string, b: string)
    requires a <= b
    ensures QueryKey(a) <= QueryKey(b)
  {
    if ':' in a {
      var i := IndexOf(a, ':').value;
      IndexOfExtend(a, b, ':');
      assert ':' in b by { assert b[i] == ':'; }
      ColonParts(a, i);
      ColonParts(b, i);
      assert a[..i] == b[..i];
      SplitHeadExtend(a[i + 1..], b[i + 1..], ':');
    } else if ':' in b {
      var j := IndexOf(b, ':').value;
      IndexOfExtend(a, b, ':');
      ColonParts(b, j);
      assert b[..j] == a + b[|a|..j];
      RemoveAppend(a, b[|a|..j], '/');
    } else {
      assert b == a + b[|a|..];
      RemoveAppend(a, b[|a|..], '/');
    }
  }

  /** A path with a `:`, or without any `/`, is queried under the very key it was inserted under. */
  lemma QueryKeyOfPath(path: string)
    requires ':' in path || '/' !in path
    ensures QueryKey(path) == InsertKey(path)
  {
    if ':' !in path {
      RemoveAbsent(path, '/');
      assert Remove([], '/') == [];
    }
  }

  /**
   * Round trip: after inserting `rule` under `path`, a query with any typed
   * prefix of `path` reports the group at the path's key, and that group ends
   * with `rule`, after whatever was inserted there before.
   */
  lemma InsertThenQuery(n: TrieNode, path: string, rule: RuleInfo, prefix: string)
    requires prefix <= path
    requires ':' in path || '/' !in path
    ensures var key := InsertKey(path);
      var after := InsertNode(n, key, PackageMarks(path), 0, rule);
      && key in Matches(after, QueryKey(prefix))
      && Group(after, key) == Group(n, key) + [rule]
  {
    var key, marks := InsertKey(path), PackageMarks(path);
    QueryKeyMonotone(prefix, path);
    QueryKeyOfPath(path);
    assert key[0..] == key;
    InsertEndsAt(n, key, marks, 0, rule, key);
    InsertGroup(n, key, marks, 0, rule, key);
    MatchesMember(InsertNode(n, key, marks, 0, rule), QueryKey(prefix), key);
  }

  /**
   * Without that condition the round trip fails: `a/b` is inserted under the
   * key `a/b` but queried under `ab`, so no trie reports it for its own path.
   */
  lemma SlashPathWithoutColonIsNotFound(n: TrieNode)
    ensures InsertKey("a/b") == "a/b" && QueryKey("a/b") == "ab"
    ensures "a/b" !in Matches(n, QueryKey("a/b"))
  {
    SlashPathKeys();
    MatchesMember(n, "ab", "a/b");
  }

  lemma SlashPathKeys()
    ensures InsertKey("a/b") == "a/b" && QueryKey("a/b") == "ab"
  {
    var p: string := "a/b";
    assert ':' !in p by {
      assert p == ['a', '/', 'b'];
    }
    KeysWithoutColon(p);
    var q: string := "/b";
    var r: string := "b";
    assert Remove(r, '/') == r by {
      assert r[1..] == [];
    }
    assert Remove(q, '/') == r by {
      assert q[1..] == r;
    }
    assert Remove(p, '/') == "ab" by {
      assert p[1..] == q;
    }
  }

  /** A path without `:` is all rule part for insertion and all package part for queries. */
  lemma KeysWithoutColon(p: string)
    requires ':' !in p
    ensures InsertKey(p) == p && QueryKey(p) == Remove(p, '/')
  {
    assert InsertSplit(p) == ([], p);
    assert QuerySplit(p) == (p, []);
    assert Remove([], '/') == [];
  }

  /** The key of `pkg:name` (neither with a `:`) is `pkg` without its `/` followed by `name`, for insertion and for queries alike. */
  lemma KeyOfLabel(pkg: string, name: string)
    requires ':' !in pkg && ':' !in name
    ensures InsertKey(pkg + [':'] + name) == Remove(pkg, '/') + name
    ensures QueryKey(pkg + [':'] + name) == Remove(pkg, '/') + name
  {
    SplitFirst(pkg, ':', name);
    SplitHead(name, ':');
  }

  /** Anything after a second `:` does not change the key. */
  lemma KeyIgnoresRest(pkg: string, name: string, rest: string)
    requires ':' !in pkg && ':' !in name
    ensures InsertKey(pkg + [':'] + name + [':'] + rest) == InsertKey(pkg + [':'] + name)
    ensures QueryKey(pkg + [':'] + name + [':'] + rest) == QueryKey(pkg + [':'] + name)
  {
    KeyOfLabel(pkg, name);
    var s := pkg + [':'] + name + [':'] + rest;
    assert s == pkg + [':'] + (name + [':'] + rest);
    SplitFirst(pkg, ':', name + [':'] + rest);
    SplitFirst(name, ':', rest);
  }

  /** A leading `//` does not change the key, so `//pkg:name` and `pkg:name` share a group. */
  lemma LeadingSlashesIgnored(pkg: string, name: string)
    requires ':' !in pkg && ':' !in name
    ensures InsertKey("//" + pkg + [':'] + name) == InsertKey(pkg + [':'] + name)
  {
    var slashes: string := "//";
    assert ':' !in slashes + pkg by {
      assert ':' !in slashes;
    }
    assert Remove(slashes + pkg, '/') == Remove(pkg, '/') by {
      RemoveAppend(slashes, pkg, '/');
      assert Remove(slashes, '/') == [] by {
        assert slashes[1..] == "/" && "/"[1..] == [];
      }
    }
    SamePackageKey(slashes + pkg, pkg, name);
  }

  /** Packages that agree once their `/` are dropped give a rule one key. */
  lemma SamePackageKey(pkg1: string, pkg2: string, name: string)
    requires ':' !in pkg1 && ':' !in pkg2 && ':' !in name
    requires Remove(pkg1, '/') == Remove(pkg2, '/')
    ensures InsertKey(pkg1 + [':'] + name) == InsertKey(pkg2 + [':'] + name)
  {
    KeyOfLabel(pkg1, name);
    KeyOfLabel(pkg2, name);
  }

  /**
   * Dropping `/` lets different labels share a key: `a/b:x` and `ab:x` (for
   * segments without `/` or `:`) land in one group.
   */
  lemma SlashesCollide(a: string, b: string, x: string)
    requires '/' !in a && '/' !in b && ':' !in a && ':' !in b && ':' !in x
    ensures a + ['/'] + b + [':'] + x != a + b + [':'] + x
    ensures InsertKey(a + ['/'] + b + [':'] + x) == InsertKey(a + b + [':'] + x) == a + b + x
  {
    var slashed, joined := a + ['/'] + b, a + b;
    assert |slashed + [':'] + x| != |joined + [':'] + x|;
    assert InsertKey(slashed + [':'] + x) == a + b + x by {
      KeyOfTwoSegments(a, b, x);
    }
    assert InsertKey(joined + [':'] + x) == a + b + x by {
      KeyOfLabel(joined, x);
      RemoveAbsent(joined, '/');
    }
  }

  /**
   * `a/b:name` (segments without `/` or `:`) marks the node after `a` as a
   * package end and no other.
   */
  lemma PackageEndsOfTwoSegments(a: string, b: string, name: string)
    requires '/' !in a && '/' !in b && ':' !in a && ':' !in b && ':' !in name
    ensures PackageMarks(a + ['/'] + b + [':'] + name) == {|a|}
    ensures MarkKeys(a + ['/'] + b + [':'] + name) == {a}
  {
    var path := a + ['/'] + b + [':'] + name;
    MarksOfTwoSegments(a, b, name);
    KeyOfTwoSegments(a, b, name);
    var key := InsertKey(path);
    assert key[..|a|] == a;
    assert MarkKeys(path) == {key[..|a|]};
  }

  lemma KeyOfTwoSegments(a: string, b: string, name: string)
    requires '/' !in a && '/' !in b && ':' !in a && ':' !in b && ':' !in name
    ensures InsertKey(a + ['/'] + b + [':'] + name) == a + b + name
  {
    var pkg := a + ['/'] + b;
    KeyOfLabel(pkg, name);
    assert Remove(pkg, '/') == a + b by {
      RemoveAppend(a + ['/'], b, '/');
      RemoveAppend(a, ['/'], '/');
      RemoveAbsent(a, '/');
      RemoveAbsent(b, '/');
    }
  }

  lemma MarksOfTwoSegments(a: string, b: string, name: string)
    requires '/' !in a && '/' !in b && ':' !in a && ':' !in b && ':' !in name
    ensures PackageMarks(a + ['/'] + b + [':'] + name) == {|a|}
  {
    var pkg := a + ['/'] + b;
    var path := pkg + [':'] + name;
    assert InsertSplit(path).0 == pkg by {
      SplitFirst(pkg, ':', name);
    }
    TwoSegments(a, b);
    var parts := Split(pkg, '/');
    assert SegmentEnd(parts, 0) == |a| by {
      assert parts[..1] == [a];
      assert Concat([a]) == Concat([a][..0]) + a;
      assert [a][..0] == [];
    }
  }

  lemma TwoSegments(a: string, b: string)
    requires '/' !in a && '/' !in b
    ensures Split(a + ['/'] + b, '/') == [a, b]
  {
    SplitFirst(a, '/', b);
    SplitCount(b, '/');
    SplitHead(b, '/');
    var parts := Split(a + ['/'] + b, '/');
    assert parts[1..] == Split(b, '/') == [b];
  }

  /**
   * A leading `//` makes two empty package segments, so `//a:name` marks the
   * root itself as a package end, and nothing else.
   */
  lemma LeadingSlashesMarkRoot(a: string, name: string)
    requires '/' !in a && ':' !in a && ':' !in name
    ensures PackageMarks("//" + a + [':'] + name) == {0}
    ensures MarkKeys("//" + a + [':'] + name) == {[]}
  {
    var pkg := "//" + a;
    var path := pkg + [':'] + name;
    assert InsertSplit(path).0 == pkg by {
      SplitFirst(pkg, ':', name);
    }
    var parts := Split(pkg, '/');
    assert parts == [[], [], a] by {
      assert pkg == [] + ['/'] + ([] + ['/'] + a);
      SplitFirst([], '/', [] + ['/'] + a);
      SplitFirst([], '/', a);
      SplitCount(a, '/');
      SplitHead(a, '/');
    }
    var e: string := [];
    assert SegmentEnd(parts, 0) == 0 by {
      assert parts[..1] == [e];
      assert Concat([e]) == Concat([e][..0]) + e;
    }
    assert SegmentEnd(parts, 1) == 0 by {
      assert parts[..2] == [e, e];
      assert [e, e][..1] == [e];
      assert Concat([e, e]) == Concat([e]) + e;
      assert Concat([e]) == Concat([e][..0]) + e;
    }
  }

  /** Inserting twice under one path stores both rules in one group, in insertion order. */
  lemma ReinsertKeepsOrder(n: TrieNode, path: string, first: RuleInfo, second: RuleInfo)
    ensures var key, marks := InsertKey(path), PackageMarks(path);
      Group(InsertNode(InsertNode(n, key, marks, 0, first), key, marks, 0, second), key)
        == Group(n, key) + [first, second]
  {
    var key, marks := InsertKey(path), PackageMarks(path);
    assert key[0..] == key;
    InsertGroup(n, key, marks, 0, first, key);
    InsertGroup(InsertNode(n, key, marks, 0, first), key, marks, 0, second, key);
  }
}
