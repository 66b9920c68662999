/**
 * The text logic of `BazelParser::sort_deps_in_text` in src/parser.rs: every
 * `deps = [...]` keyword argument of a BUILD file is rewritten with its entries
 * filtered, deduplicated by dependency name, sorted byte-wise and laid out one
 * per line. Tree-sitter delivers, per `deps` argument, the text of the list and
 * the range of the whole argument; here those arrive as a `DepsMatch`.
 */
module Parser {
  import opened Wrappers
  import opened Text

  // ---------------------------------------------------------------------------
  // One line of a deps list

  /** A surviving deps entry: the dependency name without quotes, and the line kept for it. */
  datatype Dep = Dep(name: string, line: string)

  /** What one line of a list contributes; `Panic` where the source's slicing panics. */
  datatype LineKind = Skip | Entry(dep: Dep) | Panic

  predicate StartsWithChar(s: string, c: char)
  {
    s != [] && s[0] == c
  }

  predicate EndsWithChar(s: string, c: char)
  {
    s != [] && s[|s| - 1] == c
  }

  /** The part of an entry line that names the dependency: the trimmed text before a `#`, or all of it. */
  function KeyText(depLine: string): string
  {
    match IndexOf(depLine, '#')
    case Some(i) => Trim(depLine[..i])
    case None => depLine
  }

  /**
   * An entry line (already trimmed, trailing commas dropped) that starts with a
   * quote: it names a dependency when its key text is quoted at both ends. A key
   * text that is a single `"` makes the source slice `1..0`, which panics.
   */
  function ClassifyDepLine(depLine: string): LineKind
  {
    if !StartsWithChar(depLine, '"') then Skip
    else
      var key := KeyText(depLine);
      if StartsWithChar(key, '"') && EndsWithChar(key, '"') then
        if |key| < 2 then Panic else Entry(Dep(key[1..|key| - 1], depLine))
      else Skip
  }

  /** The line with surrounding whitespace and trailing commas dropped, as the source keeps it. */
  function DepLineOf(raw: string): string
  {
    Trim(TrimEndMatches(Trim(raw), ','))
  }

  /** One line of a list: blank lines and a lone `,` are skipped, every other line is classified. */
  function ClassifyLine(raw: string): LineKind
  {
    var line := Trim(raw);
    if line == [] || line == "," then Skip else ClassifyDepLine(DepLineOf(raw))
  }

  /** The checks for a blank line and a lone `,` only shortcut what the entry test decides anyway. */
  lemma ClassifyByDepLine(raw: string)
    ensures ClassifyLine(raw) == ClassifyDepLine(DepLineOf(raw))
  {
    var t := Trim(raw);
    if t == [] || t == "," {
      assert TrimEndMatches(t, ',') == [] by {
        if t == "," {
          assert t[..0] == [];
        }
      }
    }
  }

  /**
   * What an entry means: its line is the trimmed raw line without trailing
   * commas, it starts with a quote, and its key text is its name in quotes.
   */
  lemma EntryMeaning(raw: string)
    requires ClassifyLine(raw).Entry?
    ensures var d := ClassifyLine(raw).dep;
      && d.line == DepLineOf(raw)
      && StartsWithChar(d.line, '"')
      && KeyText(d.line) == ['"'] + d.name + ['"']
  {
    ClassifyByDepLine(raw);
    EntryOfDepLine(DepLineOf(raw));
  }

  lemma EntryOfDepLine(line: string)
    requires ClassifyDepLine(line).Entry?
    ensures var d := ClassifyDepLine(line).dep;
      && d.line == line
      && StartsWithChar(line, '"')
      && KeyText(line) == ['"'] + d.name + ['"']
  {
    var key := KeyText(line);
    assert key == [key[0]] + key[1..|key| - 1] + [key[|key| - 1]];
  }

  /** An entry line panics exactly when its key text is a lone quote. */
  lemma PanicMeaning(line: string)
    ensures ClassifyDepLine(line).Panic? <==> IsLoneQuoteKey(line)
  {
    var key := KeyText(line);
    if StartsWithChar(key, '"') && |key| < 2 {
      assert key == [key[0]];
    }
  }

  predicate IsLoneQuoteKey(line: string)
  {
    StartsWithChar(line, '"') && KeyText(line) == ['"']
  }

  /**
   * The comma goes in front of the comment: `"x",  # c` has the key text
   * `"x",`, which does not end in a quote, so the line is dropped.
   */
  lemma CommaBeforeCommentIsDropped(x: string, c: string)
    requires '#' !in x
    requires c != [] && !IsWhitespace(c[|c| - 1]) && c[|c| - 1] != ','
    ensures ClassifyLine(['"'] + x + ['"', ',', ' ', ' ', '#'] + c) == Skip
  {
    var raw := ['"'] + x + ['"', ',', ' ', ' ', '#'] + c;
    CommaKeyIsSkipped(x, c);
    DepLineOfClean(raw);
    ClassifyByDepLine(raw);
  }

  lemma CommaKeyIsSkipped(x: string, c: string)
    requires '#' !in x
    ensures ClassifyDepLine(['"'] + x + ['"', ',', ' ', ' ', '#'] + c) == Skip
  {
    var k := ['"'] + x + ['"', ','];
    assert ['"'] + x + ['"', ',', ' ', ' ', '#'] + c == k + [' ', ' '] + ['#'] + c;
    KeyBeforeComment(k, [' ', ' '], c);
  }

  /** A line with no surrounding whitespace and no trailing comma is kept as it is. */
  lemma DepLineOfClean(raw: string)
    requires raw != [] && !IsWhitespace(raw[0]) && !IsWhitespace(raw[|raw| - 1]) && raw[|raw| - 1] != ','
    ensures DepLineOf(raw) == raw
  {
    assert TrimStart(raw) == raw;
    assert TrimEnd(raw) == raw;
    assert TrimEndMatches(raw, ',') == raw;
  }

  /** The key text of `k + w + "#" + c` is `k`, when `k` has no `#`, is trimmed and `w` is whitespace. */
  lemma KeyBeforeComment(k: string, w: string, c: string)
    requires '#' !in k && k != [] && IsTrimmed(k)
    requires forall i | 0 <= i < |w| :: IsWhitespace(w[i])
    ensures KeyText(k + w + ['#'] + c) == k
  {
    var line := k + w + ['#'] + c;
    var n := |k + w|;
    assert line[n] == '#';
    assert '#' !in line[..n] by {
      assert line[..n] == k + w;
      assert forall i | 0 <= i < |w| :: w[i] != '#';
    }
    IndexOfFirst(line, '#', n);
    assert line[..n] == k + w;
    TrimEndOfWhitespace(k, w);
    assert TrimStart(k + w) == k + w by {
      assert (k + w)[0] == k[0];
    }
  }

  // ---------------------------------------------------------------------------
  // The entries of a list

  predicate HasName(deps: seq<Dep>, name: string)
  {
    exists k | 0 <= k < |deps| :: deps[k].name == name
  }

  predicate DistinctNames(deps: seq<Dep>)
  {
    forall k, m | 0 <= k < m < |deps| :: deps[k].name != deps[m].name
  }

  /** The classification of every line. */
  function Kinds(lines: seq<string>): (kinds: seq<LineKind>)
    ensures |kinds| == |lines|
  {
    seq(|lines|, i requires 0 <= i < |lines| => ClassifyLine(lines[i]))
  }

  predicate NamesDep(kind: LineKind, name: string)
  {
    kind.Entry? && kind.dep.name == name
  }

  /** Line `i` is the entry `d`, and no earlier line is an entry with the same name. */
  predicate IsFirstEntry(kinds: seq<LineKind>, i: nat, d: Dep)
    requires i < |kinds|
  {
    kinds[i] == Entry(d) && forall j | 0 <= j < i :: !NamesDep(kinds[j], d.name)
  }

  predicate HasFirstEntry(kinds: seq<LineKind>, d: Dep)
  {
    exists i: nat | i < |kinds| :: IsFirstEntry(kinds, i, d)
  }

  /**
   * The entries the source's loop collects from the classified lines of a list,
   * in line order and only the first per name; `None` if a line panics.
   */
  function Collect(kinds: seq<LineKind>): (r: Option<seq<Dep>>)
    decreases |kinds|
  {
    if kinds == [] then Some([])
    else
      match Collect(kinds[..|kinds| - 1])
      case None => None
      case Some(deps) =>
        match kinds[|kinds| - 1]
        case Skip => Some(deps)
        case Panic => None
        case Entry(d) => Some(if HasName(deps, d.name) then deps else deps + [d])
  }

  /** The entries of a list's text: none unless it is bracketed, else those of the lines between the brackets. */
  function ListDeps(listText: string): Option<seq<Dep>>
  {
    var t := Trim(listText);
    if StartsWithChar(t, '[') && EndsWithChar(t, ']') then Collect(Kinds(Lines(t[1..|t| - 1])))
    else Some([])
  }

  /** `deps` holds each name once, every one from its first entry line, and every entry line's name. */
  predicate FirstEntries(kinds: seq<LineKind>, deps: seq<Dep>)
  {
    && DistinctNames(deps)
    && (forall k | 0 <= k < |deps| :: HasFirstEntry(kinds, deps[k]))
    && (forall i | 0 <= i < |kinds| && kinds[i].Entry? :: HasName(deps, kinds[i].dep.name))
  }

  /**
   * The collected entries are exactly the first entry of every name that has
   * one, each name once; and collection fails exactly when some line panics.
   */
  lemma {:induction false} CollectMeaning(kinds: seq<LineKind>)
    ensures Collect(kinds).None? <==> Panic in kinds
    ensures Collect(kinds).Some? ==> FirstEntries(kinds, Collect(kinds).value)
    decreases |kinds|
  {
    if kinds != [] {
      var n := |kinds|;
      var init := kinds[..n - 1];
      CollectMeaning(init);
      assert kinds == init + [kinds[n - 1]];
      match Collect(init)
      case None =>
      case Some(deps) =>
        match kinds[n - 1]
        case Skip =>
          SkipKeepsFirstEntries(kinds, deps);
        case Panic =>
        case Entry(d) =>
          EntryKeepsFirstEntries(kinds, deps, d);
    }
  }

  lemma FirstEntryExtends(kinds: seq<LineKind>, m: nat, i: nat, d: Dep)
    requires i < m <= |kinds| && IsFirstEntry(kinds[..m], i, d)
    ensures IsFirstEntry(kinds, i, d)
  {
    forall j | 0 <= j < i
      ensures !NamesDep(kinds[j], d.name)
    {
      assert kinds[..m][j] == kinds[j];
    }
  }

  lemma SkipKeepsFirstEntries(kinds: seq<LineKind>, deps: seq<Dep>)
    requires kinds != [] && kinds[|kinds| - 1].Skip?
    requires FirstEntries(kinds[..|kinds| - 1], deps)
    ensures FirstEntries(kinds, deps)
  {
    var init := kinds[..|kinds| - 1];
    forall k | 0 <= k < |deps|
      ensures HasFirstEntry(kinds, deps[k])
    {
      assert HasFirstEntry(init, deps[k]);
      var i: nat :| i < |init| && IsFirstEntry(init, i, deps[k]);
      FirstEntryExtends(kinds, |init|, i, deps[k]);
    }
  }

  lemma EntryKeepsFirstEntries(kinds: seq<LineKind>, deps: seq<Dep>, d: Dep)
    requires kinds != [] && kinds[|kinds| - 1] == Entry(d)
    requires FirstEntries(kinds[..|kinds| - 1], deps)
    ensures FirstEntries(kinds, if HasName(deps, d.name) then deps else deps + [d])
  {
    var n := |kinds|;
    var init := kinds[..n - 1];
    var after := if HasName(deps, d.name) then deps else deps + [d];
    forall k | 0 <= k < |after|
      ensures HasFirstEntry(kinds, after[k])
    {
      if k < |deps| {
        assert HasFirstEntry(init, deps[k]);
        var i: nat :| i < |init| && IsFirstEntry(init, i, deps[k]);
        FirstEntryExtends(kinds, |init|, i, deps[k]);
        assert after[k] == deps[k];
      } else {
        forall j | 0 <= j < n - 1
          ensures !NamesDep(kinds[j], d.name)
        {
          assert init[j] == kinds[j];
        }
        assert IsFirstEntry(kinds, n - 1, after[k]);
      }
    }
    assert HasName(after, d.name) by {
      if !HasName(deps, d.name) {
        assert after[|deps|].name == d.name;
      }
    }
    forall i | 0 <= i < n && kinds[i].Entry?
      ensures HasName(after, kinds[i].dep.name)
    {
      if i < n - 1 {
        assert init[i] == kinds[i];
        assert HasName(deps, init[i].dep.name);
        var k :| 0 <= k < |deps| && deps[k].name == init[i].dep.name;
        assert after[k] == deps[k];
      }
    }
  }

  /** The source's loop over the lines of one list. */
  method CollectDeps(listText: string) returns (deps: Option<seq<Dep>>)
    ensures deps == ListDeps(listText)
  {
    var t := Trim(listText);
    if StartsWithChar(t, '[') && EndsWithChar(t, ']') {
      deps := CollectLines(Lines(t[1..|t| - 1]));
    } else {
      deps := Some([]);
    }
  }

  /** The loop over the lines of the list: keep the first entry of each name, stop at a panic. */
  method CollectLines(lines: seq<string>) returns (deps: Option<seq<Dep>>)
    ensures deps == Collect(Kinds(lines))
  {
    ghost var kinds := Kinds(lines);
    var acc: seq<Dep> := [];
    var i := 0;
    while i < |lines|
      invariant 0 <= i <= |lines|
      invariant Collect(kinds[..i]) == Some(acc)
      decreases |lines| - i
    {
      var kind := ClassifyLine(lines[i]);
      assert kinds[i] == kind;
      CollectStep(kinds, i, acc);
      if kind.Panic? {
        PanicStops(kinds, i);
        return None;
      } else if kind.Entry? && !HasName(acc, kind.dep.name) {
        acc := acc + [kind.dep];
      }
      i := i + 1;
    }
    assert kinds[..i] == kinds;
    return Some(acc);
  }

  /** One more line: skipped, the end of the list, or an entry kept when its name is new. */
  lemma CollectStep(kinds: seq<LineKind>, i: nat, acc: seq<Dep>)
    requires i < |kinds| && Collect(kinds[..i]) == Some(acc)
    ensures Collect(kinds[..i + 1]) == match kinds[i]
      case Skip => Some(acc)
      case Panic => None
      case Entry(d) => Some(if HasName(acc, d.name) then acc else acc + [d])
  {
    assert kinds[..i + 1][..i] == kinds[..i];
  }

  /** Once a line panics, the whole list does. */
  lemma PanicStops(kinds: seq<LineKind>, i: nat)
    requires i < |kinds| && kinds[i].Panic?
    ensures Collect(kinds) == None
  {
    CollectMeaning(kinds);
  }

  // ---------------------------------------------------------------------------
  // Sorting by name

  /** Ascending by name, in the byte-wise order of `str`'s `Ord`. */
  predicate SortedByName(deps: seq<Dep>)
  {
    forall k, m | 0 <= k < m < |deps| :: LexLe(deps[k].name, deps[m].name)
  }

  function InsertByName(d: Dep, sorted: seq<Dep>): (r: seq<Dep>)
    ensures multiset(r) == multiset(sorted) + multiset{d}
    decreases |sorted|
  {
    if sorted == [] || LexLe(d.name, sorted[0].name) then [d] + sorted
    else
      assert sorted == [sorted[0]] + sorted[1..];
      [sorted[0]] + InsertByName(d, sorted[1..])
  }

  /**
   * `deps.sort_by(|a, b| a.0.cmp(&b.0))`, here as an insertion sort. The
   * collected entries have distinct names, and on those every sort agrees
   * (`SortIsDetermined`).
   */
  function SortByName(deps: seq<Dep>): (r: seq<Dep>)
    ensures multiset(r) == multiset(deps)
  {
    if deps == [] then []
    else
      assert deps == [deps[0]] + deps[1..];
      InsertByName(deps[0], SortByName(deps[1..]))
  }

  lemma {:induction false} InsertKeepsSorted(d: Dep, sorted: seq<Dep>)
    requires SortedByName(sorted)
    ensures SortedByName(InsertByName(d, sorted))
    decreases |sorted|
  {
    var r := InsertByName(d, sorted);
    if sorted == [] {
    } else if LexLe(d.name, sorted[0].name) {
      forall m | 1 <= m < |r|
        ensures LexLe(d.name, r[m].name)
      {
        if m > 1 {
          LexLeTransitive(d.name, sorted[0].name, sorted[m - 1].name);
        }
      }
    } else {
      LexLeTotal(d.name, sorted[0].name);
      var rest := InsertByName(d, sorted[1..]);
      InsertKeepsSorted(d, sorted[1..]);
      forall m | 0 <= m < |rest|
        ensures LexLe(sorted[0].name, rest[m].name)
      {
        assert rest[m] in multiset(rest);
        if rest[m] != d {
          assert rest[m] in sorted[1..];
        }
      }
    }
  }

  /** The sort's result is ascending by name and a permutation of its input. */
  lemma {:induction false} SortByNameSorted(deps: seq<Dep>)
    ensures SortedByName(SortByName(deps))
    ensures multiset(SortByName(deps)) == multiset(deps)
  {
    if deps != [] {
      SortByNameSorted(deps[1..]);
      InsertKeepsSorted(deps[0], SortByName(deps[1..]));
    }
  }

  /** Entries with distinct names that are ascending and hold the same entries are equal. */
  lemma {:induction false} SortIsDetermined(a: seq<Dep>, b: seq<Dep>)
    requires SortedByName(a) && SortedByName(b)
    requires DistinctNames(a)
    requires multiset(a) == multiset(b)
    ensures a == b
    decreases |a|
  {
    assert |a| == |multiset(a)| == |multiset(b)| == |b|;
    if a != [] {
      SameHead(a, b);
      MultisetTail(a);
      MultisetTail(b);
      SortIsDetermined(a[1..], b[1..]);
      assert a == [a[0]] + a[1..] && b == [b[0]] + b[1..];
    }
  }

  lemma SameHead(a: seq<Dep>, b: seq<Dep>)
    requires a != [] && b != []
    requires SortedByName(a) && SortedByName(b)
    requires DistinctNames(a)
    requires multiset(a) == multiset(b)
    ensures a[0] == b[0]
  {
    assert a[0] in multiset(b) && b[0] in multiset(a);
    var i :| 0 <= i < |b| && b[i] == a[0];
    var j :| 0 <= j < |a| && a[j] == b[0];
    if j > 0 {
      assert LexLe(a[0].name, a[j].name);
      assert LexLe(b[0].name, b[i].name);
      LexLeAntisymmetric(a[0].name, a[j].name);
      assert false;
    }
  }

  lemma MultisetTail<T>(s: seq<T>)
    requires s != []
    ensures multiset(s[1..]) == multiset(s) - multiset{s[0]}
  {
    assert s == [s[0]] + s[1..];
  }

  lemma {:induction false} InsertKeepsDistinct(d: Dep, sorted: seq<Dep>)
    requires DistinctNames(sorted) && !HasName(sorted, d.name)
    ensures DistinctNames(InsertByName(d, sorted))
    decreases |sorted|
  {
    if sorted != [] && !LexLe(d.name, sorted[0].name) {
      var rest := InsertByName(d, sorted[1..]);
      assert !HasName(sorted[1..], d.name) by {
        forall k | 0 <= k < |sorted[1..]|
          ensures sorted[1..][k].name != d.name
        {
          assert sorted[1..][k] == sorted[k + 1];
        }
      }
      InsertKeepsDistinct(d, sorted[1..]);
      forall m | 0 <= m < |rest|
        ensures sorted[0].name != rest[m].name
      {
        assert rest[m] in multiset(rest);
        if rest[m] != d {
          assert rest[m] in sorted[1..];
        }
      }
    }
  }

  /** Sorting keeps the names distinct. */
  lemma {:induction false} SortKeepsDistinct(deps: seq<Dep>)
    requires DistinctNames(deps)
    ensures DistinctNames(SortByName(deps))
  {
    if deps != [] {
      var rest := SortByName(deps[1..]);
      SortKeepsDistinct(deps[1..]);
      assert !HasName(rest, deps[0].name) by {
        forall k | 0 <= k < |rest|
          ensures rest[k].name != deps[0].name
        {
          assert rest[k] in multiset(deps[1..]);
          var j :| 0 <= j < |deps[1..]| && deps[1..][j] == rest[k];
          assert deps[j + 1] == rest[k];
        }
      }
      InsertKeepsDistinct(deps[0], rest);
    }
  }

  // ---------------------------------------------------------------------------
  // Layout

  /** The indentation of an entry line in the emitted list. */
  const EntryIndent: string := "        "

  function EntryLines(deps: seq<Dep>): (lines: seq<string>)
    ensures |lines| == |deps|
  {
    seq(|deps|, i requires 0 <= i < |deps| => deps[i].line)
  }

  /**
   * The replacement text for a `deps` argument: `deps = []` when nothing
   * survives, else one entry line per row, each followed by a comma.
   */
  function FormatDeps(deps: seq<Dep>): string
  {
    if deps == [] then "deps = []"
    else "deps = [\n" + EntryIndent + JoinWith(EntryLines(deps), ",\n" + EntryIndent) + "," + "\n    ]"
  }

  /** The list part of `FormatDeps`, after `deps = `. */
  function FormatList(deps: seq<Dep>): string
  {
    if deps == [] then "[]"
    else "[\n" + EntryIndent + JoinWith(EntryLines(deps), ",\n" + EntryIndent) + "," + "\n    ]"
  }

  /** The replacement the source computes for one list text: its entries, sorted, laid out. */
  function Replacement(listText: string): (r: Option<string>)
    ensures r.None? <==> ListDeps(listText).None?
  {
    match ListDeps(listText)
    case None => None
    case Some(deps) => Some(FormatDeps(SortByName(deps)))
  }

  /** The emitted text is `deps = ` followed by the emitted list; an empty list is exactly `deps = []`. */
  lemma FormatDepsShape(deps: seq<Dep>)
    ensures FormatDeps(deps) == "deps = " + FormatList(deps)
    ensures FormatDeps(deps) == "deps = []" <==> deps == []
  {
    if deps != [] {
      assert |FormatDeps(deps)| > 9;
    }
  }

  /** An entry whose line, emitted again, is read back as the same entry. */
  predicate Reparses(d: Dep)
  {
    && IsTrimmed(d.line)
    && '\n' !in d.line
    && !EndsWithChar(d.line, ',')
    && ClassifyDepLine(d.line) == Entry(d)
  }

  /** An emitted entry line, `EntryIndent + line + ","`, classifies as the entry it came from. */
  lemma ReclassifyEmitted(d: Dep)
    requires Reparses(d)
    ensures ClassifyLine(EntryIndent + d.line + ",") == Entry(d)
  {
    var raw := EntryIndent + d.line + ",";
    EmittedDepLine(d.line);
    ClassifyByDepLine(raw);
  }

  lemma EmittedDepLine(l: string)
    requires IsTrimmed(l) && !EndsWithChar(l, ',')
    ensures DepLineOf(EntryIndent + l + ",") == l
  {
    TrimEmitted(l);
    assert TrimEndMatches(l + ",", ',') == l by {
      assert (l + ",")[..|l + ","| - 1] == l;
    }
    TrimOfTrimmed(l);
  }

  lemma TrimEmitted(l: string)
    requires IsTrimmed(l)
    ensures Trim(EntryIndent + l + ",") == l + ","
  {
    assert EntryIndent + l + "," == EntryIndent + (l + ",");
    TrimStartOfWhitespace(EntryIndent, l + ",");
    TrimEndOfWhitespace(l + ",", []);
    assert l + "," + [] == l + ",";
  }

  /** The emitted entry lines, each with its indentation and comma. */
  function EmittedLines(lines: seq<string>, indent: string): (r: seq<string>)
    ensures |r| == |lines|
  {
    seq(|lines|, i requires 0 <= i < |lines| => indent + lines[i] + ",")
  }

  /** The emitted entry lines, each followed by a newline, then `last`. */
  function Body(lines: seq<string>, indent: string, last: string): string
    requires lines != []
  {
    if |lines| == 1 then indent + lines[0] + [','] + ['\n'] + last
    else indent + lines[0] + [','] + ['\n'] + Body(lines[1..], indent, last)
  }

  lemma {:induction false} BodyJoin(lines: seq<string>, indent: string, last: string)
    requires lines != []
    ensures indent + JoinWith(lines, [',', '\n'] + indent) + [','] + ['\n'] + last == Body(lines, indent, last)
  {
    if |lines| > 1 {
      BodyJoin(lines[1..], indent, last);
      var j := JoinWith(lines[1..], [',', '\n'] + indent);
      assert JoinWith(lines, [',', '\n'] + indent) == lines[0] + ([',', '\n'] + indent) + j;
      assert indent + (lines[0] + ([',', '\n'] + indent) + j) + [','] + ['\n'] + last
        == indent + lines[0] + [','] + ['\n'] + (indent + j + [','] + ['\n'] + last);
    }
  }

  lemma SplitOne(s: string, sep: char)
    requires sep !in s
    ensures Split(s, sep) == [s]
  {
    SplitJoin(s, sep);
    SplitCount(s, sep);
  }

  lemma {:induction false} SplitBody(lines: seq<string>, indent: string, last: string)
    requires lines != []
    requires forall i | 0 <= i < |lines| :: '\n' !in lines[i]
    requires '\n' !in indent && '\n' !in last
    ensures Split(Body(lines, indent, last), '\n') == EmittedLines(lines, indent) + [last]
  {
    var head := indent + lines[0] + ",";
    var rest := if |lines| == 1 then last else Body(lines[1..], indent, last);
    assert Split(Body(lines, indent, last), '\n') == [head] + Split(rest, '\n') by {
      assert Body(lines, indent, last) == head + ['\n'] + rest;
      SplitFirst(head, '\n', rest);
      var parts := Split(Body(lines, indent, last), '\n');
      assert parts == [parts[0]] + parts[1..];
    }
    assert Split(rest, '\n') == EmittedLines(lines[1..], indent) + [last] by {
      if |lines| == 1 {
        SplitOne(last, '\n');
        assert EmittedLines(lines[1..], indent) == [];
      } else {
        SplitBody(lines[1..], indent, last);
      }
    }
    assert EmittedLines(lines, indent) == [head] + EmittedLines(lines[1..], indent);
  }

  /** Between its brackets, an emitted list holds an empty line, the entry lines and the closing indentation. */
  lemma LinesOfEmitted(deps: seq<Dep>)
    requires deps != []
    requires forall k | 0 <= k < |deps| :: '\n' !in deps[k].line
    ensures var t := FormatList(deps);
      && Trim(t) == t
      && StartsWithChar(t, '[') && EndsWithChar(t, ']')
      && Lines(t[1..|t| - 1]) == [[]] + EmittedLines(EntryLines(deps), EntryIndent) + ["    "]
  {
    var ls := EntryLines(deps);
    var mid := EmittedLines(ls, EntryIndent);
    var body := Body(ls, EntryIndent, "    ");
    assert FormatList(deps) == ['['] + (['\n'] + body) + [']'] by {
      BodyJoin(ls, EntryIndent, "    ");
      assert ",\n" + EntryIndent == [',', '\n'] + EntryIndent;
    }
    assert Lines(['\n'] + body) == [[]] + mid + ["    "] by {
      assert Split(body, '\n') == mid + ["    "] by {
        SplitBody(ls, EntryIndent, "    ");
      }
      assert forall i | 0 <= i < |mid| :: EndsWithChar(mid[i], ',');
      LinesAfterNewline(body, mid, "    ");
    }
    Bracketed(['\n'] + body);
  }

  lemma Bracketed(x: string)
    ensures var t := ['['] + x + [']'];
      && Trim(t) == t && StartsWithChar(t, '[') && EndsWithChar(t, ']') && t[1..|t| - 1] == x
  {
    var t := ['['] + x + [']'];
    assert TrimStart(t) == t;
    assert TrimEnd(t) == t;
  }

  lemma LinesAfterNewline(body: string, mid: seq<string>, last: string)
    requires Split(body, '\n') == mid + [last] && last != []
    requires forall i | 0 <= i < |mid| :: EndsWithChar(mid[i], ',')
    ensures Lines(['\n'] + body) == [[]] + mid + [last]
  {
    var s := ['\n'] + body;
    var parts := [[]] + mid + [last];
    LeadingNewlineSplit(body);
    CommaPiecesHaveNoCr(mid, last);
    LinesOfSplit(s);
  }

  lemma LeadingNewlineSplit(body: string)
    ensures Split(['\n'] + body, '\n') == [[]] + Split(body, '\n')
  {
    var s := ['\n'] + body;
    assert s == [] + ['\n'] + body;
    SplitFirst([], '\n', body);
    var split := Split(s, '\n');
    assert split == [split[0]] + split[1..];
  }

  lemma CommaPiecesHaveNoCr(mid: seq<string>, last: string)
    requires forall i | 0 <= i < |mid| :: EndsWithChar(mid[i], ',')
    ensures var parts := [[]] + mid + [last];
      forall i | 0 <= i < |parts| - 1 :: StripCr(parts[i]) == parts[i]
  {
    var parts := [[]] + mid + [last];
    forall i | 0 <= i < |parts| - 1
      ensures StripCr(parts[i]) == parts[i]
    {
      if i > 0 {
        assert parts[i] == mid[i - 1];
      }
    }
  }

  function EntryKinds(deps: seq<Dep>): (kinds: seq<LineKind>)
    ensures |kinds| == |deps|
  {
    seq(|deps|, i requires 0 <= i < |deps| => Entry(deps[i]))
  }

  /** Entries with distinct names between two skipped lines are collected as they are. */
  lemma {:induction false} CollectDistinct(deps: seq<Dep>)
    requires DistinctNames(deps)
    ensures Collect([Skip] + EntryKinds(deps)) == Some(deps)
    decreases |deps|
  {
    var kinds := [Skip] + EntryKinds(deps);
    var n := |deps|;
    assert kinds[..n + 1] == kinds;
    if deps == [] {
      assert kinds[..0] == [];
      CollectStep(kinds, 0, []);
    } else {
      var init := deps[..n - 1];
      LastNameFresh(deps);
      CollectDistinct(init);
      SkipEntryKindsSnoc(deps);
      CollectStep(kinds, n, init);
      assert init + [deps[n - 1]] == deps;
    }
  }

  /** The last of entries with distinct names has a name the others lack. */
  lemma LastNameFresh(deps: seq<Dep>)
    requires DistinctNames(deps) && deps != []
    ensures DistinctNames(deps[..|deps| - 1])
    ensures !HasName(deps[..|deps| - 1], deps[|deps| - 1].name)
  {
  }

  lemma SkipEntryKindsSnoc(deps: seq<Dep>)
    requires deps != []
    ensures var kinds, n := [Skip] + EntryKinds(deps), |deps|;
      kinds[..n] == [Skip] + EntryKinds(deps[..n - 1]) && kinds[n] == Entry(deps[n - 1])
  {
    var kinds, n := [Skip] + EntryKinds(deps), |deps|;
    assert kinds[..n] == [Skip] + EntryKinds(deps[..n - 1]);
  }

  /** Blank lines and the closing indentation are skipped. */
  lemma BlankIsSkipped(w: string)
    requires forall i | 0 <= i < |w| :: IsWhitespace(w[i])
    ensures ClassifyLine(w) == Skip
  {
    TrimStartOfWhitespace(w, []);
    assert w + [] == w;
  }

  /** Classifying lines commutes with concatenating them. */
  lemma KindsAppend(a: seq<string>, b: seq<string>)
    ensures Kinds(a + b) == Kinds(a) + Kinds(b)
  {
    forall i | 0 <= i < |a + b|
      ensures Kinds(a + b)[i] == (Kinds(a) + Kinds(b))[i]
    {
      if i < |a| {
        assert (a + b)[i] == a[i];
      } else {
        assert (a + b)[i] == b[i - |a|];
      }
    }
  }

  /** Each emitted entry line classifies as the entry it was emitted from. */
  lemma KindsOfEntries(deps: seq<Dep>)
    requires forall k | 0 <= k < |deps| :: Reparses(deps[k])
    ensures Kinds(EmittedLines(EntryLines(deps), EntryIndent)) == EntryKinds(deps)
  {
    var lines := EmittedLines(EntryLines(deps), EntryIndent);
    forall i | 0 <= i < |lines|
      ensures ClassifyLine(lines[i]) == Entry(deps[i])
    {
      ReclassifyEmitted(deps[i]);
    }
  }

  /** The classification of the lines of an emitted list. */
  lemma KindsOfEmitted(deps: seq<Dep>)
    requires forall k | 0 <= k < |deps| :: Reparses(deps[k])
    ensures Kinds([[]] + EmittedLines(EntryLines(deps), EntryIndent) + ["    "])
      == [Skip] + EntryKinds(deps) + [Skip]
  {
    var mid := EmittedLines(EntryLines(deps), EntryIndent);
    KindsAppend([[]] + mid, ["    "]);
    KindsAppend([[]], mid);
    KindsOfEntries(deps);
    assert Kinds([[]]) == [Skip] by {
      BlankIsSkipped([]);
    }
    assert Kinds(["    "]) == [Skip] by {
      BlankIsSkipped("    ");
    }
  }

  /** A closing skipped line adds no entry. */
  lemma CollectSkipLast(kinds: seq<LineKind>)
    ensures Collect(kinds + [Skip]) == Collect(kinds)
  {
    assert (kinds + [Skip])[..|kinds|] == kinds;
  }

  /** An emitted non-empty list is read back as the entries it was emitted from. */
  lemma EmittedListReads(deps: seq<Dep>)
    requires deps != [] && DistinctNames(deps)
    requires forall k | 0 <= k < |deps| :: Reparses(deps[k])
    ensures ListDeps(FormatList(deps)) == Some(deps)
  {
    var t := FormatList(deps);
    var ks := [Skip] + EntryKinds(deps);
    assert ListDeps(t) == Collect(ks + [Skip]) by {
      LinesOfEmitted(deps);
      KindsOfEmitted(deps);
    }
    assert Collect(ks + [Skip]) == Some(deps) by {
      CollectSkipLast(ks);
      CollectDistinct(deps);
    }
  }

  /** The empty list `[]` is read back as no entries. */
  lemma EmptyListReads()
    ensures ListDeps(FormatList([])) == Some([])
  {
    Bracketed([]);
    assert FormatList([]) == ['['] + [] + [']'];
  }

  /**
   * An emitted list is read back as the entries it was emitted from, so
   * normalising it again yields the same text.
   */
  lemma EmittedListIsStable(deps: seq<Dep>)
    requires SortedByName(deps) && DistinctNames(deps)
    requires forall k | 0 <= k < |deps| :: Reparses(deps[k])
    ensures ListDeps(FormatList(deps)) == Some(deps)
    ensures Replacement(FormatList(deps)) == Some(FormatDeps(deps))
  {
    if deps == [] {
      EmptyListReads();
    } else {
      EmittedListReads(deps);
    }
    assert SortByName(deps) == deps by {
      SortByNameSorted(deps);
      SortKeepsDistinct(deps);
      SortIsDetermined(SortByName(deps), deps);
    }
  }

  /** A line the source keeps as an entry is trimmed, has no newline and classifies on its own as that entry. */
  lemma EntryReparses(raw: string)
    requires ClassifyLine(raw).Entry? && '\n' !in raw
    requires !EndsWithChar(ClassifyLine(raw).dep.line, ',')
    ensures Reparses(ClassifyLine(raw).dep)
  {
    EntryMeaning(raw);
    ClassifyByDepLine(raw);
    TrimKeepsAbsent(raw, '\n', ',');
    TrimKeepsAbsent(Trim(raw), '\n', ',');
    TrimKeepsAbsent(TrimEndMatches(Trim(raw), ','), '\n', ',');
  }

  /** No kept entry line ends with a comma (the one shape the layout does not read back). */
  predicate NoTrailingComma(deps: seq<Dep>)
  {
    forall k | 0 <= k < |deps| :: !EndsWithChar(deps[k].line, ',')
  }

  /** Every entry collected from a list stands on its own emitted line and the names are distinct. */
  lemma CollectedReparse(listText: string)
    requires ListDeps(listText).Some?
    requires NoTrailingComma(ListDeps(listText).value)
    ensures DistinctNames(ListDeps(listText).value)
    ensures forall k | 0 <= k < |ListDeps(listText).value| :: Reparses(ListDeps(listText).value[k])
  {
    var t := Trim(listText);
    var deps := ListDeps(listText).value;
    if StartsWithChar(t, '[') && EndsWithChar(t, ']') {
      var lines := Lines(t[1..|t| - 1]);
      var kinds := Kinds(lines);
      CollectMeaning(kinds);
      LinesLackNewline(t[1..|t| - 1]);
      forall k | 0 <= k < |deps|
        ensures Reparses(deps[k])
      {
        assert HasFirstEntry(kinds, deps[k]);
        var i: nat :| i < |kinds| && IsFirstEntry(kinds, i, deps[k]);
        assert ClassifyLine(lines[i]) == Entry(deps[k]);
        EntryReparses(lines[i]);
      }
    }
  }

  /** The sorted entries keep every property their lines had before sorting. */
  lemma SortedReparse(deps: seq<Dep>)
    requires DistinctNames(deps)
    requires forall k | 0 <= k < |deps| :: Reparses(deps[k])
    ensures SortedByName(SortByName(deps)) && DistinctNames(SortByName(deps))
    ensures forall k | 0 <= k < |SortByName(deps)| :: Reparses(SortByName(deps)[k])
  {
    var sorted := SortByName(deps);
    SortByNameSorted(deps);
    SortKeepsDistinct(deps);
    forall k | 0 <= k < |sorted|
      ensures Reparses(sorted[k])
    {
      assert sorted[k] in multiset(deps);
      var j :| 0 <= j < |deps| && deps[j] == sorted[k];
    }
  }

  /**
   * Normalising a list whose entries carry no trailing comma is idempotent:
   * the normalised list is normalised again to the same text.
   */
  lemma NormalizeIdempotent(listText: string)
    requires ListDeps(listText).Some?
    requires NoTrailingComma(ListDeps(listText).value)
    ensures var out := FormatList(SortByName(ListDeps(listText).value));
      && Replacement(listText) == Some("deps = " + out)
      && Replacement(out) == Replacement(listText)
  {
    var deps := ListDeps(listText).value;
    var sorted := SortByName(deps);
    CollectedReparse(listText);
    SortedReparse(deps);
    EmittedListIsStable(sorted);
    FormatDepsShape(sorted);
  }

  /**
   * An entry whose own text ends with a comma is not read back as itself:
   * reading the emitted line strips that comma too, so a second
   * normalisation changes the text.
   */
  lemma TrailingCommaIsShed(d: Dep)
    requires IsTrimmed(d.line) && EndsWithChar(d.line, ',')
    requires ClassifyDepLine(d.line) == Entry(d)
    ensures ClassifyLine(EntryIndent + d.line + ",") != Entry(d)
  {
    var raw := EntryIndent + d.line + ",";
    CommasShortenLine(d.line);
    ClassifyByDepLine(raw);
    if ClassifyDepLine(DepLineOf(raw)).Entry? {
      EntryOfDepLine(DepLineOf(raw));
    }
  }

  /** Reading an emitted line whose text ends with a comma yields a shorter text. */
  lemma CommasShortenLine(l: string)
    requires IsTrimmed(l) && EndsWithChar(l, ',')
    ensures |DepLineOf(EntryIndent + l + ",")| < |l|
  {
    var raw := EntryIndent + l + ",";
    assert Trim(raw) == l + "," by {
      assert raw == EntryIndent + (l + ",");
      TrimStartOfWhitespace(EntryIndent, l + ",");
      TrimEndOfWhitespace(l + ",", []);
      assert l + "," + [] == l + ",";
    }
    TrimEndMatchesTwo(l + ",", ',');
  }
}
