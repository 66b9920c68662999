/**
 * `sort_deps_in_text`: every `deps = [...]` keyword argument the query finds
 * is replaced by its normalised text. The replacements are computed against
 * the original text, as byte ranges from `position_to_byte_index`, then
 * sorted by start in descending order and spliced in one after the other
 * with `replace_range`, so that an earlier splice never moves a later range.
 */
module SortDeps {
  import opened Wrappers
  import opened Text
  import opened Lsp
  import opened Positions
  import opened Parser

  /** One query match: the text of the list node and the range of the whole keyword argument. */
  datatype DepsMatch = DepsMatch(listText: string, range: Range)

  /** A pending replacement of the bytes `start..end` by `text`. */
  datatype Change = Change(start: nat, end: nat, text: string)

  /** The replacement a match asks for; `None` where reading its list panics. */
  function ChangeOf(source: string, m: DepsMatch): (r: Option<Change>)
    ensures r.Some? <==> Replacement(m.listText).Some?
    ensures r.Some? ==> r.value.text == Replacement(m.listText).value
  {
    match Replacement(m.listText)
    case None => None
    case Some(text) => Some(Change(ByteIndex(source, m.range.start), ByteIndex(source, m.range.end), text))
  }

  /** The replacements of all matches, in match order; `None` if any panics. */
  function Changes(source: string, ms: seq<DepsMatch>): (r: Option<seq<Change>>)
    ensures r.Some? ==> |r.value| == |ms|
  {
    if ms == [] then Some([])
    else
      match Changes(source, ms[..|ms| - 1])
      case None => None
      case Some(cs) =>
        match ChangeOf(source, ms[|ms| - 1])
        case None => None
        case Some(c) => Some(cs + [c])
  }

  /** The changes are missing only when the list of some match panics. */
  lemma {:induction false} ChangesFailAt(source: string, ms: seq<DepsMatch>)
    requires Changes(source, ms).None?
    ensures exists k | 0 <= k < |ms| :: Replacement(ms[k].listText).None?
    decreases |ms|
  {
    var n := |ms| - 1;
    var init := ms[..n];
    if Changes(source, init).None? {
      ChangesFailAt(source, init);
      var k :| 0 <= k < |init| && Replacement(init[k].listText).None?;
      assert ms[k] == init[k];
    } else {
      assert ChangeOf(source, ms[n]).None?;
    }
  }

  // ---------------------------------------------------------------------------
  // Ordering the changes

  /** The keys never increase along `xs`. */
  predicate KeysDescending<T>(xs: seq<T>, key: T -> nat)
  {
    forall i, j | 0 <= i < j < |xs| :: key(xs[j]) <= key(xs[i])
  }

  /** `x` placed before the first element of `sorted` whose key it reaches. */
  function InsertDesc<T>(x: T, sorted: seq<T>, key: T -> nat): (r: seq<T>)
    ensures multiset(r) == multiset(sorted) + multiset{x}
  {
    if sorted == [] || key(x) >= key(sorted[0]) then [x] + sorted
    else
      assert sorted == [sorted[0]] + sorted[1..];
      [sorted[0]] + InsertDesc(x, sorted[1..], key)
  }

  /** An element whose key is below the head's goes behind the head. */
  lemma InsertDescBehind<T>(x: T, sorted: seq<T>, key: T -> nat)
    requires sorted != [] && key(x) < key(sorted[0])
    ensures InsertDesc(x, sorted, key) == [sorted[0]] + InsertDesc(x, sorted[1..], key)
  {
  }

  /** An insertion sort by descending key. */
  function SortDesc<T>(xs: seq<T>, key: T -> nat): (r: seq<T>)
    ensures multiset(r) == multiset(xs)
  {
    if xs == [] then []
    else
      assert xs == [xs[0]] + xs[1..];
      InsertDesc(xs[0], SortDesc(xs[1..], key), key)
  }

  lemma {:induction false} InsertKeepsDescending<T>(x: T, sorted: seq<T>, key: T -> nat)
    requires KeysDescending(sorted, key)
    ensures KeysDescending(InsertDesc(x, sorted, key), key)
  {
    if sorted != [] && key(x) < key(sorted[0]) {
      var rest := InsertDesc(x, sorted[1..], key);
      InsertKeepsDescending(x, sorted[1..], key);
      forall k | 0 <= k < |rest|
        ensures key(rest[k]) <= key(sorted[0])
      {
        assert rest[k] in multiset(sorted[1..]) + multiset{x};
        if rest[k] != x {
          var j :| 0 <= j < |sorted[1..]| && sorted[1..][j] == rest[k];
          assert sorted[j + 1] == rest[k];
        }
      }
    }
  }

  /** The sorted sequence has the same elements, with keys in descending order. */
  lemma {:induction false} SortDescSorted<T>(xs: seq<T>, key: T -> nat)
    ensures KeysDescending(SortDesc(xs, key), key)
    ensures multiset(SortDesc(xs, key)) == multiset(xs)
  {
    if xs != [] {
      SortDescSorted(xs[1..], key);
      InsertKeepsDescending(xs[0], SortDesc(xs[1..], key), key);
    }
  }

  function StartOf(c: Change): nat
  {
    c.start
  }

  /** `changes.sort_by(|a, b| b.0.cmp(&a.0))`: the same changes, by descending start. */
  function SortByStartDesc(cs: seq<Change>): (r: seq<Change>)
    ensures KeysDescending(r, StartOf)
    ensures multiset(r) == multiset(cs)
  {
    SortDescSorted(cs, StartOf);
    SortDesc(cs, StartOf)
  }

  // ---------------------------------------------------------------------------
  // Applying the changes

  /** `replace_range` of each change in turn; `None` at the first that panics. */
  function ApplyChanges(s: string, cs: seq<Change>): Option<string>
    decreases |cs|
  {
    if cs == [] then Some(s)
    else
      match ReplaceRange(s, cs[0].start, cs[0].end, cs[0].text)
      case None => None
      case Some(s') => ApplyChanges(s', cs[1..])
  }

  /** Splicing succeeds only when every change starts at or before its end. */
  lemma {:induction false} ApplyChangesOrdered(s: string, cs: seq<Change>)
    requires ApplyChanges(s, cs).Some?
    ensures forall k | 0 <= k < |cs| :: cs[k].start <= cs[k].end
    decreases |cs|
  {
    if cs != [] {
      var s' := ReplaceRange(s, cs[0].start, cs[0].end, cs[0].text).value;
      ApplyChangesOrdered(s', cs[1..]);
      forall k | 1 <= k < |cs|
        ensures cs[k].start <= cs[k].end
      {
        assert cs[k] == cs[1..][k - 1];
      }
    }
  }

  /** The final loop of the source: splice each change into the result in turn. */
  method ApplyInOrder(source: string, cs: seq<Change>) returns (result: Option<string>)
    ensures result == ApplyChanges(source, cs)
  {
    var text := source;
    var i := 0;
    while i < |cs|
      invariant i <= |cs|
      invariant ApplyChanges(source, cs) == ApplyChanges(text, cs[i..])
    {
      var c := cs[i];
      assert cs[i..][1..] == cs[i + 1..];
      match ReplaceRange(text, c.start, c.end, c.text)
      case None =>
        return None;
      case Some(t) =>
        text := t;
      i := i + 1;
    }
    return Some(text);
  }

  /** A replacement of the chars `lo..hi` of the original text. */
  datatype Span = Span(lo: nat, hi: nat, text: string)

  /** Each span is well formed and lies, in full, before the spans listed ahead of it. */
  predicate Disjoint(spans: seq<Span>, s: string)
  {
    && Within(spans, |s|)
    && (forall i, j | 0 <= i < j < |spans| :: spans[j].hi <= spans[i].lo)
  }

  /** Every span is well formed and ends by char `n`. */
  predicate Within(spans: seq<Span>, n: nat)
  {
    forall k | 0 <= k < |spans| :: spans[k].lo <= spans[k].hi <= n
  }

  /** The byte change for one span, with offsets taken in `s`. */
  function ByteChange(s: string, sp: Span): Change
    requires sp.lo <= sp.hi <= |s|
  {
    Change(ByteLen(s[..sp.lo]), ByteLen(s[..sp.hi]), sp.text)
  }

  /** The byte changes for `spans`, with offsets taken in `s`. */
  function ByteChanges(s: string, spans: seq<Span>): (cs: seq<Change>)
    requires Within(spans, |s|)
    ensures |cs| == |spans|
  {
    seq(|spans|, k requires 0 <= k < |spans| => ByteChange(s, spans[k]))
  }

  /** Every span replaced at once, each reading the original text around it. */
  function Spliced(s: string, spans: seq<Span>): string
    requires Disjoint(spans, s)
    decreases |spans|
  {
    if spans == [] then s
    else
      var sp := spans[0];
      DisjointTail(s, spans);
      Spliced(s[..sp.lo], spans[1..]) + sp.text + s[sp.hi..]
  }

  /** The spans after the first lie in the text before it. */
  lemma DisjointTail(s: string, spans: seq<Span>)
    requires Disjoint(spans, s) && spans != []
    ensures Disjoint(spans[1..], s[..spans[0].lo])
  {
    var rest := spans[1..];
    forall k | 0 <= k < |rest|
      ensures rest[k].hi <= spans[0].lo
    {
      assert spans[k + 1] == rest[k];
    }
  }

  /** Text after the region the spans touch plays no part in the splice. */
  lemma SplicedFrame(x: string, y: string, spans: seq<Span>)
    requires Disjoint(spans, x)
    ensures Disjoint(spans, x + y)
    ensures Spliced(x + y, spans) == Spliced(x, spans) + y
  {
    if spans != [] {
      var sp := spans[0];
      assert (x + y)[..sp.lo] == x[..sp.lo];
      assert (x + y)[sp.hi..] == x[sp.hi..] + y;
    }
  }

  lemma ByteChangesTail(s: string, spans: seq<Span>)
    requires Disjoint(spans, s) && spans != []
    ensures ByteChanges(s, spans)[1..] == ByteChanges(s, spans[1..])
  {
    var a := ByteChanges(s, spans)[1..];
    var b := ByteChanges(s, spans[1..]);
    forall k | 0 <= k < |a|
      ensures a[k] == b[k]
    {
      assert spans[1..][k] == spans[k + 1];
    }
  }

  /** Offsets taken before the first changed char are the same in the changed text. */
  lemma ByteChangesBefore(s: string, t: string, spans: seq<Span>, n: nat)
    requires n <= |s| && n <= |t| && s[..n] == t[..n]
    requires forall k | 0 <= k < |spans| :: spans[k].lo <= spans[k].hi <= n
    ensures ByteChanges(s, spans) == ByteChanges(t, spans)
  {
    forall k | 0 <= k < |spans|
      ensures s[..spans[k].lo] == t[..spans[k].lo] && s[..spans[k].hi] == t[..spans[k].hi]
    {
      assert s[..spans[k].lo] == s[..n][..spans[k].lo];
      assert t[..spans[k].lo] == t[..n][..spans[k].lo];
      assert s[..spans[k].hi] == s[..n][..spans[k].hi];
      assert t[..spans[k].hi] == t[..n][..spans[k].hi];
    }
  }

  /**
   * Splicing non-overlapping changes one after the other, highest first,
   * gives the same text as replacing every span of the original at once.
   */
  lemma {:induction false} ApplyDisjoint(s: string, spans: seq<Span>)
    requires Disjoint(spans, s)
    ensures ApplyChanges(s, ByteChanges(s, spans)) == Some(Spliced(s, spans))
    decreases |spans|
  {
    if spans != [] {
      var sp := spans[0];
      var s' := s[..sp.lo] + (sp.text + s[sp.hi..]);
      SpliceFirst(s, spans, s');
      ApplyDisjoint(s', spans[1..]);
    }
  }

  /** Splicing the highest span leaves the other spans, and their byte changes, where they were. */
  lemma SpliceFirst(s: string, spans: seq<Span>, s': string)
    requires Disjoint(spans, s) && spans != []
    requires s' == s[..spans[0].lo] + (spans[0].text + s[spans[0].hi..])
    ensures Disjoint(spans[1..], s')
    ensures ApplyChanges(s, ByteChanges(s, spans)) == ApplyChanges(s', ByteChanges(s', spans[1..]))
    ensures Spliced(s', spans[1..]) == Spliced(s, spans)
  {
    var sp := spans[0];
    var rest := spans[1..];
    DisjointTail(s, spans);
    SplicedFrame(s[..sp.lo], sp.text + s[sp.hi..], rest);
    ApplyFirst(s, spans, s');
    ByteChangesAfterFirst(s, spans, s');
    assert Spliced(s, spans) == Spliced(s[..sp.lo], rest) + (sp.text + s[sp.hi..]);
  }

  /** The first byte change replaces the highest span's chars. */
  lemma ApplyFirst(s: string, spans: seq<Span>, s': string)
    requires Disjoint(spans, s) && spans != []
    requires s' == s[..spans[0].lo] + (spans[0].text + s[spans[0].hi..])
    ensures ApplyChanges(s, ByteChanges(s, spans)) == ApplyChanges(s', ByteChanges(s, spans)[1..])
  {
    var sp := spans[0];
    var cs := ByteChanges(s, spans);
    assert cs[0] == Change(ByteLen(s[..sp.lo]), ByteLen(s[..sp.hi]), sp.text);
    ReplaceRangeAtChars(s, sp.lo, sp.hi, sp.text);
    assert s[..sp.lo] + sp.text + s[sp.hi..] == s';
  }

  /** The other spans lie before the first, so their byte changes are the same after it is spliced. */
  lemma ByteChangesAfterFirst(s: string, spans: seq<Span>, s': string)
    requires Disjoint(spans, s) && spans != []
    requires s' == s[..spans[0].lo] + (spans[0].text + s[spans[0].hi..])
    requires Disjoint(spans[1..], s')
    ensures ByteChanges(s, spans)[1..] == ByteChanges(s', spans[1..])
  {
    var sp := spans[0];
    DisjointTail(s, spans);
    ByteChangesTail(s, spans);
    assert s'[..sp.lo] == s[..sp.lo];
    ByteChangesBefore(s, s', spans[1..], sp.lo);
  }

  /** The text before the lowest span and after the highest one is kept. */
  lemma SplicedKeepsOutside(s: string, spans: seq<Span>)
    requires Disjoint(spans, s) && spans != []
    ensures s[..spans[|spans| - 1].lo] <= Spliced(s, spans)
    ensures var r := Spliced(s, spans); var tail := s[spans[0].hi..];
      |tail| <= |r| && r[|r| - |tail|..] == tail
  {
    SplicedPrefix(s, spans);
  }

  lemma {:induction false} SplicedPrefix(s: string, spans: seq<Span>)
    requires Disjoint(spans, s) && spans != []
    ensures s[..spans[|spans| - 1].lo] <= Spliced(s, spans)
    decreases |spans|
  {
    var sp := spans[0];
    var rest := spans[1..];
    if rest != [] {
      DisjointTail(s, spans);
      SplicedPrefix(s[..sp.lo], rest);
      assert rest[|rest| - 1] == spans[|spans| - 1];
      assert s[..sp.lo][..spans[|spans| - 1].lo] == s[..spans[|spans| - 1].lo];
    }
  }

  // ---------------------------------------------------------------------------
  // The whole operation

  /** The text `sort_deps_in_text` returns; `None` where it panics. */
  function NormalizedSource(source: string, ms: seq<DepsMatch>): (r: Option<string>)
    ensures ms == [] ==> r == Some(source)
  {
    match Changes(source, ms)
    case None => None
    case Some(cs) => ApplyChanges(source, SortByStartDesc(cs))
  }

  /** The loop over the matches: read each list, normalise it and record its byte range. */
  method CollectChanges(source: string, ms: seq<DepsMatch>) returns (changes: Option<seq<Change>>)
    ensures changes == Changes(source, ms)
  {
    var acc: seq<Change> := [];
    var i := 0;
    while i < |ms|
      invariant i <= |ms|
      invariant Changes(source, ms[..i]) == Some(acc)
    {
      ChangesStep(source, ms, i, acc);
      var m := ms[i];
      var deps := CollectDeps(m.listText);
      if deps.None? {
        NoChangesStops(source, ms, i + 1);
        return None;
      }
      var formatted := FormatDeps(SortByName(deps.value));
      var start := PositionToByteIndex(source, m.range.start);
      var end := PositionToByteIndex(source, m.range.end);
      acc := acc + [Change(start, end, formatted)];
      i := i + 1;
    }
    assert ms[..i] == ms;
    return Some(acc);
  }

  /** One more match either panics or adds its change after those of the matches before it. */
  lemma ChangesStep(source: string, ms: seq<DepsMatch>, i: nat, acc: seq<Change>)
    requires i < |ms| && Changes(source, ms[..i]) == Some(acc)
    ensures var m := ms[i];
      match Replacement(m.listText)
      case None => Changes(source, ms[..i + 1]).None?
      case Some(text) =>
        Changes(source, ms[..i + 1]) == Some(acc + [Change(ByteIndex(source, m.range.start), ByteIndex(source, m.range.end), text)])
  {
    assert ms[..i + 1][..i] == ms[..i];
  }

  /** Once a prefix of the matches panics, all of them do. */
  lemma {:induction false} NoChangesStops(source: string, ms: seq<DepsMatch>, n: nat)
    requires n <= |ms| && Changes(source, ms[..n]).None?
    ensures Changes(source, ms).None?
    decreases |ms| - n
  {
    if n < |ms| {
      assert ms[..n + 1][..n] == ms[..n];
      NoChangesStops(source, ms, n + 1);
    } else {
      assert ms[..n] == ms;
    }
  }

  /** `sort_deps_in_text` on the matches the query found in `source`. */
  method SortDepsInText(source: string, ms: seq<DepsMatch>) returns (result: Option<string>)
    ensures result == NormalizedSource(source, ms)
  {
    var changes := CollectChanges(source, ms);
    if changes.None? {
      return None;
    }
    var ordered := SortByStartDesc(changes.value);
    result := ApplyInOrder(source, ordered);
  }

  /**
   * In a text without carriage returns, a single deps argument whose range
   * starts and ends on existing lines is replaced, char for char, by its
   * normalised text, and the text around it is kept.
   */
  lemma OneMatchReplacesArgument(source: string, m: DepsMatch)
    requires '\r' !in source
    requires m.range.start.line < |Lines(source)| && m.range.end.line < |Lines(source)|
    requires |TextBefore(source, m.range.start)| <= |TextBefore(source, m.range.end)|
    requires Replacement(m.listText).Some?
    ensures var a := |TextBefore(source, m.range.start)|;
      var b := |TextBefore(source, m.range.end)|;
      NormalizedSource(source, [m]) == Some(source[..a] + Replacement(m.listText).value + source[b..])
  {
    var a := |TextBefore(source, m.range.start)|;
    var b := |TextBefore(source, m.range.end)|;
    var text := Replacement(m.listText).value;
    var spans := [Span(a, b, text)];
    var c := Change(ByteIndex(source, m.range.start), ByteIndex(source, m.range.end), text);
    assert [c] == ByteChanges(source, spans) by {
      ByteIndexCountsTextBefore(source, m.range.start);
      ByteIndexCountsTextBefore(source, m.range.end);
    }
    assert Changes(source, [m]) == Some([c]) by {
      assert ChangeOf(source, m) == Some(c);
      OneChange(source, m, c);
    }
    assert SortByStartDesc([c]) == [c];
    SplicedOne(source, spans[0]);
    ApplyDisjoint(source, spans);
  }

  lemma SplicedOne(s: string, sp: Span)
    requires sp.lo <= sp.hi <= |s|
    ensures Disjoint([sp], s)
    ensures Spliced(s, [sp]) == s[..sp.lo] + sp.text + s[sp.hi..]
  {
    assert [sp][1..] == [];
  }

  lemma OneChange(source: string, m: DepsMatch, c: Change)
    requires ChangeOf(source, m) == Some(c)
    ensures Changes(source, [m]) == Some([c])
  {
    var ms := [m];
    assert ms[..|ms| - 1] == [];
    assert ms[|ms| - 1] == m;
    assert [] + [c] == [c];
  }

  // ---------------------------------------------------------------------------
  // Several matches

  /** Every match lies on existing lines and its list reads without a panic. */
  predicate ArgumentsRead(source: string, ms: seq<DepsMatch>)
  {
    forall k | 0 <= k < |ms| ::
      && ms[k].range.start.line < |Lines(source)|
      && ms[k].range.end.line < |Lines(source)|
      && Replacement(ms[k].listText).Some?
  }

  /** The chars a match covers, with the text that replaces them. */
  function SpanOf(source: string, m: DepsMatch): Span
    requires m.range.start.line < |Lines(source)| && m.range.end.line < |Lines(source)|
    requires Replacement(m.listText).Some?
  {
    Span(|TextBefore(source, m.range.start)|, |TextBefore(source, m.range.end)|, Replacement(m.listText).value)
  }

  function SpansOf(source: string, ms: seq<DepsMatch>): (spans: seq<Span>)
    requires ArgumentsRead(source, ms)
    ensures |spans| == |ms|
  {
    seq(|ms|, k requires 0 <= k < |ms| && ArgumentsRead(source, ms) => SpanOf(source, ms[k]))
  }

  function LoOf(sp: Span): nat
  {
    sp.lo
  }

  predicate Apart(a: Span, b: Span)
  {
    a.hi <= b.lo || b.hi <= a.lo
  }

  /** No span is empty and no two spans overlap. */
  predicate Separated(spans: seq<Span>)
  {
    && (forall k | 0 <= k < |spans| :: spans[k].lo < spans[k].hi)
    && (forall i, j | 0 <= i < j < |spans| :: Apart(spans[i], spans[j]))
  }

  /** Non-empty spans, each wholly after the spans listed behind it. */
  predicate Chained(spans: seq<Span>)
  {
    && (forall k | 0 <= k < |spans| :: spans[k].lo < spans[k].hi)
    && (forall i, j | 0 <= i < j < |spans| :: spans[j].hi <= spans[i].lo)
  }

  /**
   * In a text without carriage returns, the changes `sort_deps_in_text`
   * records are the byte changes of the matches' char spans.
   */
  lemma {:induction false} ChangesAreByteChanges(source: string, ms: seq<DepsMatch>)
    requires '\r' !in source
    requires ArgumentsRead(source, ms)
    requires Within(SpansOf(source, ms), |source|)
    ensures Changes(source, ms) == Some(ByteChanges(source, SpansOf(source, ms)))
    decreases |ms|
  {
    if ms != [] {
      var n := |ms| - 1;
      var spans := SpansOf(source, ms);
      SpansOfPrefix(source, ms, n);
      ChangesAreByteChanges(source, ms[..n]);
      assert spans[n] == SpanOf(source, ms[n]);
      ChangeOfSpan(source, ms[n]);
      ByteChangesSnoc(source, spans);
    }
  }

  lemma SpansOfPrefix(source: string, ms: seq<DepsMatch>, n: nat)
    requires ArgumentsRead(source, ms) && n <= |ms|
    ensures ArgumentsRead(source, ms[..n])
    ensures SpansOf(source, ms[..n]) == SpansOf(source, ms)[..n]
  {
    assert forall k | 0 <= k < n :: ms[..n][k] == ms[k];
  }

  /** The change recorded for one match is the byte change of its char span. */
  lemma ChangeOfSpan(source: string, m: DepsMatch)
    requires '\r' !in source
    requires m.range.start.line < |Lines(source)| && m.range.end.line < |Lines(source)|
    requires Replacement(m.listText).Some?
    requires SpanOf(source, m).lo <= SpanOf(source, m).hi <= |source|
    ensures ChangeOf(source, m) == Some(ByteChange(source, SpanOf(source, m)))
  {
    ByteIndexCountsTextBefore(source, m.range.start);
    ByteIndexCountsTextBefore(source, m.range.end);
  }

  lemma ByteChangesSnoc(s: string, spans: seq<Span>)
    requires Within(spans, |s|) && spans != []
    ensures Within(spans[..|spans| - 1], |s|)
    ensures ByteChanges(s, spans) == ByteChanges(s, spans[..|spans| - 1]) + [ByteChange(s, spans[|spans| - 1])]
  {
    var n := |spans| - 1;
    var init := spans[..n];
    assert forall k | 0 <= k < n :: init[k] == spans[k];
    var a := ByteChanges(s, spans);
    var b := ByteChanges(s, init) + [ByteChange(s, spans[n])];
    forall k | 0 <= k < |a|
      ensures a[k] == b[k]
    {
      if k < n {
        assert init[k] == spans[k];
      }
    }
  }

  lemma WithinPermutation(a: seq<Span>, b: seq<Span>, n: nat)
    requires Within(a, n) && multiset(a) == multiset(b)
    ensures Within(b, n)
  {
    forall k | 0 <= k < |b|
      ensures b[k].lo <= b[k].hi <= n
    {
      assert b[k] in multiset(a);
      var j :| 0 <= j < |a| && a[j] == b[k];
    }
  }

  lemma ByteChangesCons(s: string, x: Span, rest: seq<Span>)
    requires x.lo <= x.hi <= |s| && Within(rest, |s|)
    ensures Within([x] + rest, |s|)
    ensures ByteChanges(s, [x] + rest) == [ByteChange(s, x)] + ByteChanges(s, rest)
  {
    var xs := [x] + rest;
    assert forall k | 1 <= k < |xs| :: xs[k] == rest[k - 1];
  }

  /** Offsets of char boundaries compare as the char counts do. */
  lemma ByteLenOrder(s: string, i: nat, j: nat)
    requires i <= |s| && j <= |s|
    ensures ByteLen(s[..i]) >= ByteLen(s[..j]) <==> i >= j
  {
    if i < j {
      ByteLenPrefixStrict(s, i, j);
    } else if j < i {
      ByteLenPrefixStrict(s, j, i);
    }
  }

  lemma {:induction false} InsertCommutes(s: string, x: Span, sorted: seq<Span>)
    requires x.lo <= x.hi <= |s| && Within(sorted, |s|)
    ensures Within(InsertDesc(x, sorted, LoOf), |s|)
    ensures InsertDesc(ByteChange(s, x), ByteChanges(s, sorted), StartOf)
      == ByteChanges(s, InsertDesc(x, sorted, LoOf))
  {
    ByteChangesCons(s, x, sorted);
    WithinPermutation([x] + sorted, InsertDesc(x, sorted, LoOf), |s|);
    if sorted != [] {
      ByteLenOrder(s, x.lo, sorted[0].lo);
      if x.lo < sorted[0].lo {
        assert Within(sorted[1..], |s|);
        InsertCommutes(s, x, sorted[1..]);
        InsertCommutesBehind(s, x, sorted);
      }
    }
  }

  /** The step of `InsertCommutes` where the span goes behind the head. */
  lemma InsertCommutesBehind(s: string, x: Span, sorted: seq<Span>)
    requires x.lo <= x.hi <= |s| && Within(sorted, |s|) && sorted != [] && x.lo < sorted[0].lo
    requires Within(InsertDesc(x, sorted[1..], LoOf), |s|)
    requires InsertDesc(ByteChange(s, x), ByteChanges(s, sorted[1..]), StartOf)
      == ByteChanges(s, InsertDesc(x, sorted[1..], LoOf))
    ensures InsertDesc(ByteChange(s, x), ByteChanges(s, sorted), StartOf)
      == ByteChanges(s, InsertDesc(x, sorted, LoOf))
  {
    var tail := sorted[1..];
    assert sorted == [sorted[0]] + tail;
    var head := ByteChange(s, sorted[0]);
    var bt := ByteChanges(s, tail);
    ByteLenOrder(s, x.lo, sorted[0].lo);
    ByteChangesCons(s, sorted[0], tail);
    assert ([head] + bt)[1..] == bt;
    InsertDescBehind(ByteChange(s, x), [head] + bt, StartOf);
    InsertDescBehind(x, sorted, LoOf);
    ByteChangesCons(s, sorted[0], InsertDesc(x, tail, LoOf));
  }

  /** Sorting the byte changes by start is sorting the char spans by start. */
  lemma {:induction false} SortCommutes(s: string, spans: seq<Span>)
    requires Within(spans, |s|)
    ensures Within(SortDesc(spans, LoOf), |s|)
    ensures SortDesc(ByteChanges(s, spans), StartOf) == ByteChanges(s, SortDesc(spans, LoOf))
  {
    WithinPermutation(spans, SortDesc(spans, LoOf), |s|);
    if spans != [] {
      var tail := spans[1..];
      assert spans == [spans[0]] + tail;
      ByteChangesCons(s, spans[0], tail);
      SortCommutes(s, tail);
      InsertCommutes(s, spans[0], SortDesc(tail, LoOf));
    }
  }

  lemma {:induction false} InsertChained(x: Span, sorted: seq<Span>)
    requires x.lo < x.hi && Chained(sorted)
    requires forall k | 0 <= k < |sorted| :: Apart(x, sorted[k])
    ensures Chained(InsertDesc(x, sorted, LoOf))
  {
    if sorted != [] {
      if x.lo >= sorted[0].lo {
        PrependChained(x, sorted);
      } else {
        var tail := sorted[1..];
        assert Chained(tail) by {
          assert forall i | 0 <= i < |tail| :: tail[i] == sorted[i + 1];
        }
        assert forall k | 0 <= k < |tail| :: Apart(x, tail[k]) by {
          assert forall i | 0 <= i < |tail| :: tail[i] == sorted[i + 1];
        }
        InsertChained(x, tail);
        var rest := InsertDesc(x, tail, LoOf);
        InsertBehindHead(x, sorted, rest);
        ConsChained(sorted[0], rest);
      }
    }
  }

  /** A span inserted behind the head of a chain ends by the head's start, as the chain does. */
  lemma InsertBehindHead(x: Span, sorted: seq<Span>, rest: seq<Span>)
    requires x.lo < x.hi && Chained(sorted) && sorted != [] && x.lo < sorted[0].lo
    requires Apart(x, sorted[0])
    requires rest == InsertDesc(x, sorted[1..], LoOf)
    ensures forall k | 0 <= k < |rest| :: rest[k].hi <= sorted[0].lo
  {
    var tail := sorted[1..];
    forall k | 0 <= k < |rest|
      ensures rest[k].hi <= sorted[0].lo
    {
      assert rest[k] in multiset(tail) + multiset{x};
      if rest[k] != x {
        var j :| 0 <= j < |tail| && tail[j] == rest[k];
        assert sorted[j + 1] == rest[k];
      }
    }
  }

  lemma ConsChained(head: Span, rest: seq<Span>)
    requires head.lo < head.hi && Chained(rest)
    requires forall k | 0 <= k < |rest| :: rest[k].hi <= head.lo
    ensures Chained([head] + rest)
  {
    var r := [head] + rest;
    assert forall k | 1 <= k < |r| :: r[k] == rest[k - 1];
  }

  /** A span starting at or after the head of a chain, and apart from all of it, heads the chain. */
  lemma PrependChained(x: Span, sorted: seq<Span>)
    requires x.lo < x.hi && Chained(sorted) && sorted != [] && x.lo >= sorted[0].lo
    requires forall k | 0 <= k < |sorted| :: Apart(x, sorted[k])
    ensures Chained([x] + sorted)
  {
    var r := [x] + sorted;
    forall j | 0 <= j < |sorted|
      ensures sorted[j].hi <= x.lo
    {
      assert sorted[j].lo <= sorted[0].lo;
    }
    assert forall k | 1 <= k < |r| :: r[k] == sorted[k - 1];
  }

  /** Sorting separated spans by descending start chains them. */
  lemma {:induction false} SortChains(spans: seq<Span>)
    requires Separated(spans)
    ensures Chained(SortDesc(spans, LoOf))
  {
    if spans != [] {
      var tail := spans[1..];
      SeparatedTail(spans);
      SortChains(tail);
      var sorted := SortDesc(tail, LoOf);
      HeadApart(spans, sorted);
      InsertChained(spans[0], sorted);
    }
  }

  lemma SeparatedTail(spans: seq<Span>)
    requires Separated(spans) && spans != []
    ensures Separated(spans[1..])
  {
    var tail := spans[1..];
    assert forall i | 0 <= i < |tail| :: tail[i] == spans[i + 1];
  }

  /** The first of separated spans is apart from every span of a reordering of the others. */
  lemma HeadApart(spans: seq<Span>, others: seq<Span>)
    requires Separated(spans) && spans != []
    requires multiset(others) == multiset(spans[1..])
    ensures forall k | 0 <= k < |others| :: Apart(spans[0], others[k])
  {
    var tail := spans[1..];
    forall k | 0 <= k < |others|
      ensures Apart(spans[0], others[k])
    {
      assert others[k] in multiset(tail);
      var j :| 0 <= j < |tail| && tail[j] == others[k];
      assert spans[j + 1] == others[k];
    }
  }

  /**
   * In a text without carriage returns, when every match lies on existing
   * lines, reads without a panic, and covers a non-empty run of chars apart
   * from every other match, the result replaces each match's chars by its
   * normalised text and keeps everything else.
   */
  lemma MatchesReplaceArguments(source: string, ms: seq<DepsMatch>)
    requires '\r' !in source
    requires ArgumentsRead(source, ms)
    requires Separated(SpansOf(source, ms))
    ensures Disjoint(SortDesc(SpansOf(source, ms), LoOf), source)
    ensures NormalizedSource(source, ms) == Some(Spliced(source, SortDesc(SpansOf(source, ms), LoOf)))
  {
    var spans := SpansOf(source, ms);
    forall k | 0 <= k < |spans|
      ensures spans[k].hi <= |source|
    {
      assert spans[k] == SpanOf(source, ms[k]);
    }
    ChangesAreByteChanges(source, ms);
    SortCommutes(source, spans);
    SortChains(spans);
    ApplyDisjoint(source, SortDesc(spans, LoOf));
  }
}
