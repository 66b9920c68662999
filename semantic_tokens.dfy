/**
 * `get_semantic_tokens` in src/server.rs: the rule types of the targets
 * (token type 0), the keyword names of the attributes (1) and the string
 * literals (2) of a BUILD file are sorted by start position and encoded
 * relative to one another as in the "Semantic Tokens" section of the Language
 * Server Protocol 3.17: each token's line is given as the distance from the
 * previous token's line, and its start column, on the same line, as the
 * distance from the previous token's start.
 */
module SemanticTokens {
  import opened Wrappers
  import opened Lsp
  import opened Targets

  datatype SemanticToken = SemanticToken(
    deltaLine: nat,
    deltaStart: nat,
    length: nat,
    tokenType: nat,
    tokenModifiersBitset: nat)

  /** A range and the token type it is highlighted with. */
  type Tagged = (Range, nat)

  /** An extraction that failed contributes nothing. */
  function OrEmpty<T>(o: Option<seq<T>>): seq<T>
  {
    if o.Some? then o.value else []
  }

  /** The tokens in the order they are pushed: targets, then attributes, then strings. */
  function AllTokens(targets: seq<BazelTarget>, attributes: seq<BazelAttribute>, strings: seq<BazelString>): seq<Tagged>
  {
    seq(|targets|, i requires 0 <= i < |targets| => (targets[i].ruleTypeRange, 0))
      + seq(|attributes|, i requires 0 <= i < |attributes| => (attributes[i].range, 1))
      + seq(|strings|, i requires 0 <= i < |strings| => (strings[i].range, 2))
  }

  /** Each token type marks exactly the ranges of its kind. */
  lemma AllTokensMember(targets: seq<BazelTarget>, attributes: seq<BazelAttribute>, strings: seq<BazelString>, x: Tagged)
    ensures x in AllTokens(targets, attributes, strings) <==>
      || (x.1 == 0 && exists i | 0 <= i < |targets| :: targets[i].ruleTypeRange == x.0)
      || (x.1 == 1 && exists i | 0 <= i < |attributes| :: attributes[i].range == x.0)
      || (x.1 == 2 && exists i | 0 <= i < |strings| :: strings[i].range == x.0)
  {
    var a := seq(|targets|, i requires 0 <= i < |targets| => (targets[i].ruleTypeRange, 0));
    var b := seq(|attributes|, i requires 0 <= i < |attributes| => (attributes[i].range, 1));
    var c := seq(|strings|, i requires 0 <= i < |strings| => (strings[i].range, 2));
    assert AllTokens(targets, attributes, strings) == a + b + c;
    if x.1 == 0 && exists i | 0 <= i < |targets| :: targets[i].ruleTypeRange == x.0 {
      var i :| 0 <= i < |targets| && targets[i].ruleTypeRange == x.0;
      assert a[i] == x;
    }
    if x.1 == 1 && exists i | 0 <= i < |attributes| :: attributes[i].range == x.0 {
      var i :| 0 <= i < |attributes| && attributes[i].range == x.0;
      assert b[i] == x;
    }
    if x.1 == 2 && exists i | 0 <= i < |strings| :: strings[i].range == x.0 {
      var i :| 0 <= i < |strings| && strings[i].range == x.0;
      assert c[i] == x;
    }
  }

  // ---------------------------------------------------------------------------
  // Sorting by start

  predicate StartLe(a: Position, b: Position)
  {
    a.line < b.line || (a.line == b.line && a.character <= b.character)
  }

  predicate SortedByStart(ts: seq<Tagged>)
  {
    forall i, j | 0 <= i < j < |ts| :: StartLe(ts[i].0.start, ts[j].0.start)
  }

  function InsertByStart(x: Tagged, sorted: seq<Tagged>): (r: seq<Tagged>)
    ensures multiset(r) == multiset(sorted) + multiset{x}
    decreases |sorted|
  {
    if sorted == [] || StartLe(x.0.start, sorted[0].0.start) then [x] + sorted
    else
      assert sorted == [sorted[0]] + sorted[1..];
      [sorted[0]] + InsertByStart(x, sorted[1..])
  }

  /** `all_tokens.sort_by(..)` on (start line, start character): the same tokens, in start order. */
  function SortByStart(ts: seq<Tagged>): (r: seq<Tagged>)
    ensures multiset(r) == multiset(ts)
  {
    if ts == [] then []
    else
      assert ts == [ts[0]] + ts[1..];
      InsertByStart(ts[0], SortByStart(ts[1..]))
  }

  lemma {:induction false} InsertKeepsSorted(x: Tagged, sorted: seq<Tagged>)
    requires SortedByStart(sorted)
    ensures SortedByStart(InsertByStart(x, sorted))
    decreases |sorted|
  {
    if sorted != [] && !StartLe(x.0.start, sorted[0].0.start) {
      var rest := InsertByStart(x, sorted[1..]);
      InsertKeepsSorted(x, sorted[1..]);
      forall m | 0 <= m < |rest|
        ensures StartLe(sorted[0].0.start, rest[m].0.start)
      {
        assert rest[m] in multiset(rest);
        if rest[m] != x {
          assert rest[m] in sorted[1..];
        }
      }
    }
  }

  /** The sorted tokens are in start order and are the pushed tokens, with multiplicity. */
  lemma {:induction false} SortByStartSorted(ts: seq<Tagged>)
    ensures SortedByStart(SortByStart(ts))
    ensures multiset(SortByStart(ts)) == multiset(ts)
  {
    if ts != [] {
      SortByStartSorted(ts[1..]);
      InsertKeepsSorted(ts[0], SortByStart(ts[1..]));
    }
  }

  // ---------------------------------------------------------------------------
  // The relative encoding

  /** No range ends in a column before the one it starts in, so its length `end - start` does not underflow. */
  predicate ColumnsOrdered(ts: seq<Tagged>)
  {
    forall i | 0 <= i < |ts| :: ts[i].0.start.character <= ts[i].0.end.character
  }

  /** Reordering tokens keeps every token's columns in order. */
  lemma ColumnsOfPermutation(a: seq<Tagged>, b: seq<Tagged>)
    requires multiset(a) == multiset(b) && ColumnsOrdered(a)
    ensures ColumnsOrdered(b)
  {
    forall i | 0 <= i < |b|
      ensures b[i].0.start.character <= b[i].0.end.character
    {
      assert b[i] in multiset(a);
      var j :| 0 <= j < |a| && a[j] == b[i];
    }
  }

  /**
   * The token emitted for `range` after a token that started at (`prevLine`,
   * `prevStart`); `first` when nothing was emitted yet. A token on the previous
   * token's line is placed relative to its start (never below zero), one on
   * another line by its own column; the first token's line is its own and later
   * ones are relative (never below zero).
   */
  function EncodeOne(range: Range, tokenType: nat, prevLine: nat, prevStart: nat, first: bool): (t: SemanticToken)
    requires range.start.character <= range.end.character
    ensures t.length == range.end.character - range.start.character
    ensures t.tokenType == tokenType && t.tokenModifiersBitset == 0
    ensures StartLe(Position(prevLine, prevStart), range.start) && (first ==> prevLine == 0) ==>
      && prevLine + t.deltaLine == range.start.line
      && (if t.deltaLine == 0 then prevStart + t.deltaStart else t.deltaStart) == range.start.character
  {
    var line, start := range.start.line, range.start.character;
    var deltaStart := if line == prevLine then (if start >= prevStart then start - prevStart else 0) else start;
    var deltaLine := if first then line else if line >= prevLine then line - prevLine else 0;
    SemanticToken(deltaLine, deltaStart, range.end.character - start, tokenType, 0)
  }

  /** The tokens the encoding loop emits for `ts`, after a token that started at (`prevLine`, `prevStart`). */
  function EncodeFrom(ts: seq<Tagged>, prevLine: nat, prevStart: nat, first: bool): (r: seq<SemanticToken>)
    requires ColumnsOrdered(ts)
    ensures |r| == |ts|
    decreases |ts|
  {
    if ts == [] then []
    else
      var range := ts[0].0;
      [EncodeOne(range, ts[0].1, prevLine, prevStart, first)]
        + EncodeFrom(ts[1..], range.start.line, range.start.character, false)
  }

  /** Every token keeps its range's type and length and carries no modifier. */
  lemma {:induction false} EncodeFields(ts: seq<Tagged>, prevLine: nat, prevStart: nat, first: bool)
    requires ColumnsOrdered(ts)
    ensures var r := EncodeFrom(ts, prevLine, prevStart, first);
      forall i | 0 <= i < |ts| ::
        && r[i].tokenType == ts[i].1
        && r[i].length == ts[i].0.end.character - ts[i].0.start.character
        && r[i].tokenModifiersBitset == 0
    decreases |ts|
  {
    if ts != [] {
      var p := ts[0].0.start;
      assert ColumnsOrdered(ts[1..]);
      EncodeFields(ts[1..], p.line, p.character, false);
      var r := EncodeFrom(ts, prevLine, prevStart, first);
      assert r[1..] == EncodeFrom(ts[1..], p.line, p.character, false);
      forall i | 1 <= i < |ts|
        ensures r[i] == r[1..][i - 1] && ts[i] == ts[1..][i - 1]
      {
      }
    }
  }

  /** How a client reads the encoding back: the absolute start of every token, after a token at (`line`, `start`). */
  function DecodeFrom(tokens: seq<SemanticToken>, line: nat, start: nat): (r: seq<Position>)
    ensures |r| == |tokens|
    decreases |tokens|
  {
    if tokens == [] then []
    else
      var t := tokens[0];
      var l := line + t.deltaLine;
      var s := if t.deltaLine == 0 then start + t.deltaStart else t.deltaStart;
      [Position(l, s)] + DecodeFrom(tokens[1..], l, s)
  }

  function Starts(ts: seq<Tagged>): seq<Position>
  {
    seq(|ts|, i requires 0 <= i < |ts| => ts[i].0.start)
  }

  /**
   * Round trip: on tokens in start order, that follow (`prevLine`, `prevStart`),
   * decoding the encoding gives back every start position.
   */
  lemma {:induction false} DecodeEncode(ts: seq<Tagged>, prevLine: nat, prevStart: nat, first: bool)
    requires ColumnsOrdered(ts) && SortedByStart(ts)
    requires first ==> prevLine == 0
    requires ts != [] ==> StartLe(Position(prevLine, prevStart), ts[0].0.start)
    ensures DecodeFrom(EncodeFrom(ts, prevLine, prevStart, first), prevLine, prevStart) == Starts(ts)
    decreases |ts|
  {
    if ts != [] {
      var p := ts[0].0.start;
      assert ColumnsOrdered(ts[1..]) && SortedByStart(ts[1..]);
      if |ts| > 1 {
        assert StartLe(p, ts[1..][0].0.start);
      }
      DecodeEncode(ts[1..], p.line, p.character, false);
      var enc := EncodeFrom(ts, prevLine, prevStart, first);
      assert enc[1..] == EncodeFrom(ts[1..], p.line, p.character, false);
      assert DecodeFrom(enc, prevLine, prevStart)[0] == p;
      assert Starts(ts) == [p] + Starts(ts[1..]);
    }
  }

  // ---------------------------------------------------------------------------
  // The request

  /**
   * `get_semantic_tokens`: pushes the ranges of the targets, attributes and
   * strings (an extraction that fails contributes none), sorts them by start
   * and encodes them in one pass that keeps the previous token's line and start.
   */
  method GetSemanticTokens(targets: Option<seq<BazelTarget>>, attributes: Option<seq<BazelAttribute>>,
                           strings: Option<seq<BazelString>>) returns (data: seq<SemanticToken>)
    requires ColumnsOrdered(AllTokens(OrEmpty(targets), OrEmpty(attributes), OrEmpty(strings)))
    ensures ColumnsOrdered(SortByStart(AllTokens(OrEmpty(targets), OrEmpty(attributes), OrEmpty(strings))))
    ensures var all := AllTokens(OrEmpty(targets), OrEmpty(attributes), OrEmpty(strings));
      data == EncodeFrom(SortByStart(all), 0, 0, true)
  {
    var all := CollectTokens(OrEmpty(targets), OrEmpty(attributes), OrEmpty(strings));
    var sorted := SortByStart(all);
    ColumnsOfPermutation(all, sorted);
    data := Encode(sorted);
  }

  /** The three push loops. */
  method CollectTokens(targets: seq<BazelTarget>, attributes: seq<BazelAttribute>, strings: seq<BazelString>)
    returns (all: seq<Tagged>)
    ensures all == AllTokens(targets, attributes, strings)
  {
    all := [];
    for i := 0 to |targets|
      invariant all == seq(i, k requires 0 <= k < i => (targets[k].ruleTypeRange, 0))
    {
      all := all + [(targets[i].ruleTypeRange, 0)];
    }
    ghost var n := |all|;
    for i := 0 to |attributes|
      invariant |all| == n + i && all[..n] == AllTokens(targets, [], [])
      invariant forall k | 0 <= k < i :: all[n + k] == (attributes[k].range, 1)
    {
      all := all + [(attributes[i].range, 1)];
    }
    ghost var m := |all|;
    for i := 0 to |strings|
      invariant |all| == m + i && all[..m] == AllTokens(targets, attributes, [])
      invariant forall k | 0 <= k < i :: all[m + k] == (strings[k].range, 2)
    {
      all := all + [(strings[i].range, 2)];
    }
  }

  /** The encoding loop, proved to emit `EncodeFrom` of its input. */
  method Encode(sorted: seq<Tagged>) returns (tokens: seq<SemanticToken>)
    requires ColumnsOrdered(sorted)
    ensures tokens == EncodeFrom(sorted, 0, 0, true)
  {
    tokens := [];
    var prevLine, prevStart := 0, 0;
    var i := 0;
    while i < |sorted|
      invariant i <= |sorted| && |tokens| == i
      invariant ColumnsOrdered(sorted[i..])
      invariant tokens + EncodeFrom(sorted[i..], prevLine, prevStart, i == 0) == EncodeFrom(sorted, 0, 0, true)
    {
      var (range, tokenType) := sorted[i];
      var token := EncodeOne(range, tokenType, prevLine, prevStart, tokens == []);
      assert sorted[i..] == [sorted[i]] + sorted[i + 1..];
      assert ColumnsOrdered(sorted[i + 1..]);
      tokens := tokens + [token];
      prevLine := range.start.line;
      prevStart := range.start.character;
      i := i + 1;
    }
  }

  /**
   * What the client recovers from the tokens of a file: the start of every
   * pushed range, in start order, each with its token type.
   */
  lemma TokensDecode(targets: seq<BazelTarget>, attributes: seq<BazelAttribute>, strings: seq<BazelString>)
    requires ColumnsOrdered(AllTokens(targets, attributes, strings))
    ensures var sorted := SortByStart(AllTokens(targets, attributes, strings));
      && ColumnsOrdered(sorted)
      && SortedByStart(sorted)
      && multiset(sorted) == multiset(AllTokens(targets, attributes, strings))
      && DecodeFrom(EncodeFrom(sorted, 0, 0, true), 0, 0) == Starts(sorted)
  {
    var all := AllTokens(targets, attributes, strings);
    var sorted := SortByStart(all);
    SortByStartSorted(all);
    ColumnsOfPermutation(all, sorted);
    DecodeEncode(sorted, 0, 0, true);
  }
}
