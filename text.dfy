/**
 * The Rust string primitives the server relies on, over `string` (`seq<char>`).
 * Dafny's `char` is a Unicode scalar value, as Rust's `char` is, so a Rust `&str`
 * is modelled by the sequence of its chars; where Rust counts UTF-8 bytes
 * (`str::len`, slicing, `replace_range`) the model counts them with `ByteLen`.
 */
module Text {
  import opened Wrappers

  // ---------------------------------------------------------------------------
  // UTF-8 widths and byte offsets

  /** `char::len_utf8`: the number of bytes of `c` in UTF-8. */
  function Utf8Width(c: char): (w: nat)
    ensures 1 <= w <= 4
    ensures w == 1 <==> c as int < 0x80
  {
    if c as int < 0x80 then 1
    else if c as int < 0x800 then 2
    else if c as int < 0x10000 then 3
    else 4
  }

  /** `str::len`: the number of UTF-8 bytes of `s`. */
  function ByteLen(s: string): (n: nat)
    ensures |s| <= n <= 4 * |s|
  {
    if s == [] then 0 else Utf8Width(s[0]) + ByteLen(s[1..])
  }

  lemma {:induction false} ByteLenAppend(a: string, b: string)
    ensures ByteLen(a + b) == ByteLen(a) + ByteLen(b)
  {
    if a == [] {
      assert a + b == b;
    } else {
      assert (a + b)[0] == a[0];
      assert (a + b)[1..] == a[1..] + b;
      ByteLenAppend(a[1..], b);
    }
  }

  /** A longer prefix has strictly more bytes. */
  lemma ByteLenPrefixStrict(s: string, i: nat, j: nat)
    requires i < j <= |s|
    ensures ByteLen(s[..i]) < ByteLen(s[..j])
  {
    assert s[..j] == s[..i] + s[i..j];
    ByteLenAppend(s[..i], s[i..j]);
  }

  /**
   * The char index at UTF-8 offset `b` of `s`, when `b` is a char boundary
   * (`str::is_char_boundary`); `None` for an offset inside a char or past the end.
   */
  function CharIndexOfByte(s: string, b: nat): (r: Option<nat>)
    ensures r.Some? ==> r.value <= |s| && ByteLen(s[..r.value]) == b
    ensures r.None? ==> forall i | 0 <= i <= |s| :: ByteLen(s[..i]) != b
    decreases |s|
  {
    if b == 0 then
      assert s[..0] == [];
      Some(0)
    else if s == [] then
      None
    else if b < Utf8Width(s[0]) then
      assert forall i | 1 <= i <= |s| :: s[..i] == [s[0]] + s[1..i];
      None
    else
      match CharIndexOfByte(s[1..], b - Utf8Width(s[0]))
      case None =>
        assert forall i | 1 <= i <= |s| :: s[..i][1..] == s[1..][..i - 1];
        None
      case Some(k) =>
        assert s[..k + 1][1..] == s[1..][..k];
        Some(k + 1)
  }

  /** At a prefix boundary the char index is that prefix's length. */
  lemma CharIndexOfPrefix(s: string, i: nat)
    requires i <= |s|
    ensures CharIndexOfByte(s, ByteLen(s[..i])) == Some(i)
  {
    var r := CharIndexOfByte(s, ByteLen(s[..i]));
    var k := r.value;
    if k < i {
      ByteLenPrefixStrict(s, k, i);
    } else if i < k {
      ByteLenPrefixStrict(s, i, k);
    }
  }

  /**
   * `String::replace_range(start..end, t)`: replaces the bytes `start..end`.
   * `None` where Rust panics: an offset that is not a char boundary (which includes
   * one past the end) or `start > end`.
   */
  function ReplaceRange(s: string, start: nat, end: nat, t: string): (r: Option<string>)
    ensures r.Some? ==> start <= end <= ByteLen(s)
    ensures r.Some? ==> ByteLen(r.value) + end == ByteLen(s) + ByteLen(t) + start
  {
    match (CharIndexOfByte(s, start), CharIndexOfByte(s, end))
    case (Some(i), Some(j)) =>
      if start <= end then
        assert i <= j by {
          if j < i { ByteLenPrefixStrict(s, j, i); }
        }
        assert s == s[..j] + s[j..];
        ByteLenAppend(s[..j], s[j..]);
        ByteLenAppend(s[..i], t);
        ByteLenAppend(s[..i] + t, s[j..]);
        Some(s[..i] + t + s[j..])
      else None
    case _ => None
  }

  /** Replacing the chars `i..j` (given as their byte offsets) splices `t` in and keeps the rest. */
  lemma ReplaceRangeAtChars(s: string, i: nat, j: nat, t: string)
    requires i <= j <= |s|
    ensures ReplaceRange(s, ByteLen(s[..i]), ByteLen(s[..j]), t) == Some(s[..i] + t + s[j..])
  {
    CharIndexOfPrefix(s, i);
    CharIndexOfPrefix(s, j);
    if i < j {
      ByteLenPrefixStrict(s, i, j);
    }
  }

  // ---------------------------------------------------------------------------
  // Searching

  /** `str::find(c)`: the first index of `c`. */
  function IndexOf(s: string, c: char): (r: Option<nat>)
    ensures r.Some? ==> r.value < |s| && s[r.value] == c && c !in s[..r.value]
    ensures r.None? <==> c !in s
  {
    if s == [] then None
    else if s[0] == c then Some(0)
    else match IndexOf(s[1..], c)
      case None => None
      case Some(i) =>
        assert s[..i + 1] == [s[0]] + s[1..][..i];
        Some(i + 1)
  }

  /** `str::rfind(c)`: the last index of `c`. */
  function LastIndexOf(s: string, c: char): (r: Option<nat>)
    ensures r.Some? ==> r.value < |s| && s[r.value] == c
  {
    if s == [] then None
    else if s[|s| - 1] == c then Some(|s| - 1)
    else LastIndexOf(s[..|s| - 1], c)
  }

  /** The index found is the last `c`, and there is none exactly when `s` lacks `c`. */
  lemma {:induction false} LastIndexOfMeaning(s: string, c: char)
    ensures var r := LastIndexOf(s, c);
      && (r.Some? ==> c !in s[r.value + 1..])
      && (r.None? <==> c !in s)
    decreases |s|
  {
    if s != [] && s[|s| - 1] != c {
      var init := s[..|s| - 1];
      LastIndexOfMeaning(init, c);
      assert s == init + [s[|s| - 1]];
      match LastIndexOf(init, c)
      case None =>
      case Some(i) =>
        assert s[i + 1..] == init[i + 1..] + [s[|s| - 1]];
    }
  }

  /** The last index of `c` is determined by the split of `s` around it. */
  lemma {:induction false} LastIndexOfSplit(p: string, c: char, t: string)
    requires c !in t
    ensures LastIndexOf(p + [c] + t, c) == Some(|p|)
    decreases |t|
  {
    var s := p + [c] + t;
    if t != [] {
      assert s[|s| - 1] == t[|t| - 1] != c;
      assert s[..|s| - 1] == p + [c] + t[..|t| - 1];
      LastIndexOfSplit(p, c, t[..|t| - 1]);
    }
  }

  // ---------------------------------------------------------------------------
  // Trimming

  /** `char::is_whitespace`: the Unicode `White_Space` property. */
  predicate IsWhitespace(c: char)
  {
    ('\U{0009}' <= c <= '\U{000D}') || c == ' ' || c == '\U{0085}' || c == '\U{00A0}'
    || c == '\U{1680}' || ('\U{2000}' <= c <= '\U{200A}') || c == '\U{2028}' || c == '\U{2029}'
    || c == '\U{202F}' || c == '\U{205F}' || c == '\U{3000}'
  }

  /** `str::trim_start`. */
  function TrimStart(s: string): (r: string)
    ensures |r| <= |s| && r == s[|s| - |r|..]
    ensures r == [] || !IsWhitespace(r[0])
  {
    if s != [] && IsWhitespace(s[0]) then TrimStart(s[1..]) else s
  }

  /** `str::trim_end`. */
  function TrimEnd(s: string): (r: string)
    ensures r <= s
    ensures r == [] || !IsWhitespace(r[|r| - 1])
  {
    if s != [] && IsWhitespace(s[|s| - 1]) then TrimEnd(s[..|s| - 1]) else s
  }

  /** `str::trim`: neither end of the result is whitespace. */
  function Trim(s: string): (r: string)
    ensures r == [] || (!IsWhitespace(r[0]) && !IsWhitespace(r[|r| - 1]))
  {
    TrimEnd(TrimStart(s))
  }

  /** `trim_start` drops only whitespace. */
  lemma {:induction false} TrimStartDropsBlanks(s: string)
    ensures forall i | 0 <= i < |s| - |TrimStart(s)| :: IsWhitespace(s[i])
    decreases |s|
  {
    if s != [] && IsWhitespace(s[0]) {
      TrimStartDropsBlanks(s[1..]);
      assert forall i | 1 <= i < |s| :: s[i] == s[1..][i - 1];
    }
  }

  /** `trim_end` drops only whitespace. */
  lemma {:induction false} TrimEndDropsBlanks(s: string)
    ensures forall i | |TrimEnd(s)| <= i < |s| :: IsWhitespace(s[i])
    decreases |s|
  {
    if s != [] && IsWhitespace(s[|s| - 1]) {
      TrimEndDropsBlanks(s[..|s| - 1]);
      assert forall i | 0 <= i < |s| - 1 :: s[i] == s[..|s| - 1][i];
    }
  }

  /**
   * `str::trim` drops only whitespace: its result is a slice of the input
   * with nothing but whitespace before and after it.
   */
  lemma {:induction false} TrimIsSlice(s: string)
    ensures exists a, b | 0 <= a <= b <= |s| ::
      && Trim(s) == s[a..b]
      && (forall i | 0 <= i < a :: IsWhitespace(s[i]))
      && (forall i | b <= i < |s| :: IsWhitespace(s[i]))
  {
    var a := |s| - |TrimStart(s)|;
    var b := a + |Trim(s)|;
    TrimBetween(s, a, b);
    TrimStartDropsBlanks(s);
    TrimAfter(s, a, b);
  }

  /** What `trim` keeps lies between what `trim_start` and `trim_end` drop. */
  lemma {:induction false} TrimBetween(s: string, a: nat, b: nat)
    requires a == |s| - |TrimStart(s)| && b == a + |Trim(s)|
    ensures a <= b <= |s| && Trim(s) == s[a..b]
  {
    TrimPrefixOfTrimStart(s);
    PrefixOfSuffix(s, a, b, TrimStart(s), Trim(s));
  }

  lemma TrimPrefixOfTrimStart(s: string)
    ensures Trim(s) <= TrimStart(s)
  {
  }

  /** A prefix of the suffix of `s` from `a` is a slice of `s` from `a`. */
  lemma PrefixOfSuffix<T>(s: seq<T>, a: nat, b: nat, t: seq<T>, r: seq<T>)
    requires a <= |s| && t == s[a..] && r <= t && b == a + |r|
    ensures b <= |s| && r == s[a..b]
  {
  }

  /** `trim` drops only whitespace after what it keeps. */
  lemma {:induction false} TrimAfter(s: string, a: nat, b: nat)
    requires a == |s| - |TrimStart(s)| && b == a + |Trim(s)|
    ensures forall i | b <= i < |s| :: IsWhitespace(s[i])
  {
    var t := TrimStart(s);
    TrimEndDropsBlanks(t);
    assert |Trim(s)| == |TrimEnd(t)|;
    BlanksAfter(s, a, b, t);
  }

  /** Whitespace at the end of the suffix of `s` from `a` is whitespace at the end of `s`. */
  lemma BlanksAfter(s: string, a: nat, b: nat, t: string)
    requires a <= b && a <= |s| && t == s[a..]
    requires forall i | b - a <= i < |t| :: IsWhitespace(t[i])
    ensures forall i | b <= i < |s| :: IsWhitespace(s[i])
  {
    forall i | b <= i < |s|
      ensures IsWhitespace(s[i])
    {
      assert s[i] == t[i - a];
    }
  }


  /** `str::trim_end_matches(c)`: drops every trailing `c`. */
  function TrimEndMatches(s: string, c: char): (r: string)
    ensures r <= s
    ensures r == [] || r[|r| - 1] != c
    ensures forall i | |r| <= i < |s| :: s[i] == c
  {
    if s != [] && s[|s| - 1] == c then TrimEndMatches(s[..|s| - 1], c) else s
  }

  /** Two trailing copies of `c` are both stripped. */
  lemma TrimEndMatchesTwo(s: string, c: char)
    requires |s| >= 2 && s[|s| - 1] == c && s[|s| - 2] == c
    ensures |TrimEndMatches(s, c)| <= |s| - 2
  {
    var r := TrimEndMatches(s, c);
    assert r == s[..|r|];
  }

  predicate IsTrimmed(s: string)
  {
    s == [] || (!IsWhitespace(s[0]) && !IsWhitespace(s[|s| - 1]))
  }

  lemma {:induction false} TrimStartOfWhitespace(w: string, s: string)
    requires forall i | 0 <= i < |w| :: IsWhitespace(w[i])
    requires s == [] || !IsWhitespace(s[0])
    ensures TrimStart(w + s) == s
    decreases |w|
  {
    if w == [] {
      assert w + s == s;
    } else {
      assert (w + s)[0] == w[0];
      assert (w + s)[1..] == w[1..] + s;
      assert forall i | 0 <= i < |w[1..]| :: w[1..][i] == w[i + 1];
      TrimStartOfWhitespace(w[1..], s);
    }
  }

  lemma {:induction false} TrimEndOfWhitespace(s: string, w: string)
    requires s == [] || !IsWhitespace(s[|s| - 1])
    requires forall i | 0 <= i < |w| :: IsWhitespace(w[i])
    ensures TrimEnd(s + w) == s
    decreases |w|
  {
    if w == [] {
      assert s + w == s;
    } else {
      assert (s + w)[..|s + w| - 1] == s + w[..|w| - 1];
      TrimEndOfWhitespace(s, w[..|w| - 1]);
    }
  }

  /** Trimming adds no char: what `s` lacks, its trimmed forms lack. */
  lemma TrimKeepsAbsent(s: string, c: char, m: char)
    requires c !in s
    ensures c !in TrimStart(s) && c !in TrimEnd(s) && c !in Trim(s) && c !in TrimEndMatches(s, m)
  {
    var a := TrimStart(s);
    assert c !in a by {
      SliceLacks(s, c, |s| - |a|, |s|);
    }
    assert c !in TrimEnd(a) by {
      SliceLacks(a, c, 0, |TrimEnd(a)|);
    }
    assert c !in TrimEnd(s) by {
      SliceLacks(s, c, 0, |TrimEnd(s)|);
    }
    assert c !in TrimEndMatches(s, m) by {
      SliceLacks(s, c, 0, |TrimEndMatches(s, m)|);
    }
  }

  lemma SliceLacks(s: string, c: char, i: nat, j: nat)
    requires c !in s && i <= j <= |s|
    ensures c !in s[i..j]
  {
    assert forall k | 0 <= k < j - i :: s[i..j][k] == s[i + k];
  }

  /** Trimming text that is already trimmed changes nothing. */
  lemma TrimOfTrimmed(s: string)
    requires IsTrimmed(s)
    ensures Trim(s) == s
  {
  }

  // ---------------------------------------------------------------------------
  // Splitting and joining

  /** The inverse of `str::split`: the parts with `sep` between consecutive ones. */
  function Join(parts: seq<string>, sep: char): string
  {
    if parts == [] then []
    else if |parts| == 1 then parts[0]
    else parts[0] + [sep] + Join(parts[1..], sep)
  }

  /**
   * `str::split(sep)`: the maximal `sep`-free pieces between separators, always
   * at least one (the empty string splits into one empty piece).
   */
  function Split(s: string, sep: char): (parts: seq<string>)
    ensures |parts| >= 1
    decreases |s|
  {
    if s == [] then [[]]
    else
      var rest := Split(s[1..], sep);
      if s[0] == sep then
        [[]] + rest
      else
        [[s[0]] + rest[0]] + rest[1..]
  }

  /** A text splits into more than one piece exactly when it holds the separator. */
  lemma {:induction false} SplitCount(s: string, sep: char)
    ensures |Split(s, sep)| == 1 <==> sep !in s
    decreases |s|
  {
    if s != [] {
      SplitCount(s[1..], sep);
      assert sep in s <==> s[0] == sep || sep in s[1..] by {
        assert s == [s[0]] + s[1..];
      }
    }
  }

  /** Splitting loses nothing: the pieces hold no separator and joining them gives the text back. */
  lemma {:induction false} SplitJoin(s: string, sep: char)
    ensures forall i | 0 <= i < |Split(s, sep)| :: sep !in Split(s, sep)[i]
    ensures Join(Split(s, sep), sep) == s
    decreases |s|
  {
    if s != [] {
      var rest := Split(s[1..], sep);
      SplitJoin(s[1..], sep);
      assert s == [s[0]] + s[1..];
      if s[0] != sep {
        var parts := Split(s, sep);
        assert parts[1..] == rest[1..];
      }
    }
  }

  /** The first piece of a split is the text before the first separator. */
  lemma SplitFirst(p: string, sep: char, q: string)
    requires sep !in p
    ensures |Split(p + [sep] + q, sep)| >= 2
    ensures Split(p + [sep] + q, sep)[0] == p
    ensures Split(p + [sep] + q, sep)[1..] == Split(q, sep)
    decreases |p|
  {
    var s := p + [sep] + q;
    if p == [] {
      assert s[0] == sep;
      assert s[1..] == q;
    } else {
      assert s[0] == p[0] != sep;
      assert s[1..] == p[1..] + [sep] + q;
      SplitFirst(p[1..], sep, q);
      var rest := Split(s[1..], sep);
      assert rest[0] == p[1..];
      assert [s[0]] + rest[0] == p;
    }
  }

  /** The first piece of a split is the text before the first separator, or all of it. */
  lemma SplitHead(s: string, sep: char)
    ensures Split(s, sep)[0] == match IndexOf(s, sep) case Some(i) => s[..i] case None => s
  {
    match IndexOf(s, sep)
    case Some(i) =>
      assert s == s[..i] + [sep] + s[i + 1..];
      SplitFirst(s[..i], sep, s[i + 1..]);
    case None =>
      SplitJoin(s, sep);
      SplitCount(s, sep);
  }

  /** An occurrence of `c` with none before it is the first. */
  lemma {:induction false} IndexOfFirst(s: string, c: char, i: nat)
    requires i < |s| && s[i] == c && c !in s[..i]
    ensures IndexOf(s, c) == Some(i)
  {
    if i > 0 {
      assert s[0] in s[..i];
      assert s[1..][..i - 1] == s[1..i];
      assert s[1..i] <= s[..i][1..];
      IndexOfFirst(s[1..], c, i - 1);
    }
  }

  /** The first occurrence of `c` in `x` is also the first in any extension of `x`. */
  lemma IndexOfExtend(x: string, y: string, c: char)
    requires x <= y
    ensures c in x ==> IndexOf(y, c) == IndexOf(x, c)
    ensures c !in x && c in y ==> IndexOf(y, c).value >= |x|
  {
    assert y[..|x|] == x;
    if c in x {
      var i := IndexOf(x, c).value;
      assert y[..i] == x[..i];
      IndexOfFirst(y, c, i);
    }
  }

  /** Extending a text extends the first piece of its split, and leaves it alone once it contains a separator. */
  lemma SplitHeadExtend(x: string, y: string, sep: char)
    requires x <= y
    ensures Split(x, sep)[0] <= Split(y, sep)[0]
    ensures sep in x ==> Split(x, sep)[0] == Split(y, sep)[0]
  {
    SplitHead(x, sep);
    SplitHead(y, sep);
    IndexOfExtend(x, y, sep);
  }

  /** `[String]::join(sep)` with a separator of any length. */
  function JoinWith(parts: seq<string>, sep: string): string
  {
    if parts == [] then []
    else if |parts| == 1 then parts[0]
    else parts[0] + sep + JoinWith(parts[1..], sep)
  }

  /** Joining after a last piece appends the separator and that piece. */
  lemma {:induction false} JoinSnoc(parts: seq<string>, x: string, sep: char)
    requires parts != []
    ensures Join(parts + [x], sep) == Join(parts, sep) + [sep] + x
    decreases |parts|
  {
    if |parts| > 1 {
      assert (parts + [x])[1..] == parts[1..] + [x];
      JoinSnoc(parts[1..], x, sep);
    }
  }

  /** Every char of a piece occurs in the joined text. */
  lemma {:induction false} InJoin(parts: seq<string>, sep: char, i: nat, c: char)
    requires i < |parts| && c in parts[i]
    ensures c in Join(parts, sep)
    decreases |parts|
  {
    if |parts| > 1 && i > 0 {
      InJoin(parts[1..], sep, i - 1, c);
    }
  }

  /** Concatenation of a sequence of strings. */
  function Concat(parts: seq<string>): string
  {
    if parts == [] then [] else Concat(parts[..|parts| - 1]) + parts[|parts| - 1]
  }

  lemma {:induction false} ConcatAppend(a: seq<string>, b: seq<string>)
    ensures Concat(a + b) == Concat(a) + Concat(b)
    decreases |b|
  {
    if b == [] {
      assert a + b == a;
    } else {
      var init, x := b[..|b| - 1], b[|b| - 1];
      ConcatAppend(a, init);
      assert Concat(a + b) == Concat(a + init) + x by {
        assert (a + b)[..|a + b| - 1] == a + init;
        assert (a + b)[|a + b| - 1] == x;
      }
      assert Concat(b) == Concat(init) + x;
    }
  }

  /** `s` with every `c` dropped. */
  function Remove(s: string, c: char): (r: string)
    ensures c !in r
    ensures |r| <= |s|
  {
    if s == [] then [] else (if s[0] == c then [] else [s[0]]) + Remove(s[1..], c)
  }

  lemma {:induction false} RemoveAppend(a: string, b: string, c: char)
    ensures Remove(a + b, c) == Remove(a, c) + Remove(b, c)
  {
    if a == [] {
      assert a + b == b;
    } else {
      var head := if a[0] == c then [] else [a[0]];
      assert (a + b)[0] == a[0];
      assert (a + b)[1..] == a[1..] + b;
      assert Remove(a + b, c) == head + Remove(a[1..] + b, c);
      RemoveAppend(a[1..], b, c);
      assert Remove(a, c) == head + Remove(a[1..], c);
      assert head + (Remove(a[1..], c) + Remove(b, c)) == (head + Remove(a[1..], c)) + Remove(b, c);
    }
  }

  lemma RemoveAbsent(s: string, c: char)
    requires c !in s
    ensures Remove(s, c) == s
  {
  }

  /** Concatenating the pieces of a split is the text with every separator dropped. */
  lemma {:induction false} ConcatSplit(s: string, sep: char)
    ensures Concat(Split(s, sep)) == Remove(s, sep)
  {
    var parts := Split(s, sep);
    SplitJoin(s, sep);
    ConcatJoin(parts, sep);
  }

  lemma {:induction false} ConcatJoin(parts: seq<string>, sep: char)
    requires forall i | 0 <= i < |parts| :: sep !in parts[i]
    ensures Concat(parts) == Remove(Join(parts, sep), sep)
    decreases |parts|
  {
    if parts == [] {
    } else if |parts| == 1 {
      RemoveAbsent(parts[0], sep);
      assert parts == [] + [parts[0]];
    } else {
      ConcatJoin(parts[1..], sep);
      RemoveAfterPiece(parts[0], Join(parts[1..], sep), sep);
      ConcatCons(parts);
    }
  }

  lemma {:induction false} RemoveAfterPiece(head: string, rest: string, sep: char)
    requires sep !in head
    ensures Remove(head + [sep] + rest, sep) == head + Remove(rest, sep)
  {
    var s := head + [sep] + rest;
    if head == [] {
      assert s[0] == sep && s[1..] == rest;
    } else {
      assert s[0] == head[0] != sep;
      assert s[1..] == head[1..] + [sep] + rest;
      assert sep !in head[1..] by {
        assert head == [head[0]] + head[1..];
      }
      RemoveAfterPiece(head[1..], rest, sep);
      assert [head[0]] + head[1..] == head;
    }
  }

  lemma ConcatCons(parts: seq<string>)
    requires parts != []
    ensures Concat(parts) == parts[0] + Concat(parts[1..])
  {
    assert parts == [parts[0]] + parts[1..];
    ConcatAppend([parts[0]], parts[1..]);
    assert [parts[0]][..0] == [];
  }

  // ---------------------------------------------------------------------------
  // Lines

  /** Drops one trailing carriage return. */
  function StripCr(s: string): string
  {
    if s != [] && s[|s| - 1] == '\r' then s[..|s| - 1] else s
  }

  /**
   * `str::lines`: the text split at each `\n`, a `\r` right before a `\n`
   * dropped, and no final empty line after a trailing `\n`.
   */
  function Lines(s: string): (lines: seq<string>)
  {
    if s == [] then []
    else
      var parts := Split(s, '\n');
      var n := |parts|;
      var k := if parts[n - 1] == [] then n - 1 else n;
      seq(k, i requires 0 <= i < k => if i < n - 1 then StripCr(parts[i]) else parts[i])
  }

  /** No line holds a newline. */
  lemma LinesLackNewline(s: string)
    ensures forall i | 0 <= i < |Lines(s)| :: '\n' !in Lines(s)[i]
  {
    SplitJoin(s, '\n');
    LinesArePieces(s);
  }

  /** Each line is the piece of the split at its index, possibly without a final carriage return. */
  lemma LinesArePieces(s: string)
    ensures |Lines(s)| <= |Split(s, '\n')|
    ensures forall i | 0 <= i < |Lines(s)| ::
      Lines(s)[i] == Split(s, '\n')[i] || Lines(s)[i] == StripCr(Split(s, '\n')[i])
  {
  }

  /** When no piece but the last ends in a carriage return and the last is not empty, the lines are the pieces. */
  lemma LinesOfSplit(s: string)
    requires s != []
    requires var parts := Split(s, '\n');
      && parts[|parts| - 1] != []
      && forall i | 0 <= i < |parts| - 1 :: StripCr(parts[i]) == parts[i]
    ensures Lines(s) == Split(s, '\n')
  {
    var parts := Split(s, '\n');
    var n := |parts|;
    var ls := Lines(s);
    LinesShape(s, parts);
    forall i | 0 <= i < n
      ensures ls[i] == parts[i]
    {
      if i < n - 1 {
        assert ls[i] == StripCr(parts[i]);
      }
    }
  }

  /** The lines of a non-empty text, in terms of the pieces of its split. */
  lemma LinesShape(s: string, parts: seq<string>)
    requires s != [] && parts == Split(s, '\n')
    ensures |Lines(s)| == if parts[|parts| - 1] == [] then |parts| - 1 else |parts|
    ensures forall i | 0 <= i < |Lines(s)| :: Lines(s)[i] == if i < |parts| - 1 then StripCr(parts[i]) else parts[i]
  {
  }

  // ---------------------------------------------------------------------------
  // Ordering

  /**
   * `Ord for str`: lexicographic comparison of the UTF-8 bytes, which orders two
   * strings as the lexicographic comparison of their scalar values does.
   */
  predicate LexLe(a: string, b: string)
  {
    if a == [] then true
    else if b == [] then false
    else if a[0] != b[0] then a[0] < b[0]
    else LexLe(a[1..], b[1..])
  }

  lemma {:induction false} LexLeTotal(a: string, b: string)
    ensures LexLe(a, b) || LexLe(b, a)
  {
    if a != [] && b != [] && a[0] == b[0] {
      LexLeTotal(a[1..], b[1..]);
    }
  }

  lemma {:induction false} LexLeAntisymmetric(a: string, b: string)
    requires LexLe(a, b) && LexLe(b, a)
    ensures a == b
  {
    if a != [] && b != [] {
      LexLeAntisymmetric(a[1..], b[1..]);
      assert a == [a[0]] + a[1..];
      assert b == [b[0]] + b[1..];
    }
  }

  lemma {:induction false} LexLeTransitive(a: string, b: string, c: string)
    requires LexLe(a, b) && LexLe(b, c)
    ensures LexLe(a, c)
  {
    if a != [] && b != [] && c != [] && a[0] == b[0] && b[0] == c[0] {
      LexLeTransitive(a[1..], b[1..], c[1..]);
    }
  }
}
