/**
 * `position_to_byte_index`, which the deps sorter and the document store share
 * (the server keeps an identical copy): an LSP position (line, character) is
 * turned into a UTF-8 byte offset by walking the `str::lines` of the text.
 * A character counts one Unicode scalar value, and every line before the
 * target line counts its length plus one byte for its newline.
 */
module Positions {
  import opened Text
  import opened Lsp

  function Min(a: nat, b: nat): nat
  {
    if a <= b then a else b
  }

  /** The bytes of the first `n` lines, one newline byte after each; lines past the end add nothing. */
  function LineBytes(lines: seq<string>, n: nat): nat
  {
    if n == 0 then 0
    else LineBytes(lines, n - 1) + (if n - 1 < |lines| then ByteLen(lines[n - 1]) + 1 else 0)
  }

  /** Lines past the end add nothing. */
  lemma {:induction false} LineBytesPast(lines: seq<string>, n: nat)
    requires n >= |lines|
    ensures LineBytes(lines, n) == LineBytes(lines, |lines|)
    decreases n
  {
    if n > |lines| {
      LineBytesPast(lines, n - 1);
    }
  }

  /** The byte offset the source computes for `pos` in `text`. */
  function ByteIndex(text: string, pos: Position): nat
  {
    var lines := Lines(text);
    LineBytes(lines, pos.line)
      + if pos.line < |lines| then
          var line := lines[pos.line];
          ByteLen(line[..Min(pos.character, |line|)])
        else 0
  }

  /**
   * On an existing line the offset lies within that line's bytes, before its
   * newline byte; past the last line it is the length of all lines with their
   * newlines.
   */
  lemma ByteIndexBounds(text: string, pos: Position)
    ensures var lines := Lines(text);
      pos.line < |lines| ==> LineBytes(lines, pos.line) <= ByteIndex(text, pos) < LineBytes(lines, pos.line + 1)
    ensures var lines := Lines(text);
      pos.line >= |lines| ==> ByteIndex(text, pos) == LineBytes(lines, |lines|)
  {
    var lines := Lines(text);
    if pos.line < |lines| {
      var line := lines[pos.line];
      var m := Min(pos.character, |line|);
      assert line == line[..m] + line[m..];
      ByteLenAppend(line[..m], line[m..]);
    } else {
      LineBytesPast(lines, pos.line);
    }
  }

  lemma ByteLenSnoc(s: string, k: nat)
    requires k < |s|
    ensures ByteLen(s[..k + 1]) == ByteLen(s[..k]) + Utf8Width(s[k])
  {
    assert s[..k + 1] == s[..k] + [s[k]];
    ByteLenAppend(s[..k], [s[k]]);
  }

  /** The two counter loops of the source, proved to compute `ByteIndex`. */
  method PositionToByteIndex(text: string, position: Position) returns (byteIndex: nat)
    ensures byteIndex == ByteIndex(text, position)
  {
    var lines := Lines(text);
    byteIndex := 0;
    var i := 0;
    while i < position.line
      invariant i <= position.line
      invariant byteIndex == LineBytes(lines, i)
    {
      if i < |lines| {
        byteIndex := byteIndex + ByteLen(lines[i]) + 1;
      }
      i := i + 1;
    }
    if position.line < |lines| {
      var line := lines[position.line];
      var charIndex := position.character;
      var chars := 0;
      var bytes := 0;
      while chars < |line|
        invariant chars <= |line| && chars <= charIndex
        invariant bytes == ByteLen(line[..chars])
      {
        if chars >= charIndex {
          break;
        }
        ByteLenSnoc(line, chars);
        bytes := bytes + Utf8Width(line[chars]);
        chars := chars + 1;
      }
      assert chars == Min(charIndex, |line|);
      byteIndex := byteIndex + bytes;
    }
  }

  // ---------------------------------------------------------------------------
  // What the offset means

  /** Joining the first `n` lines and a last piece `x` takes the bytes of those lines, their newlines, and `x`. */
  lemma {:induction false} JoinedBytes(lines: seq<string>, n: nat, x: string)
    requires n <= |lines|
    ensures ByteLen(Join(lines[..n] + [x], '\n')) == LineBytes(lines, n) + ByteLen(x)
  {
    if n == 0 {
      assert lines[..0] + [x] == [x];
    } else {
      JoinedBytes(lines, n - 1, lines[n - 1]);
      assert lines[..n - 1] + [lines[n - 1]] == lines[..n];
      JoinSnoc(lines[..n], x, '\n');
      ByteLenAppend(Join(lines[..n], '\n'), ['\n']);
      ByteLenAppend(Join(lines[..n], '\n') + ['\n'], x);
    }
  }

  /** The first `n` pieces and a prefix of the next, joined, are a prefix of all pieces joined. */
  lemma {:induction false} JoinPrefix(parts: seq<string>, n: nat, m: nat, sep: char)
    requires n < |parts| && m <= |parts[n]|
    ensures Join(parts[..n] + [parts[n][..m]], sep) <= Join(parts, sep)
    decreases n
  {
    var x := parts[n][..m];
    if n == 0 {
      assert parts[..0] + [x] == [x];
      if |parts| > 1 {
        assert Join(parts, sep) == parts[0] + ([sep] + Join(parts[1..], sep));
      }
    } else {
      JoinPrefix(parts[1..], n - 1, m, sep);
      assert (parts[..n] + [x])[1..] == parts[1..][..n - 1] + [x];
      assert parts[1..][n - 1] == parts[n];
    }
  }

  /** A piece of a split holds only chars of the text. */
  lemma PiecesLack(s: string, sep: char, c: char)
    requires c !in s
    ensures forall i | 0 <= i < |Split(s, sep)| :: c !in Split(s, sep)[i]
  {
    var parts := Split(s, sep);
    SplitJoin(s, sep);
    forall i, x | 0 <= i < |parts| && x in parts[i]
      ensures x != c
    {
      InJoin(parts, sep, i, x);
    }
  }

  /** In a text without carriage returns the lines are the leading pieces of its split at newlines. */
  lemma LinesWithoutCr(text: string)
    requires '\r' !in text
    ensures |Lines(text)| <= |Split(text, '\n')|
    ensures Lines(text) == Split(text, '\n')[..|Lines(text)|]
  {
    var parts := Split(text, '\n');
    var lines := Lines(text);
    LinesArePieces(text);
    PiecesLack(text, '\n', '\r');
    forall i | 0 <= i < |lines|
      ensures lines[i] == parts[i]
    {
      if parts[i] != [] {
        assert parts[i][|parts[i]| - 1] in parts[i];
      }
    }
  }

  /**
   * The text before `pos`, which must be on an existing line: the lines above,
   * each followed by its newline, and the first `character` chars of its own
   * line (all of it when the line is shorter).
   */
  function TextBefore(text: string, pos: Position): (r: string)
    requires pos.line < |Lines(text)|
    ensures '\r' !in text ==> r <= text
  {
    var lines := Lines(text);
    var line := lines[pos.line];
    var r := Join(lines[..pos.line] + [line[..Min(pos.character, |line|)]], '\n');
    if '\r' in text then r
    else
      var parts := Split(text, '\n');
      LinesWithoutCr(text);
      assert lines[..pos.line] == parts[..pos.line];
      JoinPrefix(parts, pos.line, Min(pos.character, |line|), '\n');
      SplitJoin(text, '\n');
      r
  }

  /**
   * In a text without carriage returns, the offset of a position on an
   * existing line is the UTF-8 length of the text before it.
   */
  lemma ByteIndexCountsTextBefore(text: string, pos: Position)
    requires '\r' !in text
    requires pos.line < |Lines(text)|
    ensures ByteIndex(text, pos) == ByteLen(TextBefore(text, pos))
    ensures ByteIndex(text, pos) == ByteLen(text[..|TextBefore(text, pos)|])
  {
    var lines := Lines(text);
    var m := Min(pos.character, |lines[pos.line]|);
    JoinedBytes(lines, pos.line, lines[pos.line][..m]);
    var before := TextBefore(text, pos);
    assert text[..|before|] == before;
  }

  /**
   * A CRLF line ending is counted as one byte: the second line of
   * `a + "\r\n" + b` starts at byte `ByteLen(a) + 2`, but the position
   * (1, 0) is mapped one byte earlier, onto the newline.
   */
  lemma CrlfCountsOneByte(a: string, cr: char, nl: char, b: string)
    requires cr == '\r' && nl == '\n'
    requires '\n' !in a && '\n' !in b && b != []
    ensures Lines(a + [cr, nl] + b) == [a, b]
    ensures ByteIndex(a + [cr, nl] + b, Position(1, 0)) + 1 == ByteLen(a + [cr, nl])
  {
    CrlfLines(a, cr, nl, b);
    assert LineBytes([a, b], 1) == ByteLen(a) + 1;
    assert b[..0] == [];
    ByteLenAppend(a, [cr, nl]);
  }

  lemma CrlfLines(a: string, cr: char, nl: char, b: string)
    requires cr == '\r' && nl == '\n'
    requires '\n' !in a && '\n' !in b && b != []
    ensures Lines(a + [cr, nl] + b) == [a, b]
  {
    var text := a + [cr, nl] + b;
    assert text == (a + [cr]) + [nl] + b;
    SplitFirst(a + [cr], nl, b);
    SplitJoin(b, nl);
    var parts := Split(text, nl);
    assert parts == [a + [cr], b];
    assert StripCr(a + [cr]) == a;
  }
}
