/**
 * The server's store of open documents (src/server.rs): `did_open` records a
 * document's text, and `update_document_content` applies the content changes
 * of a `didChange` notification to it, in order. A change without a range
 * replaces the whole text; a ranged change replaces the bytes between the
 * offsets `position_to_byte_index` gives for its two ends, and panics (leaving
 * the store as it was) when those offsets do not delimit a piece of the text.
 */
module Documents {
  import opened Wrappers
  import opened Text
  import opened Lsp
  import opened Positions

  /** The text after one change. */
  function ApplyChange(text: string, change: ContentChange): Option<string>
  {
    match change.range
    case None => Some(change.text)
    case Some(range) => ReplaceRange(text, ByteIndex(text, range.start), ByteIndex(text, range.end), change.text)
  }

  /** The text after the changes, applied one after another; `None` when one of them panics. */
  function ApplyContentChanges(text: string, changes: seq<ContentChange>): (r: Option<string>)
    ensures changes == [] ==> r == Some(text)
    ensures r.Some? && changes != [] && changes[|changes| - 1].range.None? ==> r.value == changes[|changes| - 1].text
    ensures (forall i | 0 <= i < |changes| :: changes[i].range.None?) && changes != [] ==>
      r == Some(changes[|changes| - 1].text)
    decreases |changes|
  {
    if changes == [] then Some(text)
    else
      match ApplyChange(text, changes[0])
      case None => None
      case Some(next) => ApplyContentChanges(next, changes[1..])
  }

  /** The server state this model keeps: the text of every open document, by URI. */
  class Backend {
    var documents: map<string, string>

    constructor ()
      ensures documents == map[]
    {
      documents := map[];
    }

    /** `did_open`: records the document's text, replacing any earlier one. */
    method DidOpen(uri: string, text: string)
      modifies this
      ensures documents == old(documents)[uri := text]
    {
      documents := documents[uri := text];
    }

    /**
     * `update_document_content`: applies the changes to the stored text (empty
     * for an unknown URI) and stores the result; `ok` is false when a change
     * panics, and then nothing is stored.
     */
    method UpdateDocumentContent(uri: string, changes: seq<ContentChange>) returns (ok: bool)
      modifies this
      ensures var current := if uri in old(documents) then old(documents)[uri] else "";
        match ApplyContentChanges(current, changes)
        case Some(text) => ok && documents == old(documents)[uri := text]
        case None => !ok && documents == old(documents)
    {
      var newText := if uri in documents then documents[uri] else "";
      ghost var current := newText;
      var i := 0;
      while i < |changes|
        invariant i <= |changes|
        invariant ApplyContentChanges(current, changes) == ApplyContentChanges(newText, changes[i..])
        invariant documents == old(documents)
      {
        var change := changes[i];
        assert changes[i..][0] == change && changes[i..][1..] == changes[i + 1..];
        if change.range.Some? {
          var startByte := PositionToByteIndex(newText, change.range.value.start);
          var endByte := PositionToByteIndex(newText, change.range.value.end);
          var replaced := ReplaceRange(newText, startByte, endByte, change.text);
          if replaced.None? {
            return false;
          }
          newText := replaced.value;
        } else {
          newText := change.text;
        }
        i := i + 1;
      }
      documents := documents[uri := newText];
      ok := true;
    }
  }

  // ---------------------------------------------------------------------------
  // What the changes do

  /** Changes are applied in order: two runs of changes are applied one after the other. */
  lemma {:induction false} ApplyAppend(text: string, a: seq<ContentChange>, b: seq<ContentChange>)
    ensures ApplyContentChanges(text, a + b) ==
      match ApplyContentChanges(text, a)
      case None => None
      case Some(t) => ApplyContentChanges(t, b)
    decreases |a|
  {
    if a == [] {
      assert a + b == b;
    } else {
      assert (a + b)[0] == a[0] && (a + b)[1..] == a[1..] + b;
      match ApplyChange(text, a[0])
      case None =>
      case Some(next) => ApplyAppend(next, a[1..], b);
    }
  }

  /** A change without a range discards everything before it: what follows applies to its text. */
  lemma FullChangeResets(text: string, a: seq<ContentChange>, full: ContentChange, b: seq<ContentChange>)
    requires full.range.None?
    ensures ApplyContentChanges(text, a + [full] + b) ==
      if ApplyContentChanges(text, a).None? then None else ApplyContentChanges(full.text, b)
  {
    ApplyAppend(text, a + [full], b);
    ApplyAppend(text, a, [full]);
    assert [full][1..] == [];
    match ApplyContentChanges(text, a)
    case None =>
    case Some(t) =>
      assert ApplyContentChanges(t, [full]) == Some(full.text);
  }

  /**
   * In a text without carriage returns, a change whose two ends lie on
   * existing lines, in order, replaces exactly the text between them and keeps
   * everything before and after.
   */
  lemma RangedChangeSplices(text: string, change: ContentChange)
    requires '\r' !in text && change.range.Some?
    requires var r := change.range.value;
      && r.start.line < |Lines(text)| && r.end.line < |Lines(text)|
      && |TextBefore(text, r.start)| <= |TextBefore(text, r.end)|
    ensures var r := change.range.value;
      var a, b := |TextBefore(text, r.start)|, |TextBefore(text, r.end)|;
      ApplyContentChanges(text, [change]) == Some(text[..a] + change.text + text[b..])
  {
    var r := change.range.value;
    var a, b := |TextBefore(text, r.start)|, |TextBefore(text, r.end)|;
    ByteIndexCountsTextBefore(text, r.start);
    ByteIndexCountsTextBefore(text, r.end);
    ReplaceRangeAtChars(text, a, b, change.text);
    assert [change][1..] == [];
  }
}
