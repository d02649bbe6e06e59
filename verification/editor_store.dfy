/**
 * The editor page (src/components/HymnEditor/HymnEditor.tsx): saving one
 * verse of the selected hymn with the editor codec, keeping the verse's own
 * label line. Toggling "completed", resetting and the verse index live in
 * `Hymns`, which the features form shares.
 */
module EditorStore {
  import opened Markup
  import opened Wrappers
  import opened Hymns
  import EditorCodec

  /** A verse's label: the first decoded line of its original markup. */
  function VerseLabel(v: Verse): string {
    Decode(v.html)[0]
  }

  /** The markup the editor writes for a verse: its label line, then the encoded lines. */
  function SavedMarkup(v: Verse, content: seq<string>): (html: string)
    ensures '<' !in VerseLabel(v) ==>
              Decode(html) == [VerseLabel(v)] + Decode(EditorCodec.Join(content))
  {
    Labelled(VerseLabel(v), EditorCodec.Join(content))
  }

  /**
   * `handleSave(verseIdx)(updatedContent)`: the verse at `verseIdx` of the
   * selected hymn gets new saved markup that starts with its label line
   * and carries the encoded lines; every other verse and every other
   * field of that verse is kept.
   */
  function Save(s: Store, verseIdx: int, content: seq<string>): (r: Option<Store>)
    ensures SelectedHymn(s).None? ==> r == Some(s)
    ensures SiblingsFit(s) ==> r.Some?
    ensures r.None? ==> SelectedHymn(s).Some? && !SiblingsFit(s)
    ensures r.Some? ==> r.value.selectedHymnIdx == s.selectedHymnIdx && |r.value.hymns| == |s.hymns|
    ensures r.Some? && SelectedHymn(s).Some? ==>
              var sel := SelectedHymn(s).value;
              && |r.value.hymns[s.selectedHymnIdx].verses| == |sel.verses|
              && (forall i :: 0 <= i < |sel.verses| && i != verseIdx ==>
                    r.value.hymns[s.selectedHymnIdx].verses[i] == sel.verses[i])
              && (forall k :: 0 <= k < |s.hymns| && s.hymns[k].title != sel.title ==> r.value.hymns[k] == s.hymns[k])
    ensures r.Some? && SelectedHymn(s).Some? && 0 <= verseIdx < |SelectedHymn(s).value.verses| ==>
              var v := SelectedHymn(s).value.verses[verseIdx];
              var v' := r.value.hymns[s.selectedHymnIdx].verses[verseIdx];
              && v'.(updatedHtml := v.updatedHtml) == v
              && ('<' !in VerseLabel(v) ==>
                    Decode(v'.updatedHtml)[0] == VerseLabel(v)
                    && SavedBody(v') == Decode(EditorCodec.Join(content)))
  {
    match SelectedHymn(s)
    case None => Some(s)
    case Some(sel) =>
      var html := if 0 <= verseIdx < |sel.verses| then SavedMarkup(sel.verses[verseIdx], content) else "";
      SaveVerse(s, verseIdx, html)
  }

  /**
   * Reopening a saved verse shows exactly the lines that were saved, under
   * the same label, provided the lines are plain text.
   */
  lemma SaveThenReopen(s: Store, verseIdx: int, content: seq<string>)
    requires SelectedHymn(s).Some? && Save(s, verseIdx, content).Some?
    requires 0 <= verseIdx < |SelectedHymn(s).value.verses|
    requires '<' !in VerseLabel(SelectedHymn(s).value.verses[verseIdx])
    requires |content| > 0 && forall k :: 0 <= k < |content| ==> IsPlainLine(content[k])
    ensures var v' := Save(s, verseIdx, content).value.hymns[s.selectedHymnIdx].verses[verseIdx];
            SavedBody(v') == content
            && VerseLabel(v') == VerseLabel(SelectedHymn(s).value.verses[verseIdx])
  {
    EditorCodec.RoundTrip(content);
  }

  /**
   * Saving the same lines twice: once the first save has gone through, the
   * second cannot throw and leaves the selected hymn as the first left it.
   */
  lemma SaveTwice(s: Store, verseIdx: int, content: seq<string>)
    requires SelectedHymn(s).Some? && Save(s, verseIdx, content).Some?
    ensures var once := Save(s, verseIdx, content).value;
            && Save(once, verseIdx, content).Some?
            && Save(once, verseIdx, content).value.hymns[s.selectedHymnIdx] == once.hymns[s.selectedHymnIdx]
  {
    var sel := SelectedHymn(s).value;
    var html := if 0 <= verseIdx < |sel.verses| then SavedMarkup(sel.verses[verseIdx], content) else "";
    assert Save(s, verseIdx, content) == SaveVerse(s, verseIdx, html);
    var once := SaveVerse(s, verseIdx, html).value;
    SaveVerseTwice(s, verseIdx, html);
    SaveVerseKeepsFit(s, verseIdx, html);
    var h1 := once.hymns[s.selectedHymnIdx];
    assert SelectedHymn(once) == Some(h1);
    assert 0 <= verseIdx < |sel.verses| ==> VerseLabel(h1.verses[verseIdx]) == VerseLabel(sel.verses[verseIdx]);
    assert Save(once, verseIdx, content) == SaveVerse(once, verseIdx, html);
  }
}
