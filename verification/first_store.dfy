/**
 * The earliest form page (src/components/HymnForm/HymnForm.tsx): "mark
 * complete" only ever sets the status, and saving writes the verse's
 * position as label and wraps character 0 of every line.
 */
module FirstStore {
  import opened Markup
  import opened Wrappers
  import opened Hymns
  import BoldFirstCodec

  /**
   * `handleMarkComplete`: every hymn of the selected hymn's title becomes
   * completed, whatever its status was; without a selection nothing changes.
   */
  function MarkComplete(s: Store): (r: Store)
    ensures SelectedHymn(s).None? ==> r == s
    ensures r.selectedHymnIdx == s.selectedHymnIdx && |r.hymns| == |s.hymns|
    ensures forall k :: 0 <= k < |s.hymns| ==>
              && r.hymns[k].(status := s.hymns[k].status) == s.hymns[k]
              && (SelectedHymn(s).Some? && s.hymns[k].title == SelectedHymn(s).value.title ==>
                    r.hymns[k].status == Completed)
              && (SelectedHymn(s).None? || s.hymns[k].title != SelectedHymn(s).value.title ==>
                    r.hymns[k] == s.hymns[k])
  {
    match SelectedHymn(s)
    case None => s
    case Some(sel) =>
      var hymns := seq(|s.hymns|, k requires 0 <= k < |s.hymns| =>
        if s.hymns[k].title != sel.title then s.hymns[k] else s.hymns[k].(status := Completed));
      s.(hymns := hymns)
  }

  /** Unlike the later toggle, marking twice is marking once. */
  lemma MarkCompleteIdempotent(s: Store)
    ensures MarkComplete(MarkComplete(s)) == MarkComplete(s)
  {
    var once := MarkComplete(s);
    if SelectedHymn(s).Some? {
      assert SelectedHymn(once).Some? && SelectedHymn(once).value.title == SelectedHymn(s).value.title;
      assert MarkComplete(once).hymns == once.hymns;
    }
  }

  /** `<b>${String(currIdx + 1)}</b><br>` followed by the wrap-first encoding. */
  function Save(s: Store, verseIdx: int, content: seq<string>): (r: Option<Store>)
    ensures SelectedHymn(s).None? ==> r == Some(s)
    ensures SiblingsFit(s) ==> r.Some?
    ensures r.None? ==> SelectedHymn(s).Some? && !SiblingsFit(s)
    ensures r.Some? ==> r.value.selectedHymnIdx == s.selectedHymnIdx && |r.value.hymns| == |s.hymns|
    ensures r.Some? && SelectedHymn(s).Some? ==>
              var sel := SelectedHymn(s).value;
              && |r.value.hymns[s.selectedHymnIdx].verses| == |sel.verses|
              && (forall i :: 0 <= i < |sel.verses| && i != verseIdx ==>
                    r.value.hymns[s.selectedHymnIdx].verses[i] == sel.verses[i])
              && (forall k :: 0 <= k < |s.hymns| && s.hymns[k].title != sel.title ==> r.value.hymns[k] == s.hymns[k])
    ensures r.Some? && SelectedHymn(s).Some? && 0 <= verseIdx < |SelectedHymn(s).value.verses| ==>
              var v := SelectedHymn(s).value.verses[verseIdx];
              var v' := r.value.hymns[s.selectedHymnIdx].verses[verseIdx];
              && v'.(updatedHtml := v.updatedHtml) == v
              && Decode(v'.updatedHtml)[0] == Decimal(verseIdx + 1)
              && SavedBody(v') == Decode(BoldFirstCodec.Join(content))
  {
    match SelectedHymn(s)
    case None => Some(s)
    case Some(sel) =>
      var html := if 0 <= verseIdx < |sel.verses| then
        (DecimalIsPlain(verseIdx + 1); Labelled(Decimal(verseIdx + 1), BoldFirstCodec.Join(content)))
        else "";
      SaveVerse(s, verseIdx, html)
  }

  /** Reopening a saved verse shows exactly the lines that were saved. */
  lemma SaveThenReopen(s: Store, verseIdx: int, content: seq<string>)
    requires SelectedHymn(s).Some? && Save(s, verseIdx, content).Some?
    requires 0 <= verseIdx < |SelectedHymn(s).value.verses|
    requires |content| > 0 && forall k :: 0 <= k < |content| ==> IsPlainLine(content[k])
    ensures SavedBody(Save(s, verseIdx, content).value.hymns[s.selectedHymnIdx].verses[verseIdx]) == content
  {
    BoldFirstCodec.RoundTrip(content);
  }
}
